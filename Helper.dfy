/** The string helpers of Downloader/Public.cs (static class Helper). */
module Helper {

  /** The part of `s` before the first occurrence of `c` (all of `s` when
      `c` does not occur): what `s.Split(c)[0]` yields. */
  function BeforeFirst(s: string, c: char): (r: string)
    ensures r <= s && c !in r
    ensures |r| < |s| ==> s[|r|] == c
  {
    if s == [] then []
    else if s[0] == c then []
    else [s[0]] + BeforeFirst(s[1..], c)
  }

  predicate EndsWithSlash(s: string)
  {
    |s| > 0 && s[|s| - 1] == '/'
  }

  /** A URL in canonical form: no fragment, no query string, a trailing slash. */
  predicate IsNormalized(url: string)
  {
    '#' !in url && '?' !in url && EndsWithSlash(url)
  }

  /** Helper.NormalizeUrl: cut at the first '#', then at the first '?', and
      append '/' unless the rest already ends with one. Total on strings.
      (`EndsWith("/")` is read as an ordinal comparison.) */
  function NormalizeUrl(url: string): (r: string)
    ensures IsNormalized(r)
  {
    var noFragment := BeforeFirst(url, '#');
    var noQuery := BeforeFirst(noFragment, '?');
    if EndsWithSlash(noQuery) then noQuery else noQuery + "/"
  }

  /** A string that is already canonical comes back unchanged. */
  lemma NormalizeUrlFixesNormalized(url: string)
    requires IsNormalized(url)
    ensures NormalizeUrl(url) == url
  {
    BeforeFirstAbsent(url, '#');
    BeforeFirstAbsent(url, '?');
  }

  /** Normalising twice is normalising once. */
  lemma NormalizeUrlIdempotent(url: string)
    ensures NormalizeUrl(NormalizeUrl(url)) == NormalizeUrl(url)
  {
    NormalizeUrlFixesNormalized(NormalizeUrl(url));
  }

  /** `url[..k]` holds neither '#' nor '?' and cannot be extended without
      taking one of them. */
  predicate IsCleanPrefixLength(url: string, k: int)
  {
    0 <= k <= |url| && '#' !in url[..k] && '?' !in url[..k] &&
    (k < |url| ==> url[k] == '#' || url[k] == '?')
  }

  /** What NormalizeUrl keeps of its input: the longest prefix that holds
      neither '#' nor '?', followed by at most one added '/'. */
  lemma NormalizeUrlKeepsCleanPrefix(url: string)
    ensures exists k :: IsCleanPrefixLength(url, k) &&
              NormalizeUrl(url) == (if EndsWithSlash(url[..k]) then url[..k] else url[..k] + "/")
  {
    var noFragment := BeforeFirst(url, '#');
    var noQuery := BeforeFirst(noFragment, '?');
    var k := |noQuery|;
    assert noQuery == url[..k];
    if k < |url| {
      if k < |noFragment| {
        assert url[k] == noFragment[k] == '?';
      } else {
        assert url[k] == '#';
      }
    }
  }

  lemma {:induction false} BeforeFirstAbsent(s: string, c: char)
    requires c !in s
    ensures BeforeFirst(s, c) == s
  {
    if s != [] {
      assert c !in s[1..];
      BeforeFirstAbsent(s[1..], c);
    }
  }
}
