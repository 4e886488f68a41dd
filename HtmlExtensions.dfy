/** The link and title extraction of Downloader/Public.cs (static class
    HtmlExtensions). A parsed page is reduced to what these read: the href
    attribute of every `<a>` element in document order, and the inner text
    of the first `<title>` element. */
module HtmlExtensions {
  import opened Wrappers
  import opened Helper

  /** A parsed HTML page: one entry per anchor (None when it has no href)
      and the text of the first title element, if there is one. */
  datatype Document = Document(anchors: seq<Option<string>>, title: Option<string>)

  /** `u` is the normalised form of a valid href of one of the anchors. */
  ghost predicate LinkedFrom(anchors: seq<Option<string>>, isValidUrl: string -> bool, u: string)
  {
    exists i :: 0 <= i < |anchors| && anchors[i].Some? &&
      isValidUrl(anchors[i].value) && NormalizeUrl(anchors[i].value) == u
  }

  /** The Where/Select/Where/Select/Where stages of GetUnseenUrls, before
      Distinct: anchors with an href that is a valid URL, normalised, and
      not yet seen, in document order. */
  function Candidates(anchors: seq<Option<string>>, isValidUrl: string -> bool,
                      haveSeenUrl: string -> bool): (r: seq<string>)
    ensures forall u :: u in r ==> IsNormalized(u) && !haveSeenUrl(u)
    ensures forall u :: u in r <==> LinkedFrom(anchors, isValidUrl, u) && !haveSeenUrl(u)
  {
    if anchors == [] then []
    else
      var rest := Candidates(anchors[1..], isValidUrl, haveSeenUrl);
      assert forall u :: LinkedFrom(anchors[1..], isValidUrl, u) ==> LinkedFrom(anchors, isValidUrl, u) by {
        forall u | LinkedFrom(anchors[1..], isValidUrl, u)
          ensures LinkedFrom(anchors, isValidUrl, u)
        {
          var i :| 0 <= i < |anchors[1..]| && anchors[1..][i].Some? &&
            isValidUrl(anchors[1..][i].value) && NormalizeUrl(anchors[1..][i].value) == u;
          assert anchors[i + 1] == anchors[1..][i];
        }
      }
      assert forall u :: LinkedFrom(anchors, isValidUrl, u) ==>
          LinkedFrom(anchors[1..], isValidUrl, u) ||
          (anchors[0].Some? && isValidUrl(anchors[0].value) && NormalizeUrl(anchors[0].value) == u) by {
        forall u | LinkedFrom(anchors, isValidUrl, u)
          ensures LinkedFrom(anchors[1..], isValidUrl, u) ||
            (anchors[0].Some? && isValidUrl(anchors[0].value) && NormalizeUrl(anchors[0].value) == u)
        {
          var i :| 0 <= i < |anchors| && anchors[i].Some? &&
            isValidUrl(anchors[i].value) && NormalizeUrl(anchors[i].value) == u;
          if i > 0 {
            assert anchors[1..][i - 1] == anchors[i];
          }
        }
      }
      match anchors[0]
      case Some(href) =>
        if isValidUrl(href) && !haveSeenUrl(NormalizeUrl(href)) then [NormalizeUrl(href)] + rest
        else rest
      case None => rest
  }

  /** LINQ Distinct: the first occurrence of each element, in order. */
  function Distinct(s: seq<string>): (r: seq<string>)
    ensures NoDuplicates(r)
    ensures forall x :: x in r <==> x in s
  {
    if s == [] then []
    else
      var d := Distinct(s[..|s| - 1]);
      assert forall x :: x in s <==> x in s[..|s| - 1] || x == s[|s| - 1] by {
        assert s == s[..|s| - 1] + [s[|s| - 1]];
      }
      if s[|s| - 1] in d then d else d + [s[|s| - 1]]
  }

  /** Index of the first occurrence of `x` in `s`. */
  function FirstIndex(s: seq<string>, x: string): (k: nat)
    requires x in s
    ensures k < |s| && s[k] == x && x !in s[..k]
  {
    if s[0] == x then 0 else 1 + FirstIndex(s[1..], x)
  }

  /** Distinct keeps elements in the order of their first occurrences. */
  lemma {:induction false} DistinctKeepsFirstOccurrenceOrder(s: seq<string>, i: int, j: int)
    requires 0 <= i < j < |Distinct(s)|
    ensures FirstIndex(s, Distinct(s)[i]) < FirstIndex(s, Distinct(s)[j])
  {
    var init := s[..|s| - 1];
    var d := Distinct(init);
    var r := Distinct(s);
    FirstIndexOfPrefix(s, init, r[i]);
    if j < |d| {
      assert r[i] == d[i] && r[j] == d[j];
      FirstIndexOfPrefix(s, init, r[j]);
      DistinctKeepsFirstOccurrenceOrder(init, i, j);
    } else {
      // r[j] is the last element of s, met for the first time there
      assert r[j] == s[|s| - 1] && r[j] !in init;
      assert r[j] !in s[..|s| - 1];
      assert FirstIndex(s, r[j]) == |s| - 1;
    }
  }

  lemma FirstIndexOfPrefix(s: seq<string>, init: seq<string>, x: string)
    requires init <= s && x in init
    ensures x in s && FirstIndex(s, x) == FirstIndex(init, x)
  {
    var k := FirstIndex(init, x);
    assert s[k] == x;
    assert s[..k] == init[..k];
  }

  /** The anchor at position `k` has a valid href that normalises to `u`. */
  predicate Yields(anchors: seq<Option<string>>, isValidUrl: string -> bool, k: int, u: string)
    requires 0 <= k < |anchors|
  {
    anchors[k].Some? && isValidUrl(anchors[k].value) && NormalizeUrl(anchors[k].value) == u
  }

  lemma LinkedFromTail(anchors: seq<Option<string>>, isValidUrl: string -> bool, u: string)
    requires LinkedFrom(anchors, isValidUrl, u) && !Yields(anchors, isValidUrl, 0, u)
    ensures LinkedFrom(anchors[1..], isValidUrl, u)
  {
    var i :| 0 <= i < |anchors| && anchors[i].Some? &&
      isValidUrl(anchors[i].value) && NormalizeUrl(anchors[i].value) == u;
    assert i > 0 && anchors[1..][i - 1] == anchors[i];
  }

  /** Position in document order of the first anchor that links to `u`. */
  ghost function FirstAnchor(anchors: seq<Option<string>>, isValidUrl: string -> bool, u: string): (k: nat)
    requires LinkedFrom(anchors, isValidUrl, u)
    ensures k < |anchors| && Yields(anchors, isValidUrl, k, u)
    ensures forall m :: 0 <= m < k ==> !Yields(anchors, isValidUrl, m, u)
    decreases |anchors|
  {
    if Yields(anchors, isValidUrl, 0, u) then 0
    else
      LinkedFromTail(anchors, isValidUrl, u);
      var k := FirstAnchor(anchors[1..], isValidUrl, u);
      assert forall m :: 1 <= m <= k ==> Yields(anchors, isValidUrl, m, u) == Yields(anchors[1..], isValidUrl, m - 1, u);
      1 + k
  }

  /** Candidates keeps document order: of two candidates, the one that occurs
      first is first linked from an earlier anchor. */
  lemma {:induction false} CandidatesInDocumentOrder(anchors: seq<Option<string>>, isValidUrl: string -> bool,
                                                     haveSeenUrl: string -> bool, u: string, v: string)
    requires u in Candidates(anchors, isValidUrl, haveSeenUrl) && v in Candidates(anchors, isValidUrl, haveSeenUrl)
    requires FirstIndex(Candidates(anchors, isValidUrl, haveSeenUrl), u) < FirstIndex(Candidates(anchors, isValidUrl, haveSeenUrl), v)
    ensures FirstAnchor(anchors, isValidUrl, u) < FirstAnchor(anchors, isValidUrl, v)
    decreases |anchors|
  {
    var cand := Candidates(anchors, isValidUrl, haveSeenUrl);
    var rest := Candidates(anchors[1..], isValidUrl, haveSeenUrl);
    if anchors[0].Some? && isValidUrl(anchors[0].value) && !haveSeenUrl(NormalizeUrl(anchors[0].value)) {
      var h := NormalizeUrl(anchors[0].value);
      assert cand == [h] + rest;
      if u == h {
        assert FirstAnchor(anchors, isValidUrl, u) == 0;
        assert FirstAnchor(anchors, isValidUrl, v) != 0;
      } else {
        assert v != h;
        assert u in rest && v in rest;
        assert FirstIndex(cand, u) == 1 + FirstIndex(rest, u);
        assert FirstIndex(cand, v) == 1 + FirstIndex(rest, v);
        CandidatesInDocumentOrder(anchors[1..], isValidUrl, haveSeenUrl, u, v);
      }
    } else {
      assert cand == rest;
      assert !Yields(anchors, isValidUrl, 0, u) && !Yields(anchors, isValidUrl, 0, v);
      CandidatesInDocumentOrder(anchors[1..], isValidUrl, haveSeenUrl, u, v);
    }
  }

  /** HtmlExtensions.GetUnseenUrls: the distinct normalised valid hrefs of the
      anchors that `haveSeenUrl` rejects, in order of first appearance. */
  function GetUnseenUrls(anchors: seq<Option<string>>, isValidUrl: string -> bool,
                         haveSeenUrl: string -> bool): (r: seq<string>)
    ensures NoDuplicates(r)
    ensures forall u :: u in r ==> IsNormalized(u) && !haveSeenUrl(u)
    ensures forall u :: u in r <==> LinkedFrom(anchors, isValidUrl, u) && !haveSeenUrl(u)
  {
    Distinct(Candidates(anchors, isValidUrl, haveSeenUrl))
  }

  /** HtmlExtensions.GetPageTitle: the first title's text, or "No title". */
  function GetPageTitle(doc: Document): (r: string)
    ensures doc.title.None? ==> r == "No title"
    ensures doc.title.Some? ==> r == doc.title.value
  {
    match doc.title
    case None => "No title"
    case Some(text) => text
  }

  /** GetUnseenUrls lists its URLs in document order: of two results, the
      earlier one is first linked from an earlier anchor. */
  lemma GetUnseenUrlsInDocumentOrder(anchors: seq<Option<string>>, isValidUrl: string -> bool,
                                     haveSeenUrl: string -> bool, i: int, j: int)
    requires 0 <= i < j < |GetUnseenUrls(anchors, isValidUrl, haveSeenUrl)|
    ensures var r := GetUnseenUrls(anchors, isValidUrl, haveSeenUrl);
      FirstAnchor(anchors, isValidUrl, r[i]) < FirstAnchor(anchors, isValidUrl, r[j])
  {
    var cand := Candidates(anchors, isValidUrl, haveSeenUrl);
    var r := GetUnseenUrls(anchors, isValidUrl, haveSeenUrl);
    DistinctKeepsFirstOccurrenceOrder(cand, i, j);
    CandidatesInDocumentOrder(anchors, isValidUrl, haveSeenUrl, r[i], r[j]);
  }
}
