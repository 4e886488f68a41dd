/** Downloader/EagerDescendingCrawler.cs: the depth-first crawler. Every
    discovered link is followed at once, and its whole subtree is finished
    before the next sibling is looked at. */
module EagerDescending {
  import opened Wrappers
  import opened Helper
  import opened HtmlExtensions
  import opened Crawler

  /** The traversal state of one Run: SeenUrls, CrawledUrls and the
      notifications made so far. */
  datatype State = State(seen: seq<string>, crawled: seq<string>, trace: seq<Event>)

  /** The unseen links of a page, with `SeenUrls.Contains` as the filter. */
  function ExtractLinks(web: Web, doc: Document, seen: seq<string>): (r: seq<string>)
    ensures NoDuplicates(r)
    ensures forall u :: u in r <==> LinkedFrom(doc.anchors, web.isValidUrl, u) && u !in seen
  {
    GetUnseenUrls(doc.anchors, web.isValidUrl, u => u in seen)
  }

  /** The PageCrawlEndedData of a page whose download succeeded. */
  function EndedEvent(web: Web, url: string, prevUrl: string, depth: nat): (e: Event)
    requires url in web.pages
    ensures e.Ended? && e.url == url && e.doc == web.pages[url]
    ensures e.depth == depth && e.prevUrl == prevUrl && e.title == web.htmlDecode(GetPageTitle(web.pages[url]))
  {
    var doc := web.pages[url];
    Ended(depth, url, prevUrl, web.htmlDecode(GetPageTitle(doc)), doc)
  }

  /** `_crawlPage(url, prevUrl, depth)`: what one visit does to the state,
      and whether an exception escapes it. After a successful download the
      ended notification comes first, then the URL is marked crawled, then
      the links (computed against SeenUrls before any of them is followed)
      are visited. */
  function Visit(c: Config, web: Web, s: State, url: string, prevUrl: string, depth: nat): (State, Status)
    decreases c.targetDepth - depth + 1, 1, 0
  {
    if depth > c.targetDepth || url in s.crawled then (s, Completed)
    else if url !in web.pages then
      (s.(trace := s.trace + [Started(depth, url, prevUrl)]),
       if c.ignoreHttpErrors then Completed else Aborted(WebError(url)))
    else
      var crawled := s.(trace := s.trace + [Started(depth, url, prevUrl), EndedEvent(web, url, prevUrl, depth)],
                        crawled := s.crawled + [url]);
      VisitLinks(c, web, crawled, ExtractLinks(web, web.pages[url], s.seen), url, depth)
  }

  /** The `foreach (var link in links)` loop of `_crawlPage`: mark the link
      seen, visit it one level deeper, and stop at the first exception. */
  function VisitLinks(c: Config, web: Web, s: State, links: seq<string>, url: string, depth: nat): (State, Status)
    requires depth <= c.targetDepth
    decreases c.targetDepth - depth + 1, 0, |links|
  {
    if links == [] then (s, Completed)
    else
      var marked := s.(seen := s.seen + [links[0]]);
      var (after, status) := Visit(c, web, marked, links[0], url, depth + 1);
      if status.Aborted? then (after, status)
      else VisitLinks(c, web, after, links[1..], url, depth)
  }

  /** `Run`: fresh SeenUrls and CrawledUrls, then the base URL at depth 0
      with "Root" as its previous URL. */
  function EagerRun(c: Config, web: Web): (State, Status)
    requires c.baseUrl.Some?
  {
    Visit(c, web, State([], [], []), c.baseUrl.value, "Root", 0)
  }

  class EagerCrawler {
    const config: Config
    /** SeenUrls and CrawledUrls; None while the property is still null. */
    var seenUrls: Option<seq<string>>
    var crawledUrls: Option<seq<string>>
    /** The notifications made during the latest Run. */
    var trace: seq<Event>

    function CurrentState(): State
      reads this
      requires seenUrls.Some? && crawledUrls.Some?
    {
      State(seenUrls.value, crawledUrls.value, trace)
    }

    /** The public constructor: default settings, an empty SeenUrls and no
        CrawledUrls yet. */
    constructor ()
      ensures config == Default() && seenUrls == Some([]) && crawledUrls.None? && trace == []
    {
      config := Default();
      seenUrls := Some([]);
      crawledUrls := None;
      trace := [];
    }

    /** An instance with the given settings; the private copy constructor
        leaves SeenUrls null, the public one (used by WithUrl and Clone)
        makes it empty. */
    constructor Configured(c: Config, seen: Option<seq<string>>)
      ensures config == c && seenUrls == seen && crawledUrls.None? && trace == []
    {
      config := c;
      seenUrls := seen;
      crawledUrls := None;
      trace := [];
    }

    method CrawlPage(web: Web, url: string, prevUrl: string, depth: nat) returns (status: Status)
      requires seenUrls.Some? && crawledUrls.Some?
      modifies this
      ensures seenUrls.Some? && crawledUrls.Some?
      ensures (CurrentState(), status) == Visit(config, web, old(CurrentState()), url, prevUrl, depth)
      decreases config.targetDepth - depth + 1
    {
      if depth > config.targetDepth || url in crawledUrls.value {
        return Completed;
      }
      trace := trace + [Started(depth, url, prevUrl)];
      if url !in web.pages {
        if !config.ignoreHttpErrors {
          return Aborted(WebError(url));
        }
        return Completed;
      }
      var doc := web.pages[url];
      var links := ExtractLinks(web, doc, seenUrls.value);
      var title := web.htmlDecode(GetPageTitle(doc));
      trace := trace + [Ended(depth, url, prevUrl, title, doc)];
      crawledUrls := Some(crawledUrls.value + [url]);
      assert trace == old(trace) + [Started(depth, url, prevUrl), EndedEvent(web, url, prevUrl, depth)];
      ghost var afterPage := CurrentState();
      var i := 0;
      while i < |links|
        invariant 0 <= i <= |links|
        invariant seenUrls.Some? && crawledUrls.Some?
        invariant VisitLinks(config, web, CurrentState(), links[i..], url, depth)
               == VisitLinks(config, web, afterPage, links, url, depth)
      {
        assert links[i..][1..] == links[i + 1..];
        seenUrls := Some(seenUrls.value + [links[i]]);
        status := CrawlPage(web, links[i], url, depth + 1);
        if status.Aborted? {
          return;
        }
        i := i + 1;
      }
      return Completed;
    }

    method Run(web: Web) returns (status: Status)
      requires config.baseUrl.Some?
      modifies this
      ensures seenUrls.Some? && crawledUrls.Some?
      ensures (CurrentState(), status) == EagerRun(config, web)
    {
      seenUrls := Some([]);
      crawledUrls := Some([]);
      trace := [];
      status := CrawlPage(web, config.baseUrl.value, "Root", 0);
    }

    function HaveSeenUrl(url: string): (r: Result<bool, CrawlError>)
      reads this
      ensures r.Failure? <==> seenUrls.None?
      ensures r.Success? ==> (r.value <==> url in seenUrls.value)
    {
      match seenUrls
      case None => Failure(NullReference)
      case Some(seen) => Success(url in seen)
    }

    function HaveCrawledUrl(url: string): (r: Result<bool, CrawlError>)
      reads this
      ensures r.Failure? <==> crawledUrls.None?
      ensures r.Success? ==> (r.value <==> url in crawledUrls.value)
    {
      match crawledUrls
      case None => Failure(NullReference)
      case Some(crawled) => Success(url in crawled)
    }

    /** WithUrl ignores every setting of the receiver. */
    method WithUrl(url: string) returns (r: EagerCrawler)
      ensures fresh(r) && r.config == Crawler.WithUrl(url)
      ensures r.seenUrls == Some([]) && r.crawledUrls.None? && r.trace == []
    {
      r := new EagerCrawler.Configured(Crawler.WithUrl(url), Some([]));
    }

    method WithTargetDepth(targetDepth: int) returns (r: Result<EagerCrawler, CrawlError>)
      ensures r.Failure? <==> config.baseUrl.None?
      ensures r.Success? ==> fresh(r.value) && Success(r.value.config) == Crawler.WithTargetDepth(config, targetDepth)
      ensures r.Success? ==> r.value.seenUrls.None? && r.value.crawledUrls.None?
    {
      var copy := Crawler.WithTargetDepth(config, targetDepth);
      if copy.Failure? {
        r := Failure(copy.error);
      } else {
        var crawler := new EagerCrawler.Configured(copy.value, None);
        r := Success(crawler);
      }
    }

    method SetIgnoreHttpErrors(ignore: bool) returns (r: Result<EagerCrawler, CrawlError>)
      ensures r.Failure? <==> config.baseUrl.None?
      ensures r.Success? ==> fresh(r.value) && Success(r.value.config) == Crawler.SetIgnoreHttpErrors(config, ignore)
      ensures r.Success? ==> r.value.seenUrls.None? && r.value.crawledUrls.None?
    {
      var copy := Crawler.SetIgnoreHttpErrors(config, ignore);
      if copy.Failure? {
        r := Failure(copy.error);
      } else {
        var crawler := new EagerCrawler.Configured(copy.value, None);
        r := Success(crawler);
      }
    }

    method OnPageCrawlStarted(h: Handler) returns (r: Result<EagerCrawler, CrawlError>)
      ensures r.Failure? <==> config.baseUrl.None?
      ensures r.Success? ==> fresh(r.value) && Success(r.value.config) == Crawler.OnPageCrawlStarted(config, h)
      ensures r.Success? ==> r.value.seenUrls.None? && r.value.crawledUrls.None?
    {
      var copy := Crawler.OnPageCrawlStarted(config, h);
      if copy.Failure? {
        r := Failure(copy.error);
      } else {
        var crawler := new EagerCrawler.Configured(copy.value, None);
        r := Success(crawler);
      }
    }

    method OnPageCrawlEnded(h: Handler) returns (r: Result<EagerCrawler, CrawlError>)
      ensures r.Failure? <==> config.baseUrl.None?
      ensures r.Success? ==> fresh(r.value) && Success(r.value.config) == Crawler.OnPageCrawlEnded(config, h)
      ensures r.Success? ==> r.value.seenUrls.None? && r.value.crawledUrls.None?
    {
      var copy := Crawler.OnPageCrawlEnded(config, h);
      if copy.Failure? {
        r := Failure(copy.error);
      } else {
        var crawler := new EagerCrawler.Configured(copy.value, None);
        r := Success(crawler);
      }
    }

    /** Clone copies the settings of any crawler into a new eager crawler. */
    method Clone(prev: Config) returns (r: Result<EagerCrawler, CrawlError>)
      ensures r.Failure? <==> prev.baseUrl.None?
      ensures r.Success? ==> fresh(r.value) && Success(r.value.config) == CopyOf(prev)
      ensures r.Success? ==> r.value.seenUrls == Some([]) && r.value.crawledUrls.None?
    {
      var copy := CopyOf(prev);
      if copy.Failure? {
        r := Failure(copy.error);
      } else {
        var crawler := new EagerCrawler.Configured(copy.value, Some([]));
        r := Success(crawler);
      }
    }
  }
}
