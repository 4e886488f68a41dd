/** Downloader/LevelDescendingCrawler.cs: the breadth-first crawler. Links
    found on a page at depth d are recorded at level d + 1, and Run handles
    one level at a time.

    Run starts every page of a level through `Select(...).ToArray()`; each
    `_crawlPage` runs synchronously up to its first await (the download).
    The rest of each page runs when its download completes, possibly on
    another thread and while later pages of the level are still being
    started, and `Task.WaitAll` waits for all of them, including after one
    has failed. The code fixes no order among these steps. The model picks
    one schedule it admits: two phases per level, first every start in list
    order, then every continuation in list order. */
module LevelDescending {
  import opened Wrappers
  import opened Helper
  import opened HtmlExtensions
  import opened Crawler
  import EagerDescending

  /** LevelManager.LevelNode: a discovered link and the page it was found on. */
  datatype LevelNode = LevelNode(url: string, prevUrl: string)

  /** The contents of LevelManager.Levels: level -> nodes in insertion order. */
  type Levels = map<nat, seq<LevelNode>>

  /** `list.Any(node => node.Url == url)` */
  function UrlIn(nodes: seq<LevelNode>, url: string): (r: bool)
    ensures r <==> exists i :: 0 <= i < |nodes| && nodes[i].url == url
  {
    if nodes == [] then false
    else nodes[0].url == url || UrlIn(nodes[1..], url)
  }

  /** `Levels.Values.Any(...)`: some node at some level has this URL. */
  predicate ContainsUrl(levels: Levels, url: string)
  {
    exists l :: l in levels && UrlIn(levels[l], url)
  }

  /** LevelManager.Add: append the node to its level, creating the level
      first if it is absent. */
  function AddNode(levels: Levels, node: LevelNode, level: nat): (r: Levels)
    ensures r.Keys == levels.Keys + {level}
    ensures r[level] == (if level in levels then levels[level] else []) + [node]
    ensures forall l :: l in levels && l != level ==> r[l] == levels[l]
  {
    var present := if level in levels then levels else levels[level := []];
    present[level := present[level] + [node]]
  }

  /** After Add, the manager contains exactly what it contained before and
      the added node's URL. */
  lemma ContainsAfterAdd(levels: Levels, node: LevelNode, level: nat, url: string)
    ensures ContainsUrl(AddNode(levels, node, level), url) <==> ContainsUrl(levels, url) || url == node.url
  {
    var r := AddNode(levels, node, level);
    var old_ := if level in levels then levels[level] else [];
    if url == node.url {
      assert r[level][|r[level]| - 1] == node;
      assert UrlIn(r[level], url);
    }
    if ContainsUrl(levels, url) {
      var l :| l in levels && UrlIn(levels[l], url);
      if l == level {
        var i :| 0 <= i < |old_| && old_[i].url == url;
        assert r[level][i] == old_[i];
      }
      assert UrlIn(r[l], url);
    }
    if ContainsUrl(r, url) && url != node.url {
      var l :| l in r && UrlIn(r[l], url);
      if l == level {
        var i :| 0 <= i < |r[level]| && r[level][i].url == url;
        assert i < |old_| && old_[i].url == url;
        assert level in levels && UrlIn(levels[level], url);
      } else {
        assert UrlIn(levels[l], url);
      }
    }
  }

  /** LevelManager.GetLevel: the nodes of a level, in insertion order, or
      InvalidOperationException for a level never added to. */
  function GetLevelOf(levels: Levels, level: nat): (r: Result<seq<LevelNode>, CrawlError>)
    ensures r.Failure? <==> level !in levels
    ensures r.Failure? ==> r.error == LevelNotFound(level)
    ensures r.Success? ==> r.value == levels[level]
  {
    if level in levels then Success(levels[level]) else Failure(LevelNotFound(level))
  }

  /** The `foreach` loop at the end of `_crawlPage`: each link is added, in
      order, at the given level with the page as its previous URL. */
  function AddLinks(levels: Levels, links: seq<string>, prevUrl: string, level: nat): Levels
    decreases |links|
  {
    if links == [] then levels
    else AddLinks(AddNode(levels, LevelNode(links[0], prevUrl), level), links[1..], prevUrl, level)
  }

  class LevelManager {
    var levels: Levels

    constructor ()
      ensures levels == map[]
    {
      levels := map[];
    }

    method Add(node: LevelNode, level: nat)
      modifies this
      ensures levels == AddNode(old(levels), node, level)
    {
      if level !in levels {
        levels := levels[level := []];
      }
      levels := levels[level := levels[level] + [node]];
    }

    function GetLevel(level: nat): (r: Result<seq<LevelNode>, CrawlError>)
      reads this
      ensures r == GetLevelOf(levels, level)
    {
      if level !in levels then Failure(LevelNotFound(level)) else Success(levels[level])
    }

    function Contains(url: string): (r: bool)
      reads this
      ensures r <==> exists l, i :: l in levels && 0 <= i < |levels[l]| && levels[l][i].url == url
    {
      ContainsUrl(levels, url)
    }
  }

  /** The traversal state of one Run: the level table, CrawledUrls and the
      notifications made so far. */
  datatype State = State(levels: Levels, crawled: set<string>, trace: seq<Event>)

  /** The unseen links of a page, with `LevelManager.Contains` as the filter. */
  function ExtractLinks(web: Web, doc: Document, levels: Levels): (r: seq<string>)
    ensures NoDuplicates(r)
    ensures forall u :: u in r <==> LinkedFrom(doc.anchors, web.isValidUrl, u) && !ContainsUrl(levels, u)
  {
    GetUnseenUrls(doc.anchors, web.isValidUrl, u => ContainsUrl(levels, u))
  }

  /** The PageCrawlEndedData of a page whose download succeeded. */
  function EndedEvent(web: Web, url: string, prevUrl: string, depth: nat): (e: Event)
    requires url in web.pages
    ensures e.Ended? && e.url == url && e.doc == web.pages[url]
    ensures e.depth == depth && e.prevUrl == prevUrl && e.title == web.htmlDecode(GetPageTitle(web.pages[url]))
  {
    EagerDescending.EndedEvent(web, url, prevUrl, depth)
  }

  /** `_crawlPage` up to the download: give up beyond TargetDepth or for a
      crawled URL, otherwise notify the start. `started` tells whether the
      page goes on to the download. */
  function StartVisit(c: Config, s: State, url: string, prevUrl: string, depth: nat): (State, bool)
  {
    if depth > c.targetDepth || url in s.crawled then (s, false)
    else (s.(trace := s.trace + [Started(depth, url, prevUrl)]), true)
  }

  /** `_crawlPage` from the download on: a failed download is dropped or
      rethrown; a successful one marks the URL crawled, extracts the links
      against the level table, notifies the end, and records the links at
      level depth + 1. */
  function FinishVisit(c: Config, web: Web, s: State, url: string, prevUrl: string, depth: nat): (State, Status)
  {
    if url !in web.pages then
      (s, if c.ignoreHttpErrors then Completed else Aborted(WebError(url)))
    else
      var links := ExtractLinks(web, web.pages[url], s.levels);
      (State(AddLinks(s.levels, links, url, depth + 1),
             s.crawled + {url},
             s.trace + [EndedEvent(web, url, prevUrl, depth)]),
       Completed)
  }

  /** A whole `_crawlPage` that is awaited at once (the base URL). */
  function Visit(c: Config, web: Web, s: State, url: string, prevUrl: string, depth: nat): (State, Status)
  {
    var (started, go) := StartVisit(c, s, url, prevUrl, depth);
    if go then FinishVisit(c, web, started, url, prevUrl, depth) else (started, Completed)
  }

  /** The first phase of a level: start every node in list order and keep,
      after `go`, those that went on to the download. */
  function StartLevel(c: Config, s: State, nodes: seq<LevelNode>, level: nat, go: seq<LevelNode>): (State, seq<LevelNode>)
    decreases |nodes|
  {
    if nodes == [] then (s, go)
    else
      var (started, ok) := StartVisit(c, s, nodes[0].url, nodes[0].prevUrl, level);
      StartLevel(c, started, nodes[1..], level, if ok then go + [nodes[0]] else go)
  }

  /** The second phase of a level: finish every started node in list order.
      A failure does not stop the others; the first one is kept. */
  function FinishLevel(c: Config, web: Web, s: State, nodes: seq<LevelNode>, level: nat, status: Status): (State, Status)
    decreases |nodes|
  {
    if nodes == [] then (s, status)
    else
      var (finished, st) := FinishVisit(c, web, s, nodes[0].url, nodes[0].prevUrl, level);
      FinishLevel(c, web, finished, nodes[1..], level, if status.Aborted? then status else st)
  }

  /** The `for` loop of Run from `level` on, up to TargetDepth. */
  function RunLevels(c: Config, web: Web, s: State, level: nat): (State, Status)
    decreases c.targetDepth - level + 1
  {
    if level > c.targetDepth then (s, Completed)
    else match GetLevelOf(s.levels, level)
      case Failure(e) => (s, Aborted(e))
      case Success(nodes) =>
        var (started, go) := StartLevel(c, s, nodes, level, []);
        var (finished, status) := FinishLevel(c, web, started, go, level, Completed);
        if status.Aborted? then (finished, status)
        else RunLevels(c, web, finished, level + 1)
  }

  /** Run: a fresh level table and CrawledUrls, the base URL at depth 0
      with "Root" as previous URL, then levels 1 to TargetDepth. */
  function LevelRun(c: Config, web: Web): (State, Status)
    requires c.baseUrl.Some?
  {
    var (s, status) := Visit(c, web, State(map[], {}, []), c.baseUrl.value, "Root", 0);
    if status.Aborted? then (s, status) else RunLevels(c, web, s, 1)
  }

  class LevelCrawler {
    const config: Config
    /** `_levelManager` and `_crawledUrls`; null until Run. */
    var levelManager: LevelManager?
    var crawledUrls: Option<set<string>>
    /** The notifications made during the latest Run. */
    var trace: seq<Event>

    function CurrentState(): State
      reads this, levelManager
      requires levelManager != null && crawledUrls.Some?
    {
      State(levelManager.levels, crawledUrls.value, trace)
    }

    /** The public constructor: default settings, no traversal state. */
    constructor ()
      ensures config == Default() && levelManager == null && crawledUrls.None? && trace == []
    {
      config := Default();
      levelManager := null;
      crawledUrls := None;
      trace := [];
    }

    /** An instance with the given settings and no traversal state. */
    constructor Configured(c: Config)
      ensures config == c && levelManager == null && crawledUrls.None? && trace == []
    {
      config := c;
      levelManager := null;
      crawledUrls := None;
      trace := [];
    }

    method StartPage(url: string, prevUrl: string, depth: nat) returns (started: bool)
      requires levelManager != null && crawledUrls.Some?
      modifies this
      ensures levelManager == old(levelManager) && crawledUrls.Some?
      ensures (CurrentState(), started) == StartVisit(config, old(CurrentState()), url, prevUrl, depth)
    {
      if depth > config.targetDepth || url in crawledUrls.value {
        return false;
      }
      trace := trace + [Started(depth, url, prevUrl)];
      return true;
    }

    method FinishPage(web: Web, url: string, prevUrl: string, depth: nat) returns (status: Status)
      requires levelManager != null && crawledUrls.Some?
      modifies this, levelManager
      ensures levelManager == old(levelManager) && crawledUrls.Some?
      ensures (CurrentState(), status) == FinishVisit(config, web, old(CurrentState()), url, prevUrl, depth)
    {
      if url !in web.pages {
        if !config.ignoreHttpErrors {
          return Aborted(WebError(url));
        }
        return Completed;
      }
      var doc := web.pages[url];
      crawledUrls := Some(crawledUrls.value + {url});
      var links := ExtractLinks(web, doc, levelManager.levels);
      var title := web.htmlDecode(GetPageTitle(doc));
      trace := trace + [Ended(depth, url, prevUrl, title, doc)];
      ghost var before := levelManager.levels;
      var i := 0;
      while i < |links|
        invariant 0 <= i <= |links|
        invariant levelManager == old(levelManager) && crawledUrls.Some?
        invariant crawledUrls.value == old(crawledUrls.value) + {url}
        invariant trace == old(trace) + [EndedEvent(web, url, prevUrl, depth)]
        invariant AddLinks(levelManager.levels, links[i..], url, depth + 1) == AddLinks(before, links, url, depth + 1)
      {
        assert links[i..][1..] == links[i + 1..];
        levelManager.Add(LevelNode(links[i], url), depth + 1);
        i := i + 1;
      }
      return Completed;
    }

    method Run(web: Web) returns (status: Status)
      requires config.baseUrl.Some?
      modifies this
      ensures levelManager != null && crawledUrls.Some?
      ensures (CurrentState(), status) == LevelRun(config, web)
    {
      levelManager := new LevelManager();
      crawledUrls := Some({});
      trace := [];
      var started := StartPage(config.baseUrl.value, "Root", 0);
      status := Completed;
      if started {
        status := FinishPage(web, config.baseUrl.value, "Root", 0);
      }
      if status.Aborted? {
        return;
      }
      ghost var afterBase := CurrentState();
      var level: nat := 1;
      while level <= config.targetDepth
        invariant levelManager != null && fresh(levelManager) && crawledUrls.Some?
        invariant RunLevels(config, web, CurrentState(), level) == RunLevels(config, web, afterBase, 1)
        decreases config.targetDepth - level
      {
        var nodes := levelManager.GetLevel(level);
        if nodes.Failure? {
          return Aborted(nodes.error);
        }
        status := RunLevel(web, nodes.value, level);
        if status.Aborted? {
          return;
        }
        level := level + 1;
      }
      return Completed;
    }

    /** One iteration of Run's loop: start every node of the level, then
        wait for all of them (`Task.WaitAll`). */
    method RunLevel(web: Web, nodes: seq<LevelNode>, level: nat) returns (status: Status)
      requires levelManager != null && crawledUrls.Some?
      modifies this, levelManager
      ensures levelManager == old(levelManager) && crawledUrls.Some?
      ensures var (started, go) := StartLevel(config, old(CurrentState()), nodes, level, []);
        (CurrentState(), status) == FinishLevel(config, web, started, go, level, Completed)
    {
      var go: seq<LevelNode> := [];
      var i := 0;
      while i < |nodes|
        invariant 0 <= i <= |nodes|
        invariant levelManager == old(levelManager) && crawledUrls.Some?
        invariant StartLevel(config, CurrentState(), nodes[i..], level, go) == StartLevel(config, old(CurrentState()), nodes, level, [])
      {
        assert nodes[i..][1..] == nodes[i + 1..];
        var started := StartPage(nodes[i].url, nodes[i].prevUrl, level);
        if started {
          go := go + [nodes[i]];
        }
        i := i + 1;
      }
      ghost var afterStart := CurrentState();
      status := Completed;
      i := 0;
      while i < |go|
        invariant 0 <= i <= |go|
        invariant levelManager == old(levelManager) && crawledUrls.Some?
        invariant FinishLevel(config, web, CurrentState(), go[i..], level, status) == FinishLevel(config, web, afterStart, go, level, Completed)
      {
        assert go[i..][1..] == go[i + 1..];
        var st := FinishPage(web, go[i].url, go[i].prevUrl, level);
        if status.Completed? {
          status := st;
        }
        i := i + 1;
      }
    }

    function HaveSeenUrl(url: string): (r: Result<bool, CrawlError>)
      reads this, levelManager
      ensures r.Failure? <==> levelManager == null
      ensures r.Success? ==> (r.value <==> ContainsUrl(levelManager.levels, url))
    {
      if levelManager == null then Failure(NullReference) else Success(levelManager.Contains(url))
    }

    function HaveCrawledUrl(url: string): (r: Result<bool, CrawlError>)
      reads this
      ensures r.Failure? <==> crawledUrls.None?
      ensures r.Success? ==> (r.value <==> url in crawledUrls.value)
    {
      match crawledUrls
      case None => Failure(NullReference)
      case Some(crawled) => Success(url in crawled)
    }

    /** WithUrl ignores every setting of the receiver. */
    method WithUrl(url: string) returns (r: LevelCrawler)
      ensures fresh(r) && r.config == Crawler.WithUrl(url)
      ensures r.levelManager == null && r.crawledUrls.None? && r.trace == []
    {
      r := new LevelCrawler.Configured(Crawler.WithUrl(url));
    }

    method WithTargetDepth(targetDepth: int) returns (r: Result<LevelCrawler, CrawlError>)
      ensures r.Failure? <==> config.baseUrl.None?
      ensures r.Success? ==> fresh(r.value) && Success(r.value.config) == Crawler.WithTargetDepth(config, targetDepth)
      ensures r.Success? ==> r.value.levelManager == null && r.value.crawledUrls.None?
    {
      var copy := Crawler.WithTargetDepth(config, targetDepth);
      if copy.Failure? {
        r := Failure(copy.error);
      } else {
        var crawler := new LevelCrawler.Configured(copy.value);
        r := Success(crawler);
      }
    }

    method SetIgnoreHttpErrors(ignore: bool) returns (r: Result<LevelCrawler, CrawlError>)
      ensures r.Failure? <==> config.baseUrl.None?
      ensures r.Success? ==> fresh(r.value) && Success(r.value.config) == Crawler.SetIgnoreHttpErrors(config, ignore)
      ensures r.Success? ==> r.value.levelManager == null && r.value.crawledUrls.None?
    {
      var copy := Crawler.SetIgnoreHttpErrors(config, ignore);
      if copy.Failure? {
        r := Failure(copy.error);
      } else {
        var crawler := new LevelCrawler.Configured(copy.value);
        r := Success(crawler);
      }
    }

    method OnPageCrawlStarted(h: Handler) returns (r: Result<LevelCrawler, CrawlError>)
      ensures r.Failure? <==> config.baseUrl.None?
      ensures r.Success? ==> fresh(r.value) && Success(r.value.config) == Crawler.OnPageCrawlStarted(config, h)
      ensures r.Success? ==> r.value.levelManager == null && r.value.crawledUrls.None?
    {
      var copy := Crawler.OnPageCrawlStarted(config, h);
      if copy.Failure? {
        r := Failure(copy.error);
      } else {
        var crawler := new LevelCrawler.Configured(copy.value);
        r := Success(crawler);
      }
    }

    method OnPageCrawlEnded(h: Handler) returns (r: Result<LevelCrawler, CrawlError>)
      ensures r.Failure? <==> config.baseUrl.None?
      ensures r.Success? ==> fresh(r.value) && Success(r.value.config) == Crawler.OnPageCrawlEnded(config, h)
      ensures r.Success? ==> r.value.levelManager == null && r.value.crawledUrls.None?
    {
      var copy := Crawler.OnPageCrawlEnded(config, h);
      if copy.Failure? {
        r := Failure(copy.error);
      } else {
        var crawler := new LevelCrawler.Configured(copy.value);
        r := Success(crawler);
      }
    }

    /** Clone builds an EAGER crawler from the settings of `prev`. */
    method Clone(prev: Config) returns (r: Result<EagerDescending.EagerCrawler, CrawlError>)
      ensures r.Failure? <==> prev.baseUrl.None?
      ensures r.Success? ==> fresh(r.value) && Success(r.value.config) == CopyOf(prev)
      ensures r.Success? ==> r.value.seenUrls == Some([]) && r.value.crawledUrls.None?
    {
      var copy := CopyOf(prev);
      if copy.Failure? {
        r := Failure(copy.error);
      } else {
        var crawler := new EagerDescending.EagerCrawler.Configured(copy.value, Some([]));
        r := Success(crawler);
      }
    }
  }
}
