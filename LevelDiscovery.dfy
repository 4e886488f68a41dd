/** Where the pages of a breadth-first crawl come from: every node of the
    level table, and every page started below the base URL, was linked from
    a page that ended one level up. */
module LevelDiscovery {
  import opened Wrappers
  import opened HtmlExtensions
  import opened Crawler
  import opened LevelDescending

  /** The nodes of a level, or none for a level not in the table. */
  function LevelOf(levels: Levels, level: nat): seq<LevelNode>
  {
    if level in levels then levels[level] else []
  }

  /** One node per link, in order, all found on `prevUrl`. */
  function NodesFrom(links: seq<string>, prevUrl: string): seq<LevelNode>
  {
    seq(|links|, k requires 0 <= k < |links| => LevelNode(links[k], prevUrl))
  }

  /** The `foreach` over the links of a page appends one node per link, in
      link order, at the given level, each with the page as previous URL;
      every other level keeps its nodes, and no other level appears. */
  lemma {:induction false} AddLinksAppends(levels: Levels, links: seq<string>, prevUrl: string, level: nat)
    ensures var r := AddLinks(levels, links, prevUrl, level);
      (forall l :: l != level ==> (l in r <==> l in levels)) &&
      (forall l :: l in levels && l != level ==> r[l] == levels[l]) &&
      (links != [] ==> level in r) &&
      (level in r ==> r[level] == LevelOf(levels, level) + NodesFrom(links, prevUrl))
    decreases |links|
  {
    if links == [] {
      assert NodesFrom(links, prevUrl) == [];
    } else {
      var node := LevelNode(links[0], prevUrl);
      var next := AddNode(levels, node, level);
      AddLinksAppends(next, links[1..], prevUrl, level);
      assert NodesFrom(links, prevUrl) == [node] + NodesFrom(links[1..], prevUrl);
      assert LevelOf(next, level) == LevelOf(levels, level) + [node];
    }
  }

  /** The page `n` was found on ended at `level - 1` before position
      `before`, and one of its anchors has a valid href that normalises to
      the node's URL. */
  ghost predicate FoundOn(web: Web, trace: seq<Event>, before: int, n: LevelNode, level: int)
  {
    n.prevUrl in web.pages &&
    LinkedFrom(web.pages[n.prevUrl].anchors, web.isValidUrl, n.url) &&
    EndedBefore(trace, before, n.prevUrl, level - 1)
  }

  /** Every node of the level table was found on a page that ended. */
  ghost predicate TableFound(web: Web, s: State)
  {
    forall l, i :: l in s.levels && 0 <= i < |s.levels[l]| ==> FoundOn(web, s.trace, |s.trace|, s.levels[l][i], l)
  }

  /** Every page started below the base URL was found on a page that ended
      one level up before it started. */
  ghost predicate StartedFound(web: Web, trace: seq<Event>)
  {
    forall i :: 0 <= i < |trace| && trace[i].Started? && trace[i].depth > 0 ==>
      FoundOn(web, trace, i, LevelNode(trace[i].url, trace[i].prevUrl), trace[i].depth)
  }

  ghost predicate Found(web: Web, s: State)
  {
    TableFound(web, s) && StartedFound(web, s.trace)
  }

  lemma FoundOnExtend(web: Web, trace: seq<Event>, more: seq<Event>, before: int, after: int, n: LevelNode, level: int)
    requires FoundOn(web, trace, before, n, level) && before <= after
    ensures FoundOn(web, trace + more, after, n, level)
  {
    var j :| 0 <= j < before && j < |trace| && trace[j].Ended? && trace[j].url == n.prevUrl && trace[j].depth == level - 1;
    assert (trace + more)[j] == trace[j];
  }

  /** A notification keeps Found when it is an ended one, or a started one
      whose page was found before it. */
  lemma AppendKeepsFound(web: Web, s: State, e: Event)
    requires Found(web, s)
    requires e.Started? && e.depth > 0 ==> FoundOn(web, s.trace, |s.trace|, LevelNode(e.url, e.prevUrl), e.depth)
    ensures Found(web, s.(trace := s.trace + [e]))
  {
    var t := s.trace + [e];
    forall l, i | l in s.levels && 0 <= i < |s.levels[l]|
      ensures FoundOn(web, t, |t|, s.levels[l][i], l)
    {
      FoundOnExtend(web, s.trace, [e], |s.trace|, |t|, s.levels[l][i], l);
    }
    forall i | 0 <= i < |t| && t[i].Started? && t[i].depth > 0
      ensures FoundOn(web, t, i, LevelNode(t[i].url, t[i].prevUrl), t[i].depth)
    {
      if i < |s.trace| {
        assert t[i] == s.trace[i];
        FoundOnExtend(web, s.trace, [e], i, i, LevelNode(t[i].url, t[i].prevUrl), t[i].depth);
      } else {
        FoundOnExtend(web, s.trace, [e], |s.trace|, i, LevelNode(e.url, e.prevUrl), e.depth);
      }
    }
  }

  lemma StartVisitKeepsFound(c: Config, web: Web, s: State, url: string, prevUrl: string, depth: nat)
    requires Found(web, s)
    requires depth > 0 ==> FoundOn(web, s.trace, |s.trace|, LevelNode(url, prevUrl), depth)
    ensures Found(web, StartVisit(c, s, url, prevUrl, depth).0)
  {
    if depth <= c.targetDepth && url !in s.crawled {
      AppendKeepsFound(web, s, Started(depth, url, prevUrl));
    }
  }

  /** The links a page records at the next level were found on it. */
  lemma FinishVisitKeepsFound(c: Config, web: Web, s: State, url: string, prevUrl: string, depth: nat)
    requires Found(web, s)
    ensures Found(web, FinishVisit(c, web, s, url, prevUrl, depth).0)
  {
    if url in web.pages {
      var e := EndedEvent(web, url, prevUrl, depth);
      var ended := s.(trace := s.trace + [e]);
      AppendKeepsFound(web, s, e);
      var links := ExtractLinks(web, web.pages[url], s.levels);
      var r := FinishVisit(c, web, s, url, prevUrl, depth).0;
      assert r.levels == AddLinks(s.levels, links, url, depth + 1) && r.trace == ended.trace;
      AddLinksAppends(s.levels, links, url, depth + 1);
      assert ended.trace[|s.trace|] == e;
      forall l, i | l in r.levels && 0 <= i < |r.levels[l]|
        ensures FoundOn(web, r.trace, |r.trace|, r.levels[l][i], l)
      {
        if l != depth + 1 || i < |LevelOf(s.levels, depth + 1)| {
          assert r.levels[l][i] == s.levels[l][i];
        } else {
          var k := i - |LevelOf(s.levels, depth + 1)|;
          assert r.levels[l][i] == NodesFrom(links, url)[k] == LevelNode(links[k], url);
          assert links[k] in links;
        }
      }
    }
  }

  lemma {:induction false} StartLevelKeepsFound(c: Config, web: Web, s: State, nodes: seq<LevelNode>, level: nat, go: seq<LevelNode>)
    requires Found(web, s)
    requires forall n :: n in nodes ==> FoundOn(web, s.trace, |s.trace|, n, level)
    ensures Found(web, StartLevel(c, s, nodes, level, go).0)
    decreases |nodes|
  {
    if nodes != [] {
      StartVisitKeepsFound(c, web, s, nodes[0].url, nodes[0].prevUrl, level);
      var (started, ok) := StartVisit(c, s, nodes[0].url, nodes[0].prevUrl, level);
      var more := started.trace[|s.trace|..];
      assert started.trace == s.trace + more;
      forall n | n in nodes[1..] ensures FoundOn(web, started.trace, |started.trace|, n, level) {
        FoundOnExtend(web, s.trace, more, |s.trace|, |started.trace|, n, level);
      }
      StartLevelKeepsFound(c, web, started, nodes[1..], level, if ok then go + [nodes[0]] else go);
    }
  }

  lemma {:induction false} FinishLevelKeepsFound(c: Config, web: Web, s: State, nodes: seq<LevelNode>, level: nat, status: Status)
    requires Found(web, s)
    ensures Found(web, FinishLevel(c, web, s, nodes, level, status).0)
    decreases |nodes|
  {
    if nodes != [] {
      FinishVisitKeepsFound(c, web, s, nodes[0].url, nodes[0].prevUrl, level);
      var (finished, st) := FinishVisit(c, web, s, nodes[0].url, nodes[0].prevUrl, level);
      FinishLevelKeepsFound(c, web, finished, nodes[1..], level, if status.Aborted? then status else st);
    }
  }

  lemma {:induction false} RunLevelsKeepsFound(c: Config, web: Web, s: State, level: nat)
    requires Found(web, s)
    ensures Found(web, RunLevels(c, web, s, level).0)
    decreases c.targetDepth - level + 1
  {
    if level <= c.targetDepth && level in s.levels {
      var nodes := s.levels[level];
      forall n | n in nodes ensures FoundOn(web, s.trace, |s.trace|, n, level) {
        var i :| 0 <= i < |nodes| && nodes[i] == n;
        assert FoundOn(web, s.trace, |s.trace|, s.levels[level][i], level);
      }
      StartLevelKeepsFound(c, web, s, nodes, level, []);
      var (started, go) := StartLevel(c, s, nodes, level, []);
      FinishLevelKeepsFound(c, web, started, go, level, Completed);
      var (finished, status) := FinishLevel(c, web, started, go, level, Completed);
      if status.Completed? {
        assert RunLevels(c, web, s, level) == RunLevels(c, web, finished, level + 1);
        RunLevelsKeepsFound(c, web, finished, level + 1);
      } else {
        assert RunLevels(c, web, s, level) == (finished, status);
      }
    }
  }

  /** After a level Run, every URL in the level table (what HaveSeenUrl
      answers) and every page started below the base URL was linked from a
      page that was downloaded one level up, before that page started. */
  lemma LevelRunFound(c: Config, web: Web)
    requires c.baseUrl.Some?
    ensures Found(web, LevelRun(c, web).0)
  {
    var s0 := State(map[], {}, []);
    var url := c.baseUrl.value;
    StartVisitKeepsFound(c, web, s0, url, "Root", 0);
    var (started, go) := StartVisit(c, s0, url, "Root", 0);
    if go {
      FinishVisitKeepsFound(c, web, started, url, "Root", 0);
    }
    var (s, status) := Visit(c, web, s0, url, "Root", 0);
    if status.Completed? {
      RunLevelsKeepsFound(c, web, s, 1);
    }
  }

  /** After the `foreach` over the links, the table contains what it
      contained before and the links, and nothing else. */
  lemma {:induction false} AddLinksContains(levels: Levels, links: seq<string>, prevUrl: string, level: nat, u: string)
    ensures ContainsUrl(AddLinks(levels, links, prevUrl, level), u) <==> ContainsUrl(levels, u) || u in links
    decreases |links|
  {
    if links != [] {
      var node := LevelNode(links[0], prevUrl);
      ContainsAfterAdd(levels, node, level, u);
      AddLinksContains(AddNode(levels, node, level), links[1..], prevUrl, level, u);
      assert u in links <==> u == links[0] || u in links[1..] by {
        assert links == [links[0]] + links[1..];
      }
    }
  }

  /** The end of `_crawlPage` for a downloaded page records every link of the
      page: each URL it links to is then in the table, and each one that was
      not in the table before is now at the next level, found on the page. */
  lemma FinishVisitRecordsLinks(c: Config, web: Web, s: State, url: string, prevUrl: string, depth: nat, u: string)
    requires url in web.pages && LinkedFrom(web.pages[url].anchors, web.isValidUrl, u)
    ensures var r := FinishVisit(c, web, s, url, prevUrl, depth).0;
      ContainsUrl(r.levels, u) &&
      (!ContainsUrl(s.levels, u) ==> depth + 1 in r.levels && LevelNode(u, url) in r.levels[depth + 1])
  {
    var links := ExtractLinks(web, web.pages[url], s.levels);
    var r := FinishVisit(c, web, s, url, prevUrl, depth).0;
    assert r.levels == AddLinks(s.levels, links, url, depth + 1);
    AddLinksContains(s.levels, links, url, depth + 1, u);
    if !ContainsUrl(s.levels, u) {
      AddLinksAppends(s.levels, links, url, depth + 1);
      var k :| 0 <= k < |links| && links[k] == u;
      assert r.levels[depth + 1][|LevelOf(s.levels, depth + 1)| + k] == NodesFrom(links, url)[k];
    }
  }

  /** Every URL that an ended page links to is in the level table, so
      HaveSeenUrl answers true for it. */
  ghost predicate LinksRecorded(web: Web, s: State)
  {
    forall i, u :: 0 <= i < |s.trace| && s.trace[i].Ended? && LinkedFrom(s.trace[i].doc.anchors, web.isValidUrl, u) ==>
      ContainsUrl(s.levels, u)
  }

  lemma StartVisitKeepsLinksRecorded(c: Config, web: Web, s: State, url: string, prevUrl: string, depth: nat)
    requires LinksRecorded(web, s)
    ensures LinksRecorded(web, StartVisit(c, s, url, prevUrl, depth).0)
  {
    var r := StartVisit(c, s, url, prevUrl, depth).0;
    forall i, u | 0 <= i < |r.trace| && r.trace[i].Ended? && LinkedFrom(r.trace[i].doc.anchors, web.isValidUrl, u)
      ensures ContainsUrl(r.levels, u)
    {
      assert i < |s.trace| && r.trace[i] == s.trace[i];
    }
  }

  lemma FinishVisitKeepsLinksRecorded(c: Config, web: Web, s: State, url: string, prevUrl: string, depth: nat)
    requires LinksRecorded(web, s)
    ensures LinksRecorded(web, FinishVisit(c, web, s, url, prevUrl, depth).0)
  {
    if url in web.pages {
      var links := ExtractLinks(web, web.pages[url], s.levels);
      var r := FinishVisit(c, web, s, url, prevUrl, depth).0;
      forall i, u | 0 <= i < |r.trace| && r.trace[i].Ended? && LinkedFrom(r.trace[i].doc.anchors, web.isValidUrl, u)
        ensures ContainsUrl(r.levels, u)
      {
        if i < |s.trace| {
          assert r.trace[i] == s.trace[i];
          AddLinksContains(s.levels, links, url, depth + 1, u);
        } else {
          assert r.trace[i].doc == web.pages[url];
          FinishVisitRecordsLinks(c, web, s, url, prevUrl, depth, u);
        }
      }
    }
  }

  lemma {:induction false} StartLevelKeepsLinksRecorded(c: Config, web: Web, s: State, nodes: seq<LevelNode>, level: nat, go: seq<LevelNode>)
    requires LinksRecorded(web, s)
    ensures LinksRecorded(web, StartLevel(c, s, nodes, level, go).0)
    decreases |nodes|
  {
    if nodes != [] {
      StartVisitKeepsLinksRecorded(c, web, s, nodes[0].url, nodes[0].prevUrl, level);
      var (started, ok) := StartVisit(c, s, nodes[0].url, nodes[0].prevUrl, level);
      StartLevelKeepsLinksRecorded(c, web, started, nodes[1..], level, if ok then go + [nodes[0]] else go);
    }
  }

  lemma {:induction false} FinishLevelKeepsLinksRecorded(c: Config, web: Web, s: State, nodes: seq<LevelNode>, level: nat, status: Status)
    requires LinksRecorded(web, s)
    ensures LinksRecorded(web, FinishLevel(c, web, s, nodes, level, status).0)
    decreases |nodes|
  {
    if nodes != [] {
      FinishVisitKeepsLinksRecorded(c, web, s, nodes[0].url, nodes[0].prevUrl, level);
      var (finished, st) := FinishVisit(c, web, s, nodes[0].url, nodes[0].prevUrl, level);
      FinishLevelKeepsLinksRecorded(c, web, finished, nodes[1..], level, if status.Aborted? then status else st);
    }
  }

  lemma {:induction false} RunLevelsKeepsLinksRecorded(c: Config, web: Web, s: State, level: nat)
    requires LinksRecorded(web, s)
    ensures LinksRecorded(web, RunLevels(c, web, s, level).0)
    decreases c.targetDepth - level + 1
  {
    if level <= c.targetDepth && level in s.levels {
      var nodes := s.levels[level];
      StartLevelKeepsLinksRecorded(c, web, s, nodes, level, []);
      var (started, go) := StartLevel(c, s, nodes, level, []);
      FinishLevelKeepsLinksRecorded(c, web, started, go, level, Completed);
      var (finished, status) := FinishLevel(c, web, started, go, level, Completed);
      if status.Completed? {
        assert RunLevels(c, web, s, level) == RunLevels(c, web, finished, level + 1);
        RunLevelsKeepsLinksRecorded(c, web, finished, level + 1);
      } else {
        assert RunLevels(c, web, s, level) == (finished, status);
      }
    }
  }

  /** After a level Run, whether or not it failed, every URL that a crawled
      page links to is in the level table: each downloaded page recorded its
      links before the run went on. */
  lemma LevelRunRecordsLinks(c: Config, web: Web)
    requires c.baseUrl.Some?
    ensures LinksRecorded(web, LevelRun(c, web).0)
  {
    var s0 := State(map[], {}, []);
    var url := c.baseUrl.value;
    StartVisitKeepsLinksRecorded(c, web, s0, url, "Root", 0);
    var (started, go) := StartVisit(c, s0, url, "Root", 0);
    if go {
      FinishVisitKeepsLinksRecorded(c, web, started, url, "Root", 0);
    }
    var (s, status) := Visit(c, web, s0, url, "Root", 0);
    if status.Completed? {
      RunLevelsKeepsLinksRecorded(c, web, s, 1);
    }
  }
}
