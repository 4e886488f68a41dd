/** What the breadth-first traversal of Downloader/LevelDescendingCrawler.cs
    guarantees, proved about the functions that specify it. */
module LevelProperties {
  import opened Wrappers
  import opened Helper
  import opened HtmlExtensions
  import opened Crawler
  import opened LevelDescending

  /** Inside a level, a failed download does not keep the other pages of the
      level from finishing (`Task.WaitAll` waits for every task), and the
      first failure is the one reported. */
  lemma {:induction false} FailureDoesNotStopLevel(c: Config, web: Web, s: State, nodes: seq<LevelNode>, level: nat, status: Status)
    ensures FinishLevel(c, web, s, nodes, level, status).0 == FinishLevel(c, web, s, nodes, level, Completed).0
    ensures status.Aborted? ==> FinishLevel(c, web, s, nodes, level, status).1 == status
    decreases |nodes|
  {
    if nodes != [] {
      var (finished, st) := FinishVisit(c, web, s, nodes[0].url, nodes[0].prevUrl, level);
      FailureDoesNotStopLevel(c, web, finished, nodes[1..], level, if status.Aborted? then status else st);
      FailureDoesNotStopLevel(c, web, finished, nodes[1..], level, st);
    }
  }

  /** The position of a notification in the level order: the started
      notifications of depth d, then the ended ones of depth d, then depth
      d + 1. */
  function Rank(e: Event): nat
  {
    2 * e.depth + (if e.Started? then 0 else 1)
  }

  /** The trace is in level order, and no notification ranks above `bound`. */
  ghost predicate InLevelOrder(trace: seq<Event>, bound: int)
  {
    (forall i, j :: 0 <= i < j < |trace| ==> Rank(trace[i]) <= Rank(trace[j])) &&
    (forall i :: 0 <= i < |trace| ==> Rank(trace[i]) <= bound)
  }

  lemma InLevelOrderAppend(trace: seq<Event>, bound: int, e: Event)
    requires InLevelOrder(trace, bound) && bound <= Rank(e)
    ensures InLevelOrder(trace + [e], Rank(e))
  {
    var t := trace + [e];
    assert forall i :: 0 <= i < |trace| ==> t[i] == trace[i];
  }

  lemma {:induction false} StartLevelInOrder(c: Config, s: State, nodes: seq<LevelNode>, level: nat, go: seq<LevelNode>)
    requires InLevelOrder(s.trace, 2 * level)
    ensures InLevelOrder(StartLevel(c, s, nodes, level, go).0.trace, 2 * level)
    decreases |nodes|
  {
    if nodes != [] {
      var (started, ok) := StartVisit(c, s, nodes[0].url, nodes[0].prevUrl, level);
      if ok {
        InLevelOrderAppend(s.trace, 2 * level, Started(level, nodes[0].url, nodes[0].prevUrl));
      }
      StartLevelInOrder(c, started, nodes[1..], level, if ok then go + [nodes[0]] else go);
    }
  }

  lemma {:induction false} FinishLevelInOrder(c: Config, web: Web, s: State, nodes: seq<LevelNode>, level: nat, status: Status)
    requires InLevelOrder(s.trace, 2 * level + 1)
    ensures InLevelOrder(FinishLevel(c, web, s, nodes, level, status).0.trace, 2 * level + 1)
    decreases |nodes|
  {
    if nodes != [] {
      var url := nodes[0].url;
      var (finished, st) := FinishVisit(c, web, s, url, nodes[0].prevUrl, level);
      if url in web.pages {
        InLevelOrderAppend(s.trace, 2 * level + 1, EndedEvent(web, url, nodes[0].prevUrl, level));
      }
      FinishLevelInOrder(c, web, finished, nodes[1..], level, if status.Aborted? then status else st);
    }
  }

  /** Levels are handled strictly one after the other: every notification
      of the run up to `level` ranks below those of later levels. */
  lemma {:induction false} RunLevelsInOrder(c: Config, web: Web, s: State, level: nat)
    requires 1 <= level && level - 1 <= c.targetDepth
    requires InLevelOrder(s.trace, 2 * level - 1)
    ensures InLevelOrder(RunLevels(c, web, s, level).0.trace, 2 * c.targetDepth + 1)
    decreases c.targetDepth - level + 1
  {
    if level <= c.targetDepth && level in s.levels {
      var nodes := s.levels[level];
      StartLevelInOrder(c, s, nodes, level, []);
      var (started, go) := StartLevel(c, s, nodes, level, []);
      FinishLevelInOrder(c, web, started, go, level, Completed);
      var (finished, status) := FinishLevel(c, web, started, go, level, Completed);
      if status.Completed? {
        RunLevelsInOrder(c, web, finished, level + 1);
      }
    }
  }

  /** No URL occurs at two places of the level table. */
  ghost predicate UniqueNodes(levels: Levels)
  {
    forall l1, l2, i, j ::
      (l1 in levels && l2 in levels && 0 <= i < |levels[l1]| && 0 <= j < |levels[l2]| &&
       levels[l1][i].url == levels[l2][j].url) ==> l1 == l2 && i == j
  }

  lemma AddNodeKeepsUnique(levels: Levels, node: LevelNode, level: nat)
    requires UniqueNodes(levels) && !ContainsUrl(levels, node.url)
    ensures UniqueNodes(AddNode(levels, node, level))
  {
    var r: Levels := AddNode(levels, node, level);
    forall l1: nat, l2: nat, i: int, j: int |
      l1 in r && l2 in r && 0 <= i < |r[l1]| && 0 <= j < |r[l2]| && r[l1][i].url == r[l2][j].url
      ensures l1 == l2 && i == j
    {
      var new1 := l1 == level && i == |r[l1]| - 1;
      var new2 := l2 == level && j == |r[l2]| - 1;
      if !new1 {
        assert l1 in levels && r[l1][i] == levels[l1][i];
        assert UrlIn(levels[l1], r[l1][i].url);
      }
      if !new2 {
        assert l2 in levels && r[l2][j] == levels[l2][j];
        assert UrlIn(levels[l2], r[l2][j].url);
      }
    }
  }

  lemma {:induction false} AddLinksKeepsUnique(levels: Levels, links: seq<string>, prevUrl: string, level: nat)
    requires UniqueNodes(levels) && NoDuplicates(links)
    requires forall u :: u in links ==> !ContainsUrl(levels, u)
    ensures UniqueNodes(AddLinks(levels, links, prevUrl, level))
    decreases |links|
  {
    if links != [] {
      var node := LevelNode(links[0], prevUrl);
      AddNodeKeepsUnique(levels, node, level);
      var next := AddNode(levels, node, level);
      forall u | u in links[1..] ensures !ContainsUrl(next, u) {
        ContainsAfterAdd(levels, node, level, u);
      }
      AddLinksKeepsUnique(next, links[1..], prevUrl, level);
    }
  }

  /** CrawledUrls holds exactly the URLs of the ended notifications, and no
      URL ended twice. */
  ghost predicate CrawledIsEnded(s: State)
  {
    (forall u :: u in s.crawled <==> u in EndedUrls(s.trace)) && NoDuplicates(EndedUrls(s.trace))
  }

  /** The invariant of the level crawl: a duplicate-free level table and
      CrawledUrls matching the ended notifications. */
  ghost predicate Consistent(s: State)
  {
    UniqueNodes(s.levels) && CrawledIsEnded(s)
  }

  ghost predicate DistinctUrls(nodes: seq<LevelNode>)
  {
    forall i, j :: 0 <= i < j < |nodes| ==> nodes[i].url != nodes[j].url
  }

  lemma StartedKeepsEnded(trace: seq<Event>, e: Event)
    requires e.Started?
    ensures EndedUrls(trace + [e]) == EndedUrls(trace)
  {
    assert (trace + [e])[..|trace|] == trace;
  }

  lemma EndedAppends(trace: seq<Event>, e: Event)
    requires e.Ended?
    ensures EndedUrls(trace + [e]) == EndedUrls(trace) + [e.url]
  {
    assert (trace + [e])[..|trace|] == trace;
  }

  lemma FinishVisitKeepsConsistent(c: Config, web: Web, s: State, url: string, prevUrl: string, depth: nat)
    requires Consistent(s) && url !in s.crawled
    ensures var r := FinishVisit(c, web, s, url, prevUrl, depth).0;
      Consistent(r) && r.crawled <= s.crawled + {url}
  {
    if url in web.pages {
      var e := EndedEvent(web, url, prevUrl, depth);
      EndedAppends(s.trace, e);
      var links := ExtractLinks(web, web.pages[url], s.levels);
      AddLinksKeepsUnique(s.levels, links, url, depth + 1);
    }
  }

  /** The first phase leaves the table, CrawledUrls and the ended
      notifications alone, and passes on only nodes whose URL is not
      crawled, without repeating a URL. */
  lemma {:induction false} StartLevelKeepsConsistent(c: Config, s: State, nodes: seq<LevelNode>, level: nat, go: seq<LevelNode>)
    requires Consistent(s) && DistinctUrls(go + nodes)
    requires forall n :: n in go ==> n.url !in s.crawled
    ensures var (r, out) := StartLevel(c, s, nodes, level, go);
      Consistent(r) && r.levels == s.levels && r.crawled == s.crawled && DistinctUrls(out) &&
      (forall n :: n in out ==> n.url !in r.crawled)
    decreases |nodes|
  {
    if nodes != [] {
      var (started, ok) := StartVisit(c, s, nodes[0].url, nodes[0].prevUrl, level);
      if ok {
        StartedKeepsEnded(s.trace, Started(level, nodes[0].url, nodes[0].prevUrl));
      }
      var go' := if ok then go + [nodes[0]] else go;
      assert DistinctUrls(go' + nodes[1..]) by {
        if ok {
          assert go' + nodes[1..] == go + nodes;
        } else {
          var all := go + nodes;
          var rest := go + nodes[1..];
          forall i, j | 0 <= i < j < |rest| ensures rest[i].url != rest[j].url {
            var i' := if i < |go| then i else i + 1;
            var j' := if j < |go| then j else j + 1;
            assert rest[i] == all[i'] && rest[j] == all[j'];
          }
        }
      }
      StartLevelKeepsConsistent(c, started, nodes[1..], level, go');
    } else {
      assert go + nodes == go;
    }
  }

  lemma {:induction false} FinishLevelKeepsConsistent(c: Config, web: Web, s: State, nodes: seq<LevelNode>, level: nat, status: Status)
    requires Consistent(s) && DistinctUrls(nodes)
    requires forall n :: n in nodes ==> n.url !in s.crawled
    ensures Consistent(FinishLevel(c, web, s, nodes, level, status).0)
    decreases |nodes|
  {
    if nodes != [] {
      FinishVisitKeepsConsistent(c, web, s, nodes[0].url, nodes[0].prevUrl, level);
      var (finished, st) := FinishVisit(c, web, s, nodes[0].url, nodes[0].prevUrl, level);
      assert finished.crawled <= s.crawled + {nodes[0].url};
      forall n | n in nodes[1..] ensures n.url !in finished.crawled {
        var k :| 1 <= k < |nodes| && nodes[k] == n;
        assert nodes[0].url != nodes[k].url;
      }
      assert DistinctUrls(nodes[1..]) by {
        forall i, j | 0 <= i < j < |nodes[1..]| ensures nodes[1..][i].url != nodes[1..][j].url {
          assert nodes[1..][i] == nodes[i + 1] && nodes[1..][j] == nodes[j + 1];
        }
      }
      FinishLevelKeepsConsistent(c, web, finished, nodes[1..], level, if status.Aborted? then status else st);
    }
  }

  lemma {:induction false} RunLevelsKeepsConsistent(c: Config, web: Web, s: State, level: nat)
    requires Consistent(s)
    ensures Consistent(RunLevels(c, web, s, level).0)
    decreases c.targetDepth - level + 1
  {
    if level <= c.targetDepth && level in s.levels {
      var nodes := s.levels[level];
      assert DistinctUrls([] + nodes) by {
        assert [] + nodes == nodes;
      }
      StartLevelKeepsConsistent(c, s, nodes, level, []);
      var (started, go) := StartLevel(c, s, nodes, level, []);
      FinishLevelKeepsConsistent(c, web, started, go, level, Completed);
      var (finished, status) := FinishLevel(c, web, started, go, level, Completed);
      if status.Completed? {
        RunLevelsKeepsConsistent(c, web, finished, level + 1);
      }
    }
  }

  /** Why a level Run can end early: a failed download while HTTP errors
      are not ignored, or a level up to TargetDepth that no page filled. */
  ghost predicate AbortReason(c: Config, web: Web, status: Status)
  {
    status.Aborted? ==>
      (status.error.WebError? && !c.ignoreHttpErrors && status.error.url !in web.pages) ||
      (status.error.LevelNotFound? && 1 <= status.error.level <= c.targetDepth)
  }

  lemma {:induction false} FinishLevelAbortReason(c: Config, web: Web, s: State, nodes: seq<LevelNode>, level: nat, status: Status)
    requires AbortReason(c, web, status)
    ensures AbortReason(c, web, FinishLevel(c, web, s, nodes, level, status).1)
    decreases |nodes|
  {
    if nodes != [] {
      var (finished, st) := FinishVisit(c, web, s, nodes[0].url, nodes[0].prevUrl, level);
      FinishLevelAbortReason(c, web, finished, nodes[1..], level, if status.Aborted? then status else st);
    }
  }

  lemma {:induction false} RunLevelsAbortReason(c: Config, web: Web, s: State, level: nat)
    requires 1 <= level
    ensures AbortReason(c, web, RunLevels(c, web, s, level).1)
    decreases c.targetDepth - level + 1
  {
    if level <= c.targetDepth && level in s.levels {
      var (started, go) := StartLevel(c, s, s.levels[level], level, []);
      FinishLevelAbortReason(c, web, started, go, level, Completed);
      var (finished, status) := FinishLevel(c, web, started, go, level, Completed);
      if status.Completed? {
        RunLevelsAbortReason(c, web, finished, level + 1);
      }
    }
  }

  /** The notifications one whole visit adds: none when it is skipped, the
      started one, and the ended one after a successful download. */
  lemma VisitTrace(c: Config, web: Web, s: State, url: string, prevUrl: string, depth: nat)
    ensures var t := Visit(c, web, s, url, prevUrl, depth).0.trace;
      t == s.trace || t == s.trace + [Started(depth, url, prevUrl)] ||
      t == s.trace + [Started(depth, url, prevUrl), EndedEvent(web, url, prevUrl, depth)]
    ensures depth > c.targetDepth ==> Visit(c, web, s, url, prevUrl, depth).0 == s
  {
    var (started, go) := StartVisit(c, s, url, prevUrl, depth);
    if go && url in web.pages {
      assert started.trace + [EndedEvent(web, url, prevUrl, depth)] ==
        s.trace + [Started(depth, url, prevUrl), EndedEvent(web, url, prevUrl, depth)];
    }
  }

  /** A whole visit keeps the state consistent. */
  lemma VisitKeepsConsistent(c: Config, web: Web, s: State, url: string, prevUrl: string, depth: nat)
    requires Consistent(s)
    ensures Consistent(Visit(c, web, s, url, prevUrl, depth).0)
  {
    var (started, go) := StartVisit(c, s, url, prevUrl, depth);
    if go {
      StartedKeepsEnded(s.trace, Started(depth, url, prevUrl));
      FinishVisitKeepsConsistent(c, web, started, url, prevUrl, depth);
    }
  }

  /** The base URL's visit leaves a consistent state. */
  lemma BaseVisitConsistent(c: Config, web: Web, url: string)
    ensures Consistent(Visit(c, web, State(map[], {}, []), url, "Root", 0).0)
  {
    var s0 := State(map[], {}, []);
    assert Consistent(s0);
    VisitKeepsConsistent(c, web, s0, url, "Root", 0);
  }

  /** The base URL's notifications are in level order, at most one started
      and one ended at depth 0, and none when TargetDepth is negative. */
  lemma BaseVisitInLevelOrder(c: Config, web: Web, url: string)
    ensures var t := Visit(c, web, State(map[], {}, []), url, "Root", 0).0.trace;
      InLevelOrder(t, 1) && (c.targetDepth < 0 ==> t == [])
  {
    VisitTrace(c, web, State(map[], {}, []), url, "Root", 0);
  }

  /** The base URL's visit only aborts on a failed download that is not
      ignored; conversely, when HTTP errors are not ignored and it does not
      abort, the base URL, if started, was downloaded. */
  lemma BaseVisitAbortReason(c: Config, web: Web, url: string)
    ensures AbortReason(c, web, Visit(c, web, State(map[], {}, []), url, "Root", 0).1)
    ensures var (r, status) := Visit(c, web, State(map[], {}, []), url, "Root", 0);
      !c.ignoreHttpErrors && status.Completed? ==> StartedDownloaded(web, r.trace, 0)
  {
    VisitTrace(c, web, State(map[], {}, []), url, "Root", 0);
  }

  lemma InLevelOrderDepths(trace: seq<Event>, targetDepth: int)
    requires InLevelOrder(trace, 2 * targetDepth + 1)
    ensures forall i :: 0 <= i < |trace| ==> trace[i].depth <= targetDepth
  {
  }

  /** The safety half of what one Run guarantees: CrawledUrls holds exactly
      the pages that ended, none ended twice, and no URL sits twice in the
      level table; notifications come level by level, each level's started
      ones before its ended ones under the schedule modelled, none beyond
      TargetDepth; an exception escapes only for a failed download that is
      not ignored or for a missing level. */
  lemma LevelRunSound(c: Config, web: Web)
    requires c.baseUrl.Some?
    ensures var (r, status) := LevelRun(c, web);
      (forall u :: u in r.crawled <==> u in EndedUrls(r.trace)) &&
      NoDuplicates(EndedUrls(r.trace)) && UniqueNodes(r.levels) &&
      InLevelOrder(r.trace, 2 * c.targetDepth + 1) &&
      (forall i :: 0 <= i < |r.trace| ==> r.trace[i].depth <= c.targetDepth) &&
      AbortReason(c, web, status)
  {
    var url := c.baseUrl.value;
    BaseVisitConsistent(c, web, url);
    BaseVisitInLevelOrder(c, web, url);
    BaseVisitAbortReason(c, web, url);
    var (s, status) := Visit(c, web, State(map[], {}, []), url, "Root", 0);
    AfterBaseSound(c, web, s, status);
  }

  /** The level loop after the base URL's visit, from any state that visit
      can leave. */
  lemma AfterBaseSound(c: Config, web: Web, s: State, status: Status)
    requires Consistent(s) && InLevelOrder(s.trace, 1) && (c.targetDepth < 0 ==> s.trace == [])
    requires AbortReason(c, web, status)
    ensures var (r, final) := if status.Aborted? then (s, status) else RunLevels(c, web, s, 1);
      Consistent(r) && InLevelOrder(r.trace, 2 * c.targetDepth + 1) &&
      (forall i :: 0 <= i < |r.trace| ==> r.trace[i].depth <= c.targetDepth) &&
      AbortReason(c, web, final)
  {
    var (r, final) := if status.Aborted? then (s, status) else RunLevels(c, web, s, 1);
    if status.Completed? {
      RunLevelsKeepsConsistent(c, web, s, 1);
      RunLevelsAbortReason(c, web, s, 1);
      if c.targetDepth >= 0 {
        RunLevelsInOrder(c, web, s, 1);
      } else {
        assert r == s;
      }
    }
    InLevelOrderDepths(r.trace, c.targetDepth);
  }



  /** A level Run with TargetDepth of at least 1 fails with level 1 not
      found when the base page yields no unseen link: its download failed
      and was ignored, or it links nowhere new. */
  lemma LevelRunFailsWithoutLinks(c: Config, web: Web)
    requires c.baseUrl.Some? && c.targetDepth >= 1
    requires c.baseUrl.value in web.pages ==> ExtractLinks(web, web.pages[c.baseUrl.value], map[]) == []
    requires c.baseUrl.value !in web.pages ==> c.ignoreHttpErrors
    ensures LevelRun(c, web).1 == Aborted(LevelNotFound(1))
  {
  }
}
