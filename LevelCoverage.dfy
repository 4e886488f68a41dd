/** What a breadth-first crawl of Downloader/LevelDescendingCrawler.cs
    reaches: every node of every level up to TargetDepth is started at its
    level unless its page was crawled at a shallower level, and a run that
    ends without an exception had every level it needed and, when HTTP
    errors are not ignored, downloaded every page it started. */
module LevelCoverage {
  import opened Wrappers
  import opened HtmlExtensions
  import opened Crawler
  import opened LevelDescending
  import opened LevelDiscovery
  import opened LevelProperties

  /** The nodes of a level that get past the checks at the top of
      `_crawlPage`, in list order. */
  function Kept(c: Config, crawled: set<string>, nodes: seq<LevelNode>, level: nat): seq<LevelNode>
    decreases |nodes|
  {
    if nodes == [] then []
    else
      var rest := Kept(c, crawled, nodes[1..], level);
      if level > c.targetDepth || nodes[0].url in crawled then rest else [nodes[0]] + rest
  }

  /** A node gets past the checks iff its level is within TargetDepth and
      its URL is not crawled. */
  lemma {:induction false} KeptMembers(c: Config, crawled: set<string>, nodes: seq<LevelNode>, level: nat)
    ensures forall n :: n in Kept(c, crawled, nodes, level) <==> n in nodes && level <= c.targetDepth && n.url !in crawled
    decreases |nodes|
  {
    if nodes != [] {
      KeptMembers(c, crawled, nodes[1..], level);
      assert forall n :: n in nodes <==> n == nodes[0] || n in nodes[1..];
    }
  }

  /** The started notifications of some nodes of a level, in order. */
  function Starts(nodes: seq<LevelNode>, level: nat): seq<Event>
  {
    seq(|nodes|, k requires 0 <= k < |nodes| => Started(level, nodes[k].url, nodes[k].prevUrl))
  }

  /** The first phase of a level starts exactly the kept nodes, in order,
      hands exactly them on to the second phase, and changes nothing else. */
  lemma {:induction false} StartLevelStartsKept(c: Config, s: State, nodes: seq<LevelNode>, level: nat, go: seq<LevelNode>)
    ensures var (r, out) := StartLevel(c, s, nodes, level, go);
      var kept := Kept(c, s.crawled, nodes, level);
      r.trace == s.trace + Starts(kept, level) && r.levels == s.levels && r.crawled == s.crawled &&
      out == go + kept
    decreases |nodes|
  {
    if nodes == [] {
      assert Starts([], level) == [];
    } else {
      var n := nodes[0];
      var (started, ok) := StartVisit(c, s, n.url, n.prevUrl, level);
      var go' := if ok then go + [n] else go;
      StartLevelStartsKept(c, started, nodes[1..], level, go');
      var rest := Kept(c, s.crawled, nodes[1..], level);
      assert StartLevel(c, s, nodes, level, go) == StartLevel(c, started, nodes[1..], level, go');
      if ok {
        assert Kept(c, s.crawled, nodes, level) == [n] + rest;
        assert Starts([n] + rest, level) == [Started(level, n.url, n.prevUrl)] + Starts(rest, level);
        assert started.trace + Starts(rest, level) == s.trace + Starts([n] + rest, level);
        assert go' + rest == go + ([n] + rest);
      } else {
        assert Kept(c, s.crawled, nodes, level) == rest;
      }
    }
  }

  /** Some notification says that `url` ended at a depth below `bound`. */
  ghost predicate EndedBelow(trace: seq<Event>, url: string, bound: int)
  {
    exists j :: 0 <= j < |trace| && trace[j].Ended? && trace[j].url == url && trace[j].depth < bound
  }

  lemma EndedBelowExtend(trace: seq<Event>, more: seq<Event>, url: string, bound: int, bound': int)
    requires EndedBelow(trace, url, bound) && bound <= bound'
    ensures EndedBelow(trace + more, url, bound')
  {
    var j :| 0 <= j < |trace| && trace[j].Ended? && trace[j].url == url && trace[j].depth < bound;
    assert (trace + more)[j] == trace[j];
  }

  /** Every URL in CrawledUrls ended at a depth below `bound`. */
  ghost predicate CrawledBelow(s: State, bound: int)
  {
    forall u :: u in s.crawled ==> EndedBelow(s.trace, u, bound)
  }

  /** What the second phase of a level does: it only appends ended
      notifications at that level, keeps every level of the table and
      changes only the next one, keeps CrawledBelow, and ends without an
      exception only when none was passed in and, with HTTP errors not
      ignored, every node it finished was downloaded. */
  lemma {:induction false} FinishLevelEffect(c: Config, web: Web, s: State, nodes: seq<LevelNode>, level: nat, status: Status)
    ensures var (r, st) := FinishLevel(c, web, s, nodes, level, status);
      s.trace <= r.trace &&
      (forall i :: |s.trace| <= i < |r.trace| ==> r.trace[i].Ended? && r.trace[i].depth == level) &&
      (forall l :: l in s.levels ==> l in r.levels) &&
      (forall l :: l in s.levels && l != level + 1 ==> r.levels[l] == s.levels[l]) &&
      (CrawledBelow(s, level + 1) ==> CrawledBelow(r, level + 1)) &&
      (st.Completed? ==> status.Completed? && (!c.ignoreHttpErrors ==> forall n :: n in nodes ==> n.url in web.pages))
    decreases |nodes|
  {
    if nodes != [] {
      var n := nodes[0];
      var (finished, st) := FinishVisit(c, web, s, n.url, n.prevUrl, level);
      if n.url in web.pages {
        var e := EndedEvent(web, n.url, n.prevUrl, level);
        AddLinksAppends(s.levels, ExtractLinks(web, web.pages[n.url], s.levels), n.url, level + 1);
        assert finished.trace == s.trace + [e];
        if CrawledBelow(s, level + 1) {
          forall u | u in finished.crawled ensures EndedBelow(finished.trace, u, level + 1) {
            if u in s.crawled {
              EndedBelowExtend(s.trace, [e], u, level + 1, level + 1);
            } else {
              assert finished.trace[|s.trace|] == e;
            }
          }
        }
      }
      var status' := if status.Aborted? then status else st;
      FinishLevelEffect(c, web, finished, nodes[1..], level, status');
      var (r, final) := FinishLevel(c, web, s, nodes, level, status);
      assert (r, final) == FinishLevel(c, web, finished, nodes[1..], level, status');
      forall i | |s.trace| <= i < |r.trace| ensures r.trace[i].Ended? && r.trace[i].depth == level {
        if i < |finished.trace| {
          assert r.trace[i] == finished.trace[i];
        }
      }
      if final.Completed? && !c.ignoreHttpErrors {
        forall m | m in nodes ensures m.url in web.pages {
          if m != n {
            assert m in nodes[1..];
          }
        }
      }
    }
  }

  /** The node was started at its level, or its URL had ended at a
      shallower level. */
  ghost predicate Covered(trace: seq<Event>, n: LevelNode, level: nat)
  {
    (exists j :: 0 <= j < |trace| && trace[j] == Started(level, n.url, n.prevUrl)) ||
    EndedBelow(trace, n.url, level)
  }

  lemma CoveredExtend(trace: seq<Event>, more: seq<Event>, n: LevelNode, level: nat)
    requires Covered(trace, n, level)
    ensures Covered(trace + more, n, level)
  {
    if exists j :: 0 <= j < |trace| && trace[j] == Started(level, n.url, n.prevUrl) {
      var j :| 0 <= j < |trace| && trace[j] == Started(level, n.url, n.prevUrl);
      assert (trace + more)[j] == trace[j];
    } else {
      EndedBelowExtend(trace, more, n.url, level, level);
    }
  }

  /** One level of the `for` loop of Run, both phases, moves CrawledBelow
      on to the next level: what it crawls ends at this level. */
  lemma LevelStepCrawledBelow(c: Config, web: Web, s: State, level: nat)
    requires level in s.levels && CrawledBelow(s, level)
    ensures var (started, go) := StartLevel(c, s, s.levels[level], level, []);
      CrawledBelow(FinishLevel(c, web, started, go, level, Completed).0, level + 1)
  {
    var kept := Kept(c, s.crawled, s.levels[level], level);
    StartLevelStartsKept(c, s, s.levels[level], level, []);
    var (started, go) := StartLevel(c, s, s.levels[level], level, []);
    forall u | u in started.crawled ensures EndedBelow(started.trace, u, level + 1) {
      EndedBelowExtend(s.trace, Starts(kept, level), u, level, level + 1);
    }
    FinishLevelEffect(c, web, started, go, level, Completed);
  }

  /** One level of the `for` loop of Run that raises no exception, with
      HTTP errors not ignored, downloaded every page it started. */
  lemma LevelStepDownloads(c: Config, web: Web, s: State, level: nat)
    requires level in s.levels
    ensures var (started, go) := StartLevel(c, s, s.levels[level], level, []);
      var (finished, st) := FinishLevel(c, web, started, go, level, Completed);
      st.Completed? && !c.ignoreHttpErrors ==> StartedDownloaded(web, finished.trace, |s.trace|)
  {
    var kept := Kept(c, s.crawled, s.levels[level], level);
    StartLevelStartsKept(c, s, s.levels[level], level, []);
    var (started, go) := StartLevel(c, s, s.levels[level], level, []);
    FinishLevelEffect(c, web, started, go, level, Completed);
    var (finished, st) := FinishLevel(c, web, started, go, level, Completed);
    if st.Completed? && !c.ignoreHttpErrors {
      forall i | |s.trace| <= i < |finished.trace| && finished.trace[i].Started?
        ensures finished.trace[i].url in web.pages
      {
        var k := i - |s.trace|;
        assert finished.trace[i] == started.trace[i] == Starts(kept, level)[k];
        KeptMembers(c, s.crawled, s.levels[level], level);
        assert kept[k] in kept;
      }
    }
  }

  /** Once one level of the `for` loop of Run is finished, every node of
      that level is covered. */
  lemma LevelStepCovers(c: Config, web: Web, s: State, level: nat)
    requires level <= c.targetDepth && level in s.levels && CrawledBelow(s, level)
    ensures var (started, go) := StartLevel(c, s, s.levels[level], level, []);
      var finished := FinishLevel(c, web, started, go, level, Completed).0;
      level in finished.levels && finished.levels[level] == s.levels[level] &&
      forall i :: 0 <= i < |s.levels[level]| ==> Covered(finished.trace, s.levels[level][i], level)
  {
    var nodes := s.levels[level];
    var kept := Kept(c, s.crawled, nodes, level);
    StartLevelStartsKept(c, s, nodes, level, []);
    var (started, go) := StartLevel(c, s, nodes, level, []);
    FinishLevelEffect(c, web, started, go, level, Completed);
    var finished := FinishLevel(c, web, started, go, level, Completed).0;
    var more := finished.trace[|started.trace|..];
    assert finished.trace == s.trace + (Starts(kept, level) + more);
    forall i | 0 <= i < |nodes| ensures Covered(finished.trace, nodes[i], level) {
      var n := nodes[i];
      if n.url in s.crawled {
        EndedBelowExtend(s.trace, Starts(kept, level) + more, n.url, level, level);
      } else {
        KeptMembers(c, s.crawled, nodes, level);
        assert n in kept;
        var k :| 0 <= k < |kept| && kept[k] == n;
        assert finished.trace[|s.trace| + k] == Starts(kept, level)[k];
      }
    }
  }

  /** Every level from `from` up to `targetDepth` is in the table. */
  ghost predicate LevelsPresent(levels: Levels, from: int, targetDepth: int)
  {
    forall l :: from <= l <= targetDepth ==> l in levels
  }

  /** Every node of the levels from `from` up to `targetDepth` is covered. */
  ghost predicate LevelsCovered(s: State, from: int, targetDepth: int)
  {
    forall l, i :: from <= l <= targetDepth && l in s.levels && 0 <= i < |s.levels[l]| ==>
      Covered(s.trace, s.levels[l][i], l)
  }

  /** The `for` loop of Run from `level` on only appends notifications,
      never drops a level and never changes a level already crawled. */
  lemma {:induction false} RunLevelsFrame(c: Config, web: Web, s: State, level: nat)
    ensures var r := RunLevels(c, web, s, level).0;
      s.trace <= r.trace &&
      (forall l :: l in s.levels ==> l in r.levels) &&
      (forall l :: l in s.levels && l <= level ==> r.levels[l] == s.levels[l])
    decreases c.targetDepth - level + 1
  {
    if level <= c.targetDepth && level in s.levels {
      StartLevelStartsKept(c, s, s.levels[level], level, []);
      var (started, go) := StartLevel(c, s, s.levels[level], level, []);
      FinishLevelEffect(c, web, started, go, level, Completed);
      var (finished, st) := FinishLevel(c, web, started, go, level, Completed);
      if st.Completed? {
        RunLevelsFrame(c, web, finished, level + 1);
      }
    }
  }

  /** The `for` loop of Run from `level` on raises no exception only when
      every level up to TargetDepth was in the table. */
  lemma {:induction false} RunLevelsPresent(c: Config, web: Web, s: State, level: nat)
    ensures var (r, status) := RunLevels(c, web, s, level);
      status.Completed? ==> LevelsPresent(r.levels, level, c.targetDepth)
    decreases c.targetDepth - level + 1
  {
    if level <= c.targetDepth && level in s.levels {
      StartLevelStartsKept(c, s, s.levels[level], level, []);
      var (started, go) := StartLevel(c, s, s.levels[level], level, []);
      FinishLevelEffect(c, web, started, go, level, Completed);
      var (finished, st) := FinishLevel(c, web, started, go, level, Completed);
      if st.Completed? {
        RunLevelsPresent(c, web, finished, level + 1);
        RunLevelsFrame(c, web, finished, level + 1);
      }
    }
  }

  /** The `for` loop of Run from `level` on, when it raises no exception
      and HTTP errors are not ignored, downloaded every page it started. */
  lemma {:induction false} RunLevelsDownloads(c: Config, web: Web, s: State, level: nat)
    ensures var (r, status) := RunLevels(c, web, s, level);
      status.Completed? && !c.ignoreHttpErrors ==> StartedDownloaded(web, r.trace, |s.trace|)
    decreases c.targetDepth - level + 1
  {
    if level <= c.targetDepth && level in s.levels {
      LevelStepDownloads(c, web, s, level);
      var (started, go) := StartLevel(c, s, s.levels[level], level, []);
      var (finished, st) := FinishLevel(c, web, started, go, level, Completed);
      if st.Completed? {
        RunLevelsDownloads(c, web, finished, level + 1);
        RunLevelsFrame(c, web, finished, level + 1);
        var (r, status) := RunLevels(c, web, s, level);
        assert (r, status) == RunLevels(c, web, finished, level + 1);
        if status.Completed? && !c.ignoreHttpErrors {
          forall i | |s.trace| <= i < |r.trace| && r.trace[i].Started? ensures r.trace[i].url in web.pages {
            if i < |finished.trace| {
              assert r.trace[i] == finished.trace[i];
            }
          }
        }
      }
    }
  }

  /** The `for` loop of Run from `level` on, when it raises no exception,
      covered every node of every level up to TargetDepth. */
  lemma {:induction false} RunLevelsCovers(c: Config, web: Web, s: State, level: nat)
    requires CrawledBelow(s, level)
    ensures var (r, status) := RunLevels(c, web, s, level);
      status.Completed? ==> LevelsCovered(r, level, c.targetDepth)
    decreases c.targetDepth - level + 1
  {
    if level <= c.targetDepth && level in s.levels {
      var nodes := s.levels[level];
      LevelStepCrawledBelow(c, web, s, level);
      LevelStepCovers(c, web, s, level);
      var (started, go) := StartLevel(c, s, nodes, level, []);
      var (finished, st) := FinishLevel(c, web, started, go, level, Completed);
      if st.Completed? {
        RunLevelsCovers(c, web, finished, level + 1);
        RunLevelsFrame(c, web, finished, level + 1);
        var (r, status) := RunLevels(c, web, s, level);
        assert (r, status) == RunLevels(c, web, finished, level + 1);
        if status.Completed? {
          assert r.levels[level] == nodes;
          var more := r.trace[|finished.trace|..];
          assert r.trace == finished.trace + more;
          forall i | 0 <= i < |nodes| ensures Covered(r.trace, nodes[i], level) {
            CoveredExtend(finished.trace, more, nodes[i], level);
          }
        }
      }
    }
  }

  /** A level Run notifies first that the base URL started from "Root",
      unless TargetDepth is negative and it notifies nothing; when no
      exception escapes, every level from 1 to TargetDepth was in the table,
      every node in those levels was started at its level or had its page
      crawled at a shallower one, and, with HTTP errors not ignored, every
      page started was downloaded. */
  lemma LevelRunCovers(c: Config, web: Web)
    requires c.baseUrl.Some?
    ensures var (r, status) := LevelRun(c, web);
      (r.trace != [] <==> c.targetDepth >= 0) &&
      (r.trace != [] ==> r.trace[0] == Started(0, c.baseUrl.value, "Root")) &&
      (status.Completed? ==>
        LevelsPresent(r.levels, 1, c.targetDepth) &&
        (!c.ignoreHttpErrors ==> StartedDownloaded(web, r.trace, 0)) &&
        LevelsCovered(r, 1, c.targetDepth))
  {
    var url := c.baseUrl.value;
    var s0 := State(map[], {}, []);
    var (s, status) := Visit(c, web, s0, url, "Root", 0);
    var (r, final) := LevelRun(c, web);
    if c.targetDepth < 0 {
      assert (r, final) == (s0, Completed);
    } else if status.Completed? {
      assert (r, final) == RunLevels(c, web, s, 1);
      assert s.trace[0] == Started(0, url, "Root");
      assert !c.ignoreHttpErrors ==> url in web.pages;
      if url in s.crawled {
        assert s.trace[1].Ended? && s.trace[1].url == url && s.trace[1].depth < 1;
      }
      RunLevelsPresent(c, web, s, 1);
      RunLevelsDownloads(c, web, s, 1);
      RunLevelsCovers(c, web, s, 1);
      RunLevelsFrame(c, web, s, 1);
      assert r.trace[0] == s.trace[0];
      if final.Completed? && !c.ignoreHttpErrors {
        forall i | 0 <= i < |r.trace| && r.trace[i].Started? ensures r.trace[i].url in web.pages {
          if i < |s.trace| {
            assert r.trace[i] == s.trace[i];
          }
        }
      }
    } else {
      assert r == s;
    }
  }

  /** A failure inside the second phase of a level is the failed download
      of one of its nodes, unless an earlier failure was already kept. */
  lemma {:induction false} FinishLevelFailsAtNode(c: Config, web: Web, s: State, nodes: seq<LevelNode>, level: nat, status: Status)
    ensures var st := FinishLevel(c, web, s, nodes, level, status).1;
      st.Aborted? ==>
        (status.Aborted? && st == status) ||
        (status.Completed? && st.error.WebError? && exists n :: n in nodes && n.url == st.error.url)
    decreases |nodes|
  {
    if nodes != [] {
      var (finished, st) := FinishVisit(c, web, s, nodes[0].url, nodes[0].prevUrl, level);
      var next := if status.Aborted? then status else st;
      FinishLevelFailsAtNode(c, web, finished, nodes[1..], level, next);
      var final := FinishLevel(c, web, finished, nodes[1..], level, next).1;
      if final.Aborted? && status.Completed? && st.Completed? {
        var n :| n in nodes[1..] && n.url == final.error.url;
        assert n in nodes;
      }
    }
  }

  /** Every notification from position `from` on is shallower than `bound`. */
  ghost predicate DepthsBelow(trace: seq<Event>, from: nat, bound: int)
  {
    forall m :: from <= m < |trace| ==> trace[m].depth < bound
  }

  /** The notification at `i` starts `url` at a level between `lo` and `hi`,
      and nothing from `from` on is deeper than that level. */
  ghost predicate FailedStart(trace: seq<Event>, from: nat, i: int, url: string, lo: int, hi: int)
  {
    from <= i < |trace| && trace[i].Started? && trace[i].url == url &&
    lo <= trace[i].depth <= hi && DepthsBelow(trace, from, trace[i].depth + 1)
  }

  /** How the notifications from position `from` on ended when an exception
      escaped: a missing level L was reported before anything at depth L or
      deeper was notified; a failed download was reported for a page started
      at a level between `lo` and `hi`, and nothing deeper than that level
      was notified. */
  ghost predicate StoppedAt(trace: seq<Event>, from: nat, status: Status, lo: int, hi: int)
  {
    status.Aborted? ==>
      (status.error.LevelNotFound? && lo <= status.error.level <= hi && DepthsBelow(trace, from, status.error.level)) ||
      (status.error.WebError? && exists i :: FailedStart(trace, from, i, status.error.url, lo, hi))
  }

  /** Notifications no deeper than `d` in front of a stop at level `lo2` or
      deeper keep the stop. */
  lemma StoppedAtExtend(trace: seq<Event>, from: nat, mid: nat, status: Status, lo: int, lo2: int, hi: int, d: int)
    requires from <= mid <= |trace| && lo <= d < lo2
    requires forall m :: from <= m < mid ==> trace[m].depth <= d
    requires StoppedAt(trace, mid, status, lo2, hi)
    ensures StoppedAt(trace, from, status, lo, hi)
  {
    if status.Aborted? && status.error.WebError? {
      var i :| FailedStart(trace, mid, i, status.error.url, lo2, hi);
      assert FailedStart(trace, from, i, status.error.url, lo, hi);
    }
  }

  /** One level of the `for` loop of Run notifies only at that level, and a
      failure in it is the failed download of a page it started. */
  lemma LevelStepFails(c: Config, web: Web, s: State, level: nat)
    requires level in s.levels
    ensures var (started, go) := StartLevel(c, s, s.levels[level], level, []);
      var (finished, st) := FinishLevel(c, web, started, go, level, Completed);
      s.trace <= finished.trace &&
      (forall m :: |s.trace| <= m < |finished.trace| ==> finished.trace[m].depth == level) &&
      (st.Aborted? ==>
        st.error.WebError? &&
        exists i :: |s.trace| <= i < |finished.trace| && finished.trace[i].Started? && finished.trace[i].url == st.error.url)
  {
    var nodes := s.levels[level];
    StartLevelStartsKept(c, s, nodes, level, []);
    var (started, go) := StartLevel(c, s, nodes, level, []);
    var kept := Kept(c, s.crawled, nodes, level);
    assert go == kept;
    FinishLevelEffect(c, web, started, go, level, Completed);
    FinishLevelFailsAtNode(c, web, started, go, level, Completed);
    var (finished, st) := FinishLevel(c, web, started, go, level, Completed);
    forall m | |s.trace| <= m < |finished.trace| ensures finished.trace[m].depth == level {
      if m < |started.trace| {
        assert finished.trace[m] == started.trace[m] == Starts(kept, level)[m - |s.trace|];
      }
    }
    if st.Aborted? {
      var n :| n in go && n.url == st.error.url;
      var k :| 0 <= k < |kept| && kept[k] == n;
      assert finished.trace[|s.trace| + k] == started.trace[|s.trace| + k] == Starts(kept, level)[k];
    }
  }

  /** A level whose second phase fails ends the `for` loop of Run: the
      exception that `Task.WaitAll` rethrows leaves it, so no later level is
      started. A missing level ends it the same way. */
  lemma {:induction false} RunLevelsStopsAtAbort(c: Config, web: Web, s: State, level: nat)
    ensures var (r, status) := RunLevels(c, web, s, level);
      StoppedAt(r.trace, |s.trace|, status, level, c.targetDepth)
    decreases c.targetDepth - level + 1
  {
    if level <= c.targetDepth {
      if level !in s.levels {
        assert RunLevels(c, web, s, level) == (s, Aborted(LevelNotFound(level)));
      } else {
        LevelStepFails(c, web, s, level);
        var (started, go) := StartLevel(c, s, s.levels[level], level, []);
        var (finished, st) := FinishLevel(c, web, started, go, level, Completed);
        if st.Aborted? {
          assert RunLevels(c, web, s, level) == (finished, st);
          var i :| |s.trace| <= i < |finished.trace| && finished.trace[i].Started? && finished.trace[i].url == st.error.url;
          assert FailedStart(finished.trace, |s.trace|, i, st.error.url, level, c.targetDepth);
        } else {
          assert RunLevels(c, web, s, level) == RunLevels(c, web, finished, level + 1);
          RunLevelsStopsAtAbort(c, web, finished, level + 1);
          RunLevelsFrame(c, web, finished, level + 1);
          var r := RunLevels(c, web, finished, level + 1).0;
          assert forall m :: |s.trace| <= m < |finished.trace| ==> r.trace[m] == finished.trace[m];
          StoppedAtExtend(r.trace, |s.trace|, |finished.trace|, RunLevels(c, web, finished, level + 1).1,
                          level, level + 1, c.targetDepth, level);
        }
      }
    }
  }

  /** A level Run stops at its first exception: a failed base download ends
      it after the base URL's started notification; a level that fails, or
      that is missing, ends the `for` loop, so nothing deeper is notified. */
  lemma LevelRunStopsAtAbort(c: Config, web: Web)
    requires c.baseUrl.Some?
    ensures var (r, status) := LevelRun(c, web);
      StoppedAt(r.trace, 0, status, 0, c.targetDepth)
  {
    var s0 := State(map[], {}, []);
    var url := c.baseUrl.value;
    VisitTrace(c, web, s0, url, "Root", 0);
    var (s, status) := Visit(c, web, s0, url, "Root", 0);
    if status.Aborted? {
      assert LevelRun(c, web) == (s, status);
      assert status == Aborted(WebError(url)) && s.trace == [Started(0, url, "Root")];
      assert FailedStart(s.trace, 0, 0, url, 0, c.targetDepth);
    } else {
      assert LevelRun(c, web) == RunLevels(c, web, s, 1);
      assert forall m :: 0 <= m < |s.trace| ==> s.trace[m].depth == 0;
      RunLevelsStopsAtAbort(c, web, s, 1);
      RunLevelsFrame(c, web, s, 1);
      var r := RunLevels(c, web, s, 1).0;
      assert forall m :: 0 <= m < |s.trace| ==> r.trace[m] == s.trace[m];
      StoppedAtExtend(r.trace, 0, |s.trace|, RunLevels(c, web, s, 1).1, 0, 1, c.targetDepth, 0);
    }
  }

  /** What one Run guarantees: CrawledUrls holds exactly the pages that
      ended, none ended twice, and no URL sits twice in the level table;
      notifications come level by level, each level's started ones before
      its ended ones under the schedule modelled, none beyond TargetDepth;
      the first one says that the base URL started from "Root", unless
      TargetDepth is negative and there is none; every URL in the table and
      every page started below the base URL was linked from a page that
      ended one level up; every URL that a crawled page links to is in the
      table, so HaveSeenUrl answers true for it; an exception escapes only
      for a failed download that is not ignored or for a missing level, and
      it ends the run: nothing deeper than the failing level is notified.
      Conversely, when none escapes, every level from 1 to TargetDepth was
      in the table, every node in those levels was started at its level or
      had its page crawled at a shallower one, and, with HTTP errors not
      ignored, every page started was downloaded. */
  lemma LevelRunGuarantees(c: Config, web: Web)
    requires c.baseUrl.Some?
    ensures var (r, status) := LevelRun(c, web);
      (forall u :: u in r.crawled <==> u in EndedUrls(r.trace)) &&
      NoDuplicates(EndedUrls(r.trace)) && UniqueNodes(r.levels) &&
      InLevelOrder(r.trace, 2 * c.targetDepth + 1) &&
      (forall i :: 0 <= i < |r.trace| ==> r.trace[i].depth <= c.targetDepth) &&
      (r.trace != [] <==> c.targetDepth >= 0) &&
      (r.trace != [] ==> r.trace[0] == Started(0, c.baseUrl.value, "Root")) &&
      Found(web, r) && LinksRecorded(web, r) &&
      AbortReason(c, web, status) && StoppedAt(r.trace, 0, status, 0, c.targetDepth) &&
      (status.Completed? ==>
        LevelsPresent(r.levels, 1, c.targetDepth) &&
        (!c.ignoreHttpErrors ==> StartedDownloaded(web, r.trace, 0)) &&
        LevelsCovered(r, 1, c.targetDepth))
  {
    LevelRunSound(c, web);
    LevelRunFound(c, web);
    LevelRunCovers(c, web);
    LevelRunRecordsLinks(c, web);
    LevelRunStopsAtAbort(c, web);
  }
}
