/** How the depth-first crawler of Downloader/EagerDescendingCrawler.cs walks
    the links of a page: every extracted link is marked seen and followed
    one level deeper, in extraction order, and a link's whole subtree is
    finished before the next link is started. */
module EagerTraversal {
  import opened Wrappers
  import opened HtmlExtensions
  import opened Crawler
  import opened EagerDescending
  import opened EagerProperties

  /** A visit at `depth` that goes ahead starts with its own started
      notification, and at its own depth it notifies only about its own
      URL: that started notification and the ended one. */
  lemma VisitOwnDepth(c: Config, web: Web, s: State, url: string, prevUrl: string, depth: nat)
    ensures var r := Visit(c, web, s, url, prevUrl, depth).0;
      (depth <= c.targetDepth && url !in s.crawled ==>
        |r.trace| > |s.trace| && r.trace[|s.trace|] == Started(depth, url, prevUrl)) &&
      (forall i :: |s.trace| <= i < |r.trace| && r.trace[i].depth == depth ==>
        r.trace[i].url == url && (r.trace[i].Started? ==> i == |s.trace|))
  {
    if depth <= c.targetDepth && url !in s.crawled && url in web.pages {
      var crawled := s.(trace := s.trace + [Started(depth, url, prevUrl), EndedEvent(web, url, prevUrl, depth)],
                        crawled := s.crawled + [url]);
      var links := ExtractLinks(web, web.pages[url], s.seen);
      VisitLinksDepths(c, web, crawled, links, url, depth);
      VisitLinksGrows(c, web, crawled, links, url, depth);
      var r := Visit(c, web, s, url, prevUrl, depth).0;
      assert r == VisitLinks(c, web, crawled, links, url, depth).0;
      forall i | |s.trace| <= i < |r.trace| && r.trace[i].depth == depth
        ensures r.trace[i].url == url && (r.trace[i].Started? ==> i == |s.trace|)
      {
        assert i < |crawled.trace| && r.trace[i] == crawled.trace[i];
      }
      assert r.trace[|s.trace|] == crawled.trace[|s.trace|];
    }
  }

  /** A notification that starts a link of a page at `depth`. */
  predicate ChildStart(e: Event, depth: nat)
  {
    e.Started? && e.depth == depth + 1
  }

  /** From position `from` on, every notification that starts a link of
      the page `url` at `depth` is for a URL of `links`, with the page as
      previous URL. */
  predicate ChildrenFrom(trace: seq<Event>, from: nat, depth: nat, url: string, links: seq<string>)
  {
    forall i :: from <= i < |trace| && ChildStart(trace[i], depth) ==>
      trace[i].prevUrl == url && trace[i].url in links
  }

  /** From position `from` on, the links started at `depth + 1` come in the
      order of `links`. */
  ghost predicate ChildrenInOrder(trace: seq<Event>, from: nat, depth: nat, links: seq<string>)
  {
    forall i, j :: from <= i < j < |trace| && ChildStart(trace[i], depth) && ChildStart(trace[j], depth) ==>
      exists k1, k2 :: 0 <= k1 < k2 < |links| && links[k1] == trace[i].url && links[k2] == trace[j].url
  }

  /** The link loop starts, one level deeper and with the page as previous
      URL, only links of its list, and in the order of the list. */
  lemma {:induction false} VisitLinksSiblingOrder(c: Config, web: Web, s: State, links: seq<string>, url: string, depth: nat)
    requires depth <= c.targetDepth
    ensures ChildrenFrom(VisitLinks(c, web, s, links, url, depth).0.trace, |s.trace|, depth, url, links)
    ensures ChildrenInOrder(VisitLinks(c, web, s, links, url, depth).0.trace, |s.trace|, depth, links)
    decreases |links|
  {
    if links != [] {
      var marked := s.(seen := s.seen + [links[0]]);
      VisitOwnDepth(c, web, marked, links[0], url, depth + 1);
      VisitGrows(c, web, marked, links[0], url, depth + 1);
      var (after, st) := Visit(c, web, marked, links[0], url, depth + 1);
      var r := VisitLinks(c, web, s, links, url, depth).0;
      if st.Completed? {
        VisitLinksSiblingOrder(c, web, after, links[1..], url, depth);
        VisitLinksGrows(c, web, after, links[1..], url, depth);
        assert r == VisitLinks(c, web, after, links[1..], url, depth).0;
        assert ChildrenFrom(r.trace, |after.trace|, depth, url, links[1..]);
        assert ChildrenInOrder(r.trace, |after.trace|, depth, links[1..]);
        forall i | |s.trace| <= i < |r.trace| && ChildStart(r.trace[i], depth)
          ensures r.trace[i].prevUrl == url && r.trace[i].url in links
        {
          if i < |after.trace| {
            assert r.trace[i] == after.trace[i];
          } else {
            assert r.trace[i].url in links[1..];
          }
        }
        forall i, j | |s.trace| <= i < j < |r.trace| && ChildStart(r.trace[i], depth) && ChildStart(r.trace[j], depth)
          ensures exists k1, k2 :: 0 <= k1 < k2 < |links| && links[k1] == r.trace[i].url && links[k2] == r.trace[j].url
        {
          if j >= |after.trace| {
            assert r.trace[j].url in links[1..];
            var k :| 0 <= k < |links[1..]| && links[1..][k] == r.trace[j].url;
            if i < |after.trace| {
              assert r.trace[i] == after.trace[i];
              assert links[0] == r.trace[i].url && links[k + 1] == r.trace[j].url;
            } else {
              var k1, k2 :| 0 <= k1 < k2 < |links[1..]| && links[1..][k1] == r.trace[i].url && links[1..][k2] == r.trace[j].url;
              assert links[k1 + 1] == r.trace[i].url && links[k2 + 1] == r.trace[j].url;
            }
          }
        }
      } else {
        assert r == after;
      }
    }
  }

  /** A link loop that raises no exception has marked every link seen and,
      below TargetDepth, has started every link one level deeper from the
      page, unless the link was crawled already. */
  lemma {:induction false} VisitLinksFollowsAll(c: Config, web: Web, s: State, links: seq<string>, url: string, depth: nat)
    requires depth <= c.targetDepth
    ensures var (r, status) := VisitLinks(c, web, s, links, url, depth);
      status.Completed? ==>
        (forall k :: 0 <= k < |links| ==> links[k] in r.seen) &&
        (depth < c.targetDepth ==> forall k :: 0 <= k < |links| ==>
          links[k] in r.crawled ||
          exists i :: |s.trace| <= i < |r.trace| && r.trace[i] == Started(depth + 1, links[k], url))
    decreases |links|
  {
    if links != [] {
      var marked := s.(seen := s.seen + [links[0]]);
      VisitOwnDepth(c, web, marked, links[0], url, depth + 1);
      VisitGrows(c, web, marked, links[0], url, depth + 1);
      var (after, st) := Visit(c, web, marked, links[0], url, depth + 1);
      if st.Completed? {
        VisitLinksFollowsAll(c, web, after, links[1..], url, depth);
        VisitLinksGrows(c, web, after, links[1..], url, depth);
        var (r, status) := VisitLinks(c, web, s, links, url, depth);
        assert (r, status) == VisitLinks(c, web, after, links[1..], url, depth);
        if status.Completed? {
          assert links[0] in marked.seen;
          forall k | 1 <= k < |links| ensures links[k] in r.seen {
            assert links[k] == links[1..][k - 1];
          }
          if depth < c.targetDepth {
            forall k | 0 <= k < |links|
              ensures links[k] in r.crawled ||
                exists i :: |s.trace| <= i < |r.trace| && r.trace[i] == Started(depth + 1, links[k], url)
            {
              if k == 0 {
                if links[0] !in s.crawled {
                  assert r.trace[|s.trace|] == after.trace[|s.trace|];
                }
              } else {
                assert links[k] == links[1..][k - 1];
              }
            }
          }
        }
      }
    }
  }

  /** `_crawlPage` below TargetDepth on a page it downloads: when no
      exception escapes, every link extracted from the page is in SeenUrls
      and was started at depth + 1 from the page, unless it was crawled
      already; and the links are started in extraction order. */
  lemma VisitFollowsLinks(c: Config, web: Web, s: State, url: string, prevUrl: string, depth: nat)
    requires depth < c.targetDepth && url !in s.crawled && url in web.pages
    ensures var (r, status) := Visit(c, web, s, url, prevUrl, depth);
      var links := ExtractLinks(web, web.pages[url], s.seen);
      (status.Completed? ==> forall l :: l in links ==>
        l in r.seen &&
        (l in r.crawled || exists i :: |s.trace| <= i < |r.trace| && r.trace[i] == Started(depth + 1, l, url))) &&
      (forall i, j :: |s.trace| <= i < j < |r.trace| && ChildStart(r.trace[i], depth) && ChildStart(r.trace[j], depth) ==>
        exists k1, k2 :: 0 <= k1 < k2 < |links| && links[k1] == r.trace[i].url && links[k2] == r.trace[j].url)
  {
    var crawled := s.(trace := s.trace + [Started(depth, url, prevUrl), EndedEvent(web, url, prevUrl, depth)],
                      crawled := s.crawled + [url]);
    var links := ExtractLinks(web, web.pages[url], s.seen);
    VisitLinksFollowsAll(c, web, crawled, links, url, depth);
    VisitLinksSiblingOrder(c, web, crawled, links, url, depth);
    VisitLinksGrows(c, web, crawled, links, url, depth);
    var (r, status) := Visit(c, web, s, url, prevUrl, depth);
    assert (r, status) == VisitLinks(c, web, crawled, links, url, depth);
    assert r.trace[|s.trace|] == crawled.trace[|s.trace|] && r.trace[|s.trace| + 1] == crawled.trace[|s.trace| + 1];
    if status.Completed? {
      forall l | l in links
        ensures l in r.seen &&
          (l in r.crawled || exists i :: |s.trace| <= i < |r.trace| && r.trace[i] == Started(depth + 1, l, url))
      {
        var k :| 0 <= k < |links| && links[k] == l;
        if l !in r.crawled {
          var i :| |crawled.trace| <= i < |r.trace| && r.trace[i] == Started(depth + 1, links[k], url);
          assert |s.trace| <= i;
        }
      }
    }
  }

  /** Every URL that a page ended from position `from` on links to is in
      SeenUrls. */
  ghost predicate LinksSeen(web: Web, s: State, from: nat)
  {
    forall i, u ::
      from <= i < |s.trace| && s.trace[i].Ended? && LinkedFrom(s.trace[i].doc.anchors, web.isValidUrl, u)
      ==> u in s.seen
  }

  lemma {:induction false} VisitMarksLinksSeen(c: Config, web: Web, s: State, url: string, prevUrl: string, depth: nat)
    ensures var (r, status) := Visit(c, web, s, url, prevUrl, depth);
      status.Completed? ==> LinksSeen(web, r, |s.trace|)
    decreases c.targetDepth - depth + 1, 1, 0
  {
    if depth <= c.targetDepth && url !in s.crawled && url in web.pages {
      var e := EndedEvent(web, url, prevUrl, depth);
      var crawled := s.(trace := s.trace + [Started(depth, url, prevUrl), e],
                        crawled := s.crawled + [url]);
      var links := ExtractLinks(web, web.pages[url], s.seen);
      VisitLinksMarksLinksSeen(c, web, crawled, links, url, depth);
      VisitLinksFollowsAll(c, web, crawled, links, url, depth);
      VisitLinksGrows(c, web, crawled, links, url, depth);
      var (r, status) := Visit(c, web, s, url, prevUrl, depth);
      assert (r, status) == VisitLinks(c, web, crawled, links, url, depth);
      if status.Completed? {
        forall i, u | |s.trace| <= i < |r.trace| && r.trace[i].Ended? &&
            LinkedFrom(r.trace[i].doc.anchors, web.isValidUrl, u)
          ensures u in r.seen
        {
          if i < |crawled.trace| {
            assert r.trace[i] == crawled.trace[i];
            assert i == |s.trace| + 1 && r.trace[i] == e;
            if u !in s.seen {
              var k :| 0 <= k < |links| && links[k] == u;
            }
          }
        }
      }
    }
  }

  lemma {:induction false} VisitLinksMarksLinksSeen(c: Config, web: Web, s: State, links: seq<string>, url: string, depth: nat)
    requires depth <= c.targetDepth
    ensures var (r, status) := VisitLinks(c, web, s, links, url, depth);
      status.Completed? ==> LinksSeen(web, r, |s.trace|)
    decreases c.targetDepth - depth + 1, 0, |links|
  {
    if links != [] {
      var marked := s.(seen := s.seen + [links[0]]);
      VisitMarksLinksSeen(c, web, marked, links[0], url, depth + 1);
      var (after, st) := Visit(c, web, marked, links[0], url, depth + 1);
      if st.Completed? {
        VisitLinksMarksLinksSeen(c, web, after, links[1..], url, depth);
        VisitLinksGrows(c, web, after, links[1..], url, depth);
        var (r, status) := VisitLinks(c, web, s, links, url, depth);
        assert (r, status) == VisitLinks(c, web, after, links[1..], url, depth);
        if status.Completed? {
          forall i, u | |s.trace| <= i < |r.trace| && r.trace[i].Ended? &&
              LinkedFrom(r.trace[i].doc.anchors, web.isValidUrl, u)
            ensures u in r.seen
          {
            if i < |after.trace| {
              assert r.trace[i] == after.trace[i];
            }
          }
        }
      }
    }
  }

  /** No page is started again once it has ended: the `CrawledUrls.Contains`
      guard at the top of `_crawlPage`. */
  ghost predicate NoRestart(trace: seq<Event>)
  {
    forall i, j :: 0 <= i < j < |trace| && trace[i].Ended? && trace[j].Started? ==> trace[j].url != trace[i].url
  }

  lemma NoRestartAppend(trace: seq<Event>, e: Event)
    requires NoRestart(trace)
    requires e.Started? ==> e.url !in EndedUrls(trace)
    ensures NoRestart(trace + [e])
  {
    var t := trace + [e];
    forall i, j | 0 <= i < j < |t| && t[i].Ended? && t[j].Started?
      ensures t[j].url != t[i].url
    {
      assert t[i] == trace[i];
      if j < |trace| {
        assert t[j] == trace[j];
      } else {
        assert trace[i].url in EndedUrls(trace);
      }
    }
  }

  /** A visit that starts from a state whose CrawledUrls are the ended pages
      never starts a page that has ended, neither its own URL nor any page
      of its subtree. */
  lemma {:induction false} VisitKeepsNoRestart(c: Config, web: Web, s: State, url: string, prevUrl: string, depth: nat)
    requires CrawledIsEnded(s) && NoRestart(s.trace)
    ensures NoRestart(Visit(c, web, s, url, prevUrl, depth).0.trace)
    decreases c.targetDepth - depth + 1, 1, 0
  {
    if depth <= c.targetDepth && url !in s.crawled {
      var st := Started(depth, url, prevUrl);
      NoRestartAppend(s.trace, st);
      if url in web.pages {
        var e := EndedEvent(web, url, prevUrl, depth);
        NoRestartAppend(s.trace + [st], e);
        var crawled := s.(trace := s.trace + [st, e], crawled := s.crawled + [url]);
        assert crawled.trace == s.trace + [st] + [e];
        EndedUrlsOfPage(s.trace, st, e);
        assert CrawledIsEnded(crawled);
        VisitLinksKeepsNoRestart(c, web, crawled, ExtractLinks(web, web.pages[url], s.seen), url, depth);
      }
    }
  }

  lemma {:induction false} VisitLinksKeepsNoRestart(c: Config, web: Web, s: State, links: seq<string>, url: string, depth: nat)
    requires depth <= c.targetDepth
    requires CrawledIsEnded(s) && NoRestart(s.trace)
    ensures NoRestart(VisitLinks(c, web, s, links, url, depth).0.trace)
    decreases c.targetDepth - depth + 1, 0, |links|
  {
    if links != [] {
      var marked := s.(seen := s.seen + [links[0]]);
      VisitKeepsNoRestart(c, web, marked, links[0], url, depth + 1);
      VisitKeepsCrawledIsEnded(c, web, marked, links[0], url, depth + 1);
      var after := Visit(c, web, marked, links[0], url, depth + 1).0;
      VisitLinksKeepsNoRestart(c, web, after, links[1..], url, depth);
    }
  }

  /** The innermost page still open for depth `e` is `url`: the last
      notification shallower than `e` is the ended notification of `url`
      at depth `e - 1`. */
  ghost predicate OpenAt(trace: seq<Event>, e: int, url: string)
  {
    exists i :: 0 <= i < |trace| && trace[i].Ended? && trace[i].url == url && trace[i].depth == e - 1 &&
      forall m :: i < m < |trace| ==> trace[m].depth >= e
  }

  /** Depth-first order: every page started below the base URL is started
      while its previous page is the innermost page still open, so every
      notification between that page's end and this start belongs to a
      deeper subtree that is already finished. */
  ghost predicate DepthFirst(trace: seq<Event>)
  {
    forall j :: 0 <= j < |trace| && trace[j].Started? && trace[j].depth > 0 ==>
      OpenAt(trace[..j], trace[j].depth, trace[j].prevUrl)
  }

  lemma OpenAtExtend(trace: seq<Event>, more: seq<Event>, e: int, url: string)
    requires OpenAt(trace, e, url)
    requires forall m :: 0 <= m < |more| ==> more[m].depth >= e
    ensures OpenAt(trace + more, e, url)
  {
    var i :| 0 <= i < |trace| && trace[i].Ended? && trace[i].url == url && trace[i].depth == e - 1 &&
      forall m :: i < m < |trace| ==> trace[m].depth >= e;
    var t := trace + more;
    assert t[i] == trace[i];
    forall m | i < m < |t| ensures t[m].depth >= e {
      if m < |trace| {
        assert t[m] == trace[m];
      } else {
        assert t[m] == more[m - |trace|];
      }
    }
  }

  lemma DepthFirstAppend(trace: seq<Event>, ev: Event)
    requires DepthFirst(trace)
    requires ev.Started? && ev.depth > 0 ==> OpenAt(trace, ev.depth, ev.prevUrl)
    ensures DepthFirst(trace + [ev])
  {
    var t := trace + [ev];
    forall j | 0 <= j < |t| && t[j].Started? && t[j].depth > 0
      ensures OpenAt(t[..j], t[j].depth, t[j].prevUrl)
    {
      if j < |trace| {
        assert t[..j] == trace[..j] && t[j] == trace[j];
      } else {
        assert t[..j] == trace;
      }
    }
  }

  lemma {:induction false} VisitDepthFirst(c: Config, web: Web, s: State, url: string, prevUrl: string, depth: nat)
    requires DepthFirst(s.trace)
    requires depth > 0 ==> OpenAt(s.trace, depth, prevUrl)
    ensures DepthFirst(Visit(c, web, s, url, prevUrl, depth).0.trace)
    decreases c.targetDepth - depth + 1, 1, 0
  {
    if depth <= c.targetDepth && url !in s.crawled {
      DepthFirstAppend(s.trace, Started(depth, url, prevUrl));
      if url in web.pages {
        var t1 := s.trace + [Started(depth, url, prevUrl)];
        var e := EndedEvent(web, url, prevUrl, depth);
        DepthFirstAppend(t1, e);
        var crawled := s.(trace := s.trace + [Started(depth, url, prevUrl), e],
                          crawled := s.crawled + [url]);
        assert crawled.trace == t1 + [e];
        assert crawled.trace[|crawled.trace| - 1] == e;
        assert OpenAt(crawled.trace, depth + 1, url);
        VisitLinksDepthFirst(c, web, crawled, ExtractLinks(web, web.pages[url], s.seen), url, depth);
      }
    }
  }

  lemma {:induction false} VisitLinksDepthFirst(c: Config, web: Web, s: State, links: seq<string>, url: string, depth: nat)
    requires depth <= c.targetDepth
    requires DepthFirst(s.trace) && OpenAt(s.trace, depth + 1, url)
    ensures DepthFirst(VisitLinks(c, web, s, links, url, depth).0.trace)
    decreases c.targetDepth - depth + 1, 0, |links|
  {
    if links != [] {
      var marked := s.(seen := s.seen + [links[0]]);
      VisitDepthFirst(c, web, marked, links[0], url, depth + 1);
      VisitDepths(c, web, marked, links[0], url, depth + 1);
      VisitGrows(c, web, marked, links[0], url, depth + 1);
      var after := Visit(c, web, marked, links[0], url, depth + 1).0;
      var more := after.trace[|s.trace|..];
      assert after.trace == s.trace + more;
      forall m | 0 <= m < |more| ensures more[m].depth >= depth + 1 {
        assert more[m] == after.trace[|s.trace| + m];
      }
      OpenAtExtend(s.trace, more, depth + 1, url);
      VisitLinksDepthFirst(c, web, after, links[1..], url, depth);
    }
  }

  /** What one Run guarantees: CrawledUrls lists the pages that ended, each
      once; no notification lies beyond TargetDepth; ended notifications
      belong to successful downloads; every page below the base URL was
      linked from a page crawled one level up and is in SeenUrls; an
      exception escapes only from a failed download whose started
      notification is the last one, and when HTTP errors are not ignored
      and none escapes every page started was downloaded; the base URL is
      started first, at depth 0 with "Root" as previous URL, unless
      TargetDepth is negative; pages are visited depth first; when no
      exception escapes, every URL a crawled page links to is in SeenUrls;
      and no page is started again after it has ended. */
  lemma EagerRunGuarantees(c: Config, web: Web)
    requires c.baseUrl.Some?
    ensures var (r, status) := EagerRun(c, web);
      r.crawled == EndedUrls(r.trace) && NoDuplicates(EndedUrls(r.trace)) &&
      DepthsWithin(r.trace, 0, 0, c.targetDepth) &&
      EventsFaithful(web, r.trace) && Discovered(web, r) &&
      AbortsAtFailedDownload(c, web, 0, r, status) &&
      (r.trace != [] <==> c.targetDepth >= 0) &&
      (r.trace != [] ==> r.trace[0] == Started(0, c.baseUrl.value, "Root")) &&
      DepthFirst(r.trace) && (status.Completed? ==> LinksSeen(web, r, 0)) &&
      NoRestart(r.trace)
  {
    var s0 := State([], [], []);
    var url := c.baseUrl.value;
    VisitKeepsCrawledIsEnded(c, web, s0, url, "Root", 0);
    VisitDepths(c, web, s0, url, "Root", 0);
    VisitKeepsEventsFaithful(c, web, s0, url, "Root", 0);
    VisitKeepsDiscovered(c, web, s0, url, "Root", 0);
    VisitAborts(c, web, s0, url, "Root", 0);
    VisitDepthFirst(c, web, s0, url, "Root", 0);
    VisitMarksLinksSeen(c, web, s0, url, "Root", 0);
    VisitKeepsNoRestart(c, web, s0, url, "Root", 0);
    if c.targetDepth >= 0 && url in web.pages {
      var crawled := s0.(trace := s0.trace + [Started(0, url, "Root"), EndedEvent(web, url, "Root", 0)],
                         crawled := s0.crawled + [url]);
      var links := ExtractLinks(web, web.pages[url], s0.seen);
      assert EagerRun(c, web) == VisitLinks(c, web, crawled, links, url, 0);
      VisitLinksGrows(c, web, crawled, links, url, 0);
      var r := EagerRun(c, web).0;
      assert crawled.trace <= r.trace;
      assert r.trace[0] == crawled.trace[0];
    }
  }
}
