/** What the depth-first traversal of Downloader/EagerDescendingCrawler.cs
    guarantees, proved about the functions that specify it. */
module EagerProperties {
  import opened Wrappers
  import opened Helper
  import opened HtmlExtensions
  import opened Crawler
  import opened EagerDescending

  /** SeenUrls, CrawledUrls and the notifications are only ever appended to. */
  predicate Grows(s: State, r: State)
  {
    s.seen <= r.seen && s.crawled <= r.crawled && s.trace <= r.trace
  }

  lemma {:induction false} VisitGrows(c: Config, web: Web, s: State, url: string, prevUrl: string, depth: nat)
    ensures Grows(s, Visit(c, web, s, url, prevUrl, depth).0)
    decreases c.targetDepth - depth + 1, 1, 0
  {
    if depth <= c.targetDepth && url !in s.crawled && url in web.pages {
      var crawled := s.(trace := s.trace + [Started(depth, url, prevUrl), EndedEvent(web, url, prevUrl, depth)],
                        crawled := s.crawled + [url]);
      VisitLinksGrows(c, web, crawled, ExtractLinks(web, web.pages[url], s.seen), url, depth);
    }
  }

  lemma {:induction false} VisitLinksGrows(c: Config, web: Web, s: State, links: seq<string>, url: string, depth: nat)
    requires depth <= c.targetDepth
    ensures Grows(s, VisitLinks(c, web, s, links, url, depth).0)
    decreases c.targetDepth - depth + 1, 0, |links|
  {
    if links != [] {
      var marked := s.(seen := s.seen + [links[0]]);
      VisitGrows(c, web, marked, links[0], url, depth + 1);
      var after := Visit(c, web, marked, links[0], url, depth + 1).0;
      VisitLinksGrows(c, web, after, links[1..], url, depth);
    }
  }

  /** CrawledUrls lists exactly the URLs of the ended notifications, in
      order, and none twice. */
  ghost predicate CrawledIsEnded(s: State)
  {
    s.crawled == EndedUrls(s.trace) && NoDuplicates(s.crawled)
  }

  lemma EndedUrlsOfStarted(trace: seq<Event>, e: Event)
    requires e.Started?
    ensures EndedUrls(trace + [e]) == EndedUrls(trace)
  {
    assert (trace + [e])[..|trace|] == trace;
  }

  lemma EndedUrlsOfPage(trace: seq<Event>, e: Event, f: Event)
    requires e.Started? && f.Ended?
    ensures EndedUrls(trace + [e, f]) == EndedUrls(trace) + [f.url]
  {
    assert (trace + [e, f])[..|trace| + 1] == trace + [e];
    EndedUrlsOfStarted(trace, e);
  }

  lemma {:induction false} VisitKeepsCrawledIsEnded(c: Config, web: Web, s: State, url: string, prevUrl: string, depth: nat)
    requires CrawledIsEnded(s)
    ensures CrawledIsEnded(Visit(c, web, s, url, prevUrl, depth).0)
    decreases c.targetDepth - depth + 1, 1, 0
  {
    if depth <= c.targetDepth && url !in s.crawled {
      if url !in web.pages {
        EndedUrlsOfStarted(s.trace, Started(depth, url, prevUrl));
      } else {
        var crawled := s.(trace := s.trace + [Started(depth, url, prevUrl), EndedEvent(web, url, prevUrl, depth)],
                          crawled := s.crawled + [url]);
        EndedUrlsOfPage(s.trace, Started(depth, url, prevUrl), EndedEvent(web, url, prevUrl, depth));
        VisitLinksKeepsCrawledIsEnded(c, web, crawled, ExtractLinks(web, web.pages[url], s.seen), url, depth);
      }
    }
  }

  lemma {:induction false} VisitLinksKeepsCrawledIsEnded(c: Config, web: Web, s: State, links: seq<string>, url: string, depth: nat)
    requires depth <= c.targetDepth
    requires CrawledIsEnded(s)
    ensures CrawledIsEnded(VisitLinks(c, web, s, links, url, depth).0)
    decreases c.targetDepth - depth + 1, 0, |links|
  {
    if links != [] {
      var marked := s.(seen := s.seen + [links[0]]);
      VisitKeepsCrawledIsEnded(c, web, marked, links[0], url, depth + 1);
      var after := Visit(c, web, marked, links[0], url, depth + 1).0;
      VisitLinksKeepsCrawledIsEnded(c, web, after, links[1..], url, depth);
    }
  }

  /** The notifications from position `from` on carry depths in [lo, hi]. */
  ghost predicate DepthsWithin(trace: seq<Event>, from: nat, lo: int, hi: int)
  {
    forall i :: from <= i < |trace| ==> lo <= trace[i].depth <= hi
  }

  /** A visit at `depth` notifies only at depths from `depth` up to
      TargetDepth: nothing is started beyond TargetDepth. */
  lemma {:induction false} VisitDepths(c: Config, web: Web, s: State, url: string, prevUrl: string, depth: nat)
    ensures DepthsWithin(Visit(c, web, s, url, prevUrl, depth).0.trace, |s.trace|, depth, c.targetDepth)
    decreases c.targetDepth - depth + 1, 1, 0
  {
    if depth <= c.targetDepth && url !in s.crawled && url in web.pages {
      var crawled := s.(trace := s.trace + [Started(depth, url, prevUrl), EndedEvent(web, url, prevUrl, depth)],
                        crawled := s.crawled + [url]);
      var links := ExtractLinks(web, web.pages[url], s.seen);
      VisitLinksDepths(c, web, crawled, links, url, depth);
      VisitLinksGrows(c, web, crawled, links, url, depth);
    }
  }

  lemma {:induction false} VisitLinksDepths(c: Config, web: Web, s: State, links: seq<string>, url: string, depth: nat)
    requires depth <= c.targetDepth
    ensures DepthsWithin(VisitLinks(c, web, s, links, url, depth).0.trace, |s.trace|, depth + 1, c.targetDepth)
    decreases c.targetDepth - depth + 1, 0, |links|
  {
    if links != [] {
      var marked := s.(seen := s.seen + [links[0]]);
      VisitDepths(c, web, marked, links[0], url, depth + 1);
      VisitGrows(c, web, marked, links[0], url, depth + 1);
      var after := Visit(c, web, marked, links[0], url, depth + 1).0;
      VisitLinksDepths(c, web, after, links[1..], url, depth);
      VisitLinksGrows(c, web, after, links[1..], url, depth);
    }
  }

  /** An exception escapes only when HTTP errors are not ignored, and only
      from a download that failed; the started notification of that URL is
      the last notification made. Conversely, when HTTP errors are not
      ignored and no exception escapes, every page started was downloaded:
      a failed download is never swallowed. */
  ghost predicate AbortsAtFailedDownload(c: Config, web: Web, from: nat, r: State, status: Status)
  {
    (c.ignoreHttpErrors ==> status == Completed) &&
    (status.Aborted? ==>
      status.error.WebError? && status.error.url !in web.pages &&
      from < |r.trace| && r.trace[|r.trace| - 1].Started? && r.trace[|r.trace| - 1].url == status.error.url) &&
    (!c.ignoreHttpErrors && status.Completed? ==> StartedDownloaded(web, r.trace, from))
  }

  lemma {:induction false} VisitAborts(c: Config, web: Web, s: State, url: string, prevUrl: string, depth: nat)
    ensures var (r, status) := Visit(c, web, s, url, prevUrl, depth);
      AbortsAtFailedDownload(c, web, |s.trace|, r, status)
    decreases c.targetDepth - depth + 1, 1, 0
  {
    if depth <= c.targetDepth && url !in s.crawled && url in web.pages {
      var crawled := s.(trace := s.trace + [Started(depth, url, prevUrl), EndedEvent(web, url, prevUrl, depth)],
                        crawled := s.crawled + [url]);
      var links := ExtractLinks(web, web.pages[url], s.seen);
      VisitLinksAborts(c, web, crawled, links, url, depth);
      VisitLinksGrows(c, web, crawled, links, url, depth);
      var (r, status) := VisitLinks(c, web, crawled, links, url, depth);
      if !c.ignoreHttpErrors && status.Completed? {
        forall i | |s.trace| <= i < |r.trace| && r.trace[i].Started?
          ensures r.trace[i].url in web.pages
        {
          if i < |crawled.trace| {
            assert r.trace[i] == crawled.trace[i];
          }
        }
      }
    }
  }

  lemma {:induction false} VisitLinksAborts(c: Config, web: Web, s: State, links: seq<string>, url: string, depth: nat)
    requires depth <= c.targetDepth
    ensures var (r, status) := VisitLinks(c, web, s, links, url, depth);
      AbortsAtFailedDownload(c, web, |s.trace|, r, status)
    decreases c.targetDepth - depth + 1, 0, |links|
  {
    if links != [] {
      var marked := s.(seen := s.seen + [links[0]]);
      VisitAborts(c, web, marked, links[0], url, depth + 1);
      VisitGrows(c, web, marked, links[0], url, depth + 1);
      var (after, st) := Visit(c, web, marked, links[0], url, depth + 1);
      VisitLinksAborts(c, web, after, links[1..], url, depth);
      VisitLinksGrows(c, web, after, links[1..], url, depth);
      var (r, status) := VisitLinks(c, web, s, links, url, depth);
      if !c.ignoreHttpErrors && status.Completed? {
        assert st.Completed?;
        forall i | |s.trace| <= i < |r.trace| && r.trace[i].Started?
          ensures r.trace[i].url in web.pages
        {
          if i < |after.trace| {
            assert r.trace[i] == after.trace[i];
          }
        }
      }
    }
  }

  /** Every ended notification directly follows the started notification of
      the same visit, for a URL whose download succeeded, and carries that
      page and its decoded title. So a failed download never gets one. */
  ghost predicate EventsFaithful(web: Web, trace: seq<Event>)
  {
    forall i :: 0 <= i < |trace| && trace[i].Ended? ==>
      0 < i && trace[i].url in web.pages &&
      trace[i - 1] == Started(trace[i].depth, trace[i].url, trace[i].prevUrl) &&
      trace[i] == EndedEvent(web, trace[i].url, trace[i].prevUrl, trace[i].depth)
  }

  lemma EventsFaithfulAppend(web: Web, trace: seq<Event>, depth: nat, url: string, prevUrl: string)
    requires EventsFaithful(web, trace)
    ensures EventsFaithful(web, trace + [Started(depth, url, prevUrl)])
    ensures url in web.pages ==>
      EventsFaithful(web, trace + [Started(depth, url, prevUrl), EndedEvent(web, url, prevUrl, depth)])
  {
    var t1 := trace + [Started(depth, url, prevUrl)];
    assert forall i :: 0 <= i < |trace| ==> t1[i] == trace[i];
    if url in web.pages {
      var t2 := trace + [Started(depth, url, prevUrl), EndedEvent(web, url, prevUrl, depth)];
      assert forall i :: 0 <= i < |trace| ==> t2[i] == trace[i];
    }
  }

  lemma {:induction false} VisitKeepsEventsFaithful(c: Config, web: Web, s: State, url: string, prevUrl: string, depth: nat)
    requires EventsFaithful(web, s.trace)
    ensures EventsFaithful(web, Visit(c, web, s, url, prevUrl, depth).0.trace)
    decreases c.targetDepth - depth + 1, 1, 0
  {
    if depth <= c.targetDepth && url !in s.crawled {
      EventsFaithfulAppend(web, s.trace, depth, url, prevUrl);
      if url in web.pages {
        var crawled := s.(trace := s.trace + [Started(depth, url, prevUrl), EndedEvent(web, url, prevUrl, depth)],
                          crawled := s.crawled + [url]);
        VisitLinksKeepsEventsFaithful(c, web, crawled, ExtractLinks(web, web.pages[url], s.seen), url, depth);
      }
    }
  }

  lemma {:induction false} VisitLinksKeepsEventsFaithful(c: Config, web: Web, s: State, links: seq<string>, url: string, depth: nat)
    requires depth <= c.targetDepth
    requires EventsFaithful(web, s.trace)
    ensures EventsFaithful(web, VisitLinks(c, web, s, links, url, depth).0.trace)
    decreases c.targetDepth - depth + 1, 0, |links|
  {
    if links != [] {
      var marked := s.(seen := s.seen + [links[0]]);
      VisitKeepsEventsFaithful(c, web, marked, links[0], url, depth + 1);
      var after := Visit(c, web, marked, links[0], url, depth + 1).0;
      VisitLinksKeepsEventsFaithful(c, web, after, links[1..], url, depth);
    }
  }

  /** Every page started below the base URL was found on its previous page:
      that page ended one level up earlier in the run, and one of its
      anchors has a valid href that normalises to the URL. The URL is in
      SeenUrls. */
  ghost predicate Discovered(web: Web, s: State)
  {
    forall i :: 0 <= i < |s.trace| && s.trace[i].Started? && s.trace[i].depth > 0 ==>
      s.trace[i].url in s.seen &&
      s.trace[i].prevUrl in web.pages &&
      LinkedFrom(web.pages[s.trace[i].prevUrl].anchors, web.isValidUrl, s.trace[i].url) &&
      EndedBefore(s.trace, i, s.trace[i].prevUrl, s.trace[i].depth - 1)
  }

  /** What `_crawlPage` may assume about a link it is asked to visit. */
  ghost predicate FoundLink(web: Web, s: State, url: string, prevUrl: string, depth: nat)
  {
    depth > 0 ==>
      url in s.seen && prevUrl in web.pages &&
      LinkedFrom(web.pages[prevUrl].anchors, web.isValidUrl, url) &&
      EndedBefore(s.trace, |s.trace|, prevUrl, depth - 1)
  }

  lemma DiscoveredAppend(web: Web, s: State, e: Event, url: string, prevUrl: string, depth: nat)
    requires Discovered(web, s) && FoundLink(web, s, url, prevUrl, depth)
    requires e == Started(depth, url, prevUrl) || e.Ended?
    ensures Discovered(web, s.(trace := s.trace + [e]))
  {
    var t := s.trace + [e];
    forall i | 0 <= i < |t| && t[i].Started? && t[i].depth > 0
      ensures EndedBefore(t, i, t[i].prevUrl, t[i].depth - 1)
    {
      var j :| 0 <= j < i && j < |s.trace| && s.trace[j].Ended? && s.trace[j].url == t[i].prevUrl && s.trace[j].depth == t[i].depth - 1;
      assert t[j] == s.trace[j];
    }
  }

  lemma {:induction false} VisitKeepsDiscovered(c: Config, web: Web, s: State, url: string, prevUrl: string, depth: nat)
    requires Discovered(web, s) && FoundLink(web, s, url, prevUrl, depth)
    ensures Discovered(web, Visit(c, web, s, url, prevUrl, depth).0)
    decreases c.targetDepth - depth + 1, 1, 0
  {
    if depth <= c.targetDepth && url !in s.crawled {
      var started := s.(trace := s.trace + [Started(depth, url, prevUrl)]);
      DiscoveredAppend(web, s, Started(depth, url, prevUrl), url, prevUrl, depth);
      if url in web.pages {
        var e := EndedEvent(web, url, prevUrl, depth);
        DiscoveredAppend(web, started, e, url, prevUrl, 0);
        var crawled := s.(trace := s.trace + [Started(depth, url, prevUrl), e], crawled := s.crawled + [url]);
        assert started.(trace := started.trace + [e]) == crawled.(crawled := s.crawled);
        var links := ExtractLinks(web, web.pages[url], s.seen);
        assert crawled.trace[|s.trace| + 1] == e;
        VisitLinksKeepsDiscovered(c, web, crawled, links, url, depth);
      }
    }
  }

  lemma {:induction false} VisitLinksKeepsDiscovered(c: Config, web: Web, s: State, links: seq<string>, url: string, depth: nat)
    requires depth <= c.targetDepth
    requires Discovered(web, s) && url in web.pages
    requires forall l :: l in links ==> LinkedFrom(web.pages[url].anchors, web.isValidUrl, l)
    requires EndedBefore(s.trace, |s.trace|, url, depth)
    ensures Discovered(web, VisitLinks(c, web, s, links, url, depth).0)
    decreases c.targetDepth - depth + 1, 0, |links|
  {
    if links != [] {
      var marked := s.(seen := s.seen + [links[0]]);
      assert Discovered(web, marked);
      VisitKeepsDiscovered(c, web, marked, links[0], url, depth + 1);
      VisitGrows(c, web, marked, links[0], url, depth + 1);
      var after := Visit(c, web, marked, links[0], url, depth + 1).0;
      var j :| 0 <= j < |s.trace| && s.trace[j].Ended? && s.trace[j].url == url && s.trace[j].depth == depth;
      assert after.trace[j] == s.trace[j];
      VisitLinksKeepsDiscovered(c, web, after, links[1..], url, depth);
    }
  }
}
