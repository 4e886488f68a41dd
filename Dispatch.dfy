/** How the notifications of a crawl reach the handlers registered with
    OnPageCrawlStarted and OnPageCrawlEnded: `_notifyPageCrawlStarted` and
    `_notifyPageCrawlEnded` build one data object and call every handler of
    the list of that kind, in list order, with it. */
module Dispatch {
  import opened Crawler

  /** The handlers registered for the kind of a notification. */
  function HandlersFor(c: Config, e: Event): seq<Handler>
  {
    if e.Started? then c.startedHandlers else c.endedHandlers
  }

  /** The calls one notification makes to the handlers `hs`, in order. */
  function Deliveries(hs: seq<Handler>, e: Event): seq<(Handler, Event)>
  {
    if hs == [] then [] else Deliveries(hs[..|hs| - 1], e) + [(hs[|hs| - 1], e)]
  }

  /** Every handler call of a crawl, notification by notification. */
  function CallLog(c: Config, trace: seq<Event>): seq<(Handler, Event)>
  {
    if trace == [] then []
    else
      var last := trace[|trace| - 1];
      CallLog(c, trace[..|trace| - 1]) + Deliveries(HandlersFor(c, last), last)
  }

  /** The notifications that the handler `h` receives in a call log, in order. */
  function Received(log: seq<(Handler, Event)>, h: Handler): seq<Event>
  {
    if log == [] then []
    else
      var last := log[|log| - 1];
      Received(log[..|log| - 1], h) + (if last.0 == h then [last.1] else [])
  }

  /** How many times `h` is registered in `hs`. */
  function Count(hs: seq<Handler>, h: Handler): nat
  {
    if hs == [] then 0 else Count(hs[..|hs| - 1], h) + (if hs[|hs| - 1] == h then 1 else 0)
  }

  /** The notifications of `trace` of the selected kinds, in order. */
  function EventsOf(trace: seq<Event>, started: bool, ended: bool): seq<Event>
  {
    if trace == [] then []
    else
      var last := trace[|trace| - 1];
      EventsOf(trace[..|trace| - 1], started, ended) +
        (if (last.Started? && started) || (last.Ended? && ended) then [last] else [])
  }

  lemma {:induction false} ReceivedAppend(a: seq<(Handler, Event)>, b: seq<(Handler, Event)>, h: Handler)
    ensures Received(a + b, h) == Received(a, h) + Received(b, h)
    decreases |b|
  {
    if b != [] {
      var init := b[..|b| - 1];
      var last := b[|b| - 1];
      assert (a + b)[..|a + b| - 1] == a + init;
      assert (a + b)[|a + b| - 1] == last;
      ReceivedAppend(a, init, h);
    } else {
      assert a + b == a;
    }
  }

  /** One notification reaches `h` once per registration of `h`. */
  lemma {:induction false} ReceivedDeliveries(hs: seq<Handler>, e: Event, h: Handler)
    ensures Received(Deliveries(hs, e), h) == seq(Count(hs, h), _ => e)
    decreases |hs|
  {
    if hs != [] {
      var init := hs[..|hs| - 1];
      ReceivedDeliveries(init, e, h);
      var d := Deliveries(hs, e);
      assert d == Deliveries(init, e) + [(hs[|hs| - 1], e)];
      ReceivedAppend(Deliveries(init, e), [(hs[|hs| - 1], e)], h);
    }
  }

  /** A handler registered at most once for each kind of notification
      receives exactly the notifications of the kinds it is registered for,
      each once, in the order the crawler made them. */
  lemma {:induction false} HandlerReceives(c: Config, trace: seq<Event>, h: Handler)
    requires Count(c.startedHandlers, h) <= 1 && Count(c.endedHandlers, h) <= 1
    ensures Received(CallLog(c, trace), h) ==
      EventsOf(trace, Count(c.startedHandlers, h) == 1, Count(c.endedHandlers, h) == 1)
    decreases |trace|
  {
    if trace != [] {
      var init := trace[..|trace| - 1];
      var last := trace[|trace| - 1];
      var started, ended := Count(c.startedHandlers, h) == 1, Count(c.endedHandlers, h) == 1;
      var hs := HandlersFor(c, last);
      HandlerReceives(c, init, h);
      assert CallLog(c, trace) == CallLog(c, init) + Deliveries(hs, last);
      ReceivedAppend(CallLog(c, init), Deliveries(hs, last), h);
      ReceivedDeliveries(hs, last, h);
      var picked := if (last.Started? && started) || (last.Ended? && ended) then [last] else [];
      assert EventsOf(trace, started, ended) == EventsOf(init, started, ended) + picked;
      if Count(hs, h) == 0 {
        assert seq(Count(hs, h), _ => last) == [] == picked;
      } else {
        assert seq(Count(hs, h), _ => last) == [last] == picked;
      }
    }
  }

  /** The ended notifications of a trace carry its EndedUrls, in order. */
  lemma {:induction false} EndedEventsUrls(trace: seq<Event>)
    ensures var es := EventsOf(trace, false, true);
      |es| == |EndedUrls(trace)| &&
      forall i :: 0 <= i < |es| ==> es[i].Ended? && es[i].url == EndedUrls(trace)[i]
    decreases |trace|
  {
    if trace != [] {
      EndedEventsUrls(trace[..|trace| - 1]);
    }
  }

  /** A handler registered once with OnPageCrawlEnded and never with
      OnPageCrawlStarted is called once per crawled page, in order, and the
      URLs it receives are exactly EndedUrls of the crawl. */
  lemma EndedHandlerSeesEndedUrls(c: Config, trace: seq<Event>, h: Handler)
    requires Count(c.endedHandlers, h) == 1 && Count(c.startedHandlers, h) == 0
    ensures var got := Received(CallLog(c, trace), h);
      |got| == |EndedUrls(trace)| &&
      forall i :: 0 <= i < |got| ==> got[i].Ended? && got[i].url == EndedUrls(trace)[i]
  {
    HandlerReceives(c, trace, h);
    EndedEventsUrls(trace);
  }
}
