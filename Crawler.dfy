/** What both crawlers share (the ICrawler contract and the event records of
    Downloader/Public.cs, and the configuration copying that
    EagerDescendingCrawler.cs and LevelDescendingCrawler.cs write out alike):
    configuration, notifications, the abstract web, run outcomes. */
module Crawler {
  import opened Wrappers
  import opened Helper
  import opened HtmlExtensions

  /** A registered event handler. Only its identity matters to the model:
      the delegate's code is not part of it. */
  datatype Handler = Handler(id: nat)

  /** The configurable properties of a crawler instance. `baseUrl` is None
      while the BaseUrl property is still null. */
  datatype Config = Config(
    baseUrl: Option<string>,
    ignoreHttpErrors: bool,
    targetDepth: int,
    startedHandlers: seq<Handler>,
    endedHandlers: seq<Handler>)

  /** The failures that escape a crawler: a null BaseUrl read by a copy
      (NullReferenceException), a download that failed while HTTP errors are
      not ignored (WebException), and a level the level crawler never filled
      (InvalidOperationException). */
  datatype CrawlError = NullReference | WebError(url: string) | LevelNotFound(level: nat)

  /** How a crawl ended: normally, or by an exception escaping Run. */
  datatype Status = Completed | Aborted(error: CrawlError)

  /** The data handed to handlers: PageCrawlStartedData and PageCrawlEndedData. */
  datatype Event =
    | Started(depth: nat, url: string, prevUrl: string)
    | Ended(depth: nat, url: string, prevUrl: string, title: string, doc: Document)

  /** The network and HTML decoding, which the model does not implement:
      `pages` holds every URL whose download succeeds, with the page it
      parses to (any other URL fails with a WebException); `isValidUrl`
      stands for Helper.IsValidUrl (Uri.TryCreate, absolute, http or https)
      and `htmlDecode` for WebUtility.HtmlDecode. */
  datatype Web = Web(
    pages: map<string, Document>,
    isValidUrl: string -> bool,
    htmlDecode: string -> string)

  /** Every instance keeps its BaseUrl normalised (the property setter
      normalises whatever it is given). */
  predicate WellFormed(c: Config)
  {
    c.baseUrl.Some? ==> IsNormalized(c.baseUrl.value)
  }

  /** The public parameterless constructor with its property initialisers. */
  function Default(): (c: Config)
    ensures c.baseUrl.None? && c.ignoreHttpErrors && c.targetDepth == 5
    ensures c.startedHandlers == [] && c.endedHandlers == []
  {
    Config(None, true, 5, [], [])
  }

  /** The BaseUrl property setter. */
  function SetBaseUrl(c: Config, url: string): (r: Config)
    ensures WellFormed(r) && r.baseUrl.Some?
    ensures r.baseUrl.value == NormalizeUrl(url)
    ensures r.(baseUrl := c.baseUrl) == c
  {
    c.(baseUrl := Some(NormalizeUrl(url)))
  }

  /** The private copy constructor `Crawler(ICrawler prev)`, and the copy
      that Clone makes through the property initialisers: both assign
      `BaseUrl = prev.BaseUrl`, which runs NormalizeUrl on a null string
      when prev has none. */
  function CopyOf(prev: Config): (r: Result<Config, CrawlError>)
    ensures r.Failure? <==> prev.baseUrl.None?
    ensures r.Failure? ==> r.error == NullReference
    ensures r.Success? ==> WellFormed(r.value)
    ensures WellFormed(prev) && prev.baseUrl.Some? ==> r == Success(prev)
  {
    match prev.baseUrl
    case None => Failure(NullReference)
    case Some(url) =>
      assert WellFormed(prev) ==> SetBaseUrl(prev, url) == prev by {
        if WellFormed(prev) { NormalizeUrlFixesNormalized(url); }
      }
      Success(SetBaseUrl(prev, url))
  }

  /** WithUrl: a fresh instance with default settings and only BaseUrl set;
      nothing of the receiver is kept. */
  function WithUrl(url: string): (r: Config)
    ensures WellFormed(r) && r.baseUrl == Some(NormalizeUrl(url))
    ensures r.(baseUrl := None) == Default()
  {
    SetBaseUrl(Default(), url)
  }

  function WithTargetDepth(c: Config, targetDepth: int): (r: Result<Config, CrawlError>)
    ensures r.Failure? <==> c.baseUrl.None?
    ensures WellFormed(c) && r.Success? ==> r.value == c.(targetDepth := targetDepth)
  {
    match CopyOf(c)
    case Failure(e) => Failure(e)
    case Success(copy) => Success(copy.(targetDepth := targetDepth))
  }

  function SetIgnoreHttpErrors(c: Config, ignore: bool): (r: Result<Config, CrawlError>)
    ensures r.Failure? <==> c.baseUrl.None?
    ensures WellFormed(c) && r.Success? ==> r.value == c.(ignoreHttpErrors := ignore)
  {
    match CopyOf(c)
    case Failure(e) => Failure(e)
    case Success(copy) => Success(copy.(ignoreHttpErrors := ignore))
  }

  /** OnPageCrawlStarted: the new handler goes after those already registered. */
  function OnPageCrawlStarted(c: Config, h: Handler): (r: Result<Config, CrawlError>)
    ensures r.Failure? <==> c.baseUrl.None?
    ensures WellFormed(c) && r.Success? ==> r.value == c.(startedHandlers := c.startedHandlers + [h])
  {
    match CopyOf(c)
    case Failure(e) => Failure(e)
    case Success(copy) => Success(copy.(startedHandlers := c.startedHandlers + [h]))
  }

  function OnPageCrawlEnded(c: Config, h: Handler): (r: Result<Config, CrawlError>)
    ensures r.Failure? <==> c.baseUrl.None?
    ensures WellFormed(c) && r.Success? ==> r.value == c.(endedHandlers := c.endedHandlers + [h])
  {
    match CopyOf(c)
    case Failure(e) => Failure(e)
    case Success(copy) => Success(copy.(endedHandlers := c.endedHandlers + [h]))
  }

  /** One call of a builder method that copies the receiver. */
  datatype BuildStep =
    | TargetDepthStep(targetDepth: int)
    | IgnoreHttpErrorsStep(ignore: bool)
    | StartedHandlerStep(handler: Handler)
    | EndedHandlerStep(handler: Handler)

  function ApplyStep(c: Config, step: BuildStep): Result<Config, CrawlError>
  {
    match step
    case TargetDepthStep(d) => WithTargetDepth(c, d)
    case IgnoreHttpErrorsStep(b) => SetIgnoreHttpErrors(c, b)
    case StartedHandlerStep(h) => OnPageCrawlStarted(c, h)
    case EndedHandlerStep(h) => OnPageCrawlEnded(c, h)
  }

  /** A chain of builder calls; the first failure ends it. */
  function Build(c: Config, steps: seq<BuildStep>): Result<Config, CrawlError>
    decreases |steps|
  {
    if steps == [] then Success(c)
    else match ApplyStep(c, steps[0])
      case Failure(e) => Failure(e)
      case Success(next) => Build(next, steps[1..])
  }

  function StartedHandlersOf(steps: seq<BuildStep>): seq<Handler>
  {
    if steps == [] then []
    else (if steps[0].StartedHandlerStep? then [steps[0].handler] else []) + StartedHandlersOf(steps[1..])
  }

  function EndedHandlersOf(steps: seq<BuildStep>): seq<Handler>
  {
    if steps == [] then []
    else (if steps[0].EndedHandlerStep? then [steps[0].handler] else []) + EndedHandlersOf(steps[1..])
  }

  /** A chain of builder calls on an instance that has a BaseUrl never fails,
      keeps the BaseUrl, and registers the handlers in the order the calls
      name them, after those already registered. */
  lemma {:induction false} BuildChain(c: Config, steps: seq<BuildStep>)
    requires WellFormed(c) && c.baseUrl.Some?
    ensures Build(c, steps).Success?
    ensures var r := Build(c, steps).value;
      WellFormed(r) && r.baseUrl == c.baseUrl &&
      r.startedHandlers == c.startedHandlers + StartedHandlersOf(steps) &&
      r.endedHandlers == c.endedHandlers + EndedHandlersOf(steps)
    decreases |steps|
  {
    if steps != [] {
      var step := steps[0];
      ApplyStepKeeps(c, step);
      var next := ApplyStep(c, step).value;
      assert Build(c, steps) == Build(next, steps[1..]);
      BuildChain(next, steps[1..]);
      var r := Build(next, steps[1..]).value;
      var started := if step.StartedHandlerStep? then [step.handler] else [];
      var ended := if step.EndedHandlerStep? then [step.handler] else [];
      assert StartedHandlersOf(steps) == started + StartedHandlersOf(steps[1..]);
      assert EndedHandlersOf(steps) == ended + EndedHandlersOf(steps[1..]);
      calc {
        r.startedHandlers;
        next.startedHandlers + StartedHandlersOf(steps[1..]);
        (c.startedHandlers + started) + StartedHandlersOf(steps[1..]);
        c.startedHandlers + (started + StartedHandlersOf(steps[1..]));
      }
      calc {
        r.endedHandlers;
        next.endedHandlers + EndedHandlersOf(steps[1..]);
        (c.endedHandlers + ended) + EndedHandlersOf(steps[1..]);
        c.endedHandlers + (ended + EndedHandlersOf(steps[1..]));
      }
    }
  }

  lemma ApplyStepKeeps(c: Config, step: BuildStep)
    requires WellFormed(c) && c.baseUrl.Some?
    ensures ApplyStep(c, step).Success?
    ensures var next := ApplyStep(c, step).value;
      WellFormed(next) && next.baseUrl == c.baseUrl &&
      next.startedHandlers == c.startedHandlers + (if step.StartedHandlerStep? then [step.handler] else []) &&
      next.endedHandlers == c.endedHandlers + (if step.EndedHandlerStep? then [step.handler] else [])
  {
    match step
    case TargetDepthStep(d) =>
    case IgnoreHttpErrorsStep(b) =>
    case StartedHandlerStep(h) =>
    case EndedHandlerStep(h) =>
  }

  /** URLs of the Ended notifications of a trace, in order. */
  function EndedUrls(trace: seq<Event>): (r: seq<string>)
    ensures forall u :: u in r <==> exists i :: 0 <= i < |trace| && trace[i].Ended? && trace[i].url == u
  {
    if trace == [] then []
    else
      var last := trace[|trace| - 1];
      var init := EndedUrls(trace[..|trace| - 1]);
      assert forall i :: 0 <= i < |trace| - 1 ==> trace[..|trace| - 1][i] == trace[i];
      if last.Ended? then init + [last.url] else init
  }

  /** Some notification before position `before` says that `url` ended at `depth`. */
  ghost predicate EndedBefore(trace: seq<Event>, before: int, url: string, depth: int)
  {
    exists j :: 0 <= j < before && j < |trace| && trace[j].Ended? && trace[j].url == url && trace[j].depth == depth
  }

  /** Every page started from position `from` on was downloaded. */
  ghost predicate StartedDownloaded(web: Web, trace: seq<Event>, from: nat)
  {
    forall i :: from <= i < |trace| && trace[i].Started? ==> trace[i].url in web.pages
  }

  lemma EndedUrlsAppend(trace: seq<Event>, more: seq<Event>)
    ensures EndedUrls(trace + more) == EndedUrls(trace) + EndedUrls(more)
    decreases |more|
  {
    if more != [] {
      var init := more[..|more| - 1];
      assert (trace + more)[..|trace + more| - 1] == trace + init;
      EndedUrlsAppend(trace, init);
    } else {
      assert trace + more == trace;
    }
  }
}
