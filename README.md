# Crawler traversal engine in Dafny

This project models the traversal engine of the `Downloader` web crawler.

- **URL helpers and link extraction** (`Helper.NormalizeUrl`, `HtmlExtensions.GetUnseenUrls`, `HtmlExtensions.GetPageTitle`).
- **Immutable builder-style configuration** shared by both crawlers (`WithUrl`, `WithTargetDepth`, `SetIgnoreHttpErrors`, `OnPageCrawlStarted`, `OnPageCrawlEnded`, `Clone`, the copy constructor and the normalising `BaseUrl` setter).
- **`EagerDescendingCrawler`**, the depth-first crawler. It follows every discovered link at once, keeps `SeenUrls` and `CrawledUrls` lists and notifies a started and an ended event per page.
- **`LevelDescendingCrawler`**, the breadth-first crawler. Its `LevelManager` table maps each level to the nodes discovered for it. `Run` crawls the base URL, then handles levels `1..TargetDepth` one after the other.

The network and the HTML parser are replaced by a `Web` value:

- `pages` maps every URL whose download succeeds to its parsed `Document`. A document is the optional `href` of each `<a>` element, plus the optional text of the first `<title>`. A URL that is not in `pages` fails with a `WebException`.
- `isValidUrl` stands for `Helper.IsValidUrl`.
- `htmlDecode` stands for `WebUtility.HtmlDecode`.

Event handlers are identified by a `Handler` value. The notifications a crawler makes are recorded in a `trace` of `Started`/`Ended` events. Each event is delivered to every registered handler of its kind, in registration order. `Dispatch.CallLog` lists the handler calls of a whole trace, and `Dispatch.HandlerReceives` says what each handler receives.

The files are laid out as follows:

| file | module | contents |
|---|---|---|
| `Wrappers.dfy` | `Wrappers` | `Option`, `Result`, `NoDuplicates` |
| `Helper.dfy` | `Helper` | `NormalizeUrl` and its lemmas |
| `HtmlExtensions.dfy` | `HtmlExtensions` | the `GetUnseenUrls` pipeline, LINQ `Distinct`, `GetPageTitle` |
| `Crawler.dfy` | `Crawler` | configuration, builder functions, events, the `Web` oracle, run outcomes |
| `EagerDescending.dfy` | `EagerDescending` | spec functions `Visit`/`VisitLinks`/`EagerRun`; class `EagerCrawler` with the recursive `CrawlPage` and `Run` methods proved against them |
| `EagerProperties.dfy` | `EagerProperties` | what an eager run guarantees |
| `LevelDescending.dfy` | `LevelDescending` | class `LevelManager`, the per-page and per-level spec functions, class `LevelCrawler` proved against them |
| `LevelProperties.dfy` | `LevelProperties` | level order, consistency and abort reasons of a level run |
| `EagerTraversal.dfy` | `EagerTraversal` | how an eager run follows links: completeness, sibling order, depth-first order, and the whole-run guarantees |
| `LevelDiscovery.dfy` | `LevelDiscovery` | where the nodes of the level table come from |
| `LevelCoverage.dfy` | `LevelCoverage` | what a level run reaches, the converse of its abort reasons, and the whole-run guarantees |
| `Dispatch.dfy` | `Dispatch` | which notifications each registered handler receives |

The level crawler starts every page of a level through `Select(...).ToArray()`. Each `_crawlPage` runs synchronously up to the first `await`, the download. Each page's remainder runs when its download completes, and `Task.WaitAll` waits for all of them, even after one has thrown. The code fixes no order among these continuations. The model picks one schedule that the code admits:

- first phase: start every node in list order;
- second phase: finish every started node in list order.

Under this schedule a failure ends `Run` only after the whole level has finished, and the first failure in list order is the one reported. That a level's started notifications all come before its ended ones (`LevelProperties.RunLevelsInOrder`) is a property of this schedule, not a guarantee of the code. Other schedules are admissible, for example finishing each node before starting the next. That schedule notifies in a different order (S1 E1 S2 E2 instead of S1 S2 E1 E2), and it may also skip a URL that occurs twice in a level. The table never holds a URL twice (`LevelProperties.UniqueNodes`), so the set of pages crawled is the same under both schedules; the notification order is not.

The eager crawler marks a link seen before it checks the depth of the visit. A URL that first turns up on a page at TargetDepth is therefore marked seen but never started, and a shallower page that links to it later does not extract it again. The class comment at `Downloader/EagerDescendingCrawler.cs:11-14` describes this. The completeness lemmas of `EagerTraversal` are stated accordingly: per page, over the links extracted from it.

## Model

| member | source | states |
|---|---|---|
| Helper.BeforeFirst | Downloader/Public.cs:180-181 | `Split(c)[0]` is a prefix of the input without `c`, and it stops only at an occurrence of `c` |
| Helper.BeforeFirstAbsent | Downloader/Public.cs:180-181 | splitting on a character that does not occur returns the whole string |
| Helper.NormalizeUrl | Downloader/Public.cs:178-189 | the result has no `#`, no `?` and ends with `/` |
| Helper.NormalizeUrlFixesNormalized | Downloader/Public.cs:178-189 | a URL without `#`/`?` that already ends with `/` comes back unchanged |
| Helper.NormalizeUrlIdempotent | Downloader/Public.cs:178-189 | normalising twice equals normalising once |
| Helper.NormalizeUrlKeepsCleanPrefix | Downloader/Public.cs:178-189 | the result is the longest prefix free of `#` and `?`, plus at most one added `/` |
| HtmlExtensions.Candidates | Downloader/Public.cs:140-145 | the Where/Select stages yield exactly the normalised valid hrefs that are not seen; anchors without an href contribute nothing |
| HtmlExtensions.Distinct | Downloader/Public.cs:146 | the result has no duplicates and the same elements as the input |
| HtmlExtensions.DistinctKeepsFirstOccurrenceOrder | Downloader/Public.cs:146 | `Distinct` keeps elements in the order of their first occurrence |
| HtmlExtensions.GetUnseenUrls | Downloader/Public.cs:137-147 | no duplicates; every URL is normalised and not seen; `u` is returned iff some anchor's valid href normalises to `u` and `u` is not seen |
| HtmlExtensions.FirstAnchor | Downloader/Public.cs:140-145 | the position of the first anchor, in document order, whose valid href normalises to `u` |
| HtmlExtensions.CandidatesInDocumentOrder | Downloader/Public.cs:140-145 | of two candidates, the one that occurs first is first linked from an earlier anchor |
| HtmlExtensions.GetUnseenUrlsInDocumentOrder | Downloader/Public.cs:137-147 | the unseen URLs come in document order: an earlier result is first linked from an earlier anchor than a later one |
| HtmlExtensions.GetPageTitle | Downloader/Public.cs:154-159 | "No title" without a title element, otherwise the first title's text |
| Crawler.Default | Downloader/EagerDescendingCrawler.cs:26-28 | a new crawler has no BaseUrl, ignores HTTP errors, has depth 5 and has no handlers |
| Crawler.SetBaseUrl | Downloader/EagerDescendingCrawler.cs:20-24 | the setter stores the normalised URL and changes nothing else |
| Crawler.CopyOf | Downloader/EagerDescendingCrawler.cs:42-49 | copying fails with a null reference iff the source has no BaseUrl; otherwise it reproduces a well-formed source exactly |
| Crawler.WithUrl | Downloader/EagerDescendingCrawler.cs:183-189 | the result carries default settings and only the normalised URL; nothing of the receiver is kept |
| Crawler.WithTargetDepth | Downloader/EagerDescendingCrawler.cs:191-194 | fails iff there is no BaseUrl; otherwise only the depth changes |
| Crawler.SetIgnoreHttpErrors | Downloader/EagerDescendingCrawler.cs:196-199 | fails iff there is no BaseUrl; otherwise only the flag changes |
| Crawler.OnPageCrawlStarted | Downloader/EagerDescendingCrawler.cs:201-209 | fails iff there is no BaseUrl; otherwise only the started handlers change, with the new handler appended |
| Crawler.OnPageCrawlEnded | Downloader/EagerDescendingCrawler.cs:211-219 | fails iff there is no BaseUrl; otherwise only the ended handlers change, with the new handler appended |
| Crawler.BuildChain | Downloader/EagerDescendingCrawler.cs:191-219 | a chain of builder calls on a crawler with a BaseUrl succeeds, keeps the URL, and registers handlers in call order after the existing ones |
| EagerDescending.ExtractLinks | Downloader/EagerDescendingCrawler.cs:130-133 | the links of a page are its distinct normalised valid hrefs that are not in SeenUrls |
| EagerDescending.EndedEvent | Downloader/EagerDescendingCrawler.cs:135-137 | the ended notification carries every field of PageCrawlEndedData (EagerDescendingCrawler.cs:66-76): the depth, the URL, the previous URL, the HTML-decoded page title ("No title" without a title element) and the downloaded page |
| EagerDescending.EagerCrawler.constructor | Downloader/EagerDescendingCrawler.cs:151-156 | default settings and an empty SeenUrls |
| EagerDescending.EagerCrawler.Configured | Downloader/EagerDescendingCrawler.cs:42-49 | the given settings, and no CrawledUrls |
| EagerDescending.EagerCrawler.CrawlPage | Downloader/EagerDescendingCrawler.cs:104-147 | the new SeenUrls, CrawledUrls and notifications, and the outcome, are those of `Visit` |
| EagerDescending.EagerCrawler.Run | Downloader/EagerDescendingCrawler.cs:174-180 | resets both lists and visits the base URL at depth 0 from "Root", with the state and outcome of `EagerRun` |
| EagerDescending.EagerCrawler.HaveSeenUrl | Downloader/EagerDescendingCrawler.cs:221-224 | fails iff SeenUrls is null; otherwise it is membership in SeenUrls |
| EagerDescending.EagerCrawler.HaveCrawledUrl | Downloader/EagerDescendingCrawler.cs:226-229 | fails iff CrawledUrls is null (before any Run); otherwise it is membership in CrawledUrls |
| EagerDescending.EagerCrawler.WithUrl | Downloader/EagerDescendingCrawler.cs:183-189 | a fresh crawler with `Crawler.WithUrl`'s settings |
| EagerDescending.EagerCrawler.WithTargetDepth | Downloader/EagerDescendingCrawler.cs:191-194 | a fresh copy with the new depth, or the null-reference failure |
| EagerDescending.EagerCrawler.SetIgnoreHttpErrors | Downloader/EagerDescendingCrawler.cs:196-199 | a fresh copy with the new flag, or the null-reference failure |
| EagerDescending.EagerCrawler.OnPageCrawlStarted | Downloader/EagerDescendingCrawler.cs:201-209 | a fresh copy with the handler appended, or the null-reference failure |
| EagerDescending.EagerCrawler.OnPageCrawlEnded | Downloader/EagerDescendingCrawler.cs:211-219 | a fresh copy with the handler appended, or the null-reference failure |
| EagerDescending.EagerCrawler.Clone | Downloader/EagerDescendingCrawler.cs:159-172 | a fresh crawler with prev's settings and an empty SeenUrls, or the null-reference failure |
| EagerProperties.VisitGrows | Downloader/EagerDescendingCrawler.cs:104-147 | a visit only appends to SeenUrls, CrawledUrls and the notifications |
| EagerProperties.VisitLinksGrows | Downloader/EagerDescendingCrawler.cs:141-146 | the link loop only appends to the three lists |
| EagerProperties.VisitKeepsCrawledIsEnded | Downloader/EagerDescendingCrawler.cs:137-139 | CrawledUrls stays exactly the URLs of the ended notifications, in order, with no URL ended twice |
| EagerProperties.VisitLinksKeepsCrawledIsEnded | Downloader/EagerDescendingCrawler.cs:141-146 | the link loop keeps CrawledUrls equal to the ended URLs, with none twice |
| EagerProperties.VisitDepths | Downloader/EagerDescendingCrawler.cs:106-109 | the depth half of the guard: a visit at depth d notifies only at depths between d and TargetDepth (the CrawledUrls half is `EagerTraversal.VisitKeepsNoRestart`) |
| EagerProperties.VisitLinksDepths | Downloader/EagerDescendingCrawler.cs:141-146 | the links of a page at depth d are notified at depths between d+1 and TargetDepth |
| EagerProperties.VisitAborts | Downloader/EagerDescendingCrawler.cs:116-128 | an exception escapes only if HTTP errors are not ignored and a download failed; that URL's started notification is the last one made; conversely, with HTTP errors not ignored and no exception, every page the visit started was downloaded |
| EagerProperties.VisitLinksAborts | Downloader/EagerDescendingCrawler.cs:141-146 | a failing link ends the loop; nothing is notified after the failed page's start; with HTTP errors not ignored and no exception, every page the loop started was downloaded |
| EagerProperties.VisitKeepsEventsFaithful | Downloader/EagerDescendingCrawler.cs:111-137 | every ended notification follows its page's started one, belongs to a successful download and carries the page and its decoded title |
| EagerProperties.VisitLinksKeepsEventsFaithful | Downloader/EagerDescendingCrawler.cs:141-146 | the link loop keeps ended notifications faithful |
| EagerProperties.VisitKeepsDiscovered | Downloader/EagerDescendingCrawler.cs:141-146 | every page started below the base URL is in SeenUrls; its previous page links to it and ended one level up before it started |
| EagerProperties.VisitLinksKeepsDiscovered | Downloader/EagerDescendingCrawler.cs:141-146 | the link loop keeps every started page in SeenUrls and traceable to the page, one level up, that links to it |
| EagerTraversal.VisitOwnDepth | Downloader/EagerDescendingCrawler.cs:104-146 | a visit that goes ahead first notifies its own start; at its own depth it notifies only its own start and end |
| EagerTraversal.VisitLinksSiblingOrder | Downloader/EagerDescendingCrawler.cs:141-146 | the loop starts, one level deeper and from the page, only links of its list, and in list order |
| EagerTraversal.VisitLinksFollowsAll | Downloader/EagerDescendingCrawler.cs:141-146 | with no exception, every link is in SeenUrls and, below TargetDepth, was started one level deeper from the page or was crawled already |
| EagerTraversal.VisitFollowsLinks | Downloader/EagerDescendingCrawler.cs:104-146 | a downloaded page below TargetDepth: with no exception, every extracted link is in SeenUrls and was started at depth+1 from the page or was crawled already; its links are started in extraction order |
| EagerTraversal.VisitMarksLinksSeen | Downloader/EagerDescendingCrawler.cs:130-146 | with no exception, every URL a page crawled by the visit links to is in SeenUrls |
| EagerTraversal.VisitLinksMarksLinksSeen | Downloader/EagerDescendingCrawler.cs:141-146 | the same for the link loop |
| EagerTraversal.VisitDepthFirst | Downloader/EagerDescendingCrawler.cs:104-146 | depth-first order is kept: every page below the base URL starts while its previous page is the innermost open page, so each earlier sibling's subtree has ended |
| EagerTraversal.VisitLinksDepthFirst | Downloader/EagerDescendingCrawler.cs:141-146 | the link loop keeps depth-first order; each link's visit happens inside the page's open interval |
| EagerTraversal.VisitKeepsNoRestart | Downloader/EagerDescendingCrawler.cs:106-109 | the CrawledUrls half of the guard: starting from CrawledUrls equal to the ended pages, a visit never starts a page that has already ended |
| EagerTraversal.VisitLinksKeepsNoRestart | Downloader/EagerDescendingCrawler.cs:141-146 | the link loop never starts a page that has already ended |
| EagerTraversal.EagerRunGuarantees | Downloader/EagerDescendingCrawler.cs:174-180 | a whole run: CrawledUrls is the ended URLs, none twice; depths lie within 0..TargetDepth; events are faithful and discovered; aborts happen exactly at failed downloads that are not ignored (both directions); notifications exist iff TargetDepth >= 0 and the first is Started(0, BaseUrl, "Root"); pages are visited depth first; with no exception every URL linked from a crawled page is in SeenUrls; no page is started again after it ended |
| LevelDescending.UrlIn | Downloader/LevelDescendingCrawler.cs:72 | true iff some node of the list has the URL |
| LevelDescending.AddNode | Downloader/LevelDescendingCrawler.cs:50-58 | the node is appended to its level, and the level is created empty first if missing; every other level is unchanged |
| LevelDescending.ContainsAfterAdd | Downloader/LevelDescendingCrawler.cs:70-73 | after Add, Contains holds exactly for the old URLs and the added one |
| LevelDescending.GetLevelOf | Downloader/LevelDescendingCrawler.cs:60-68 | fails with level-not-found iff the level was never added to; otherwise it returns its nodes in insertion order |
| LevelDescending.LevelManager.constructor | Downloader/LevelDescendingCrawler.cs:40-43 | an empty table |
| LevelDescending.LevelManager.Add | Downloader/LevelDescendingCrawler.cs:50-58 | the table becomes `AddNode` of the old table |
| LevelDescending.LevelManager.GetLevel | Downloader/LevelDescendingCrawler.cs:60-68 | agrees with `GetLevelOf` on the current table |
| LevelDescending.LevelManager.Contains | Downloader/LevelDescendingCrawler.cs:70-73 | true iff some node at some level has the URL |
| LevelDescending.ExtractLinks | Downloader/LevelDescendingCrawler.cs:183-187 | the links of a page are its distinct normalised valid hrefs that are in no level yet |
| LevelDescending.EndedEvent | Downloader/LevelDescendingCrawler.cs:189-192 | the ended notification carries every field of PageCrawlEndedData (LevelDescendingCrawler.cs:123-133): the depth, the URL, the previous URL, the HTML-decoded page title and the downloaded page |
| LevelDescending.LevelCrawler.constructor | Downloader/LevelDescendingCrawler.cs:202-206 | default settings, no level table, no CrawledUrls |
| LevelDescending.LevelCrawler.Configured | Downloader/LevelDescendingCrawler.cs:99-106 | the given settings and no traversal state |
| LevelDescending.LevelCrawler.StartPage | Downloader/LevelDescendingCrawler.cs:155-162 | gives up beyond TargetDepth or on a crawled URL; otherwise it notifies the start (`StartVisit`) |
| LevelDescending.LevelCrawler.FinishPage | Downloader/LevelDescendingCrawler.cs:164-197 | drops or rethrows a failed download; otherwise it marks the URL crawled, notifies the end and adds every link at depth+1 (`FinishVisit`) |
| LevelDescending.LevelCrawler.RunLevel | Downloader/LevelDescendingCrawler.cs:229-236 | starts every node of the level, then finishes every started one, keeping the first failure (`StartLevel`, `FinishLevel`) |
| LevelDescending.LevelCrawler.Run | Downloader/LevelDescendingCrawler.cs:222-238 | a fresh table and CrawledUrls, the base URL at depth 0 from "Root", then levels 1..TargetDepth, with the state and outcome of `LevelRun` |
| LevelDescending.LevelCrawler.HaveSeenUrl | Downloader/LevelDescendingCrawler.cs:284-287 | fails iff there is no level table; otherwise it is `LevelManager.Contains` |
| LevelDescending.LevelCrawler.HaveCrawledUrl | Downloader/LevelDescendingCrawler.cs:279-282 | fails iff CrawledUrls is null; otherwise it is set membership |
| LevelDescending.LevelCrawler.WithUrl | Downloader/LevelDescendingCrawler.cs:241-247 | a fresh crawler with `Crawler.WithUrl`'s settings |
| LevelDescending.LevelCrawler.WithTargetDepth | Downloader/LevelDescendingCrawler.cs:249-252 | a fresh copy with the new depth, or the null-reference failure |
| LevelDescending.LevelCrawler.SetIgnoreHttpErrors | Downloader/LevelDescendingCrawler.cs:254-257 | a fresh copy with the new flag, or the null-reference failure |
| LevelDescending.LevelCrawler.OnPageCrawlStarted | Downloader/LevelDescendingCrawler.cs:259-267 | a fresh copy with the handler appended, or the null-reference failure |
| LevelDescending.LevelCrawler.OnPageCrawlEnded | Downloader/LevelDescendingCrawler.cs:269-277 | a fresh copy with the handler appended, or the null-reference failure |
| LevelDescending.LevelCrawler.Clone | Downloader/LevelDescendingCrawler.cs:209-220 | returns an eager crawler with prev's settings, or the null-reference failure |
| LevelProperties.FailureDoesNotStopLevel | Downloader/LevelDescendingCrawler.cs:229-236 | a failure inside a level does not change what the rest of the level does, and the first failure is the one reported |
| LevelProperties.StartLevelInOrder | Downloader/LevelDescendingCrawler.cs:231-234 | starting a level's nodes notifies only at that level |
| LevelProperties.FinishLevelInOrder | Downloader/LevelDescendingCrawler.cs:236 | finishing a level's nodes notifies only ended events of that level |
| LevelProperties.RunLevelsInOrder | Downloader/LevelDescendingCrawler.cs:229-237 | notifications come level by level, with a level's started ones before its ended ones under the modelled schedule, and none beyond TargetDepth |
| LevelProperties.AddNodeKeepsUnique | Downloader/LevelDescendingCrawler.cs:50-58 | adding a URL that is not yet in the table keeps every URL at a single place |
| LevelProperties.AddLinksKeepsUnique | Downloader/LevelDescendingCrawler.cs:194-197 | adding a page's links keeps every URL of the table at a single place |
| LevelProperties.FinishVisitKeepsConsistent | Downloader/LevelDescendingCrawler.cs:180-197 | finishing a page keeps CrawledUrls equal to the ended URLs, with none twice, and the table free of duplicates |
| LevelProperties.StartLevelKeepsConsistent | Downloader/LevelDescendingCrawler.cs:155-162 | the first phase changes neither the table nor CrawledUrls, and passes on distinct, uncrawled nodes |
| LevelProperties.FinishLevelKeepsConsistent | Downloader/LevelDescendingCrawler.cs:236 | the second phase keeps the state consistent |
| LevelProperties.RunLevelsKeepsConsistent | Downloader/LevelDescendingCrawler.cs:229-237 | the level loop keeps the state consistent |
| LevelProperties.FinishLevelAbortReason | Downloader/LevelDescendingCrawler.cs:170-177 | a level fails only through a failed download while HTTP errors are not ignored |
| LevelProperties.RunLevelsAbortReason | Downloader/LevelDescendingCrawler.cs:229-236 | the level loop fails only through such a download, or through a level in 1..TargetDepth that was never filled |
| LevelProperties.VisitTrace | Downloader/LevelDescendingCrawler.cs:155-192 | a whole page visit adds nothing, a started notification, or a started and an ended one; beyond TargetDepth it changes nothing |
| LevelProperties.VisitKeepsConsistent | Downloader/LevelDescendingCrawler.cs:155-198 | a whole page visit keeps the state consistent |
| LevelProperties.BaseVisitConsistent | Downloader/LevelDescendingCrawler.cs:224-227 | the base URL's visit from an empty state leaves it consistent |
| LevelProperties.BaseVisitInLevelOrder | Downloader/LevelDescendingCrawler.cs:224-227 | the base URL's visit notifies only at depth 0, and not at all when TargetDepth is negative |
| LevelProperties.BaseVisitAbortReason | Downloader/LevelDescendingCrawler.cs:170-177 | the base URL's visit fails only through a failed download while HTTP errors are not ignored; conversely, with HTTP errors not ignored and no failure, the base URL, if started, was downloaded |
| LevelProperties.LevelRunSound | Downloader/LevelDescendingCrawler.cs:222-238 | a whole run: CrawledUrls holds exactly the ended URLs, none ended twice; no URL sits twice in the table; notifications come in level order, none beyond TargetDepth; failures only as above |
| LevelProperties.LevelRunFailsWithoutLinks | Downloader/LevelDescendingCrawler.cs:229-233 | with TargetDepth >= 1, a base page that yields no new link makes Run fail with level 1 not found |
| LevelDiscovery.AddLinksAppends | Downloader/LevelDescendingCrawler.cs:194-197 | the links of a page are appended in order at the given level with the page as previous URL; other levels are untouched |
| LevelDiscovery.StartVisitKeepsFound | Downloader/LevelDescendingCrawler.cs:157-162 | starting a node that was found on a page keeps every started page traceable to the page it was found on |
| LevelDiscovery.FinishVisitKeepsFound | Downloader/LevelDescendingCrawler.cs:183-197 | every link recorded at depth+1 is linked from the page, which ended at depth |
| LevelDiscovery.StartLevelKeepsFound | Downloader/LevelDescendingCrawler.cs:231-234 | starting the nodes of a level keeps discovery intact |
| LevelDiscovery.FinishLevelKeepsFound | Downloader/LevelDescendingCrawler.cs:236 | finishing the nodes of a level keeps discovery intact |
| LevelDiscovery.RunLevelsKeepsFound | Downloader/LevelDescendingCrawler.cs:229-237 | the level loop keeps discovery intact |
| LevelDiscovery.LevelRunFound | Downloader/LevelDescendingCrawler.cs:222-238 | after a run, every URL of the table was linked from a page that was downloaded one level up; so was every page started below the base URL, which ended before that page started; the base URL is "seen" only if some page links to it |
| LevelDiscovery.AddLinksContains | Downloader/LevelDescendingCrawler.cs:194-197 | after the links are added, the table contains a URL iff it contained it before or it is one of the links |
| LevelDiscovery.FinishVisitRecordsLinks | Downloader/LevelDescendingCrawler.cs:182-197 | after a page is downloaded, every URL it links to is in the table, and one that was not is now at depth+1 with the page as previous URL |
| LevelDiscovery.StartVisitKeepsLinksRecorded | Downloader/LevelDescendingCrawler.cs:157-162 | a start keeps every URL linked from an ended page in the table |
| LevelDiscovery.FinishVisitKeepsLinksRecorded | Downloader/LevelDescendingCrawler.cs:164-197 | the end of a page visit keeps every URL linked from an ended page in the table, its own links included |
| LevelDiscovery.StartLevelKeepsLinksRecorded | Downloader/LevelDescendingCrawler.cs:231-234 | starting the nodes of a level keeps the links of ended pages recorded |
| LevelDiscovery.FinishLevelKeepsLinksRecorded | Downloader/LevelDescendingCrawler.cs:236 | finishing the nodes of a level keeps the links of ended pages recorded |
| LevelDiscovery.RunLevelsKeepsLinksRecorded | Downloader/LevelDescendingCrawler.cs:229-237 | the level loop keeps the links of ended pages recorded |
| LevelDiscovery.LevelRunRecordsLinks | Downloader/LevelDescendingCrawler.cs:222-238 | after a run, failed or not, every URL that a crawled page links to is in the table, so HaveSeenUrl answers true for it |
| LevelCoverage.KeptMembers | Downloader/LevelDescendingCrawler.cs:157-160 | a node passes the checks at the top of `_crawlPage` iff its level is within TargetDepth and its URL is not crawled |
| LevelCoverage.StartLevelStartsKept | Downloader/LevelDescendingCrawler.cs:231-234 | the first phase starts exactly the kept nodes, in list order, passes exactly them on, and changes neither the table nor CrawledUrls |
| LevelCoverage.FinishLevelEffect | Downloader/LevelDescendingCrawler.cs:164-197 | the second phase appends only ended notifications of its level, keeps every level and changes only the next one; with no failure and HTTP errors not ignored, every node it finished was downloaded |
| LevelCoverage.LevelStepCrawledBelow | Downloader/LevelDescendingCrawler.cs:229-236 | after a level, every crawled URL ended at that level or a shallower one |
| LevelCoverage.LevelStepDownloads | Downloader/LevelDescendingCrawler.cs:229-236 | a level without failure, with HTTP errors not ignored, downloaded every page it started |
| LevelCoverage.LevelStepCovers | Downloader/LevelDescendingCrawler.cs:229-236 | after a level, each of its nodes was started at that level or its URL ended at a shallower one |
| LevelCoverage.RunLevelsFrame | Downloader/LevelDescendingCrawler.cs:229-237 | the level loop only appends notifications, drops no level and leaves the levels already handled unchanged |
| LevelCoverage.RunLevelsPresent | Downloader/LevelDescendingCrawler.cs:229-233 | the level loop ends without failure only if every level up to TargetDepth was in the table |
| LevelCoverage.RunLevelsDownloads | Downloader/LevelDescendingCrawler.cs:229-237 | the level loop without failure, with HTTP errors not ignored, downloaded every page it started |
| LevelCoverage.RunLevelsCovers | Downloader/LevelDescendingCrawler.cs:229-237 | the level loop without failure started every node of every level up to TargetDepth, unless its URL had ended at a shallower level |
| LevelCoverage.LevelRunCovers | Downloader/LevelDescendingCrawler.cs:222-238 | the first notification is Started(0, BaseUrl, "Root"), and there is none iff TargetDepth < 0; without failure every level 1..TargetDepth was present, all its nodes covered, and with HTTP errors not ignored every started page was downloaded |
| LevelCoverage.FinishLevelFailsAtNode | Downloader/LevelDescendingCrawler.cs:234-236 | a failure of a level's second phase is the failed download of one of its nodes, unless an earlier failure was already kept |
| LevelCoverage.LevelStepFails | Downloader/LevelDescendingCrawler.cs:231-236 | one level notifies only at that level, and a failure in it is the failed download of a page it started |
| LevelCoverage.RunLevelsStopsAtAbort | Downloader/LevelDescendingCrawler.cs:229-237 | a failure ends the level loop: a missing level L is reported before anything at depth >= L is notified; a failed download is reported for a page started at some level L in the loop's range, and nothing deeper than L is notified |
| LevelCoverage.LevelRunStopsAtAbort | Downloader/LevelDescendingCrawler.cs:222-238 | a run stops at its first exception: a failed base download, a failed level or a missing level ends it, and nothing deeper than that level is notified |
| LevelCoverage.LevelRunGuarantees | Downloader/LevelDescendingCrawler.cs:222-238 | a whole run: everything `LevelRunSound`, `LevelRunFound`, `LevelRunRecordsLinks`, `LevelRunStopsAtAbort` and `LevelRunCovers` state, so failures happen exactly at a failed download that is not ignored or a missing level |
| Dispatch.ReceivedDeliveries | Downloader/EagerDescendingCrawler.cs:51-81 | one notification reaches a handler once per registration of that handler for its kind |
| Dispatch.HandlerReceives | Downloader/EagerDescendingCrawler.cs:51-81 | a handler registered at most once per kind receives exactly the notifications of the kinds it is registered for, each once, in the order made |
| Dispatch.EndedHandlerSeesEndedUrls | Downloader/LevelDescendingCrawler.cs:123-138 | a handler registered once for ended pages and never for started ones is called once per ended page, in order, with exactly the URLs of `EndedUrls` |

## Left out

- `Downloader/Program.cs`: the console entry point and its printing are terminal I/O and are not part of this model.
- `_getPageDoc` in both crawlers (`WebClient` download, UTF-8 decoding, HtmlAgilityPack `LoadHtml`) is replaced by the `Web.pages` map. Any download error is a `WebException`. The web is assumed to answer the same way on every request.
- `Helper.IsValidUrl` (`Uri.TryCreate`) and `DecodeHtmlSpecialChars` (`WebUtility.HtmlDecode`) are library calls. They are function-valued fields of `Web`, and nothing is assumed about them.
- HtmlAgilityPack DOM traversal (`Descendants("a")`, `Attributes["href"]`, `InnerText`) is reduced to a document's list of optional hrefs and its optional first title.
- `Helper.NormalizeUrl`: `EndsWith("/")` is culture-sensitive in .NET. The model reads it as an ordinal comparison of the last character.
- The level crawler's real concurrency is not modelled: thread-pool continuations running in parallel, unsynchronised read-modify-write of `Levels` and `_crawledUrls`, and `AggregateException` wrapping by `Task.WaitAll`. One schedule is modelled, as described above, and a failure is reported as the `WebException` it wraps.
- The order of the crawled mark and the ended notification differs between the crawlers. The level crawler marks first; the eager crawler notifies first. The methods keep each order, but the model does not capture the difference, because handlers are not modelled as code that could query the crawler during a notification.
- The handler delegates' code is out of the model: their effects, reentrancy, and the exceptions they may throw. Handlers are identities, and notifications are recorded in `trace`. `trace` holds the notifications of the latest `Run` only.
- `OfflineException` is never thrown, and `CrawlerBuilder<T>.Create` is a bare `new T()`. Neither is modelled.
- Direct assignment of the public properties, other than through the builder methods, is not modelled. The `BaseUrl` setter is modelled (`Crawler.SetBaseUrl`).
- Crawler.WithUrl: the URL is a string and cannot be null. In the source, `WithUrl(null)` (EagerDescendingCrawler.cs:183-189, LevelDescendingCrawler.cs:241-247) throws a NullReferenceException inside `Helper.NormalizeUrl`. That exception path is not modelled, and neither is it for `EagerDescending.EagerCrawler.WithUrl` and `LevelDescending.LevelCrawler.WithUrl`.
- Crawler.SetBaseUrl: the value is a string and cannot be null. In the source, assigning null to `BaseUrl` (EagerDescendingCrawler.cs:20-24) throws a NullReferenceException inside `Helper.NormalizeUrl`; that path is not modelled. A null BaseUrl is still represented as the initial state of a new crawler (`Crawler.Default`), so `CopyOf`, the builders and `Run` do model it.
- EagerDescending.EagerCrawler.Run: requires a BaseUrl. In the source, `Run` on a crawler whose BaseUrl is null (with TargetDepth >= 0) notifies a start for a null URL. It then fails inside `_getPageDoc` with an argument error that is neither a `WebException` nor ignorable. That path is not modelled.
- LevelDescending.LevelCrawler.Run: requires a BaseUrl, for the same reason.
- LevelProperties.FinishLevelAbortReason: states only why the second phase can fail. The converse (no failure, with HTTP errors not ignored, means every finished node was downloaded) is `LevelCoverage.FinishLevelEffect`.
- LevelProperties.RunLevelsAbortReason: states only why the level loop can fail. The converses are `LevelCoverage.RunLevelsPresent` and `LevelCoverage.RunLevelsDownloads`. That a failure ends the loop is `LevelCoverage.RunLevelsStopsAtAbort`.
- Dispatch.HandlerReceives: covers handlers registered at most once per kind. For a handler registered several times, only the per-notification count (`Dispatch.ReceivedDeliveries`) is stated.
- `uint` depths and the `int` TargetDepth cannot overflow in the model. Depths never exceed TargetDepth + 1 ≤ 2^31, so the source's fixed widths do not matter.
