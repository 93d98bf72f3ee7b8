# Verification of utilxx algorithms and protocols

This project models the parts of utilxx that carry state, loops or a protocol, and proves what
they promise. Code that changes things step by step is written as classes and methods with loops
(the automaton, the pool, the router, the diff table, the SSE writer, the request loops); each is
proved against a specification, and the promises are lemmas about that specification. To check
everything: `dafny verify dfyconfig.toml`.

- **Aho-Corasick automaton** (`Words`, `Tokens`, `AhoTrie`, `AhoBuild`, `AhoScan`, `AhoEmpty`, `AhoCase`,
  `AhoCorasick`). The trie, its breadth-first failure links and merged outputs, the one-pass scan and the
  removal of the leftmost-longest matches. The specification is textual: slices of the text as it stands that
  equal a pattern, or equal it up to the case of the letters A to Z. `Build` accepts any automaton that
  patterns were added to, built before or not. Patterns may be empty; where the code reports these is proved too.
- **HTTP connection pool** (`PoolEntry`, `ConnectionPool`, `PoolProtocol`, `PoolQueue`, `PoolLimits`,
  `PoolOwnership`, `PoolTheorems`, `PoolHistory`, `PoolCounters`, `PoolWorstCase`, `PoolEndpoints`). One method
  for each region that holds the lock, and a state machine of the clients of one endpoint on any number of
  io_contexts that takes these regions as atomic steps. The invariants hold in every state that any run reaches;
  a history of what was given back, when and how, says what each step has to do; and the pool with all
  endpoints, as the class keeps it, is for each endpoint such a run.
- **Request loops** (`Redirects`, `RequestLoop`, `RequestRuns`, `SseExchange`, `SseRequest`). The attempt and
  redirect loops for any given world (whether each attempt gets a connection, whether that one was idle, how the
  exchange on it ends), and an event log over which release, retry and redirect rules are stated. In the SSE
  client `onChunk` may depend on all chunks so far, and a network is whatever the other side sends.
- **Line diff** (`Digits`, `Lines`, `EditScripts`, `DiffOrder`, `LineDiff`, `UnifiedDiff`). The table, the walk
  backwards, the fallback and the printer; minimality is against all edit scripts, which of the shortest ones
  it is is settled, and the printed text is read by an independent reader.
- **Router** (`RoutePaths`, `Routes`, `RouteTree`, `Router`). The cursor walk over a path text, the tree it
  walks and grows, the cache; the specification is a lookup of segment lists among registered paths.
- **Regex interval merging** (`Intervals`, `RegexOnline`, `RegexArrival`, `RegexSorted`, `RegexEdit`,
  `RegexRemoved`). When a set of spans is *the* merge of a set of raw intervals (there is exactly one), that
  both algorithms compute it, in which order the hits must arrive for the spans to be in order, and what
  remove leaves.
- **URLs** (`UrlPath`, `DotSegments`, `UrlParse`, `UrlGrammar`). Path normalisation with a buffer and a stack of
  positions, the removal of dot segments after section 5.2.4 of RFC 3986 beside it, parsing and the grammar it
  accepts, the Host header, redirect resolution.
- **SSE writer** (`ChunkedCoding`, `ChunkedCut`, `EventStream`, `SseWriter`, `SseHeads`, `SseEvents`, `SseCut`).
  The frames on the wire, and a decoder after section 7.1 of RFC 9112 that also says what a reader has of a
  stream that was cut off, with nothing or with more behind the cut. A reader of event streams after section
  9.2.6 of the HTML standard takes the events out of what was decoded.

`Basics` and `Sorting` hold what several modules share.

## Where the code and its documentation differ

- The comments of the pool promise a limit on concurrent connections (src/http_client.cpp:290-292,
  403-407). Reuse of an idle connection does not test it (lines 424-433). On one io_context the
  limit holds nevertheless; on k of them only k times the limit does, and that many are reached
  (`PoolTheorems.LimitPerContext`, `PoolWorstCase.BoundIsReached`).
- The cache key of `XXRouter::get` does not record the lookup mode (include/utilxx/router.h:283-294).
  A strict call can therefore be answered from an entry that a prefix_fallback call left. The lemma
  `Router.XXRouter.CacheAgreesExactlyWhen` says exactly when such an answer is right, and
  `Routes.LooseEntryMisleads` and `Routes.LooseEntryMisleadsAt` give inputs for which it is not. The
  server makes strict calls only.
- The diff of texts beyond the size guard is documented as correct but not minimal; it is minimal
  exactly when the texts have no line in common (`LineDiff.DiffIsMinimal`; `LineDiff.FallbackNotMinimal`
  is a text that changes 8000 lines against itself).
- `normalizeUrlPath` is not idempotent: `/a/b/..` gives `/a/`, and that gives `/a`. `UrlPath.FixedExactly`
  says for which paths one application is enough, and `UrlPath.NotFixedAtOnce` is the example.
- Nor does it give what section 5.2.4 of RFC 3986 does. For absolute paths without two slashes in a row
  `DotSegments.NormalIsStandard` says exactly when it does: a slash that the path has at the end, or that
  the standard leaves for a last ".", is missing unless the last real step goes up. For `/a/.` it gives
  `/a`, the standard `/a/` (`DotSegments.DotAtEnd`). Empty segments, which the standard keeps and which a
  step up takes back, are dropped: for `/a//../b` it gives `/b`, the standard `/a/b`
  (`DotSegments.EmptySegment`).
- A URL that `parseUrl` accepts and whose host has square brackets may not come back from its Host
  header: `http://a]:b:80/` has the host `a]:b` (`UrlParse.BracketHostBreaks`). `UrlParse.PrintedUrlParses`
  has the exact condition.
- A redirect on the same host breaks when the Location holds "://", in a query for example: it is taken
  for a URL of its own (`UrlParse.RedirectExactly`; `UrlParse.MarkInQuery` for `/login?next=http://x` and
  `login?next=http://x`). The directory that a relative Location starts from ends at the last slash, also
  when that one stands in the query of the old URL (`UrlParse.SlashInQuery`).
- The Hyperscan callback puts a merged span at the end of the list, while `remove` and `replace` read the
  list as if it were in order. A span that starts before the position reached makes the difference in
  `substr` wrap around, and the rest of the text is copied again: for "abcd" with the hits (2,3), (0,1),
  remove gives "abdbcd" instead of "bd" (`RegexRemoved.OutOfOrder`). `RegexRemoved.RemoveAfterScan` says for
  which orders of arrival remove is right. With the other backend it always is (`RegexRemoved.SortAndRemove`).
- `writeChunk` with an empty chunk writes the frame that ends the stream (`SseWriter.ClientReads`,
  `SseWriter.EmptyChunkEnds`), and a write after an accepted `writeResponse` can put a second status line
  on the stream, which the comment at include/utilxx/http_server.h:73-74 forbids the caller
  (`SseHeads.OneStatusLine` says exactly when, `SseHeads.WriteBehindResponse` is an example).
- `writeEvent` puts the event name and the data into the stream as they are. A client gets back exactly the
  events written if and only if none of them holds a carriage return or a line feed (`EventStream.EventsReadBack`,
  `SseEvents.EventsArrive`); data of two lines, which the standard puts in two fields, can lose the second one
  (`EventStream.TwoLines`).
- A failed write leaves no mark, so a later write or `close` appends bytes behind a partial frame. As long
  as nothing is appended a client has only what was written (`SseCut.OnlyWrittenData`). A close right
  behind a cut frame can hand the client bytes that nobody wrote: for "abc" cut in front of its data, the
  client gets "0", CR, LF (`SseCut.CutThenClose`). `SseCut.WrongDataExactly` has the exact condition. So
  can another write: for "abcde" cut in front of its data and "xy" behind it, the client gets "2", CR, LF,
  "xy" (`SseCut.CutThenWrite`); and a frame cut off altogether is missed without a trace
  (`SseCut.WriteBehindCut`).

## Model

| member | source | states |
|---|---|---|
| AhoCorasickAutomaton.AhoCorasick.constructor | include/utilxx/aho_corasick.h:84-100 | a new automaton is the finished automaton of its patterns: failure links are longest proper suffixes in the trie, outputs exactly the patterns that end a node's word, and the empty ones where the last character begins no pattern |
| AhoCorasickAutomaton.AhoCorasick.AddPattern | include/utilxx/aho_corasick.h:113-125 | adding any pattern, also to a built automaton, gives the trie of all patterns with sound outputs, ready for another build |
| AhoCorasickAutomaton.AhoCorasick.Build | include/utilxx/aho_corasick.h:132-165 | from any automaton that patterns were added to, built before or not, the pass ends and every node is finished |
| AhoCorasickAutomaton.AhoCorasick.Follow | include/utilxx/aho_corasick.h:151-155 | following failure links ends, at the longest suffix of the word read so far plus one character that is in the trie |
| AhoCorasickAutomaton.AhoCorasick.Scan | include/utilxx/aho_corasick.h:102-194 | the pass collects exactly all places of the text where a pattern stands, up to case if case is ignored, and, after the first Build, empty patterns exactly behind characters that begin no pattern; with onlyContains one of them if there is any |
| AhoCorasickAutomaton.AhoCorasick.Search | include/utilxx/aho_corasick.h:168-213 | the spans returned are, in order, the leftmost-longest tokens of the text itself, each a slice that is the pattern it names, up to case if case is ignored, and between them, after the first Build, exactly those matches of empty patterns that no token covers |
| AhoCorasickAutomaton.AhoCorasick.Contains | include/utilxx/aho_corasick.h:215-218 | true if and only if some pattern stands in the text, up to case if case is ignored, or, after the first Build, there is an empty one and a character that begins no pattern |
| AhoCorasickAutomaton.AhoCorasick.RemoveAll | include/utilxx/aho_corasick.h:220-251 | the text, in its own case, without exactly its leftmost-longest tokens, up to case if case is ignored |
| AhoCase.OccursIsStanding | include/utilxx/aho_corasick.h:102-110 | an occurrence of a folded pattern in the folded text is exactly a slice of the text that equals the pattern up to the case of A to Z |
| AhoCase.StandsExactly | include/utilxx/aho_corasick.h:102-110 | without ignoreCase standing in the text is being the same word |
| AhoCase.OtherCase | include/utilxx/aho_corasick.h:102-110 | "abc" stands in "xABCx" from 1 to 4 with ignoreCase, and does not without |
| AhoCase.TokensAreUnique | include/utilxx/aho_corasick.h:195-213 | a text has only one list of leftmost-longest tokens: disjoint, in order, each the longest pattern that stands where it starts, and no pattern starting outside |
| AhoEmpty.SearchedFilled | include/utilxx/aho_corasick.h:168-213 | without empty patterns the spans of a search are the tokens, and nothing else |
| Words.StepIsLongest | include/utilxx/aho_corasick.h:150-155 | one step of the automaton keeps the longest suffix that is in a prefix-closed set of words |
| AhoBuild.ChildFails | include/utilxx/aho_corasick.h:147-155 | the failure link of a child is where its character leads from the link of its parent, and that is the longest proper suffix |
| AhoBuild.OutputsInherited | include/utilxx/aho_corasick.h:157-160 | own outputs and those of the failure link together are exactly the patterns that end the word, also when outputs are appended once more |
| AhoEmpty.ShowsInherited | include/utilxx/aho_corasick.h:137-160 | a node hands on the empty patterns exactly when its last character begins no pattern, because children of the root inherit nothing |
| AhoEmpty.ReachedShows | include/utilxx/aho_corasick.h:171-194 | so the scan reports them behind exactly these characters |
| AhoBuild.VisitNext | include/utilxx/aho_corasick.h:143-164 | the queue hands out nodes by depth: what a node's failure link needs is finished before the node is visited |
| AhoScan.EndsIsOccurs | include/utilxx/aho_corasick.h:173-193 | a pattern ends the longest suffix that is in the trie exactly when it occurs at this place of the text |
| AhoScan.OutputsAreMatches | include/utilxx/aho_corasick.h:184-189 | the outputs of the node reached are exactly the occurrences ending here, and their starts do not wrap around |
| Tokens.TokeniseIsTokenisation | include/utilxx/aho_corasick.h:195-213 | leftmost-longest tokens are in order, disjoint, each longest at its start, and every occurrence starts inside one |
| Tokens.TokenisationUnique | include/utilxx/aho_corasick.h:195-213 | and they are the only spans with these properties |
| Tokens.ChosenIsTokenisation | include/utilxx/aho_corasick.h:199-212 | sorting by start, longest first, and keeping what does not overlap gives the leftmost-longest tokens |
| Tokens.EraseIsStrip | include/utilxx/aho_corasick.h:235-248 | the removal loop deletes exactly the tokens |
| Tokens.EraseLeaves | include/utilxx/aho_corasick.h:235-250 | what the loop leaves is, in order, the characters at the positions in no token |
| Tokens.EraseLength | include/utilxx/aho_corasick.h:235-250 | what is left and what is removed add up to the length of the text |
| ConnectionPool.HttpConnectionPool.Acquire | src/http_client.cpp:415-448 | the most recent usable idle connection of this io_context, else a place below the limit, else the end of the queue; expired connections are dropped; other endpoints stay as they are |
| ConnectionPool.HttpConnectionPool.WakeFirst | src/http_client.cpp:463-471 | the wake-up loop drops waiters up to the first active one and wakes that one only |
| ConnectionPool.HttpConnectionPool.CreateFailed | src/http_client.cpp:454-477 | a failed creation gives its place back and wakes at most one waiter |
| ConnectionPool.HttpConnectionPool.Release | src/http_client.cpp:508-542 | a release gives the place back, keeps the connection in the bucket of its own io_context if it can be used again, and wakes at most one waiter |
| ConnectionPool.HttpConnectionPool.Leave | src/http_client.cpp:487-498 | a waiter that is still active leaves the queue alone, and no other does |
| ConnectionPool.HttpConnectionPool.Clear | src/http_client.cpp:575-595 | all idle connections and waiters of all endpoints are dropped, exactly the active waiters are woken, borrowed connections stay counted |
| ConnectionPool.HttpConnectionPool.DropContext | src/http_client.cpp:600-622 | exactly the idle connections and waiters of one io_context go, of every endpoint |
| PoolQueue.StepKeepsQueue | src/http_client.cpp:441-447 | every step keeps the queue in order of arrival, without inactive waiters, each of one waiting client |
| PoolLimits.AcquireKeeps | src/http_client.cpp:422-447 | an acquire keeps counting, the bound for each io_context and the wake-up invariant, though reuse tests no limit |
| PoolOwnership.StepKeepsOwned | src/http_client.cpp:424-433 | no step puts a connection in two places or on another io_context |
| PoolTheorems.StepKeepsAll | src/http_client.cpp:411-622 | every step of every client keeps all pool invariants together |
| PoolTheorems.RunKeepsAll | src/http_client.cpp:411-622 | so they hold in every state that any run reaches |
| PoolTheorems.Accounting | src/http_client.cpp:428-438 | active counts the clients that hold a place; created + reused = active + releases + failed creations |
| PoolTheorems.NeverSaturates | src/http_client.cpp:460-462 | the guards of the decrements are never needed |
| PoolTheorems.NoLostWakeUp | src/http_client.cpp:441-502 | while someone queues, places held and clients about to run again reach the limit; with nobody about to run, the limit is used up |
| PoolTheorems.FirstComeFirstServed | src/http_client.cpp:529-537 | giving a place back wakes the client that has queued longest, and only that one |
| PoolTheorems.OnePlaceEach | src/http_client.cpp:424-433 | every live connection is in one bucket or with one client, on the io_context that created it, and is handed out nowhere else |
| PoolTheorems.LimitPerContext | src/http_client.cpp:422-447 | held plus idle stays within the limit on every io_context, so k contexts never hold more than k times the limit, peak included |
| PoolTheorems.LimitOnOneContext | src/http_client.cpp:435-438 | with one io_context active and peak never exceed the limit |
| PoolTheorems.OverstepsExactlyOnReuse | src/http_client.cpp:424-433 | one acquire oversteps the limit exactly when it is reached and a usable idle connection of this io_context is there |
| PoolHistory.FreshUntilGivenBack | src/http_client.cpp:424-433 | in every run, a connection in use is fresh if and only if it was never given back before |
| PoolHistory.DroppedForGood | src/http_client.cpp:508-542 | what was given back not to be kept is in no place of any later state, and every idle connection was last given back to be kept, at the time it bears |
| PoolHistory.AcquireDecides | src/http_client.cpp:415-448 | in every reachable state an acquire takes, of the idle connections of its io_context, the one given back last, unless that is more than 120 s ago; without one it creates below the limit and queues up behind all others at it |
| PoolHistory.GivingBack | src/http_client.cpp:454-542 | in every reachable state giving back frees one place, puts a connection to be kept at the end of the bucket of its own io_context, one that is not nowhere, and lets exactly the client run again that queued longest |
| PoolHistory.Leaving | src/http_client.cpp:478-503 | a client whose timer ran out runs the loop again, a cancelled one is gone; exactly its waiter leaves the queue |
| PoolHistory.Clearing | src/http_client.cpp:575-595 | after a clear nothing is idle or queued, all that queued run again, and what is in use stays counted |
| PoolHistory.Dropping | src/http_client.cpp:600-622 | the end of an io_context takes exactly its idle connections, waiters and clients |
| PoolHistory.Creating | src/http_client.cpp:449-453 | a created connection is fresh, on the io_context of its client, and is no connection that is anywhere else |
| PoolCounters.CountersMean | src/http_client.cpp:428-445 | in every reachable state: active is the number of holders, created that of connections made, failed and being made, reused and releases fit, queuedWaits is that of waiters, and peakActive is the greatest value active ever had |
| PoolEndpoints.LocalView | src/http_client.cpp:411-622 | what a client of one endpoint does to the whole pool, with one set of active waiters for all endpoints, is a step of the protocol of this endpoint |
| PoolEndpoints.OtherView | src/http_client.cpp:411-622 | and to any other endpoint it is no step, or that a waiter number was taken |
| PoolEndpoints.ClearView | src/http_client.cpp:575-595 | clear is a step of every endpoint |
| PoolEndpoints.DropView | src/http_client.cpp:600-622 | the end of an io_context is a step of every endpoint |
| PoolEndpoints.RunView | src/http_client.cpp:411-622 | every run of the whole pool is for each endpoint a run of its protocol |
| PoolEndpoints.EveryEndpoint | src/http_client.cpp:411-622 | so whatever happens at the others, each endpoint counts right, keeps its limit on every io_context and loses no wake-up |
| PoolEndpoints.LimitAtEndpoint | src/http_client.cpp:422-447 | and with its clients on k io_contexts each endpoint never has more than k times its own limit, peak included |
| PoolWorstCase.BoundIsReached | src/http_client.cpp:422-447 | for every k and limit some run holds k times the limit at once, so the bound is the best one |
| Redirects.MethodAlong | src/http_client.cpp:1322-1327 | once a 301, 302 or 303 turned a request into GET without body, later redirects keep it so; 307 and 308 alone keep method and body |
| Redirects.OriginAlong | src/http_client.cpp:960-994 | redirects whose Location names no host stay at scheme, host and port of the first URL |
| Redirects.StatusNumbers | src/http_client.cpp:955-994 | a redirect is followed exactly for 301, 302, 303, 307 and 308 with a Location; the first three turn the request into GET without body, the last two keep method, body and content type |
| RequestLoop.Attempts | src/http_client.cpp:1182-1298 | one turn, for any world: every path releases what it acquired, and only a retryable error on a connection that was idle leads to the one second attempt |
| RequestLoop.RequestAsync | src/http_client.cpp:1178-1329 | for any world the loop makes exactly the hops that the responses ask for, up to the limit, and returns what the last one gave |
| RequestRuns.TurnMeans | src/http_client.cpp:1182-1305 | result and number of exchanges of a turn, from what its attempts meet: a first response is returned; an idle connection with a retryable error leads to exactly one second attempt, whose result counts; a refusal, and any other error, ends the turn |
| RequestRuns.ExchangesMeet | src/http_client.cpp:1238-1298 | over all hops the n-th exchange is the one of the n-th attempt of the world, on a connection reused exactly when that was idle and the pool is used |
| RequestRuns.ReleasedForReuse | src/http_client.cpp:1257-1296 | a connection is released for reuse if and only if its exchange gave a response that allows keep-alive |
| RequestRuns.ReleasedExactlyOnce | src/http_client.cpp:1238-1298 | in every run with the pool each connection acquired is used once and released exactly once, one at a time, and none is held at the end |
| RequestRuns.ExchangesBounded | src/http_client.cpp:1178-1329 | at most 2 * (followRedirect + 1) exchanges; each behind the first repeats a request on a stale reused connection, never twice in a row, or follows a redirect |
| RequestRuns.ResultMeans | src/http_client.cpp:1307-1329 | the result is the response of the last exchange; a redirect is returned only when as many were followed as allowed, and there are never more responses than that plus one |
| RequestRuns.HopMeans | src/http_client.cpp:1310-1328 | what the request of any hop is, from the first request and the responses so far |
| SseExchange.FlushBody | src/http_client.cpp:1469-1481 | hands on what is in the buffer behind the processed part, and leaves the buffer empty |
| SseExchange.DoSseExchange | src/http_client.cpp:1392-1523 | for every behaviour of the other side and of onChunk: which chunks are handed on, whether any was, and how the exchange ends |
| SseExchange.ExchangeEnds | src/http_client.cpp:1464-1522 | on a status from 200 to 299, where the exchange ends: behind the first piece that ends the message, that onChunk stops or throws at, or in front of the first read that fails; which chunks were handed on by then; and how it ends |
| SseExchange.StatusMeans | src/http_client.cpp:1417-1463 | on any other status nothing is handed on; once the body was read 429 ends as a rate limit and the others as an error, and a read that fails before ends with its own error |
| SseExchange.ExchangeDelivers | src/http_client.cpp:1464-1522 | onChunk gets the body in order and without gaps, never an empty chunk, and is not called again once it said to stop; the connection is reusable only when the whole message was read and keep-alive allowed |
| SseRequest.RequestSse | src/http_client.cpp:1525-1580 | for any connections met, networks and onChunk, the attempt loop: a second attempt only behind a retryable error on an idle connection that handed nothing on; every path releases |
| SseRequest.RequestMeans | src/http_client.cpp:1525-1580 | chunks, result and number of exchanges, from what the attempts meet: those of the first exchange, or, if that was in vain on an idle connection of the pool, those of exactly one second one |
| SseRequest.ReleasedForReuse | src/http_client.cpp:1527-1579 | a connection is released for reuse if and only if its exchange read the whole message and keep-alive was allowed |
| SseRequest.DeliveredOnce | src/http_client.cpp:1525-1580 | in every run all chunks come from one attempt, in order, and a failed first attempt delivered nothing |
| SseRequest.FinishedMeans | src/http_client.cpp:1484-1522 | a request that ends without an exception delivered a whole message or was stopped by onChunk |
| SseRequest.ReleasedExactlyOnce | src/http_client.cpp:1527-1579 | every connection acquired is released exactly once |
| Lines.SplitDiffLines | include/utilxx/diff_util.h:27-40 | the loop splits as the recursive definition does |
| Lines.SplitKeepsText | include/utilxx/diff_util.h:27-40 | splitting loses nothing but a newline at the very end, and no line holds one |
| Lines.SplitOfUnlines | include/utilxx/diff_util.h:27-40 | lines joined by newlines split into themselves |
| LineDiff.GuardTestsProduct | include/utilxx/diff_util.h:53-54 | the division test is the test (n + 1) * (m + 1) > 16,000,000 |
| LineDiff.FillTable | include/utilxx/diff_util.h:69-78 | every cell holds the length of a longest common subsequence of two prefixes, without leaving uint32 |
| LineDiff.Trace | include/utilxx/diff_util.h:81-103 | the walk backwards gives a numbered script between the two texts that keeps as many lines as the table says, changes no line that ends both texts, and deletes only where leaving out the new line in front would cost a kept one |
| LineDiff.ComputeLineDiff | include/utilxx/diff_util.h:43-104 | both paths give a numbered script; below the guard it keeps a longest common subsequence and is settled as the walk's one, beyond it all old lines go in front of all new ones |
| DiffOrder.SettledDeletesFirst | include/utilxx/diff_util.h:85-101 | in a settled script no added line stands directly in front of a deleted one |
| DiffOrder.SettledUnique | include/utilxx/diff_util.h:85-101 | two texts have only one settled script |
| LineDiff.DiffDetermined | include/utilxx/diff_util.h:43-104 | so the texts determine the diff, on both paths, and its blocks of changes begin with the deleted lines |
| EditScripts.ScriptProjects | include/utilxx/diff_util.h:54-103 | Context and Delete lines are the old text, Context and Add lines the new one, and the counts add up |
| EditScripts.ScriptNumbers | include/utilxx/diff_util.h:57-64 | the line numbers count the lines of each text |
| EditScripts.LcsIsBound | include/utilxx/diff_util.h:69-78 | no common subsequence is longer than the recurrence says |
| EditScripts.KeepingMostIsMinimal | include/utilxx/diff_util.h:42-44 | a script that keeps that many lines changes as few as any script between the texts |
| LineDiff.DiffIsMinimal | include/utilxx/diff_util.h:50-104 | the diff is minimal among all edit scripts if and only if the guard did not trip or the texts share no line |
| LineDiff.FallbackNotMinimal | include/utilxx/diff_util.h:50-66 | four thousand equal lines compared with themselves: 8000 changes, where none would do |
| UnifiedDiff.MakeUnifiedDiff | include/utilxx/diff_util.h:107-131 | the printed text is the header with both counts and one marked line for each line of the diff |
| UnifiedDiff.PrintedDetermined | include/utilxx/diff_util.h:81-131 | the texts and the path determine the printed text, in whose body no added line stands directly in front of a deleted one |
| UnifiedDiff.OneLineChanged | include/utilxx/diff_util.h:81-131 | "a" against "b": the whole printed text, with "-a" in front of "+b" |
| UnifiedDiff.DiffReadsBack | include/utilxx/diff_util.h:113-130 | reading the printed diff gives back path, counts, kinds and texts if and only if the path holds no newline |
| UnifiedDiff.PrintedDiffPatches | include/utilxx/diff_util.h:107-131 | reading it and applying it to the old lines gives the new lines, and the hunk counts match the body; the new text itself comes back if and only if it is empty or ends with a newline |
| UnifiedDiff.FinalNewlineLost | include/utilxx/diff_util.h:27-40 | a text and the same with a newline at its end print the same diff |
| Router.XXRouter.GetChild | include/utilxx/router.h:53-171 | the cursor walk, with repeated and trailing slashes, is the lookup or registration of the list of non-empty segments; a null node leaves no path behind |
| Router.XXRouter.GetTreepNocache | include/utilxx/router.h:230-243 | any path text, in both modes: the node of the lookup and its real path, or nothing and an empty path |
| Router.XXRouter.Add | include/utilxx/router.h:257-266 | registers the path and all its beginnings, sets one handler, drops the cache |
| Router.XXRouter.Get | include/utilxx/router.h:278-306 | the answer of the cache entry or of the lookup, with any eviction; if the node reached has the handler itself, the cache then has this node and its path for the text, else the cache is as it was |
| Router.XXRouter.GetNocache | include/utilxx/router.h:314-333 | the handler of the node or, with prefix_fallback, of its nearest ancestor that has one, and the path of the node |
| Router.XXRouter.Remove | include/utilxx/router.h:337-351 | returns and takes away the handler of the route a strict lookup ends at; nothing else changes |
| Router.XXRouter.Clear | include/utilxx/router.h:359-363 | only the root with its own handlers is left |
| Router.XXRouter.CacheAgrees | include/utilxx/router.h:283-305 | in every valid state, so after any run: the cached answer is the uncached one for prefix_fallback calls, and for strict calls while only strict calls filled the cache |
| Router.XXRouter.CacheAgreesExactlyWhen | include/utilxx/router.h:283-305 | and when a strict call gets the right answer from a cache filled by any calls, if and only if |
| RoutePaths.StrictIsLoose | include/utilxx/router.h:92-107 | a strict lookup that succeeds ends where the loose one does |
| RoutePaths.LookupEndsDeepest | include/utilxx/router.h:92-107 | a lookup ends at the deepest registered beginning of the path, or at its wildcard child |
| RoutePaths.RePathsSpelled | include/utilxx/router.h:238-240 | no segments give the empty text, others a slash in front of each, for a wildcard too (three examples) |
| Routes.AddKeepsTable | include/utilxx/router.h:257-266 | adding registers the path and its beginnings, nothing else |
| Routes.AddThenGet | include/utilxx/router.h:252-266 | what was added is found under any text with the same segments, in both modes |
| Routes.AddChangesNoOther | include/utilxx/router.h:257-266 | adding a route changes no target and no strict answer for another registered path or another method, and no loose answer for another method or for a path with a handler of its own |
| Routes.RemoveUndoesAdd | include/utilxx/router.h:337-351 | removing takes back what adding set |
| Routes.RePathIsFixed | include/utilxx/router.h:230-243 | looking up a returned path gives the same node, in both modes |
| Routes.NearestIsLongest | include/utilxx/router.h:295-302 | the parent walk finds the longest registered beginning that has a handler, and nothing exactly when none has |
| Routes.AnswerMeans | include/utilxx/router.h:278-333 | an answer by where the lookup ends: the path is that of this node and leads back to it in both modes; the handler is its own, or with prefix_fallback that of the longest registered beginning that has one |
| Routes.LooseTargetForStrict | include/utilxx/router.h:283-294 | when the target of a loose lookup answers a strict call rightly, if and only if |
| Routes.LooseEntryMisleads | include/utilxx/router.h:283-294 | one segment below a route without wildcard it does not |
| RegexOnline.FindOverlaps | src/regex.cpp:144-161 | the hull of the new interval and all that overlap it, although the test uses the growing hull, and the positions of these |
| RegexOnline.EraseMarked | src/regex.cpp:163-166 | erasing from the back removes exactly the overlapping intervals and keeps the order |
| RegexOnline.Callback | src/regex.cpp:124-177 | after one more hit, in whatever order its ends are given, the spans are the merge of all hits so far |
| RegexOnline.Scan | src/regex.cpp:180-203 | for every arrival order the spans are the merge of the hits, no position lies in two of them, and they stand where the callback put them; when ends ascend they are in order |
| RegexOnline.OnlineMerges | src/regex.cpp:124-177 | the same as a fact about all lists of hits |
| RegexArrival.OrderIsArrival | src/regex.cpp:124-177 | the spans are left in order if and only if, of any two merged spans, the one in front has its last hit before the other one is placed: by its last hit, or if it is empty by its first |
| RegexSorted.SortAndMerge | src/regex.cpp:401-421 | sorting and extending the last span gives the merge of the raw intervals, in order |
| RegexSorted.BackendsAgree | src/regex.cpp:124-421 | both backends find the same set of spans, and the same list when ends ascend |
| Intervals.MergeUnique | src/regex.cpp:143-169 | there is only one merge: disjoint, same positions covered, touching intervals apart |
| Intervals.MergeCovers | src/regex.cpp:143-169 | merging covers exactly the positions of the raw intervals |
| Intervals.MergeOne | src/regex.cpp:149-169 | replacing what overlaps by the hull merges one more interval |
| RegexEdit.Replace | src/regex.cpp:227-247 | for spans within the text in any order: each is replaced, and what is copied in front of one is the stretch up to it, or the rest of the text when it starts before the position reached |
| RegexEdit.ReplaceFillsIn | src/regex.cpp:227-247 | for spans in order: the text between the spans and the spans, taken in turns, are the input, and the same with the target for each span is the result |
| RegexEdit.Remove | src/regex.cpp:206-224 | for spans within the text in any order, the result of replacing by the empty text |
| RegexEdit.SubstrIsGap | src/regex.cpp:214 | the wrapped difference of two size_t makes substr copy the stretch up to the span, or all the rest |
| RegexRemoved.RemoveDeletesMatches | src/regex.cpp:206-224 | with merged spans in any order, remove leaves exactly the characters that no raw interval covers if and only if the list is in order; else it leaves a longer text |
| RegexRemoved.UncoveredAre | src/regex.cpp:206-224 | the uncovered characters are, in order, those at the positions that no raw interval covers |
| RegexRemoved.RemoveAfterScan | src/regex.cpp:180-224 | so for all hits of a scan: remove is right if and only if, of any two merged spans, the one in front has its last hit before the other one is placed; as always when ends ascend |
| RegexRemoved.ScanAndRemove | src/regex.cpp:180-224 | scan and remove together leave the uncovered characters exactly for these orders of arrival, and never less |
| RegexRemoved.SortAndRemove | src/regex.cpp:401-443 | with the other backend remove always leaves exactly the characters that no raw interval covers |
| RegexRemoved.RemovedLength | src/regex.cpp:212-219 | what is left and what is removed add up to the text plus the rest of it once for every span that starts too early |
| RegexRemoved.OutOfOrder | src/regex.cpp:206-224 | "abcd" with hits (2,3), (0,1) gives the spans in this order, and "abdbcd" instead of "bd" |
| UrlPath.NormalizeUrlPath | src/http_client.cpp:141-180 | the buffer with its positions is a stack of segments: the result is where the path leads, with a slash at the end exactly after a last step up |
| UrlPath.NormalForm | src/http_client.cpp:138-140 | it starts with a slash, has no empty, "." or ".." segment, and leads to the same place as the path |
| UrlPath.SamePlace | src/http_client.cpp:138-180 | normal forms agree up to a slash at the end if and only if the paths lead to the same place |
| UrlPath.FixedExactly | src/http_client.cpp:162-166 | one application is enough if and only if the path leads to the root or its last real step does not go up |
| UrlPath.FixedFromTheSecond | src/http_client.cpp:141-180 | two applications always are |
| DotSegments.StandardWalks | src/http_client.cpp:138-140 | the loop of section 5.2.4 of RFC 3986 on any absolute path: it walks all segments, the empty ones too, and leaves a slash behind a last "." or ".." |
| DotSegments.NormalIsStandard | src/http_client.cpp:138-180 | without two slashes in a row the normal form is that of the standard if and only if the path leads to the root, its last real step goes up, or it has no slash at the end and no "." as its last segment |
| DotSegments.DotAtEnd | src/http_client.cpp:138-180 | `/a/.` gives `/a`, and `/a/` by the standard |
| DotSegments.EmptySegment | src/http_client.cpp:138-180 | `/a//../b` gives `/b`, and `/a/b` by the standard |
| UrlParse.ParsePortIs | src/http_client.cpp:1110-1117 | a port is accepted if and only if it is all digits with a value from 1 to 65535 |
| UrlParse.ParsedIsWellFormed | src/http_client.cpp:1079-1139 | an accepted URL has the scheme http or https, a host without slash, a port in range and a path with a slash in front |
| UrlGrammar.AuthorityExactly | src/http_client.cpp:1097-1137 | which authorities are accepted, with which host and port: a name, perhaps with a colon and digits from 1 to 65535 behind its last colon, or anything in brackets, perhaps with these |
| UrlGrammar.AcceptedExactly | src/http_client.cpp:1079-1139 | a URL is accepted with this record if and only if it is one of the two schemes, "://", such an authority, and nothing or a path with a slash in front |
| UrlParse.NoPortMeans | src/http_client.cpp:1092-1138 | without a port in the text it is 80 for http and 443 for https, and without a path that is a slash |
| UrlParse.HostHeaderMeans | src/http_client.cpp:1141-1153 | the Host header leaves out the port exactly for 80 on http and 443 on https, and puts a host with a colon in brackets |
| UrlParse.PrintedUrlParses | src/http_client.cpp:1141-1153 | scheme, Host header and path parse back to the same record if and only if the host has no closing bracket beside a colon, and without colon no bracket in front |
| UrlParse.AcceptedUrlComesBack | src/http_client.cpp:1079-1153 | so every accepted URL whose host has no square brackets comes back |
| UrlParse.BracketHostBreaks | src/http_client.cpp:1079-1153 | `http://a]:b:80/` is accepted and does not come back |
| UrlParse.FragmentDropped | src/http_client.cpp:965-971 | a fragment changes nothing, and a Location with nothing else leads to the same URL |
| UrlParse.ReturnedAsIs | src/http_client.cpp:972-974 | a Location with "://" is the result itself, without its fragment |
| UrlParse.RedirectKeepsOrigin | src/http_client.cpp:960-994 | a Location that is no URL of its own and names no host keeps scheme, host and port, and leads to the path it names |
| UrlParse.RedirectExactly | src/http_client.cpp:960-994 | a Location that names neither scheme nor host leads to the same origin, and to the path it names, if and only if it holds no "://"; else the result is no URL |
| UrlParse.MarkInQuery | src/http_client.cpp:972-974 | "/login?next=http://x" and "login?next=http://x" lead to no URL, from anywhere |
| UrlParse.PathRedirectExactly | src/http_client.cpp:972-987 | a Location with exactly one slash in front leads to the same origin and this path if and only if it holds no "://" |
| UrlParse.RedirectKeepsScheme | src/http_client.cpp:976-982 | a Location with "//" in front keeps the scheme and replaces the rest |
| UrlParse.RelativeRedirectWalks | src/http_client.cpp:983-994 | a relative Location leads where its segments lead from the directory of the old path, and the new path is the normal form of both together |
| Digits.DecimalReadsBack | src/http_client.cpp:1149-1151 | the decimal form reads back |
| Digits.HexReadsBack | include/utilxx/http_server.h:259 | the hexadecimal form reads back |
| Digits.DecimalIsShort | src/http_client.cpp:1149-1151 | it has no zero in front |
| Digits.HexIsShort | include/utilxx/http_server.h:259 | it has no zero in front, and lower-case letters only |
| Digits.NumbersSpelled | include/utilxx/http_server.h:259 | 1090 and 431 as they are printed |
| SseWriter.SseWriterImpl.WriteEvent | include/utilxx/http_server.h:180-187 | one event is one chunk, with the head in front when it is the first |
| EventStream.OneEvent | include/utilxx/http_server.h:180-187 | an event text without line breaks in name and data is read as exactly this event, whatever follows |
| EventStream.EventsReadBack | include/utilxx/http_server.h:180-187 | the texts of any events are read back as exactly these if and only if no name or data holds a carriage return or a line feed |
| EventStream.TwoLines | include/utilxx/http_server.h:180-187 | data of two lines, "a" and "b", is read as "a" |
| EventStream.EventsSpelled | include/utilxx/http_server.h:180-187 | the texts of an event with a name and of one without |
| SseEvents.EventsArrive | include/utilxx/http_server.h:180-264 | over the wire too: after any successful writeEvent calls and a close the client's stream is complete, and it reads exactly the events written if and only if none holds a line break |
| SseWriter.SseWriterImpl.WriteResponse | include/utilxx/http_server.h:193-228 | accepted only when neither a head nor a response was sent |
| SseWriter.SseWriterImpl.Close | include/utilxx/http_server.h:230-247 | the terminator goes out exactly when a stream was begun and no response sent |
| SseWriter.SseWriterImpl.DoWrite | include/utilxx/http_server.h:251-303 | head and frame, or frame, as far as the network lets them; false when either is cut; behind a shutdown nothing, and false |
| SseHeads.CallsMean | include/utilxx/http_server.h:193-303 | what each call does, from the calls before it alone: when a terminator, a response and a write go out, and what they return |
| SseHeads.OneStatusLine | include/utilxx/http_server.h:193-303 | over every run of calls at most one status line goes out, whole or begun, if and only if there is no write of whose head bytes go out behind an accepted response of which bytes went out |
| SseHeads.WriteBehindResponse | include/utilxx/http_server.h:193-303 | a write behind a response that was sent: what is on the stream then, with two status lines |
| SseHeads.NothingBehindClose | include/utilxx/http_server.h:230-247 | whatever follows a close puts nothing on the stream, and writes and responses return false |
| SseWriter.ClientReads | include/utilxx/http_server.h:180-303 | after successful writes and a close a client decodes exactly the concatenated data, with one end at the very end, if and only if no empty chunk was written |
| SseWriter.EmptyChunkEnds | include/utilxx/http_server.h:257-264 | an empty chunk in front of another one: the client takes the stream as complete, and the other one is left over |
| SseWriter.ClientWaits | include/utilxx/http_server.h:251-303 | right behind a write that was cut at any byte, which returns false, a client has exactly the data of the writes before and waits |
| SseWriter.ClientMissesEnd | include/utilxx/http_server.h:230-240 | when the terminator is cut a client has all data and waits for the end |
| SseCut.OnlyWrittenData | include/utilxx/http_server.h:180-303 | over every run of calls with one status line in which nothing is put on the stream behind a cut frame, a client reads a whole head and a well-formed body whose data is what the first calls wrote |
| SseCut.CloseBehindCut | include/utilxx/http_server.h:230-303 | for a close right behind a frame cut at any byte: what the client has, and whether the stream looks complete, unfinished or malformed |
| SseCut.WrongDataExactly | include/utilxx/http_server.h:230-303 | bytes nobody wrote come out if and only if three bytes of data are missing that are not "0", CR, LF, or one that is not "0" |
| SseCut.CutThenClose | include/utilxx/http_server.h:230-303 | "abc" cut in front of its data, and a close: the client gets "0", CR, LF |
| SseCut.WriteBehindCut | include/utilxx/http_server.h:251-303 | for another write right behind a frame cut at any byte: cut off altogether it leaves a gap that does not show; else its bytes are taken for the missing ones if and only if they fill up the chunk |
| SseCut.CutThenWrite | include/utilxx/http_server.h:251-303 | "abcde" cut in front of its data, and "xy" behind it: the client gets "2", CR, LF, "xy" |
| ChunkedCoding.StreamReads | include/utilxx/http_server.h:257-264 | what a decoder makes of any list of chunks: the data up to the first empty one, with the rest left over |
| ChunkedCoding.DecodeCut | include/utilxx/http_server.h:257-264 | a stream of filled chunks that ends at any byte is never malformed and gives the data of its first chunks |
| ChunkedCut.FrameBehindCut | include/utilxx/http_server.h:257-264 | a frame cut at any byte with any other frame behind it: when a decoder accepts a chunk, and what it has otherwise |
| ChunkedCut.TerminatorBehindCut | include/utilxx/http_server.h:230-264 | a frame cut at any byte with the terminator behind it: its data as a decoder sees it, and how the decoder is left |

## Left out

- AhoCase: a character is an integer; only the codes 65 to 90 have another case, as in the code.
- AhoCorasickAutomaton.AhoCorasick.Build: only what the first call does to empty patterns is exact. Outputs are never taken away, so after more patterns and another call a node may list an empty pattern though its last character begins a pattern now; all else is exact then too.
- AhoCorasickAutomaton.AhoCorasick.RemoveAll: the `onResults` callback, which only observes the matches, is not modelled.
- AhoCorasickAutomaton.AhoCorasick.Search: `std::sort` is an insertion sort here; only that its result is a sorted permutation is used.
- ConnectionPool: one constant limit for each endpoint is assumed in the theorems about runs; `stats` only reads fields. Enqueueing a waiter and arming its timer are one step, as on an executor with one thread; otherwise the 30 s timer is the fallback.
- PoolProtocol: an io_context goes away only when no coroutine on it creates, uses or is about to acquire a connection. Timers are steps that may happen, not real time.
- Router: nodes stand in a list, with positions for pointers, and a parent is a position; a node cut off by `clear` is dropped from the list. Paths hold no NUL character, which would end the C string.
- Router.XXRouter.Get: the LRU cache is a map that may lose any entries whenever something is put in; its own order is not modelled.
- Router.XXRouter.Clear: handlers of the root stay, as in the code, so emptiness is claimed for other paths only.
- LineDiff: the line numbers of the result are unbounded; in the code they are `int`. The table is bounded by the guard, and stays within uint32.
- RegexOnline, RegexSorted: the regex engines are sources of raw intervals. Empty intervals are merged too, by the same overlap test; that both backends give one list needs non-empty ones.
- RegexEdit.Replace, RegexEdit.Remove: spans must lie within the text, and the length of the text in size_t.
- UrlParse: `isValidUrl`, `urlEncode` and `urlDecode` are thin. The query of a URL is part of its path, as in the code.
- RequestLoop.RequestAsync: headers other than Location, bodies of responses, and the text of errors are left out; a cancellation ends the run like any other exception. Which system errors are retryable is part of the world that is given.
- RequestLoop.Attempts: the pool is met through what it gives (a connection, new or idle, or an exception); what it does inside is the subject of the pool modules. The TLS shutdown without pool is left out.
- SseExchange: time limits are errors that may come at any read; the body parser is a source of pieces with a last one. Behind an error status the body is read and dropped.
- SseCut: what a client reads is exact for one call right behind a cut frame; for more calls behind it only the theorem about runs without one is given.
- SseWriter: the head and the full response are single items, as the HTTP library prints them; that a cancelled write throws instead of returning false is not distinguished.
- EventStream: the reader knows the fields `event` and `data`; `id`, `retry` and a byte order mark in front are left out, as they change no name and no data. An event without a name has the empty one.
- ChunkedCoding: the decoder skips chunk extensions and trailer fields, and does not bound sizes.
- HttpServer dispatch, WebSocket client, crypto, header maps, content types, DNS, TLS set-up and sockets are not modelled.
