# Trackdown: a verified model

Trackdown is a small Go error-tracking server. This project models the parts of it with algorithmic or protocol
content in Dafny and proves properties of them over all inputs, all histories and all runs.

| file | what it models |
|---|---|
| `Basics.dfy`, `Text.dfy`, `Protocol.dfy` | bytes, 64-bit wrap-around, splitting on a separator, the event payload |
| `Vlq.dfy`, `Mappings.dfy`, `Resolver.dfy` | Base64 VLQ, the "mappings" decoder, position lookup (internal/symbolicate) |
| `Symbolication.dfy` | rendering frames through a per-render source map cache (internal/server) |
| `Limiter.dfy` | the token bucket with eviction (internal/ratelimit) |
| `Outbox.dfy`, `OutboxRuns.dfy` | the alert outbox, its retry loop, and interleaved runs of both across restarts (internal/store, cmd/trackdown) |
| `IssueStore.dfy`, `IssueRuns.dfy`, `IssueLifecycle.dfy` | projects, issues and events, and runs of the operations on them (internal/store) |
| `Ingest.dfy`, `Alerts.dfy`, `Served.dfy`, `Redelivery.dfy` | the item loop of an envelope request, whom it alerts, what it leaves stored, and delivering things twice (internal/ingest) |
| `Envelope.dfy`, `WhiteSpace.dfy`, `EnvelopeWire.dfy` | the envelope parser, blank lines, a serialiser, and the round trip (internal/protocol) |
| `Grouping.dfy` | fingerprint signals and the equivalence they decide (internal/grouping) |

Code that loops or updates state in the source is a method or a class here, proved equal to a function; the results
are then proved about that function. Reference definitions that are not in the source (the VLQ and mappings
encoders, the envelope serialiser, the linear scan, the limiter that never evicts, uncached symbolication,
stutter equivalence) exist to say what the code is for.

## What the results depend on

- Integers of the source map code are 64-bit with wrap-around. The VLQ round trip holds exactly for
  -2^62 < v < 2^62. Well-formed lines survive the mappings round trip exactly if every delta d on the way has
  |d| < 2^62, as with fields in [0, 2^62), or |d| >= 3 * 2^62, where the 64-bit sum hides that d is read wrongly
  (`Mappings.MappingsRoundTripIff`).
- `Resolve` is documented to return the last segment at or before the query. The decoder does not reject descending
  columns, and on those it can return another segment (`Resolver.UnsortedLineCanMislead`). It finds the promised segment
  exactly if no probe of the bisection on the way to it has a column beyond the query
  (`Resolver.SearchExactIffPathClear`); `Resolver.LineExactIff` says for which lines this holds for every query. Sorted
  lines always meet it, and lines are sorted exactly when no delta after the first is negative and no column sum
  overflows.
- The limiter as it runs, evicting idle buckets, is an exact token bucket on every history, and respects every window's
  bound, exactly for rate >= 0, burst >= 1 and staleAfter * rate >= burst. Without eviction it would be exact for just
  rate >= 0 and burst >= 1. `New` accepts other values: a new key is admitted even with burst < 1, and if buckets are
  evicted before they refill a key can be admitted too often. The clock is assumed not to go backwards.
- Every outbox result assumes one retry loop. Row updates may fail and the process may be restarted: the counting
  results count redeliveries whose update was written, and the waiting bound grows with the updates that failed and with
  the restarts. A row's clock reading and its write are one step, and `created_at` and `next_attempt_at` come from one
  clock. The source reads the clock before it waits for the write connection (internal/store/store.go:669, 737), so
  `OutboxRuns.AgeBound` and the waiting bound are exact up to that wait.
- Redelivery is harmless exactly while the event is still stored: after retention has pruned it, the same event counts
  again.
- Two stored events of a project are in one issue exactly if they are the same bug, for a collision-free hash and events
  without NUL characters (`Served.IssuesAreBugs`). Different bugs can share a fingerprint when a component contains a
  NUL (`Grouping.NulCanCollide`). Among all events, a fingerprint tells its event's bug from every other exactly if at
  most two NULs are hashed for it: no stack frames, and at most one NUL in the type or message
  (`Grouping.FingerprintIdentifiesIff`).
- An item header with a negative length makes the source panic in an allocation; the model reports it as the outcome
  `NegativeLength`. This happens exactly if the envelope header is accepted and one of the item headers then read
  declares a negative length (`Envelope.PanicsIffNegativeLength`).

Where documentation and code differ, the model follows the code, and the exact condition for agreement is proved:

- docs/architecture/grouping.md groups a message on the current thread's trace only, but
  internal/grouping/fingerprint.go:80-84 falls back to the first thread that has one. The signals are the documented
  ones exactly if the event has an exception, a current thread has a trace, or the fallback has no frames
  (`Grouping.AsDocumentedIff`).
- `readLine` (internal/protocol/envelope.go:111-113) is said to report an exhausted reader, but reports only a line that
  ended without a newline. The two agree exactly unless the newline that ends the line is the last byte of the input
  (`Envelope.EndReportedIff`).

## Model

| member | source | states |
|---|---|---|
| Vlq.AlphabetIsRfc4648 | internal/symbolicate/sourcemap.go:172-174 | the alphabet literal is the digit list of RFC 4648, section 4, in order |
| Vlq.BuildTable | internal/symbolicate/sourcemap.go:176-185 | the filled table maps every byte to its base64 digit and all others to -1 |
| Vlq.DecodeVLQ | internal/symbolicate/sourcemap.go:192-213 | the digit loop computes the decoding function, errors included |
| Vlq.DecodeDenotes | internal/symbolicate/sourcemap.go:192-213 | a complete digit string decodes to its signed number modulo 2^64 and the rest is untouched |
| Vlq.DecodeOutcome | internal/symbolicate/sourcemap.go:194-213 | after the digits with a continuation bit the next byte decides: none is a truncation, a byte that is no digit is reported, a digit ends the value |
| Vlq.DecodeConsumes | internal/symbolicate/sourcemap.go:196-211 | success strips one complete value, at least one byte, and returns that value's number |
| Vlq.MachineAgreesIff | internal/symbolicate/sourcemap.go:201-208 | 64-bit and unbounded decoding agree exactly below 2^63 |
| Vlq.TwelveDigitsNeverOverflow | internal/symbolicate/sourcemap.go:194-201 | up to twelve digits every running sum stays below 2^60 and decoding is exact |
| Vlq.RoundTripIff | internal/symbolicate/sourcemap.go:187-213 | decoding an encoded value followed by anything returns both, exactly for -2^62 < v < 2^62 |
| Mappings.ReadFields | internal/symbolicate/sourcemap.go:130-143 | all fields of a segment are counted and the first five stored, or the first VLQ error is returned |
| Mappings.ReadSegment | internal/symbolicate/sourcemap.go:129-164 | one segment is decoded and moves the column and the four accumulators, or its error is returned |
| Mappings.ReadLine | internal/symbolicate/sourcemap.go:122-168 | the segment loop of a line computes the line decoding function |
| Mappings.Read | internal/symbolicate/sourcemap.go:118-170 | the loop over lines computes the mappings decoding function |
| Mappings.DecodingComposes | internal/symbolicate/sourcemap.go:113-123 | decoding a, semicolon, b gives a's lines and then b's lines decoded from a's final accumulators |
| Mappings.LineCount | internal/symbolicate/sourcemap.go:122-167 | a decoded string has one line per semicolon plus one |
| Mappings.AcceptedIff | internal/symbolicate/sourcemap.go:117-147 | a mappings string is accepted exactly if each of its segments is empty or one, four or five complete VLQ values |
| Mappings.StrayCommaIsIgnored | internal/symbolicate/sourcemap.go:125-128 | a doubled comma changes nothing |
| Mappings.MappingsRoundTripIff | internal/symbolicate/sourcemap.go:113-170 | decoding the delta encoding of well-formed lines gives them back exactly if every delta d on the way has absolute value below 2^62 or at least 3 * 2^62 |
| Mappings.MappingsRoundTrip | internal/symbolicate/sourcemap.go:113-170 | decoding the delta encoding of any encodable lines gives back exactly those lines |
| Mappings.InRangeIsEncodable | internal/symbolicate/sourcemap.go:148-163 | well-formed segments with fields in [0, 2^62) are always encodable |
| Resolver.ParseIff | internal/symbolicate/sourcemap.go:63-77 | a document is accepted exactly if it has version 3 and its mappings decode, and its sources and names are kept |
| Resolver.SearchBoundary | internal/symbolicate/sourcemap.go:97 | on any line, sorted or not, the search ends between a column at or before the query and one beyond it |
| Resolver.SearchExactIffPathClear | internal/symbolicate/sourcemap.go:94-97 | on any line the search finds the last segment at or before the query exactly if every probe before it on the way there is at or before the query |
| Resolver.LineExactIff | internal/symbolicate/sourcemap.go:94-97 | a line is searched exactly for every query if and only if the bisection to each segment that all later columns exceed probes no larger column before it |
| Resolver.ResolveExactIffPathClear | internal/symbolicate/sourcemap.go:79-111 | hence the answer is the linear scan's exactly then, on lines whose segments resolve to different positions |
| Resolver.ResolveExactIfPathClear | internal/symbolicate/sourcemap.go:79-111 | on any line clear probes give the linear scan's answer |
| Resolver.ResolveRefinesScan | internal/symbolicate/sourcemap.go:79-111 | on a sorted line the binary search answers every query as a linear scan for the last segment at or before it |
| Resolver.SegmentCovers | internal/symbolicate/sourcemap.go:79-83 | a segment answers for all columns from its own up to the next segment's |
| Resolver.SortedIffDeltasNonNegative | internal/symbolicate/sourcemap.go:94-96 | while column sums fit in 64 bits a decoded line is sorted exactly if no delta after the first is negative |
| Resolver.SortedIffNoOverflow | internal/symbolicate/sourcemap.go:148-149 | with such deltas a decoded line is sorted exactly if no column sum overflows |
| Resolver.ParsedMapResolvesAsScan | internal/symbolicate/sourcemap.go:63-111 | a version 3 document with a well-ordered mappings string is accepted, and resolving answers as the linear scan over its own sources, names and lines |
| Resolver.UnsortedLineCanMislead | internal/symbolicate/sourcemap.go:94-97 | a mappings string with a descending column on which the search misses the last segment at or before the query |
| Symbolication.Render.Lookup | internal/server/symbolication.go:45-60 | the cached lookup returns what a fresh fetch and parse would, and fetches a path only once |
| Symbolication.Render.ResolveFrame | internal/server/symbolication.go:76-101 | a frame resolved through the cache equals the frame resolved with a fresh lookup |
| Symbolication.FrameShowsCoveringSegment | internal/server/symbolication.go:85-99 | a frame under a segment is symbolicated exactly if the segment has a source, and shows its file, line plus one, column and name |
| Symbolication.SymbolicatedOnlyFromMap | internal/server/symbolication.go:76-90 | a frame is shown raw unless it has a path, a line, and a version 3 map stored for that path of the release |
| Symbolication.StoredMapIsShown | internal/server/symbolication.go:45-74 | if the stored document of a frame's path encodes given sorted lines, the rendered frame shows the source, line plus one, column and name of the segment it lies under |
| Symbolication.BuildDisplayExceptions | internal/server/symbolication.go:40-74 | the render equals the uncached one, and fetches exactly the distinct paths of locatable frames, once each, and none without a release |
| Limiter.TokenBuckets.Allow | internal/ratelimit/limiter.go:56-82 | one call has the effect and the answer of one step of the history semantics |
| Limiter.TokenBuckets.SweepLocked | internal/ratelimit/limiter.go:88-97 | the sweep removes exactly the keys idle for longer than staleAfter, and only in a large map |
| Limiter.EvictingExactIff | internal/ratelimit/limiter.go:56-97 | the limiter as it runs denies a request if and only if admitting it would exceed burst + rate * length in some window ending now, on all histories exactly for rate >= 0, burst >= 1 and staleAfter * rate >= burst |
| Limiter.EvictingWindowBoundIff | internal/ratelimit/limiter.go:56-97 | in every window of every run a key's admitted requests respect burst + rate * length, exactly under the same three conditions |
| Limiter.NewExactIff | internal/ratelimit/limiter.go:18-52 | a limiter as `New` builds it is exact on all histories exactly for rate >= 0, burst >= 1 and 600 * rate >= burst |
| Limiter.NewMapIsBounded | internal/ratelimit/limiter.go:14-21 | its map holds more than 1000 keys only if so many were requested within ten minutes |
| Limiter.DeniedIffWindowFull | internal/ratelimit/limiter.go:69-82 | the bucket alone, without eviction: a request is denied if and only if some window ending now would be overfilled |
| Limiter.ExactIffSane | internal/ratelimit/limiter.go:41-52 | without eviction that holds on all histories exactly for rate >= 0 and burst >= 1 |
| Limiter.WindowBound | internal/ratelimit/limiter.go:69-82 | without eviction, in every window a key's admitted requests respect burst + rate * length |
| Limiter.SeenAtRequest | internal/ratelimit/limiter.go:65-75 | a bucket's lastSeen is the time of its key's last request, denied or not |
| Limiter.MapIsBounded | internal/ratelimit/limiter.go:14-21 | the map never holds more keys than sweepAtSize or, if larger, than were requested within staleAfter before some request |
| Limiter.EvictionSimulates | internal/ratelimit/limiter.go:61-67 | the evicting limiter gives every answer of the one that never evicts, and forgets only buckets that would be full |
| Limiter.EvictionInvisibleIff | internal/ratelimit/limiter.go:84-97 | eviction changes no answer of any history exactly if an idle bucket refills within staleAfter |
| Outbox.AlertOutbox.EnqueueAlert | internal/store/store.go:664-680 | a new row with a fresh id, pending, one attempt, due after one minute |
| Outbox.AlertOutbox.DueAlerts | internal/store/store.go:686-707 | the result is the first `limit` due rows in (next_attempt_at, id) order with none skipped |
| Outbox.AlertOutbox.MarkAlertDelivered | internal/store/store.go:710-717 | only that row changes, to delivered |
| Outbox.AlertOutbox.MarkAlertFailed | internal/store/store.go:723-745 | only that row changes: rescheduled by the backoff, or dead at eight attempts |
| Outbox.AlertOutbox.RetryDueAlerts | cmd/trackdown/main.go:303-336 | one tick takes a due batch of at most twenty; each entry whose update is written becomes delivered if its redelivery succeeded, else gets one more attempt and the next backoff or is dead at eight; no other row changes |
| Outbox.AlertOutbox.NotifyAsync | internal/ingest/ingest.go:90-115 | only a failed first delivery reaches the outbox |
| OutboxRuns.TickIsRun | cmd/trackdown/main.go:309-335 | the loop of a tick is the run that delivers each entry of the batch in turn with its own outcome and time, ending in the same rows |
| OutboxRuns.EntryStep | internal/store/store.go:710-745 | what any step does to any stored entry |
| OutboxRuns.InvRun | internal/store/store.go:664-745 | attempts within 1..8, dead exactly at eight, due times and ages, and batch snapshots equal to their rows, in every state of every run |
| OutboxRuns.RetriesAreCounted | internal/store/store.go:719-745 | attempts advance once per recorded failure, delivery is recorded once at most, final states are never left, and 8 - attempts bounds what remains |
| OutboxRuns.BoundedRetries | internal/store/store.go:602-615 | over whole runs attempts is one plus the recorded failures, dead means eight, delivered means one recorded success |
| OutboxRuns.TotalBackoffs | internal/store/store.go:607-626 | the waits accumulate as 1, 6, 36, 156, 876, 1596 and 2316 minutes |
| OutboxRuns.AgeBound | internal/store/store.go:602-626 | an entry with k failures is at least backoff(1) + ... + backoff(k-1) old; none is dead before 2316 minutes |
| OutboxRuns.NoStarvation | internal/store/store.go:684-692 | from any reachable state, mid-tick included, an entry that is due with r pending entries ahead is reached by the next (r + f) / 20 + 1 + c ticks to begin, f being the failed row updates and c the restarts, whatever else is enqueued or rescheduled |
| OutboxRuns.HandledOnceTicksComplete | cmd/trackdown/main.go:309-335 | and it has been handled when these ticks have completed |
| IssueStore.Store.EnsureProjectRow | internal/store/store.go:249-262 | a project is created once and an existing key is left alone |
| IssueStore.Store.SaveEvent | internal/store/store.go:342-415 | an error is returned exactly if a database call the transaction reaches fails, every table is then unchanged, and otherwise the save is complete |
| IssueStore.Store.SetIssueStatus | internal/store/store.go:565-580 | the status of the project's issue is set, or nothing changes and it is reported missing |
| IssueStore.Store.DeleteOldEvents | internal/store/store.go:236-247 | exactly the events received before the cutoff are removed, and their number returned |
| IssueRuns.FirstKeyIsKept | internal/store/store.go:249-262 | over any run a project has the key it had before, or else the first one it was given, and is never removed |
| IssueRuns.PruneKeepsRecent | internal/store/store.go:236-238 | pruning separates the events exactly at the cutoff |
| IssueRuns.EventIdsRun | internal/store/store.go:395-409 | in every run event ids ascend in the order of saving and none is given out again, even after pruning |
| IssueRuns.Conservation | internal/store/store.go:227-247 | in every run each issue's count is its stored plus its pruned events, all events link to an issue of their project, and both natural keys stay unique |
| IssueLifecycle.NewExactlyOnce | internal/store/store.go:368-379 | isNew is reported exactly when the issue comes into being, at most once per project and fingerprint |
| IssueLifecycle.RegressesIff | internal/store/store.go:334-341 | a regression is exactly a new event for a resolved issue |
| IssueLifecycle.StatusChange | internal/store/store.go:565-580 | a status change is reported found exactly if the project has an issue with that id, and changes that issue's status and nothing else |
| IssueLifecycle.StatusStep | internal/store/store.go:382-388 | an issue's status changes only at its creation, by a regression, or by hand |
| IssueLifecycle.RegressionsBounded | internal/store/store.go:380-390 | from any reachable state regressions are bounded by the times the issue was set to resolved |
| IssueLifecycle.RegressionsNeverExceedResolutions | internal/store/store.go:380-390 | from an empty store an issue's regressions never exceed its resolutions |
| IssueLifecycle.ResolvedBetweenRegressions | internal/store/store.go:334-336 | between two regressions the issue was set to resolved |
| IssueLifecycle.IgnoredStaysIgnored | internal/store/store.go:336-339 | an ignored issue stays ignored and silent until its status is set by hand |
| IssueLifecycle.SavedEventIsReadBack | internal/store/store.go:395-409 | a new event can be read back with all its fields and its issue, and older events are untouched |
| IssueLifecycle.SavedEventsIssue | internal/store/store.go:382-390 | the reported issue is the one with the event's fingerprint |
| IssueLifecycle.SaveTouchesOneIssue | internal/store/store.go:385-388 | no other issue changes, and title and first sighting are kept |
| Ingest.ServeItem | internal/ingest/ingest.go:190-224 | one item is skipped, saved with its alert, or fails without effect, exactly if it asks for a save and a call of that fails |
| Ingest.ServeEnvelope | internal/ingest/ingest.go:184-225 | the loop stops exactly at the first failing item, and the store and the alerts are those of the items before it |
| Alerts.SaveAlertsRightly | internal/ingest/ingest.go:206-221 | a save raises one alert if its event is new and its issue is new or was resolved, and none otherwise; the alert carries the issue's id and count after the save, the event's title and level, and which of the two it is |
| Alerts.DeliveryAlertsRightly | internal/ingest/ingest.go:189-221 | so does each save of a longer delivery, in order |
| Alerts.RequestAlertsCount | internal/ingest/ingest.go:182-225 | a request's alerts on new issues and on regressions are as many, for each issue, as the new reports and the regressions of its run |
| Served.SavesAreOfItems | internal/ingest/ingest.go:189-205 | every save is of an event item that can be parsed, with that event's own fingerprint and title, in item order and at the item's time |
| Served.ItemsAreSaved | internal/ingest/ingest.go:189-205 | every event item that can be parsed is saved |
| Served.ServedEvents | internal/ingest/ingest.go:182-205 | after a request the project exists with its first key, every readable event item is stored, and no other event was added |
| Served.IssuesAreBugs | internal/ingest/ingest.go:203-205 | after any requests, status changes and prunings, two stored events of a project are in one issue exactly if they are the same bug (collision-free hash, no NUL) |
| Redelivery.SaveIsNoOpIffStored | internal/store/store.go:349-363 | a save leaves the store unchanged exactly if the event is stored, and then reports nothing |
| Redelivery.ReplaysDoNothing | internal/store/store.go:326-331 | replaying stored events in any order and with any fingerprint changes nothing and alerts nobody |
| Redelivery.StoredSurvives | internal/store/store.go:227-238 | only pruning makes a stored event forgettable |
| Redelivery.ResendDeliversTheRest | internal/ingest/ingest.go:189-205 | resending a partly saved envelope does what its unsaved rest would do, even after other traffic |
| Redelivery.PartFailureThenResend | internal/ingest/ingest.go:189-225 | partial failure and full resend end in the store and the alerts of one clean delivery, timestamps aside |
| Redelivery.FailedRequestResent | internal/ingest/ingest.go:182-225 | the same for a whole request, project creation included |
| Redelivery.AttemptsAddUp | internal/ingest/ingest.go:182-225 | however often a request is sent and wherever each attempt ends, store and alerts are those of one clean request that ends where the furthest attempt did, timestamps aside |
| Redelivery.RetriedUntilComplete | internal/ingest/ingest.go:182-225 | once any attempt gets through, all of them together did what one clean request does, each alert once |
| Envelope.Reader.ReadLine | internal/protocol/envelope.go:116-125 | the reader returns the next line without its terminator, moves past it, and tells whether input ran out |
| Envelope.Reader.ConsumeNewline | internal/protocol/envelope.go:130-135 | at most one newline is skipped |
| Envelope.ReadPayload | internal/protocol/envelope.go:88-100 | a payload is read by declared length or to the end of its line, with every error case |
| Envelope.ParseEnvelope | internal/protocol/envelope.go:52-109 | the parsing loop computes the envelope parsing function and terminates |
| Envelope.PanicsIffNegativeLength | internal/protocol/envelope.go:56-91 | the allocation panics exactly if the envelope header is accepted and an item header read after it declares a negative length |
| Envelope.NegativeLengthPanics | internal/protocol/envelope.go:88-90 | an input whose first item header has length -1 panics |
| Envelope.EndReportedIff | internal/protocol/envelope.go:111-125 | the reported end agrees with an exhausted reader unless the line's newline is the last byte |
| Envelope.FinalNewlineHidesEnd | internal/protocol/envelope.go:121 | on the input "a\n" the reader is exhausted and the end is not reported |
| WhiteSpace.SpaceRuneIff | internal/protocol/envelope.go:76 | the bytes taken for white space are the UTF-8 encodings of Unicode white space |
| WhiteSpace.BlankIff | internal/protocol/envelope.go:76 | a line is blank exactly if it is a run of white space |
| WhiteSpace.TrimSpaceOfPadded | internal/protocol/envelope.go:60 | trimming takes the white space off both ends and nothing else |
| EnvelopeWire.EnvelopeRoundTrip | internal/protocol/envelope.go:47-109 | parsing a serialised envelope returns its header and items, with LF or CRLF, with or without a newline after a payload of declared length, with blank lines, a padded or blank header, and with or without the last newline |
| EnvelopeWire.ItemsInFront | internal/protocol/envelope.go:66-107 | written items in front of any input are read first, and then the input is read as if it stood alone |
| EnvelopeWire.BrokenHeaderRejects | internal/protocol/envelope.go:55-64 | an envelope header that is not blank and does not decode rejects the envelope |
| EnvelopeWire.BrokenItemRejects | internal/protocol/envelope.go:83-93 | an item whose header does not decode or whose payload is cut short rejects the envelope, whatever complete items precede it |
| EnvelopeWire.EnvelopePayloads | internal/protocol/envelope.go:88-102 | on success the payloads are disjoint slices of the input in order, each as long as declared |
| Grouping.FilterInAppLoop | internal/grouping/fingerprint.go:114-122 | the loop keeps the in-app frames |
| Grouping.FilterInAppKeepsOrder | internal/grouping/fingerprint.go:114-122 | filtering distributes over concatenation and decides frame by frame, so order is kept |
| Grouping.SignalsOfTrace | internal/grouping/fingerprint.go:88-112 | the signals are the collapsed sites of the in-app frames if there is one, else of all frames |
| Grouping.LibraryFramesDoNotMatter | internal/grouping/fingerprint.go:88-98 | in a trace with an in-app frame, inserting or removing library frames changes no signal |
| Grouping.LibraryFramesKeepFingerprint | internal/grouping/fingerprint.go:18-24 | nor the fingerprint of the event |
| Grouping.PositionsDoNotMatter | internal/grouping/fingerprint.go:89-93 | frames that agree on module, function and in-app mark give the same signals, whatever their lines and columns |
| Grouping.SignalsGrowBySite | internal/grouping/fingerprint.go:100-111 | a further frame adds its module and function, or nothing if it repeats the site before it |
| Grouping.FrameComponentsLoop | internal/grouping/fingerprint.go:94-112 | the loop computes the signals of a trace |
| Grouping.FirstTrace | internal/grouping/fingerprint.go:74-86 | the chosen trace is that of the first usable thread, and none only if there is none |
| Grouping.CurrentThreadFramesLoop | internal/grouping/fingerprint.go:74-86 | current threads are preferred over others |
| Grouping.AsDocumentedIff | internal/grouping/fingerprint.go:61-86 | the signals are those of the design document exactly if there is an exception, a current thread with a trace, or a fallback without frames |
| Grouping.FallbackIsNotDocumented | internal/grouping/fingerprint.go:80-84 | a message event with a trace on a thread that is not current gets other signals than documented |
| Grouping.CollapseIsCanonical | internal/grouping/fingerprint.go:88-93 | the normal form has no adjacent repetition and is stutter-equivalent to the trace |
| Grouping.CollapseIffStutterEquivalent | internal/grouping/fingerprint.go:100-111 | normal forms agree exactly for lists equal up to repeating adjacent sites |
| Grouping.FramesGroupIff | internal/grouping/fingerprint.go:88-112 | two traces give the same signals exactly if their in-app frames, or all frames of a trace without any, are at stutter-equivalent sites |
| Grouping.ComponentsIffSameBug | internal/grouping/fingerprint.go:48-69 | two events give the same signals exactly if kind, type or message, and traces agree |
| Grouping.JoinNulInjective | internal/grouping/fingerprint.go:20-22 | joining NUL-free signals with NUL loses nothing |
| Grouping.FingerprintIffSameBug | internal/grouping/fingerprint.go:18-24 | with a collision-free hash NUL-free events share a fingerprint exactly if they are the same bug |
| Grouping.FingerprintIdentifiesIff | internal/grouping/fingerprint.go:18-24 | with a collision-free hash and NULs anywhere, sharing an event's fingerprint means being the same bug exactly if its hashed string contains at most two NULs |
| Grouping.NulCanCollide | internal/grouping/fingerprint.go:22 | two different bugs with equal fingerprints because of a NUL in a type |

## Left out

- HTTP handling, authentication, gzip, request size limits, templates, static files, configuration, backups and services: plumbing.
- JSON decoding: the decoders are parameters; the round trip takes printing and decoding of headers as inverse on one-line objects.
- SQLite: tables are sequences or maps, transactions are atomic, time is an ordered number; foreign keys are not relied on, links are proved.
- Floating point rounding in the limiter: tokens and times are reals; bucket objects are values in the map.
- SHA-256: the hash is a parameter, assumed collision-free where a result says so.
- SMTP and webhook delivery: the notifier is an arbitrary outcome per delivery.
- Title text, list ordering, releases and artifact upload: only simple members.
- Envelope.ReadPayload: a declared length too large to allocate is reported as a short payload instead of a panic.
- Ingest.ServeEnvelope: the event count of an alert is read right after the save, without failing and without other requests in between; alerts are those raised when a notifier is configured.
- Redelivery.AttemptsAddUp: compares stores and alerts up to timestamps, because a retry happens at another time; so do the other results on resending. An attempt cut off before its project exists changes nothing and is not listed as one, and nothing else happens between the attempts (Redelivery.ResendDeliversTheRest allows it for one).
- Lost alerts: a process that ends during an alert's first delivery has no row for it yet, and the alert is lost.
- Eventual delivery: nothing is claimed about whether or when the notifier succeeds or ticks occur.
