# Verified model of the console and approval layers of beam_agents

A Dafny model of the parts of `beam_agents` whose correctness is an argument rather
than a reading: the console's ingest wire layer, its live feed and its query layer,
the example approval surface, key sharding, and intent signing. `dafny verify
dfyconfig.toml` checks it all.

| file | models |
|---|---|
| `Bits.dfy`, `Varint.dfy`, `Framing.dfy`, `WireFormat.dfy`, `Utf8.dfy`, `ErrorWire.dfy`, `WireBytes.dfy`, `ErrorBatches.dfy` | base-128 varints with their bit operations, length-delimited frames, truncation recovery, and telling an error record from the envelope that wraps one (Protocol Buffers Encoding, "Base 128 Varints" and "Message Structure") |
| `Broadcaster.dfy`, `Coalescing.dfy`, `MailboxRuns.dfy`, `FeedRuns.dfy` | the bounded lossy fan-out: the object with its mailboxes; what a batch becomes; one mailbox under all interleavings of publishers, deferred wake-ups, the reader, loop shutdown and release; all mailboxes at once |
| `SpanTree.dfy` | collecting spans, and the stack that flattens a span forest with possibly broken parent links |
| `Pagination.dfy`, `Filters.dfy`, `Repeats.dfy`, `Misses.dfy`, `Base64.dfy`, `Cursor.dfy`, `Scan.dfy` | the activation list, its filters, its keyset cursor, when an activation is listed twice or missed, and a client's scan by opaque tokens over a store that changes between requests (sections 3.2, 4 and 5 of RFC 4648) |
| `ErrorRows.dfy`, `UnifiedErrors.dfy`, `ErrorGroups.dfy`, `GroupFigures.dfy` | the relation that unifies the two error streams, and the grouped view of it |
| `Series.dfy`, `Tallies.dfy`, `Percentiles.dfy`, `Overview.dfy`, `Headlines.dfy` | bucketed series, nearest-rank percentiles, and the landing page |
| `Tracking.dfy`, `Surface.dfy`, `SurfaceRuns.dfy`, `SurfacePending.dfy`, `SurfaceLimits.dfy` | the approval surface: bounded memory of what was dealt with, the object one `await`-free segment at a time, all interleavings of its three workers, what is pending and what its sweep does, and the runs that reach their limits |
| `Keys.dfy`, `Signing.dfy` | shard keys and round-robin assignment; signing, verifying and the keyring file |
| `Wrappers.dfy`, `Order.dfy`, `OrderedDict.dfy`, `Rounding.dfy`, `Counting.dfy` | an option type, string order, insertion-ordered dictionaries, Python's division, counting the members of a list |

Code that updates variables step by step is a method or a class here, proved against
a specification function on values; what the source promises is then proved of that
function. Pure code is a function. A protocol is a step function over an explicit
state, and its theorems quantify over every list of steps. For each main operation one
statement says what it returns in terms of its input alone, column by column or byte by
byte, without the functions that compute it.

## Main results

- A framed stream cut at any byte decodes to exactly the records before the cut, and
  decodes normally exactly on a frame boundary (`Framing.TraceCut`); on arbitrary bytes
  the splitter finds the only tiling that stops where no complete frame starts
  (`Framing.BoundsCharacterised`), and the decoder reports corruption exactly when some
  complete frame does not parse (`Framing.DecodeTraceStream`).
- What an error payload decodes to, for every record and for every framed batch
  (`ErrorWire.EnvelopedDecodes`, `ErrorWire.BareDecodesTo`, `ErrorBatches.BatchDecodesIff`).
- In every interleaving, no reader waits while something is pending, every event offered
  is delivered, queued or counted as dropped, and subscribers do not interfere
  (`MailboxRuns.NoLostWakeup`, `MailboxRuns.Conservation`, `FeedRuns.NonInterference`); a
  batch is one event for each activation and kind it touches, with its number of rows
  (`Coalescing.BatchBecomes`).
- A span is listed exactly when its parent chain reaches a root, in depth-first order,
  for any parent links (`SpanTree.TreeLists`, `SpanTree.TreeIsDepthFirst`, over the forest
  that `SpanTree.ForestFromEvents` reads off the events).
- A page holds the newest of the rows that satisfy every criterion set, in order, and says
  how many there are (`Filters.PageHolds`); the search clause finds exactly the texts in
  which the query's pieces occur (`Filters.LikeContains`).
- A client that pages by tokens while rows are inserted, changed and removed never sees a
  key twice and misses no key that stays (`Scan.ClientScan`); on a fixed store it gets
  the whole list (`Pagination.FixedStoreScan`). Over any history of the store, an
  activation can be listed twice exactly when it moves back in the list, and missed exactly
  when it moves ahead of a row in it (`Repeats.NeverRepeatsIff`, `Misses.NeverMissedIff`).
- Unifying the error streams keeps every record and every group
  (`UnifiedErrors.UnifyShows`, `UnifiedErrors.GroupedSumsUp`, `ErrorRows.EveryGroupIsShown`). The landing page's
  series add up to its headline figures for every window (`Overview.Overview`), and every figure counts, sums
  or ranks exactly the rows it should (`Headlines.FiguresAre`); so do the error groups
  (`GroupFigures.ListAccounts`).
- Whatever the surface forgets, two verdicts for one intent are separated by verdicts for
  4096 others (`SurfaceRuns.SecondVerdict`); a second verdict is possible exactly once more
  intents are decided than the table holds (`SurfaceLimits.DecidesTwiceIff`). After every
  run exactly the outstanding requests are pending (`SurfacePending.PendingIsOutstanding`).
- Shard keys and keyring files read back (`Keys.ShardRoundTrip`,
  `Signing.SignedVerifies`); the first bad line of a keyring file decides how it is refused
  (`Signing.FirstBadLineDecides`); a signed intent whose content is changed verifies only if
  the MAC cannot tell the two apart (`Signing.ChangedContentVerifiesIff`).

## Where the code does less than its documentation says

Each of these is a lemma with a concrete input, next to the exact condition under
which the promise does hold.

- `_decode_batch` says that a framed batch "falls through" the single-record reading.
  A record with a nine-byte key, framed alone, does not when its frame length reads as the
  tag of a length-delimited field: the key is lost (`ErrorBatches.NineByteKeyIsLost`, with
  `ErrorBatches.BatchTakenForOneRecord` as its smallest case; condition in
  `ErrorBatches.BatchDecodesIff`). A sender that starts a batch with a body whose length
  begins no field is safe (`ErrorBatches.FallsThrough`).
- A bare error record whose `detail` is itself an encoded record with a reason decodes
  to that inner record (`ErrorWire.ShadowedRecord`, `ErrorWire.BareDecodesIff`).
- `_decode_cursor` says it rejects anything this module did not issue. It also accepts
  tokens with foreign characters (`Cursor.JunkIsIgnored`) and tokens whose last character
  has stray low bits (`Cursor.StrayBitsAreDropped`). An accepted token was issued exactly
  if it is canonical (`Cursor.AcceptedIsIssuedIff`).
- `_ERROR_ROWS` is meant to show one failure once. Two failures of one entity for the
  same reason, delivered on both paths without a seq, make three rows
  (`ErrorRows.TwoFailuresThreeRows`, condition in `ErrorRows.CountedOnceIff`). The
  sentinel -1 for "no match" is also a seq (`ErrorRows.SentinelClaimsAStranger`,
  condition in `ErrorRows.NoCandidateJoinsNothingIff`).
- Rows never repeat by cursor key, but an activation whose `started_ms` moves back while
  a client pages, as an event that arrives late makes it, is listed twice
  (`Repeats.MovedActivationRepeats`, condition in `Repeats.NeverRepeatsIff`). One whose
  `started_ms` moves forward, as pruning its oldest events makes it, is missed although it
  never leaves the store (`Misses.PrunedActivationIsMissed`, condition in
  `Misses.NeverMissedIff`).
- `error_groups` takes any bucket size: zero divides by zero, and with a negative one a
  group's series is empty unless all its rows share a bucket
  (`ErrorGroups.NegativeSizeShowsNothing`, condition in `ErrorGroups.SeriesConservesIff`).
- The surface's sweep deletes without a default from entries listed before its first
  `await`; a click answered meanwhile makes it raise and stops the surface
  (`SurfaceLimits.SweepCanFail`, conditions in `SurfacePending.SweepStops` and
  `SurfacePending.SweepFailure`).
- The comment on the tracking cap says eviction costs at worst a duplicate post or a
  re-answered click. It can also let a second verdict be published
  (`SurfaceLimits.CapForgetsAVerdict`), never before 4096 other intents were decided
  (`SurfaceRuns.SecondVerdict`, condition in `SurfaceLimits.DecidesTwiceIff`).
- The same comment caps the pending table too. Nothing does
  (`SurfaceLimits.PendingIsUnbounded`). After every run it holds exactly the requests posted
  with buttons and not edited since, so it is within the cap exactly while at most 4096 are
  outstanding (`SurfacePending.PendingIsOutstanding`), and it can outgrow the cap exactly if
  more than 4096 are posted (`SurfaceLimits.OverflowsIff`).

## Model

| member | source | states |
|---|---|---|
| Varint.WriteVarint | src/beam_agents/console/_ingest.py:450-459 | the masking, shifting loop writes the value's base-128 digits, least first, every byte but the last marked |
| Varint.ReadVarint | src/beam_agents/console/_ingest.py:495-507 | the shift-or loop reads base-128 addition, from any offset of any bytes, and reports a cut-short varint |
| Bits.OrAboveIsAdd | src/beam_agents/console/_ingest.py:503-503 | or-ing a shifted value above a smaller one is adding it, at every width |
| Bits.MaskIsRemainder | src/beam_agents/console/_ingest.py:453-454 | masking with the low bits is the remainder, at every width |
| Bits.TopBit | src/beam_agents/console/_ingest.py:504-504 | testing the continuation bit compares with its weight |
| Varint.ReadsBack | src/beam_agents/console/_ingest.py:495-507 | an encoding read at its offset in any buffer gives the value and the offset just past it |
| Varint.ReadIsLocal | src/beam_agents/console/_ingest.py:495-507 | a reading depends only on the bytes it consumed |
| Varint.ProperPrefixIsCutShort | src/beam_agents/console/_ingest.py:495-507 | every proper prefix of an encoding is cut short |
| Varint.PrefixFree | src/beam_agents/console/_ingest.py:450-459 | no encoding is a prefix of another |
| Varint.Shortest | src/beam_agents/console/_ingest.py:450-459 | no byte string that reads as the value is shorter, and the encoding is the one without a redundant final zero |
| Framing.FrameRecords | src/beam_agents/console/_ingest.py:435-447 | the writer concatenates one length-prefixed frame per record |
| Framing.FrameBounds | src/beam_agents/console/_ingest.py:462-487 | the splitting loop terminates on any bytes and finds the bounds that `BoundsCharacterised` pins down |
| Framing.BoundsCharacterised | src/beam_agents/console/_ingest.py:462-492 | the bounds with their varint headers tile the bytes up to `_frames_end`, no complete frame starts there, and no other bounds do both |
| Framing.BoundsArePrefix | src/beam_agents/console/_ingest.py:462-487 | the bounds of some bytes are a prefix of the bounds of any longer bytes |
| Framing.Cut | src/beam_agents/console/_ingest.py:462-492 | a stream cut at any byte splits into exactly the bodies framed wholly before the cut |
| Framing.BoundaryIsWhole | src/beam_agents/console/_ingest.py:490-492 | the complete frames reach the cut exactly when the cut is a frame boundary |
| Framing.ParseTraceStream | src/beam_agents/replay/bundle.py:140-162 | the one-pass reader parses every body the splitter locates, and fails exactly on a partial frame or a bad body |
| Framing.ReadersAgree | src/beam_agents/replay/bundle.py:140-162 | the bundle reader, given the complete frames, parses exactly the bodies the splitter located |
| Framing.DecodeTraceStream | src/beam_agents/console/_ingest.py:123-146 | on any bytes: `Malformed` exactly if the body of some complete frame does not parse; otherwise the records are those bodies' parses in order, and `Decoded` exactly if the last frame ends where the bytes do |
| Framing.TraceCut | src/beam_agents/console/_ingest.py:123-146 | decoding a cut stream returns normally exactly on a frame boundary, and either way reports exactly the records before the cut |
| Framing.DecodeBatch | src/beam_agents/console/_ingest.py:510-545 | on any bytes: nothing for none, the one record if there is a single reading, `Malformed` if there is no complete frame or one is no record, and otherwise the frames' records, `Truncated` if bytes are left |
| Framing.BatchCut | src/beam_agents/console/_ingest.py:510-545 | what a framed batch cut anywhere decodes to, including when the cut bytes are taken for one record |
| ErrorWire.RecordRoundTrip | src/beam_agents/console/_ingest.py:569-583 | every well-formed record survives its encoding; it is recognised exactly if it names a reason |
| ErrorWire.EnvelopedDecodes | src/beam_agents/console/_ingest.py:548-566 | every enveloped record decodes to the record wrapped, or to nothing if that names no reason |
| ErrorWire.BareDecodesTo | src/beam_agents/console/_ingest.py:548-583 | what a bare record decodes to, for every well-formed record |
| ErrorWire.BareDecodesIff | src/beam_agents/console/_ingest.py:548-583 | a bare record decodes to itself exactly when its detail is not an encoded record with a reason |
| ErrorWire.ShadowedRecord | src/beam_agents/console/_ingest.py:548-583 | a record whose detail encodes another decodes to the other |
| Utf8.ValidIff | protos/beam_agents.proto:250-260 | a text field accepts exactly the UTF-8 encodings of sequences of Unicode scalar values |
| WireBytes.RecordBytes | protos/beam_agents.proto:250-260 | the bytes of every record: which tag precedes the key, the reason, the detail and the event time, and which of them are left out |
| WireBytes.EnvelopeBytes | protos/beam_agents.proto:175-208 | the bytes of every envelope around an external event |
| WireBytes.RecordPassesOver | src/beam_agents/console/_ingest.py:569-583 | a field of any other number or wire type, groups included, in front of a record leaves it as it is |
| WireBytes.PayloadText | protos/beam_agents.proto:119-208 | which fields of the envelope's other payloads must be UTF-8 |
| WireBytes.PayloadMustParse | src/beam_agents/console/_ingest.py:557-566 | an envelope whose tool result, approval or export request is no message is none itself |
| ErrorBatches.BatchDecodesIff | src/beam_agents/console/_ingest.py:510-583 | a framed batch of bare and enveloped records in any mix decodes to its records exactly when each is recognised by itself and the whole is not taken for one record, or is taken for its only one |
| ErrorBatches.BatchTakenForOneRecord | src/beam_agents/console/_ingest.py:510-583 | it happens: a one-record batch with a nine-byte key and a five-byte reason loses the key |
| ErrorBatches.NineByteKeyIsLost | src/beam_agents/console/_ingest.py:510-583 | every recognised record with a nine-byte key and a body of 16 to 127 bytes, 2 modulo 8, loses its key when framed alone bare, whatever its reason; below 32 if the bytes then read as `reason` or `detail` are overridden text |
| ErrorBatches.FallsThrough | src/beam_agents/console/_ingest.py:510-583 | a batch whose first body has a length below 8, from 2**32, or 4, 6 or 7 modulo 8 decodes to its records exactly when each is recognised by itself: it is never taken for one record |
| Broadcaster.Feed.Create | src/beam_agents/console/_sse.py:169-178 | a queue depth below one is rejected |
| Broadcaster.Feed.Subscribe | src/beam_agents/console/_sse.py:198-214 | registration is eager and adds one empty mailbox |
| Broadcaster.Feed.FanOut | src/beam_agents/console/_sse.py:216-222 | every mailbox is offered every event in order, and is affected by nothing else |
| Broadcaster.Feed.Offer | src/beam_agents/console/_sse.py:224-230 | a full mailbox counts a drop and is not woken; any other queues the event and wakes its reader |
| Broadcaster.Feed.Pull | src/beam_agents/console/_sse.py:246-256 | a gap is reported before the backlog; with nothing to report the flag is cleared |
| Broadcaster.Feed.Release | src/beam_agents/console/_sse.py:258-261 | the mailbox is unregistered and its queue emptied |
| Broadcaster.Feed.PublishBatch | src/beam_agents/console/_sse.py:190-196 | every mailbox is offered the coalesced batch |
| Broadcaster.Coalesce | src/beam_agents/console/_sse.py:264-281 | the three counting loops produce the events that `CoalesceConserves` describes |
| Broadcaster.CoalesceConserves | src/beam_agents/console/_sse.py:264-281 | one event per distinct key in first-arrival order, each with that key's number of rows, adding up to the batch |
| Coalescing.BatchBecomes | src/beam_agents/console/_sse.py:264-281 | one event for each kind and (entity_key, seq), and trace id for trace rows, with rows in the batch, counting exactly those rows, in the order of their first rows; the counts add up to the batch |
| Coalescing.OfferedAllFits | src/beam_agents/console/_sse.py:216-230 | of the events offered a mailbox keeps the first that fit, counts the rest as dropped, and wakes its reader for the former only |
| MailboxRuns.RunKeepsInv | src/beam_agents/console/_sse.py:146-261 | the mailbox invariant, drops imply an exactly full queue among it, after every interleaving |
| MailboxRuns.StepIs | src/beam_agents/console/_sse.py:146-261 | what each action does to a mailbox: what is queued, dropped and delivered, who is woken and from which thread |
| MailboxRuns.StartIs | src/beam_agents/console/_sse.py:198-214 | a subscriber is registered from the start with an empty mailbox |
| MailboxRuns.NoLostWakeup | src/beam_agents/console/_sse.py:224-256 | a registered reader that is blocked, flag clear and no callback in flight, has nothing queued and no unreported drop |
| MailboxRuns.PendingIsDeliverable | src/beam_agents/console/_sse.py:224-256 | whatever is pending is delivered at the reader's next turn, at most one callback away |
| MailboxRuns.Conservation | src/beam_agents/console/_sse.py:186-256 | offered = delivered + queued + unreported drops + reported drops; the queue stays within its depth; what is kept is an order-preserving subsequence |
| FeedRuns.NonInterference | src/beam_agents/console/_sse.py:216-222 | a subscriber's state is determined by its own part of the run, whatever the other subscribers do |
| FeedRuns.FeedKeepsInv | src/beam_agents/console/_sse.py:162-261 | every subscriber of every run of the whole feed keeps the invariant |
| SpanTree.CollectSpans | src/beam_agents/console/_queries.py:631-640 | the collecting loop computes the spans that `CollectedSpans` describes |
| SpanTree.CollectedSpans | src/beam_agents/console/_queries.py:618-640 | each span holds exactly its own events in order, parent and role from the first, the least step |
| SpanTree.EventsOnConcat | src/beam_agents/console/_queries.py:631-640 | which events are a span's own, each in its place |
| SpanTree.ForestFromEvents | src/beam_agents/console/_queries.py:650-659 | the forest from the events: a span's parent is the one its first event names, if that is another span with events; its first time is its least start |
| Order.StringLessIff | src/beam_agents/console/_queries.py:661-662 | ids are ordered by the first character in which they differ, a proper prefix first |
| SpanTree.GroupChildren | src/beam_agents/console/_queries.py:652-659 | the linking loop separates roots from children, whatever the parent links |
| SpanTree.Traverse | src/beam_agents/console/_queries.py:664-685 | the stack loop terminates and lists the depth-first visits in order |
| SpanTree.SpanTree | src/beam_agents/console/_queries.py:643-685 | the whole flattening lists the depth-first visits of the forest of its events |
| SpanTree.NotYetVisited | src/beam_agents/console/_queries.py:669-670 | the `visited` test never fires |
| SpanTree.DepthIsBounded | src/beam_agents/console/_queries.py:643-685 | a parent chain that reaches a root is shorter than the number of spans |
| SpanTree.DepthFirstVisits | src/beam_agents/console/_queries.py:643-685 | the spans visited are exactly those whose parent chain reaches a root, at the length of the chain |
| SpanTree.TreeLists | src/beam_agents/console/_queries.py:643-685 | a span is in the output at a depth exactly if its chain reaches a root at that length, cycles or not |
| SpanTree.TreeIsDepthFirst | src/beam_agents/console/_queries.py:643-685 | of any two output nodes: ids differ, descendants are the contiguous block right after their ancestor, siblings are ordered by (first_ms, span_id) |
| SpanTree.TreeNodes | src/beam_agents/console/_queries.py:673-683 | a node carries its index as order, and exactly its own events and what they say |
| Pagination.PageIsAPrefix | src/beam_agents/console/_queries.py:406-419 | a page is the first rows of the sorted list below the cursor; the next cursor is the last key shown and is absent exactly when nothing is left |
| Pagination.NextListIsTheSuffix | src/beam_agents/console/_queries.py:554-576 | the list below an issued cursor is what followed its page |
| Pagination.AdjacentWindows | src/beam_agents/console/_queries.py:469-499 | two adjacent time windows partition their union |
| Filters.MatchesIff | src/beam_agents/console/_queries.py:469-499 | the clauses pass exactly the rows that satisfy each criterion that is set: equality, membership in tools or reasons, the half-open window, the search |
| Filters.LikeContains | src/beam_agents/console/_queries.py:496-498 | the search clause finds exactly the texts in which the query's pieces between `%` signs occur one after another, `_` standing for any character, letters without case |
| Filters.PageHolds | src/beam_agents/console/_queries.py:554-576 | one request returns, of the rows that satisfy the filter below the cursor, the newest, newest first, as many as fit; the next cursor and the total are given exactly |
| Filters.ScanShows | src/beam_agents/console/_queries.py:554-576 | a scan shows only rows that satisfy the filter, and if it finishes every one that stays |
| Pagination.ScanDescends | src/beam_agents/console/_queries.py:554-576 | whatever is inserted, changed or removed between requests, the rows shown are strictly descending in (started_ms, entity_key, seq) |
| Pagination.ScanIsComplete | src/beam_agents/console/_queries.py:17-23 | a key under which every snapshot holds a row that passes the filter is shown by a finished scan, even if the row's other columns change |
| Pagination.ScanIsSound | src/beam_agents/console/_queries.py:554-576 | everything shown was in some snapshot and passes the filter |
| Pagination.ScanShowsOnce | src/beam_agents/console/_queries.py:406-419 | such a key is shown exactly once |
| Pagination.UnchangedIsShown | src/beam_agents/console/_queries.py:406-419 | a row that no snapshot changes is shown as it is, once |
| Pagination.FixedStoreScan | src/beam_agents/console/_queries.py:406-419 | on a fixed store the pages concatenate to the whole sorted filtered list, and the null cursor comes with the page `PageCountIsCeiling` names, not earlier |
| Pagination.PageCountIsCeiling | src/beam_agents/console/_queries.py:406-419 | that is page max(1, ceil(rows / limit)) |
| Repeats.PairFrom | src/beam_agents/console/_queries.py:406-419 | of two rows shown the earlier was found by no later a request, and if by an earlier one, it had a row below it |
| Repeats.MovedIsShownTwice | src/beam_agents/console/_queries.py:554-576 | an activation that moves back, with a row below it, is shown twice at some page size |
| Repeats.NeverRepeatsIff | src/beam_agents/console/_queries.py:406-419 | over any history of the store: no page size and no schedule of requests shows an (entity_key, seq) twice, exactly when no activation with a row below it in the list moves back |
| Repeats.MovedActivationRepeats | src/beam_agents/console/_queries.py:406-419 | a store in which that happens at page size one |
| Misses.MissedPasses | src/beam_agents/console/_queries.py:554-576 | a finished scan that misses an activation found it below the cursor row at one request and no longer below it at the next |
| Misses.MovedIsMissed | src/beam_agents/console/_queries.py:554-576 | an activation that moves from below a row to its place or above is missed by a finished scan at some page size |
| Misses.NeverMissedIff | src/beam_agents/console/_queries.py:406-419 | over any history whose every state holds an activation: every finished scan lists it, at every page size and on every schedule, exactly when it never makes such a move |
| Misses.PrunedActivationIsMissed | src/beam_agents/console/_store.py:1061-1108 | a store in which an activation whose start moves forward is never shown |
| Scan.TokenReadsBack | src/beam_agents/console/_queries.py:386-419 | the token of a page is never the empty first-page token, and reads back as the last key shown |
| Scan.TokensCarryTheScan | src/beam_agents/console/_queries.py:554-576 | a client that sends back each page's token collects exactly the scan by keys |
| Scan.ClientScan | src/beam_agents/console/_queries.py:386-419 | so what it collects never repeats a key, and holds exactly once each key that stays and passes the filter, and each such row that stays unchanged |
| Base64.PackedShape | src/beam_agents/console/_queries.py:386-389 | the unpadded length for every input length, and no padding among the data |
| Base64.StrictRoundTrip | src/beam_agents/intent_signing.py:238-238 | strict decoding recovers exactly the bytes encoded |
| Base64.AlphabetIs | src/beam_agents/console/_queries.py:386-389 | the two alphabets of RFC 4648 |
| Base64.PackedBits | src/beam_agents/console/_queries.py:386-389 | the characters carry the bytes' bits, most significant first |
| Cursor.PaddingRestored | src/beam_agents/console/_queries.py:386-403 | the stripped text never has length 1 modulo 4 and re-padding restores the encoding |
| Cursor.IssuedCursorDecodes | src/beam_agents/console/_queries.py:386-403 | an issued cursor decodes to its tuple exactly for the arity it was issued with |
| Cursor.IssuedIff | src/beam_agents/console/_queries.py:386-389 | a token is issued for some bytes exactly if it is canonical: the URL-safe alphabet only, no dangling character, no stray low bits in the last one |
| Cursor.AcceptedIsIssuedIff | src/beam_agents/console/_queries.py:386-403 | of the tokens that decode to some bytes, the one issued for them is exactly the canonical one |
| Cursor.AcceptedCursorIssuedIff | src/beam_agents/console/_queries.py:386-403 | a cursor a list accepts is the one it would issue exactly if it is canonical and holds the JSON text written for its values |
| Cursor.JunkIsIgnored | src/beam_agents/console/_queries.py:392-403 | foreign characters are skipped wherever they stand and count only towards the padding, so any multiple of four of them changes nothing |
| Cursor.StrayBitsAreDropped | src/beam_agents/console/_queries.py:392-403 | a token of the alphabet alone that was never issued decodes like one that was |
| ErrorRows.GroupedIsKeyed | src/beam_agents/console/_queries.py:211-223 | trace errors form one group per (entity_key, seq, reason) |
| ErrorRows.LeastSeqIsLeast | src/beam_agents/console/_queries.py:228-240 | a record's trace seq is the least among its candidates, if it has any |
| ErrorRows.JoinsCounterpart | src/beam_agents/console/_queries.py:228-272 | a record with candidates joins its counterpart and nothing else: its own seq if it has one, else the least |
| ErrorRows.NoCandidateJoinsNothingIff | src/beam_agents/console/_queries.py:235-272 | a record without candidates joins nothing exactly when no group of its entity and reason has seq -1 |
| ErrorRows.OneRowPerRecord | src/beam_agents/console/_queries.py:241-272 | a record makes exactly one row, showing the group it joins |
| ErrorRows.Unified | src/beam_agents/console/_queries.py:210-296 | one row per record, then one per group no record joined |
| ErrorRows.EveryGroupIsShown | src/beam_agents/console/_queries.py:210-296 | no group is lost: its entity, reason and error type are shown by some row, its own or a record's |
| UnifiedErrors.GroupedSumsUp | src/beam_agents/console/_queries.py:211-223 | each group has the first time of its events and the greatest error type any of them names; every event has a group |
| UnifiedErrors.UnifyShows | src/beam_agents/console/_queries.py:241-296 | the rows field by field: each record's own fields with the error type of the group paired with it, and each group paired with none |
| ErrorRows.SentinelClaimsAStranger | src/beam_agents/console/_queries.py:234-272 | a record of seq 5 claims a group of seq -1 that is no candidate of it: one row, with the group's error type |
| ErrorRows.ClaimedIff | src/beam_agents/console/_queries.py:286-294 | a failure's trace error is claimed exactly when its record has a seq or it is the earliest of its kind |
| ErrorRows.CountedOnceIff | src/beam_agents/console/_queries.py:210-296 | failures delivered on both paths are counted once each exactly under that condition for all |
| ErrorRows.TwoFailuresThreeRows | src/beam_agents/console/_queries.py:210-296 | otherwise two failures make three rows |
| Series.BucketSize | src/beam_agents/console/_queries.py:992-993 | a bucket is at least one millisecond wide, so that dividing by it is defined |
| Series.CountInto | src/beam_agents/console/_queries.py:1580-1583 | the counting loop leaves in every bucket the weight that fell in it, for any non-zero size |
| Series.AxisAt | src/beam_agents/console/_queries.py:996-1010 | the range is contiguous: bucket i is i sizes after the first and the last time's bucket is the last, for either sign of the size |
| Series.AxisIsBounded | src/beam_agents/console/_queries.py:992-1010 | the size chosen for a window gives at most one bucket more than asked for |
| Series.SeriesSum | src/beam_agents/console/_queries.py:996-1010 | a series adds up exactly the samples whose buckets are on its axis |
| Series.WindowSum | src/beam_agents/console/_queries.py:996-1010 | between the ends nothing is lost with a positive size; with a negative one everything is, unless the ends share a bucket |
| Percentiles.NearestRank | src/beam_agents/console/_queries.py:1492-1498 | the percentile is the least observed value that at least the fraction of the values do not exceed |
| Percentiles.IgnoresOrder | src/beam_agents/console/_queries.py:1492-1498 | it does not depend on the order of the values |
| Percentiles.Monotone | src/beam_agents/console/_queries.py:1492-1498 | a larger fraction never gives a smaller value |
| Percentiles.MedianBelowTail | src/beam_agents/console/_queries.py:1605-1606 | the reported p50 never exceeds the p95 |
| Overview.CountActivations | src/beam_agents/console/_queries.py:1572-1579 | one pass fills the activation and token counts; activations without a token total are left out of the latter |
| Overview.RowTimesAreStored | src/beam_agents/console/_queries.py:1430-1442 | every unified error row is dated by a stored record or event, so it lies within the store's extent |
| Overview.Overview | src/beam_agents/console/_queries.py:1523-1614 | on one snapshot, for any window and bucket count, the three series are contiguous, show what fell in each bucket, and add up to the headline activations, errors and tokens |
| Headlines.FiguresAre | src/beam_agents/console/_queries.py:1523-1614 | the counts, token sums, percentiles and every point of the three series, as counts and sums over the stored rows of the window |
| Headlines.NewestIs | src/beam_agents/console/_queries.py:1430-1442 | the window ends at the greatest time of anything stored |
| ErrorGroups.GroupRows | src/beam_agents/console/_queries.py:1031-1033 | the grouping loop keeps kinds in first-arrival order, each with its rows in order |
| ErrorGroups.Describe | src/beam_agents/console/_queries.py:1036-1054 | a group carries the count, entities, first and last time, first detail and series of exactly its rows |
| ErrorGroups.ErrorGroups | src/beam_agents/console/_queries.py:1013-1055 | the outcome for any rows and any bucket size, the division by zero included |
| ErrorGroups.SortedInOrder | src/beam_agents/console/_queries.py:1055-1055 | the groups come most frequent first, then by reason and error type, and sorting loses none |
| ErrorGroups.GroupsPartitionRows | src/beam_agents/console/_queries.py:1013-1055 | every row's kind has exactly one group and the counts add up to all rows |
| GroupFigures.GroupAccounts | src/beam_agents/console/_queries.py:1025-1053 | a group's count, distinct entities, first and last time, sample detail and series, from the rows of its reason and error type |
| GroupFigures.ListAccounts | src/beam_agents/console/_queries.py:1013-1055 | one such group for every kind among the rows, by falling count, then reason, then error type |
| GroupFigures.SizeIs | src/beam_agents/console/_queries.py:992-1030 | the bucket size is the one given, or the least with which 48 buckets cover the rows |
| ErrorGroups.SeriesConservesIff | src/beam_agents/console/_queries.py:1013-1055 | a group's series adds up to its count exactly when the size is positive or all its rows share a bucket |
| ErrorGroups.NegativeSizeShowsNothing | src/beam_agents/console/_queries.py:1013-1055 | with size -1 two failures a millisecond apart are a group of two with an empty series |
| Tracking.EvictOldest | examples/slack_approval/surface.py:287-292 | the deleting loop leaves the newest entries, in order, as many as the cap allows |
| Tracking.ForgetLongDead | examples/slack_approval/surface.py:229-232 | the deleting loop leaves exactly the entries not yet past retention, in order |
| Tracking.PutThenEvict | examples/slack_approval/surface.py:163-165 | recording a new id keeps the table within the cap and drops at most the oldest entry |
| Tracking.OpenKeeps | examples/slack_approval/surface.py:174-192 | letting an untracked, unexpired id through keeps the guard: any earlier time is separated by a full table of other ids |
| Tracking.RecordKeeps | examples/slack_approval/surface.py:202-203 | recording it, with eviction, keeps the guard |
| Tracking.SweepKeeps | examples/slack_approval/surface.py:229-232 | the sweep keeps the guard: what it forgets has expired |
| Surface.SweepForgets | examples/slack_approval/surface.py:229-232 | a finished sweep has forgotten exactly the tracked ids past their retention |
| Surface.ApprovalSurface.BeginDelivery | examples/slack_approval/surface.py:136-152 | other kinds and tracked ids are committed at once; the rest is posted, with buttons only if unexpired |
| Surface.ApprovalSurface.FinishPost | examples/slack_approval/surface.py:152-165 | after the post the id is tracked within the cap, and pending if it carries buttons |
| Surface.ApprovalSurface.BeginDecision | examples/slack_approval/surface.py:174-201 | decided before expired before malformed before published; a verdict carries the click's own fields; only a refusal removes the pending entry |
| Surface.ApprovalSurface.FinishPublish | examples/slack_approval/surface.py:202-204 | after the publish the id is remembered within the cap and no longer pending |
| Surface.ApprovalSurface.ResumeSweep | examples/slack_approval/surface.py:215-232 | from one edit to the next, or to the eviction of what is long dead, or to the missing key |
| Tracking.StepKeeps | examples/slack_approval/surface.py:136-232 | whatever may happen to a guard, letting an id through, recording it, a sweep, keeps it |
| SurfaceRuns.NextSteps | examples/slack_approval/surface.py:136-232 | every step of every worker is, for the posts and for the verdicts, a step of their guard |
| SurfaceRuns.NextKeeps | examples/slack_approval/surface.py:136-232 | every step of every worker keeps both guards |
| SurfaceRuns.SecondVerdict | examples/slack_approval/surface.py:174-211 | after every run, two verdicts for one intent have at least 4096 distinct other intents' verdicts between them |
| SurfaceRuns.SecondRequest | examples/slack_approval/surface.py:136-165 | after every run, two messages for one intent, the later with buttons, have at least 4096 distinct other intents' messages between them |
| SurfaceRuns.RunIsOrderly | examples/slack_approval/surface.py:136-211 | after every run: every verdict passed the expiry gate, an approval is committed only after a post for its id succeeded, only approvals are posted, only posted ids are pending, both capped tables are within the cap |
| SurfaceRuns.VerdictsAreClicked | examples/slack_approval/surface.py:193-201 | every verdict published has some click's key, intent id, answer, approver, time and expiry, field by field |
| SurfaceRuns.WhatLeaves | examples/slack_approval/surface.py:136-232 | what each action of each worker makes leave, case by case |
| SurfacePending.PendingIsOutstanding | examples/slack_approval/surface.py:136-228 | after every run exactly those requests are pending that were posted with buttons and not edited since, by a decision or the sweep; the table is as large as they are many |
| SurfacePending.SweepStops | examples/slack_approval/surface.py:224-228 | where a sweep stops next: it raises exactly when the first expired entry left in its snapshot is no longer pending |
| SurfacePending.SweepFailure | examples/slack_approval/surface.py:215-228 | after every run, a sweep that raised met an entry whose click was answered since its snapshot |
| SurfacePending.UninterruptedSweep | examples/slack_approval/surface.py:215-228 | a sweep during which no click is answered does not raise |
| SurfacePending.FinishedSweep | examples/slack_approval/surface.py:215-228 | after every run, when a sweep ends nothing is pending that had expired when it began, but for what was posted meanwhile |
| SurfaceLimits.SweepCanFail | examples/slack_approval/surface.py:224-226 | a run in which the sweep raises |
| SurfaceLimits.CapForgetsAVerdict | examples/slack_approval/surface.py:62-65 | a run with two verdicts for one intent and exactly 4096 others decided between them: the bound is attained |
| SurfaceLimits.DecidesTwiceIff | examples/slack_approval/surface.py:174-211 | for every n, some run decides exactly n intents and one of them twice if and only if n exceeds 4096 |
| SurfaceLimits.PendingIsUnbounded | examples/slack_approval/surface.py:62-65 | for every n, a run with n requests posted and pending at once: the pending table has no cap |
| SurfaceLimits.OverflowsIff | examples/slack_approval/surface.py:62-65 | for every n, some run posts for exactly n intents and leaves more than 4096 pending if and only if n exceeds 4096 |
| Keys.ShardRoundTrip | src/beam_agents/keys.py:90-135 | unsharding undoes sharding for every key, delimiters of its own included, and every count from one; smaller counts are refused |
| Keys.UnshardsIff | src/beam_agents/keys.py:115-135 | a key unshards to a logical key exactly if it is that key, the delimiter and digits |
| Keys.ShardsAreDisjoint | src/beam_agents/keys.py:90-112 | a physical key determines its logical key and its index, which is below the count |
| Keys.ShardElement.Process | src/beam_agents/keys.py:138-179 | the element's key and its envelope's become the same physical key, all else is kept; hashing leaves the counter alone, round robin advances it by one |
| Keys.RoundRobinIsEven | src/beam_agents/keys.py:161-166 | any m consecutive ticks give each of n shards the floor or the ceiling of m / n |
| Signing.SigningIsStable | src/beam_agents/intent_signing.py:124-150 | signing leaves the signing input and the content alone, so re-signing with any key is signing the original |
| Signing.SignatureCovers | src/beam_agents/intent_signing.py:124-150 | a signature is the MAC of the serialization of the intent with the three fields about the signature empty |
| Signing.ChangedContentVerifiesIff | src/beam_agents/intent_signing.py:124-172 | a signed intent verifies; with other content under the same signature it is `BadSignature` unless the MAC of the two messages is the same |
| Signing.VerificationIs | src/beam_agents/intent_signing.py:153-172 | each outcome of a verification, from the intent's fields and the ring |
| Signing.VerifiesIff | src/beam_agents/intent_signing.py:153-172 | an intent verifies exactly if it is what signing it with the ring's key for its key id makes it |
| Signing.LoadKeyring | src/beam_agents/intent_signing.py:218-249 | the parsing loop's outcome on any text: entries, a malformed entry, bad base64, or no keys |
| Signing.StripKeepsTheKeyring | src/beam_agents/intent_signing.py:195-215 | stripping the resolved secret changes no line's meaning, whichever line breaks it uses |
| Signing.KeyringRoundTrip | src/beam_agents/intent_signing.py:218-249 | a file of well-formed entries, with any comments, blank lines, spaces around lines and around `=`, and any line breaks, reads back as exactly those entries, later ones replacing earlier; with none it is refused |
| Signing.FirstBadLineDecides | src/beam_agents/intent_signing.py:227-243 | good lines, then a line without `=` or with nothing but spaces before it, or one whose key is not strict base64, then anything: the file is refused for that line |
| Signing.SpacesAre | src/beam_agents/intent_signing.py:227-229 | the characters that are stripped and those that end a line |
| Base64.StrictAcceptsIff | src/beam_agents/intent_signing.py:238-240 | key material is accepted exactly if it is data of the standard alphabet and then the padding due, or any padding after whole groups |
| Signing.SignedVerifies | src/beam_agents/intent_signing.py:137-249 | what is signed with any key of any such file verifies against the keyring read from it |

## Left out

- Floating point: `ceil` and bucket values are exact integers here, and a percentile's fraction is a ratio of integers; where a double rounds `fraction * n` or a token sum beyond 2**53, the code may differ.
- SHA-256, HMAC, JSON and the deterministic protobuf serialization of `ToolIntent` are parameters; nothing is claimed about their strength.
- Tags and lengths are read in up to ten bytes here, where protobuf parsers stop at five; only encodings longer than the shortest are affected.
- Protobuf parsing covers the record and the envelope with unknown fields; the recursion limit, map fields and the 2 GiB ceiling beyond the length bound are not modelled. Snapshot payloads, OTLP requests and BigQuery rows are not decoded.
- SQLite is not modelled: a `with _reader(store)` block is one snapshot, and primary keys are hypotheses. The store's own upserts are not part of this model.
- Pagination is stated for activations only. The orderings of the errors and traces lists are not keys of what they list, so the same theorem is not claimed for them.
- A token that was not issued may decode to values of other types, which SQLite would compare across types; here such a token is refused.
- Error groups and rows carry error type and event time of the trace-error columns; the other failure columns are aggregated the same way and are left out.
- The overview's model and tool tables, cache ratio, status counts and store status, the search, entity, approval, model and tool queries: aggregates that would only add easy members.
- SecondVerdict: assumes one expiry per intent id and a clock that does not go back, as its statement says; across a restart the tables are empty, which is outside a run.
- A post, publish, commit or edit that fails is, here, one that never completes: its worker stops, as one that raises does, while the others may go on for as long as it takes to cancel them. Message texts and Slack transport are not modelled.
- The live feed's SSE text and client disconnection are not modelled beyond release and loop shutdown.
- KeyringRoundTrip: the line numbers in error messages are left out.
- Secret references, signer configuration and key rotation policy are validation over strings and are left out.
- Beam transforms around sharding, type checks on their inputs, and threads other than as one lock-protected counter step.
