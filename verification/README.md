# Verification of the mftik trading core

This project models the parts of mftik that keep state by hand or pack bytes by hand, and proves
what they promise.  The components are sans-IO state machines: the clock is an argument, effects
are returned, and nothing here performs IO.  `dafny verify dfyconfig.toml` checks everything.

## What is modelled

**Local order-book sync.**  `BookPath.dfy` gives one instrument as a value (book, cursor, pending
buffer, floor cursor, snapshot generation, in-flight and backoff modes, two timer tokens), one
function per operation, `Step` for one event, `Run` for any sequence of events and `Sent` for every
effect it returned.  `BookPathClass.dfy` is the object with mutable fields and the fold loop; each
of its methods is proved to take exactly the step of that specification, so the theorems about
`Run` and `Sent` hold of it.  The book is any type with a deterministic `blank` and `apply`;
`BookPathRing.dfy` puts the tick ring in its place.  The theorems are in eight layers:

- `BookPathLaws`: one event keeps the mode, the timer tokens and the backoff schedule.
- `BookPathFeed`: one event keeps up with the feed, hooks rightly, and keeps the book's making.
- `BookPathReplies`: exactly when a reply becomes the book, and field by field what a reply, a delta,
  a non-delta, a reset and a fired timer leave behind.
- `BookPathRequests`: which requests go out, and that replies to what was given up do nothing.
- `BookPathRuns`: all of it over every run.
- `BookPathLiveness`: exactly when a sync is going on, over every run.
- `BookPathHooks`: the order of hooks over every run.
- `BookPathHost`: what a host can rely on over a run: ticks, the view, closing, dead timers, and how a
  sync gets back in step after a failed read.

The only assumption on the host is `Honest`: a timer token that comes back was armed before.  It may
come back late, repeatedly, or never.

Whether a book is the server's is stated up to a relation `like` between books and server states,
because a ring that lived through a delete is not the same value as one freshly installed.  With
equality for `like` it is the plain statement.  With the ring, `ViewSeenIff` says that a visible book
was seen as the prices written into it exactly when it was less than a window wide throughout, and
`ViewReadsServer` that such a side reads the server's size at every tick.

A sync does not go on unconditionally: a reply or a timer that finds no usable tick lets it lapse, and
the next delta at a usable tick starts it again (`path.rs:405-407`).  `LiveIff` gives the exact
condition over every run, and `Recovers` the recovery.

One promise is false as the code stands.  A delta that gets no further than the book's cursor is
ignored, and so is a reset, but a non-delta event is not compared with the cursor at all
(`path.rs:491-500`).  Two exact conditions follow.  `KeepsUpIff`: the path stays level with the feed
throughout a run if and only if no non-delta event arrives that is older than the book it unsyncs.
`NonDeltaRewindsIff`: a non-delta can turn the hooks of an instrument back if and only if it unsyncs
the book with a cursor below a hook that was sent.  `StaleNonDeltaRewinds` is one such run: hooks at
11 and later at 8.

**Tick ring.**  One side is an array of slots that is never cleared.  `OrderBook` gives the in-place
insertion sort, the moving best, the window test, `retreat` and the iterator, and proves what a
reader sees after one update, after a list on a fresh side, and in a listing.  The ring is not a
price map: a level left behind returns when a later window covers its slot
(`LeftBehindLevelReturns`), and `ApplyTickIsMapUpdateIff` says exactly when one update is a map
update cut to the window.  `PriceMap` says when the ring is a price map after all: exactly while its
levels stay less than a window apart.

**Market-data byte ring.**  `ByteQueue` is a bounded queue of byte strings with a pinned head;
`ByteRing.MdRing` is the packed buffer with overlapping slides, proved to do the same steps.

**Client order ids.**  `ClientIds` packs, spells and reads the decimal id; `ClientIdGen` is every
interleaving of threads that load, propose and compare-and-swap.

**Event-log bodies.**  `EventLog` walks protobuf fields on arbitrary bytes, filters them and looks
them up, and writes and reads length-prefixed bodies.  `EventLogWire` is a writer of the wire format of
its own, and states walking, filtering and lookup of what it writes.

**Volume.**  `VolumePath` states path cleaning on stacks of elements, `VolumePathLoops` has the
index loops that implement it, `VolumePathLaws` says in the words of paths what cleaning and relative
paths mean, and `AtomicWrite` runs the replace plan against a disk under every
schedule of failures and process deaths.  `DurableWrite` runs it against what is cached and what
lasts when the machine stops, and shows that each of the two syncs is needed.

**Log lines.**  `CivilDate`, `LogTime` and `LogJson`: the calendar arithmetic, the time stamp with
its remembered second, and JSON strings after section 7 of RFC 8259.  `LogTimeReader` counts days by
years and months and reads an instant back from its text.

**Timer table.**  `Timers`: arms, disarms and wake tasks taking the lock in any order.

## Model

| member | source | states |
|---|---|---|
| BookPathRuns.OneMode | crates/mftik-core/src/bookpath/path.rs:363-444 | in every run an instrument is never in two of synced, in flight and backing off; the buffer is below 10000 and empty with no floor once synced |
| BookPathLiveness.LiveIff | crates/mftik-core/src/bookpath/path.rs:363-500 | after every run an instrument is in one of the three modes if and only if some event at a usable tick started a sync and no reply or timer since found the tick unusable |
| BookPathLiveness.LiveStep | crates/mftik-core/src/bookpath/path.rs:676-741 | after one event a sync goes on exactly when the event starts one, or one went on and the event does not let it lapse |
| BookPathLiveness.Recovers | crates/mftik-core/src/bookpath/path.rs:404-410 | whatever came before, one delta or non-delta at a usable tick gets the sync going, and it goes on while later events find the tick usable |
| BookPathLiveness.NeverStalls | crates/mftik-core/src/bookpath/path.rs:464-500 | when every event found the tick usable, an instrument that was heard of is in one of the modes |
| BookPathRuns.TimersLive | crates/mftik-core/src/bookpath/path.rs:608-741 | a waiting buffer and a backoff always have their latest arm live; an armed token acts exactly when it is that arm, and old enough for a buffer |
| BookPathRuns.NoTokenTwice | crates/mftik-core/src/bookpath/path.rs:659-741 | no token acts twice in a run, however often the host delivers it |
| BookPathRuns.SpentStays | crates/mftik-core/src/bookpath/path.rs:834-849 | a token that is no longer the recorded arm can never become it again |
| BookPathRuns.BackoffSchedule | crates/mftik-core/src/bookpath/path.rs:708-726 | the k-th failed read since the last install arms min(2^(k-1), 30) seconds |
| BookPathRuns.WaitIsFailures | crates/mftik-core/src/bookpath/path.rs:898-906 | the stored wait is the one for the number of failures since the last install |
| BookPathRuns.VisibleBookHasStory | crates/mftik-core/src/bookpath/path.rs:513-604 | a visible book is a fresh ring, one snapshot the host gave for this instrument, then one fed delta, never a reset, per consecutive cursor up to the book's cursor |
| BookPathRuns.RunTold | crates/mftik-core/src/bookpath/path.rs:768-804 | in every run each buffered delta was fed, none is a reset, and each synced book has such a making, whether its deltas were folded or applied live |
| BookPathRuns.BuildIsServer | crates/mftik-core/src/bookpath/path.rs:768-804 | a book made that way from one server history is like the server at its last cursor, for any relation that installs establish and deltas keep |
| BookPathRuns.ViewIsServerBook | crates/mftik-core/src/bookpath/path.rs:266-275 | if snapshots and deltas come from one server history up to such a relation, the view is like the server at the cursor, whatever losses, resets and new snapshots the run had |
| BookPathRuns.KeepsUpIff | crates/mftik-core/src/bookpath/path.rs:491-500 | at every moment of a run the book, or what the next one must reach, covers the newest cursor shown, if and only if no non-delta was older than the book it unsynced |
| BookPathHooks.HooksIncrease | crates/mftik-core/src/bookpath/path.rs:593-604 | the hooks of an instrument carry strictly increasing cursors over a run in which no non-delta unsynced the book with a cursor below a hook sent before |
| BookPathHooks.OldNonDeltaRewinds | crates/mftik-core/src/bookpath/path.rs:491-500 | after any run such a non-delta has a continuation, without another non-delta, in which a later hook is not newer than an earlier one |
| BookPathHooks.NonDeltaRewindsIff | crates/mftik-core/src/bookpath/path.rs:491-500 | after a run without such an event, a non-delta has such a continuation if and only if it is such an event |
| BookPathHooks.KeepingUpIsEnough | crates/mftik-core/src/bookpath/path.rs:491-500 | a run that keeps up with its feed has no such non-delta |
| BookPathHooks.KnownStep | crates/mftik-core/src/bookpath/path.rs:571-591 | what an instrument stands at or insists on reaching never falls below a given cursor, but for a non-delta below it on a synced book |
| BookPathHooks.StaleNonDeltaRewinds | crates/mftik-core/src/bookpath/path.rs:491-500 | a concrete run with such a non-delta hooks cursor 11 and later cursor 8 |
| BookPathRuns.RunGood | crates/mftik-core/src/bookpath/path.rs:154-225 | the joint invariant of modes and tokens holds after every run |
| BookPathRuns.ContinuesStep | crates/mftik-core/src/bookpath/path.rs:834-857 | a call only adds effects, and every timer it arms or records has a new number and this instrument's uid |
| BookPathRequests.RequestStep | crates/mftik-core/src/bookpath/path.rs:676-701 | a call asks for at most one snapshot, under the new generation, and never while the old one is still in flight |
| BookPathRequests.InFlightWasAsked | crates/mftik-core/src/bookpath/path.rs:676-701 | in every run an instrument in flight waits for the last request that was sent for it |
| BookPathRequests.DiscardsBump | crates/mftik-core/src/bookpath/path.rs:743-750 | giving up a book or a buffer starts a new generation |
| BookPathRequests.OldRepliesDoNothing | crates/mftik-core/src/bookpath/path.rs:363-380 | a reply to a request from before a book or buffer was given up changes nothing and sends nothing, at any later point of the run |
| BookPathRequests.AppliedIsHooked | crates/mftik-core/src/bookpath/path.rs:513-604 | a synced book stays synced exactly on an old delta or the next one, and hooks exactly the next one when it is inside the receive window |
| BookPathRequests.ArmsFallDue | crates/mftik-core/src/bookpath/path.rs:851-928 | an arm's deadline is now plus its delay, kept at the 64-bit maximum, and a buffer is given ten seconds |
| BookPathReplies.FoldWholeIff | crates/mftik-core/src/bookpath/path.rs:768-804 | folding succeeds exactly when each buffered delta is not newer than all before it, or is the next cursor; it ends at the newest cursor |
| BookPathReplies.ReplyLeaves | crates/mftik-core/src/bookpath/path.rs:363-444 | the whole instrument after an awaited reply: a read that fails or is not current changes only mode, wait and timer; a gap keeps the buffer from the first delta that does not continue, with its cursor as floor; an acceptable snapshot is the book with every new delta of the buffer applied in order; without a usable tick only the request is over |
| BookPathReplies.FoldExact | crates/mftik-core/src/bookpath/path.rs:768-804 | a fold comes through with exactly the new deltas applied in order, or stops at the first gap |
| BookPathReplies.OldDeltaIgnored | crates/mftik-core/src/bookpath/path.rs:513-525 | a delta or reset no newer than a synced book changes and sends nothing |
| BookPathReplies.NextDeltaApplies | crates/mftik-core/src/bookpath/path.rs:527-545 | the next delta changes the book and the cursor of a synced instrument and nothing else |
| BookPathReplies.GapLoses | crates/mftik-core/src/bookpath/path.rs:571-591 | a delta past the next one becomes the whole buffer and the floor, starts the buffer's ten seconds and asks under a new generation, in this order |
| BookPathReplies.NonDeltaLoses | crates/mftik-core/src/bookpath/path.rs:491-500 | a non-delta gives up the book, keeps the buffer, raises the floor to its cursor and asks under a new generation |
| BookPathReplies.ReplySettles | crates/mftik-core/src/bookpath/path.rs:363-444 | an awaited reply syncs exactly when the tick is usable and it is of this instrument, not behind the floor and continued by the buffer; a failed read backs off; a good reply without a usable tick leaves the instrument idle and otherwise as it was |
| BookPathReplies.DeltaWaits | crates/mftik-core/src/bookpath/path.rs:608-657 | an unsynced instrument keeps each delta in order until 10000 of them or ten seconds, then drops all, remembers the newest cursor and asks anew |
| BookPathReplies.ResetActsIffNewer | crates/mftik-core/src/bookpath/path.rs:547-566 | a reset acts exactly when it is newer than the book, or than floor and buffer when unsynced; the whole instrument and the effects afterwards |
| BookPathReplies.FiringActs | crates/mftik-core/src/bookpath/path.rs:659-741 | a buffer that aged out is dropped with its newest cursor as floor, an ended backoff keeps its buffer, and both ask for a snapshot exactly when the tick is usable |
| BookPathHost.RetrySyncs | crates/mftik-core/src/bookpath/path.rs:703-741 | over a run: a failed read, its backoff, and a snapshot that what is still buffered continues end synced at the newest cursor of the two |
| BookPathHost.FailedReadRetries | crates/mftik-core/src/bookpath/path.rs:703-741 | over a run: after a failed read its backoff asks again, with everything buffered, or behind a gap the deltas from the gap on |
| BookPathHost.FreshSnapshotSyncs | crates/mftik-core/src/bookpath/path.rs:404-444 | over a run: a snapshot as new as everything shown is always installed, at its own cursor |
| BookPathHost.KnownIsShown | crates/mftik-core/src/bookpath/path.rs:752-762 | after every run what an instrument stands at or insists on reaching is never past what was shown |
| BookPathHost.VisibleIff | crates/mftik-core/src/bookpath/path.rs:266-275 | after every run a book is visible exactly while the path is open and the instrument synced, and it is the instrument's book |
| BookPathHost.TickAfter | crates/mftik-core/src/bookpath/path.rs:252-261 | resolving and forgetting change the tick of one instrument, and nothing else changes a tick |
| BookPathHost.FirstDeltaAsks | crates/mftik-core/src/bookpath/path.rs:808-828 | the first delta of an instrument is buffered and asks for a snapshot exactly when its tick is a positive number |
| BookPathHost.DeadTokensDoNothing | crates/mftik-core/src/bookpath/path.rs:659-741 | after every run an armed token that is not the live arm, or is early, changes and sends nothing |
| BookPathHost.ClosedIsFinal | crates/mftik-core/src/bookpath/path.rs:277-282 | after closing nothing is sent and no instrument changes |
| BookPathHost.StrangersDoNothing | crates/mftik-core/src/bookpath/path.rs:464-500 | an event without an instrument, or a reply or timer for an unknown one, changes and sends nothing |
| BookPathHost.OthersUntouched | crates/mftik-core/src/bookpath/path.rs:830-832 | an event of one instrument leaves every other, and its view, as it is |
| BookPathLaws.ShapeStep | crates/mftik-core/src/bookpath/path.rs:171-200 | one event keeps the mode invariant of an instrument |
| BookPathLaws.TokensStep | crates/mftik-core/src/bookpath/path.rs:834-857 | one event keeps the relation between an instrument's fields and all tokens ever armed |
| BookPathLaws.WaitStep | crates/mftik-core/src/bookpath/path.rs:708-726 | one event arms a backoff only for the next wait of the schedule, and an install starts the schedule over |
| BookPathLaws.GrowWait | crates/mftik-core/src/bookpath/path.rs:898-906 | growing the wait after k failures gives the wait after k+1 |
| BookPathLaws.FoldTail | crates/mftik-core/src/bookpath/path.rs:768-804 | after a hole what stays buffered is a non-empty end of the buffer |
| BookPathFeed.CoversStep | crates/mftik-core/src/bookpath/path.rs:464-500 | one event keeps up with the feed exactly when it is not a non-delta older than the book |
| BookPathFeed.CoversSnapshot | crates/mftik-core/src/bookpath/path.rs:404-444 | a reply never installs a book behind what the feed has shown |
| BookPathFeed.HookStep | crates/mftik-core/src/bookpath/path.rs:593-604 | a call hooks at most once, only for the fresh delta it has just applied, at the cursor after the old one |
| BookPathFeed.FoldReaches | crates/mftik-core/src/bookpath/path.rs:768-804 | a fold ends at or past everything it went through |
| BookPathFeed.TopHole | crates/mftik-core/src/bookpath/path.rs:785-800 | raising the floor to the first delta behind a hole loses no cursor that was shown |
| BookPathFeed.TellsFold | crates/mftik-core/src/bookpath/path.rs:768-804 | a folded book is made of the snapshot and consecutive fed deltas |
| BookPathFeed.ToldStep | crates/mftik-core/src/bookpath/path.rs:464-545 | one event keeps that a synced book has such a making; a reset adds nothing to it |
| BookPathFeed.MaxPendingBounds | crates/mftik-core/src/bookpath/path.rs:880-888 | the newest pending cursor is in the buffer and at least every other |
| BookPathClass.Path.OnDelta | crates/mftik-core/src/bookpath/path.rs:285-292 | the method takes the specification's step for a delta: its effects and its whole new state |
| BookPathClass.Path.OnNonDelta | crates/mftik-core/src/bookpath/path.rs:346-359 | the same for a non-delta |
| BookPathClass.Path.OnSnapshot | crates/mftik-core/src/bookpath/path.rs:363-444 | the same for a snapshot reply |
| BookPathClass.Path.OnTimer | crates/mftik-core/src/bookpath/path.rs:447-457 | the same for a timer token |
| BookPathClass.Path.Resolve | crates/mftik-core/src/bookpath/path.rs:254-256 | the same for resolving a tick |
| BookPathClass.Path.Forget | crates/mftik-core/src/bookpath/path.rs:259-261 | the same for forgetting a tick |
| BookPathClass.Path.Close | crates/mftik-core/src/bookpath/path.rs:280-282 | the same for closing; no book is visible afterwards |
| BookPathClass.Path.ReadView | crates/mftik-core/src/bookpath/path.rs:266-275 | returns the book of a synced instrument of an open path, else nothing |
| BookPathClass.Path.FoldBuffer | crates/mftik-core/src/bookpath/path.rs:768-804 | the loop over the buffer gives the recursive fold, and a hole leaves the tail with the floor at its first cursor |
| BookPathClass.Path.Accept | crates/mftik-core/src/bookpath/path.rs:363-444 | a reply is heard only under the live generation while in flight |
| BookPathClass.Path.Adopt | crates/mftik-core/src/bookpath/path.rs:418-444 | a snapshot and its buffer are installed, or the read counts as failed |
| BookPathClass.Path.OnPending | crates/mftik-core/src/bookpath/path.rs:513-545 | buffers, ignores, loses the book or applies, as the specification does |
| BookPathClass.Path.OnReset | crates/mftik-core/src/bookpath/path.rs:547-566 | an accepted reset clears book and buffer and raises the floor |
| BookPathClass.Path.Lose | crates/mftik-core/src/bookpath/path.rs:571-591 | drops the book, raises the floor, starts a new generation, and buffers or asks |
| BookPathClass.Path.Buffer | crates/mftik-core/src/bookpath/path.rs:608-633 | keeps the delta, or drops the buffer and asks anew when it is over |
| BookPathClass.Path.DropBuf | crates/mftik-core/src/bookpath/path.rs:643-657 | empties the buffer, ends its arm, and keeps its newest cursor as floor |
| BookPathClass.Path.Fetch | crates/mftik-core/src/bookpath/path.rs:676-701 | asks only when open, idle and with a usable tick |
| BookPathClass.Path.BackOff | crates/mftik-core/src/bookpath/path.rs:708-726 | arms one backoff at a time with the grown wait |
| BookPathClass.Path.OnBufferAge | crates/mftik-core/src/bookpath/path.rs:659-674 | acts on the live arm of an old enough buffer only |
| BookPathClass.Path.OnBackoff | crates/mftik-core/src/bookpath/path.rs:728-741 | acts on the live arm of the current generation only |
| BookPathClass.Path.MaxPending | crates/mftik-core/src/bookpath/path.rs:880-888 | the scan returns the specification's newest cursor |
| BookPathClass.Path.RaiseFloor | crates/mftik-core/src/bookpath/path.rs:752-762 | the floor only rises |
| BookPathClass.Path.Invalidate | crates/mftik-core/src/bookpath/path.rs:743-750 | a new generation with nothing in flight and no backoff |
| BookPathClass.Path.Arm | crates/mftik-core/src/bookpath/path.rs:834-857 | mints the next number, records it for its kind and arms it |
| BookPathRing.InstalledBookReads | crates/mftik-core/src/bookpath/path.rs:418-444 | over the tick ring, an installed view reads exactly the snapshot's ticks within the window of its best, with the last size listed for each |
| BookPathRing.ViewReadsMarket | crates/mftik-core/src/bookpath/path.rs:266-275 | over the tick ring, the view reads the server's size at every tick of both sides and no other level, if snapshots list the server's prices, deltas change them, and no side is ever a window wide while levels are written |
| BookPathRing.ViewSeenIff | crates/mftik-core/src/bookpath/path.rs:421-440 | each side of a visible book is a fresh ring with all levels of its snapshot and deltas written in order; it was seen as the prices written after each level if and only if they were less than a window wide after each |
| BookPathRing.ViewReadsServer | crates/mftik-core/src/bookpath/path.rs:266-275 | a side that stayed that narrow since its snapshot reads the server's size at every tick, whatever was fed and never used |
| BookPathRing.WritesAreServer | crates/mftik-core/src/bookpath/path.rs:768-804 | the levels written into a book add up to the server's prices at its cursor |
| BookPathRing.BuildIsWrites | crates/mftik-core/src/bookpath/path.rs:421-440 | a book made of a snapshot and deltas is a fresh ring with their levels written one after another |
| BookPathRing.MarketIsServer | crates/mftik-core/src/bookpath/path.rs:421-440 | such a feed is one server history for the ring |
| BookPathRing.SpanIsEnough | crates/mftik-core/src/book/mod.rs:374-414 | a feed whose levels lie in one span of a window's width on each side is never a window wide |
| BookPathRing.DeleteBetweenSnapshots | crates/mftik-core/src/bookpath/path.rs:363-444 | a feed with a delete between two snapshots qualifies |
| BookPathRing.SameStoryUpToLevelOrder | crates/mftik-core/src/bookpath/path.rs:421-440 | books made from level lists that differ only in the order of different ticks are equal |
| OrderBook.ApplyTickExact | crates/mftik-core/src/book/mod.rs:380-414 | after one update the written tick reads the size as given when it is a positive number in reach and nothing otherwise, and every other tick of the new window reads what its slot held |
| OrderBook.ApplyTickFrame | crates/mftik-core/src/book/mod.rs:380-414 | an update never disturbs another level that is in the old and the new window |
| OrderBook.ApplyTickIsMapUpdateIff | crates/mftik-core/src/book/mod.rs:374-414 | an update is a price-map update cut to the new window exactly when the window stays, or moves to the tick or the second best over no level left behind |
| PriceMap.MirrorTick | crates/mftik-core/src/book/mod.rs:374-430 | on a side that holds exactly a price map, an update reads as the map update if and only if the updated levels lie less than a window apart, and then holds exactly the updated map |
| PriceMap.ReadsThroughoutIff | crates/mftik-core/src/book/mod.rs:345-430 | a list of levels reads as the map update after each of them if and only if the map is less than a window wide after each |
| PriceMap.MirrorSide | crates/mftik-core/src/book/mod.rs:327-372 | applying a slice to such a side gives the last listed size of each tick, when the map stays that narrow from the best level on |
| PriceMap.FitsSide | crates/mftik-core/src/book/mod.rs:327-372 | it stays that narrow when old and listed levels together do |
| PriceMap.NarrowUncoversNothing | crates/mftik-core/src/book/mod.rs:374-414 | while it stays that narrow an update uncovers no level left behind |
| OrderBook.LeftBehindLevelReturns | crates/mftik-core/src/book/tests.rs:235-247 | a level that slid out of the window is visible again when a later window covers it |
| OrderBook.BestAfter | crates/mftik-core/src/book/mod.rs:380-430 | where the best is after one update: the written tick, the old best, the next occupied tick of the window, or nowhere when the window is empty |
| OrderBook.ScanNearest | crates/mftik-core/src/book/mod.rs:419-430 | the scan outward lands on the nearest occupied tick or shows there is none in reach |
| OrderBook.SameIndexFarApart | crates/mftik-core/src/book/mod.rs:302-305 | two ticks of one slot are at least a window apart |
| OrderBook.InstallExact | crates/mftik-core/src/book/mod.rs:345-430 | a list on a fresh side shows exactly the ticks less than n behind the best positive one, each with the last size listed, for lists with zeros and repeats |
| OrderBook.ApplySideListed | crates/mftik-core/src/book/mod.rs:327-430 | after a slice on any side a tick it lists reads the last size listed, when that is a positive number and the tick is in the window, and nothing otherwise |
| OrderBook.VisibleBehindBest | crates/mftik-core/src/book/mod.rs:312-319 | every visible bid is at most the best and every visible ask at least it, less than a window away, with a positive size |
| OrderBook.Normalise | crates/mftik-core/src/book/mod.rs:380-391 | a size is itself when it is a positive number, and zero otherwise |
| OrderBook.PowerOfTwoIff | crates/mftik-core/src/book/mod.rs:121-124 | the window test passes exactly the powers of two |
| OrderBook.ApplyOrderIrrelevant | crates/mftik-core/src/book/mod.rs:327-372 | reordering a slice that keeps equal ticks in order gives the same side |
| OrderBook.SortStable | crates/mftik-core/src/book/mod.rs:343-372 | the sort is best first and keeps the levels of every tick, in their order |
| OrderBook.SortUnique | crates/mftik-core/src/book/mod.rs:343-372 | only one list is best first and keeps every tick's levels in order |
| OrderBook.ListingExact | crates/mftik-core/src/book/mod.rs:452-468 | a listing is exactly what reads show, best outward, cut at the limit, starting at the best |
| OrderBook.WalkMembers | crates/mftik-core/src/book/mod.rs:244-261 | a walk holds a level exactly when the tick is in reach and stored |
| OrderBook.WalkOutward | crates/mftik-core/src/book/mod.rs:244-261 | a walk goes strictly outward |
| OrderBook.Side.Apply | crates/mftik-core/src/book/mod.rs:327-341 | applies a slice as sorting it and applying its levels one by one does |
| OrderBook.Side.ApplySorted | crates/mftik-core/src/book/mod.rs:345-372 | the same, with the index array sorted best first and stably |
| OrderBook.Side.SortIndexes | crates/mftik-core/src/book/mod.rs:360-368 | the in-place insertion sort leaves the indexes in the stable best-first order |
| OrderBook.Side.Place | crates/mftik-core/src/book/mod.rs:360-368 | one turn slides an index in front of exactly the worse ones |
| OrderBook.Side.ApplyOne | crates/mftik-core/src/book/mod.rs:379-414 | the branches of one update, in place |
| OrderBook.Side.Step | crates/mftik-core/src/book/mod.rs:419-430 | the retreat loop moves the best to the scan's result |
| OrderBook.Side.Put | crates/mftik-core/src/book/mod.rs:321-325 | a write changes one slot |
| OrderBook.Side.Read | crates/mftik-core/src/book/mod.rs:432-450 | a read returns what is visible at the tick |
| OrderBook.Side.BestTick | crates/mftik-core/src/book/mod.rs:312-319 | the best is reported only while its slot holds it |
| OrderBook.Side.Iterate | crates/mftik-core/src/book/mod.rs:452-468 | the iterator has the listing ahead of it |
| OrderBook.Iter.Next | crates/mftik-core/src/book/mod.rs:247-260 | takes the first level still to come, or none is left |
| OrderBook.Book.Open | crates/mftik-core/src/book/mod.rs:121-133 | a book opens exactly for a power-of-two window below 2^63 and a positive finite tick, with the error of the check that fails |
| OrderBook.Book.Apply | crates/mftik-core/src/book/mod.rs:193-196 | both sides take their slice, independently |
| ByteQueue.PushExact | crates/mftik-core/src/dispatch/ring.rs:77-101 | a push succeeds exactly when the message fits beside the pinned one, puts it last with its kind and time, and evicts the fewest oldest waiting messages; a refused one is counted, after evicting every waiting message if it would fit an unpinned ring |
| ByteQueue.HandsOutInOrder | crates/mftik-core/src/dispatch/ring.rs:145-182 | k rounds of peek and release hand out the k oldest messages in order and leave the rest |
| ByteQueue.EvictFewest | crates/mftik-core/src/dispatch/ring.rs:82-94 | eviction stops at the first state with room or with only the pinned message left |
| ByteQueue.EveryRunBalances | crates/mftik-core/src/dispatch/ring.rs:77-191 | over any run pushes = released + dropped + discarded + held, and what was handed out and then what waits is a subsequence of the pushes in order |
| ByteQueue.BalancedStep | crates/mftik-core/src/dispatch/ring.rs:145-191 | one operation keeps that balance |
| ByteQueue.BalancedPush | crates/mftik-core/src/dispatch/ring.rs:77-140 | a push keeps that balance |
| ByteRing.MdRing.constructor | crates/mftik-core/src/dispatch/ring.rs:43-55 | an empty queue of the size asked for, or of 32 MiB when none is |
| ByteRing.MdRing.Push | crates/mftik-core/src/dispatch/ring.rs:77-101 | does the queue's push, and the pinned head's bytes neither move nor change |
| ByteRing.MdRing.DropUnpinned | crates/mftik-core/src/dispatch/ring.rs:109-140 | drops the oldest unpinned message, slides the rest down, leaves the pinned bytes |
| ByteRing.MdRing.Squeeze | crates/mftik-core/src/dispatch/ring.rs:126-136 | the buffer afterwards holds the bytes of the remaining messages |
| ByteRing.MdRing.Append | crates/mftik-core/src/dispatch/ring.rs:88-99 | puts the message and its time at the end and leaves the earlier bytes |
| ByteRing.MdRing.Peek | crates/mftik-core/src/dispatch/ring.rs:145-153 | pins the oldest message; the buffer's front holds its bytes |
| ByteRing.MdRing.Release | crates/mftik-core/src/dispatch/ring.rs:163-182 | removes the pinned message from lists and buffer |
| ByteRing.MdRing.Discard | crates/mftik-core/src/dispatch/ring.rs:185-191 | forgets every message without counting a drop |
| ByteRing.MdRing.CountWaiting | crates/mftik-core/src/dispatch/ring.rs:194-200 | counts the messages that are not pinned |
| ByteRing.MdRing.Free | crates/mftik-core/src/dispatch/ring.rs:103-105 | what is free is the capacity without the messages' lengths |
| ClientIds.DecodeSpelling | crates/mftik-core/src/cloid.rs:150-172 | every id that fits is read back from its spelling, nineteen digits long |
| ClientIds.SpellDecoded | crates/mftik-core/src/cloid.rs:57-83 | every accepted string is the spelling of the id it is read as |
| ClientIds.TextOrderIsIdOrder | crates/mftik-core/src/cloid.rs:1-40 | accepted strings sort as text exactly as version, algo, millisecond and sequence do |
| ClientIds.Nineteen | crates/mftik-core/src/cloid.rs:38-40 | every packed word has nineteen digits |
| ClientIds.UnpackPack | crates/mftik-core/src/cloid.rs:57-66 | packing a checked id loses nothing |
| ClientIds.PackUnpack | crates/mftik-core/src/cloid.rs:160-172 | a word whose fields are accepted is rebuilt from them |
| ClientIds.AlgoOfExact | crates/mftik-core/src/cloid.rs:178-180 | a string names an algo exactly when it spells an id of that algo |
| ClientIds.CheckExact | crates/mftik-core/src/cloid.rs:68-83 | which fields fit, in numbers, and which error is first |
| ClientIds.EncodeExact | crates/mftik-core/src/cloid.rs:136-145 | an id is encoded exactly when its fields fit, and what is encoded decodes to it |
| ClientIds.KnownWords | crates/mftik-core/src/cloid.rs:254-260 | two known words: one second after the epoch, and all fields full |
| ClientIds.DecodeRefuses | crates/mftik-core/src/cloid.rs:150-172 | a string that is refused is refused as no platform id |
| ClientIdGen.IssuedIsLeast | crates/mftik-core/src/cloidgen.rs:89-111 | over every interleaving, what is issued is the least pair after everything issued before it and not before the caller's clock |
| ClientIdGen.ProposeLeast | crates/mftik-core/src/cloidgen.rs:89-111 | no free pair at or after the caller's clock comes before the proposed one |
| ClientIdGen.BeginIff | crates/mftik-core/src/cloidgen.rs:68-81 | a call gets as far as the counter exactly when its algo is declared and fits |
| ClientIdGen.PairsIncrease | crates/mftik-core/src/cloidgen.rs:132-150 | in every interleaving the issued pairs strictly increase in swap order, across algos, and the counter stays in the window |
| ClientIdGen.IdsSortInIssueOrder | crates/mftik-core/src/cloidgen.rs:63-77 | issued ids are distinct, read back to their fields, and sort as text in issue order within one algo |
| ClientIdGen.IssuedMillisecond | crates/mftik-core/src/cloidgen.rs:89-111 | the issued millisecond is the later of the caller's and the counter's, and the id encodes |
| ClientIdGen.OnlySwapsConsume | crates/mftik-core/src/cloidgen.rs:68-77 | a refused call or a lost swap consumes no number; a won swap moves the counter just past what it issued |
| ClientIdGen.ProposeExact | crates/mftik-core/src/cloidgen.rs:89-111 | a proposal is refused exactly outside the window, takes the later millisecond, and leaves the counter just past what it takes, a millisecond on when one is used up |
| ClientIdGen.SwapTakesIff | crates/mftik-core/src/cloidgen.rs:132-150 | a thread that loads and later swaps takes a number if and only if no thread was issued one in between, so a lost swap means another thread got on |
| ClientIdGen.LoadedIsBehind | crates/mftik-core/src/cloidgen.rs:132-150 | a loaded word never exceeds the counter |
| ClientIdGen.RunOn | crates/mftik-core/src/cloidgen.rs:132-150 | the counter never falls, and stands still exactly while nothing is issued |
| ClientIdGen.Counter.Issue | crates/mftik-core/src/cloidgen.rs:132-150 | the retry loop ends whatever other threads do between its steps, for ever if they like; it takes the steps of the interleaving, and issues exactly its proposal for the word it swapped, or nothing |
| EventLog.WithoutExact | crates/mftik-core/src/eventlog.rs:182-195 | on any bytes the filtered message parses whole, has exactly the other fields in order, and filtering again changes nothing |
| EventLog.OtherFieldsUnchanged | crates/mftik-core/src/eventlog.rs:197-210 | another field's lookup survives the filter exactly when the message parses whole or had no such field before it stopped |
| EventLog.FieldLocal | crates/mftik-core/src/eventlog.rs:212-233 | a field reads the same whatever follows its bytes |
| EventLog.VarintLocal | crates/mftik-core/src/eventlog.rs:235-244 | a varint depends only on the bytes it consumes |
| EventLog.JoinWalks | crates/mftik-core/src/eventlog.rs:186-195 | whole fields put one after another are walked as those fields, to the end |
| EventLog.WithoutField | crates/mftik-core/src/eventlog.rs:186-195 | the copying loop returns the filtered message |
| EventLog.FindField | crates/mftik-core/src/eventlog.rs:200-210 | the lookup loop returns the last value, and nothing when the walk stops short |
| EventLog.ReadVarint | crates/mftik-core/src/eventlog.rs:235-244 | the bit loop returns the base-128 number kept to 64 bits, of at most ten bytes |
| EventLogWire.VarintReadsBack | crates/mftik-core/src/eventlog.rs:235-244 | every 64-bit number is read back from its varint, whatever follows |
| EventLogWire.FieldReadsBack | crates/mftik-core/src/eventlog.rs:212-233 | every field that is written, of any of the four kinds, is read back with its number, bytes and value, whatever follows |
| EventLogWire.BadKeyRefused | crates/mftik-core/src/eventlog.rs:212-233 | a key with number 0, a number past 29 bits or an unknown kind is no field |
| EventLogWire.CutPayloadRefused | crates/mftik-core/src/eventlog.rs:212-233 | a payload cut short is no field |
| EventLogWire.FilterIsDrop | crates/mftik-core/src/eventlog.rs:186-195 | filtering a written message is writing what is left of it |
| EventLogWire.LookupIsLast | crates/mftik-core/src/eventlog.rs:197-210 | a lookup in a written message finds the last delimited value of its number, or none if there is none |
| EventLog.BodyLayout | crates/mftik-core/src/eventlog.rs:161-168 | where every byte of a body stands: account in two's complement, generation, count and strings, the least significant byte first |
| EventLog.LittleEndian | crates/mftik-core/src/eventlog.rs:152-168 | byte j of a written number is its j-th digit to the base 256 |
| EventLog.BodyRoundTrip | crates/mftik-core/src/eventlog.rs:298-320 | reading back an order call gives it exactly when it has at most 65535 ids of at most 65535 bytes |
| EventLog.BodyReadBack | crates/mftik-core/src/eventlog.rs:298-320 | whatever bytes are accepted are the body of the order call they are read as, which has at most 65535 ids of at most 65535 bytes |
| EventLog.TakeBack | crates/mftik-core/src/eventlog.rs:298-320 | strings that were read, written again and followed by the rest, are the bytes they were read from |
| EventLog.CutBack | crates/mftik-core/src/eventlog.rs:358-362 | the same for one string |
| EventLog.TakePut | crates/mftik-core/src/eventlog.rs:298-320 | reading n strings of a written list gives the first n, each cut to 65535 bytes, and leaves the rest |
| EventLog.CutPut | crates/mftik-core/src/eventlog.rs:358-362 | a written string is read back, cut to 65535 bytes, and what follows is left |
| EventLog.AppendStr | crates/mftik-core/src/eventlog.rs:152-156 | appends the length and the cut string |
| EventLog.AppendOrderCall | crates/mftik-core/src/eventlog.rs:161-168 | appends the whole body |
| EventLog.ReadOrderCall | crates/mftik-core/src/eventlog.rs:298-320 | the reading loop returns the parsed body, and refuses short or trailing bytes |
| VolumePath.CleanIdempotent | crates/mftik-core/src/volume.rs:375-437 | cleaning keeps root and elements and is idempotent, and its result is never empty |
| VolumePath.SpellStack | crates/mftik-core/src/volume.rs:375-437 | a spelt stack of elements is read back as that stack |
| VolumePath.NameIsPlain | crates/mftik-core/src/volume.rs:359-369 | a name is accepted exactly when it is a list of plain elements |
| VolumePath.JoinTwoStack | crates/mftik-core/src/volume.rs:439-445 | joining a directory and an accepted name appends the name's elements |
| VolumePath.DirOfSpell | crates/mftik-core/src/volume.rs:447-456 | the parent of a path is its elements without the last |
| VolumePath.RelOfJoin | crates/mftik-core/src/volume.rs:458-517 | the way from a cleaned directory to its join with an accepted name is the name |
| VolumePath.WithinExact | crates/mftik-core/src/volume.rs:344-357 | a destination exists exactly for a non-empty directory and plain elements; it is the directory's elements followed by the name's, its parent one less |
| VolumePathLaws.UpCancels | crates/mftik-core/src/volume.rs:404-424 | an element followed by `..` counts for nothing |
| VolumePathLaws.DotIsNothing | crates/mftik-core/src/volume.rs:390-403 | an empty element and a dot count for nothing |
| VolumePathLaws.UpAtRoot | crates/mftik-core/src/volume.rs:404-424 | at the root a leading `..` counts for nothing |
| VolumePathLaws.UpStaysInFront | crates/mftik-core/src/volume.rs:404-424 | in front of an unrooted path every `..` stays |
| VolumePathLaws.RelLeads | crates/mftik-core/src/volume.rs:458-517 | a relative path leads from base to target, and exists exactly when both or neither are rooted and nothing left of the base goes up |
| VolumePathLoops.CleanPath | crates/mftik-core/src/volume.rs:376-437 | the index loop gives the stack's normal form |
| VolumePathLoops.DropLast | crates/mftik-core/src/volume.rs:407-414 | backing up in the buffer pops exactly one element |
| VolumePathLoops.Up | crates/mftik-core/src/volume.rs:405-424 | a `..` pops, stays at the root, or is kept |
| VolumePathLoops.Down | crates/mftik-core/src/volume.rs:425-431 | a plain element is pushed |
| VolumePathLoops.RelPath | crates/mftik-core/src/volume.rs:459-517 | the two-pointer loop ends and gives the relative path |
| VolumePathLoops.BothGoOn | crates/mftik-core/src/volume.rs:481-499 | two different cleaned paths are told apart before either runs out, so the unconditional loop ends |
| VolumePathLoops.DirPath | crates/mftik-core/src/volume.rs:448-456 | the backward scan gives the parent |
| VolumePathLoops.CountSlashes | crates/mftik-core/src/volume.rs:504-513 | counts one separator less than there are elements left |
| VolumePathLoops.Climb | crates/mftik-core/src/volume.rs:504-513 | writes one `..` per element left |
| AtomicWrite.AllOrNothing | crates/mftik-core/src/volume.rs:125-202 | under every schedule of failures and crashes the destination is the whole new file if the rename took effect and the whole old one if not, no other file changes, a failure reports which, and the temp file is there exactly after a crash or a failed removal in between |
| AtomicWrite.OnFailExact | crates/mftik-core/src/volume.rs:184-202 | a temp file is removed only while the process lives and only between creation and rename; the destination counts as replaced only in the last step |
| AtomicWrite.PlayLeaves | crates/mftik-core/src/volume.rs:125-202 | the same from any phase on |
| AtomicWrite.TempApart | crates/mftik-rt/src/volume.rs:110-135 | the temp file is the destination exactly when the name's last element is the temp file's own name |
| DurableWrite.SurvivesMachineCrash | crates/mftik-core/src/volume.rs:1-18 | a machine that stops at any moment leaves the destination the whole old or the whole new file, and the new one once the plan is done, while the process sees what the schedule says |
| DurableWrite.RestartExact | crates/mftik-rt/src/volume.rs:29-70 | a restart finds the new file exactly when the rename took effect and lasted, and in it what the file sync made sure of |
| DurableWrite.FileSyncIff | crates/mftik-core/src/volume.rs:137-156 | the destination is whole after every crash if and only if the file is synced before the rename |
| DurableWrite.BothSyncsIff | crates/mftik-core/src/volume.rs:137-156 | a finished replace always lasts if and only if both syncs are carried out |
| DurableWrite.PlayCached | crates/mftik-rt/src/volume.rs:29-70 | the cached view of the medium is the disk of the schedule |
| AtomicWrite.Write | crates/mftik-rt/src/volume.rs:29-70 | the executor's loop leaves exactly the disk and the ending of that schedule |
| AtomicWrite.WriteTxn.Prepare | crates/mftik-core/src/volume.rs:125-134 | refuses what has no destination, with its error |
| AtomicWrite.WriteTxn.CreatedTemp | crates/mftik-core/src/volume.rs:158-165 | accepted in the first phase only; records the temp path |
| AtomicWrite.WriteTxn.Completed | crates/mftik-core/src/volume.rs:168-178 | moves to the next phase, or changes nothing out of turn |
| AtomicWrite.WriteTxn.Fail | crates/mftik-core/src/volume.rs:184-202 | ends the plan once, saying whether to remove the temp file and whether the destination is new |
| CivilDate.DatesFollowTheCalendar | crates/mftik-rt/src/log.rs:887-905 | every day number gives a valid Gregorian date, the next number the next date, and 0 is 1970-01-01 |
| CivilDate.NoFallback | crates/mftik-rt/src/log.rs:887-905 | no conversion ever needs its fallback |
| CivilDate.YearOfEraExact | crates/mftik-rt/src/log.rs:889-893 | the divisions give the year the day falls in and the day within it |
| CivilDate.FromMarchNext | crates/mftik-rt/src/log.rs:894-904 | the month arithmetic gives valid consecutive dates through a year from March |
| LogTimeReader.DayNumberBack | crates/mftik-rt/src/log.rs:887-905 | the date of a day number has that number of days from 1970-01-01, counted by years and months |
| LogTimeReader.TimeReadsBack | crates/mftik-rt/src/log.rs:800-835 | every instant is read back from its text by a reader of the format |
| LogTime.Stamp.Append | crates/mftik-rt/src/log.rs:800-814 | whatever was written before, writes what a stamp without a memory would |
| LogTime.HeadsSortAsTime | crates/mftik-rt/src/log.rs:800-814 | the nineteen characters of two seconds sort as text as the seconds do |
| LogTime.TextIsOneToOne | crates/mftik-rt/src/log.rs:800-835 | different instants of a 64-bit count are written differently |
| LogTime.NanosReadBack | crates/mftik-rt/src/log.rs:817-835 | the fraction reads back as the nanoseconds and has no zero at its end |
| LogTime.FourDigitYear | crates/mftik-rt/src/log.rs:877-885 | every second of a 64-bit count of nanoseconds has a four-digit year |
| LogTime.AppendNanos | crates/mftik-rt/src/log.rs:818-835 | the digit and trimming loops write that fraction |
| LogJson.StringReadsBack | crates/mftik-rt/src/log.rs:432-446 | any text, quoted and followed by anything, is read back whole |
| LogJson.WrittenAsIs | crates/mftik-rt/src/log.rs:447-451 | exactly the text without controls, quotes, backslashes and delete is written as it is |
| LogJson.KnownEscapes | crates/mftik-rt/src/log.rs:460-470 | the escapes that have a letter |
| LogJson.HexEscapes | crates/mftik-rt/src/log.rs:471-475 | escapes spelt in four hexadecimal digits |
| LogJson.NoControls | crates/mftik-rt/src/log.rs:449-451 | no control character is left between the quotes |
| LogJson.AppendEscaped | crates/mftik-rt/src/log.rs:453-480 | copying whole runs gives the character-by-character encoding |
| LogJson.AppendJsonStr | crates/mftik-rt/src/log.rs:432-446 | the fast path and the escaping path write the same string |
| Timers.FiresExactly | crates/mftik-rt/src/timers.rs:67-104 | in every interleaving a wake fires exactly when its arm came before and was not replaced, disarmed or woken since |
| Timers.FiresOnce | crates/mftik-rt/src/timers.rs:78-93 | an arm fires at most once |
| Timers.TableIsStanding | crates/mftik-rt/src/timers.rs:67-104 | the table holds exactly the arms that still stand |
| Timers.TimerTable.ArmKey | crates/mftik-rt/src/timers.rs:67-97 | arms a key under a new number |
| Timers.TimerTable.DisarmKey | crates/mftik-rt/src/timers.rs:100-104 | takes the key out |
| Timers.TimerTable.WakeTask | crates/mftik-rt/src/timers.rs:78-93 | decides to fire exactly for the arm in the table and takes it out |
| Timers.TimerTable.IsArmed | crates/mftik-rt/src/timers.rs:107-109 | says whether some arm of the key still stands |

## Left out

Book sync:

- Decoding of messages in `on_message`, log effects and the `told` flags.
- 64-bit wrap-around of sequence numbers, generations and timer numbers, which are naturals here.
- The receive window's validity check at `open`.
- BookPathClass.Path.Fetch: the private methods require the instrument to exist, because every caller has just looked it up; the source returns early instead.
- BookPathHooks.HooksIncrease: assumes that no non-delta unsyncs the book with a cursor below a hook already sent; with one it is false (`NonDeltaRewindsIff`).
- BookPathRing.ViewReadsMarket: assumes a feed that is never a window wide; `ViewReadsServer` asks it only of the visible book's own levels, and `ViewSeenIff` is the exact form.
- BookPathLiveness.NeverStalls: is the form for a tick usable throughout; `LiveIff` is the statement over every run.

Tick ring:

- Rounding a price to a tick in `f64`, and wrap-around of `i64` ticks, which here are unbounded integers; the two agree while the best plus or minus the window stays within 64 bits.  Masking by `n - 1` is the remainder by `n`.
- NaN and infinite sizes are one value, which counts as zero like in the source.
- The choice of stack or heap for the scratch arrays.

Byte ring:

- Raw pointers and the cell it lives in; calls are taken one at a time, as under the dispatcher's lock.

Client ids:

- Spelling an unchecked id whose fields overlap, `restore`, and error texts.
- ClientIdGen.Counter.Issue: memory orderings are not modelled; each load and swap is one step of the interleaving.

Event log:

- UTF-8 validity of identifiers: strings are bytes.  The other bodies (`parse_init`, `parse_resolve`, `parse_td_view`, `parse_read_call`) and the kind table, which would add only easy members.

Volume:

- `ReadPlan` and `read`, which are a short decision list.
- Paths are sequences of characters rather than UTF-8 bytes; only `/` and `.` matter.
- How a medium fails: changes to a directory last in order, a synced file lasts as it is, and one never synced may hold anything.  The search for an unused temp name: the temp path is taken to be new (`O_EXCL`) and not the destination, which `TempApart` decides from the name.

Logs:

- Floats (ryu and Go's layouts), console colours and quoting, levels, local time zones.
- UTF-8 encoding of text: the encoder touches only characters below 128.

Timers:

- Sleeping and the clock; `fire` itself, which runs after the lock is released.  A wake may come at any time.

Not modelled at all: layer packing (`python/mftik/pack/archive.py`), the session, NATS and process IO, the trading plane, Python bindings and code generation.
