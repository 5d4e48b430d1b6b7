# Internal-networking rings and thread-local references

A Dafny model of three pieces of VirtualBox:

* the packet ring of internal networking (`include/VBox/intnetinline.h`, `include/VBox/intnet.h`): one writer, one
  reader, frames of an eight-byte header and a payload in raw bytes, reserve-then-commit, short commits with padding
  frames, one-shot writes, segment-offload frames, and the buffer that holds a receive and a send ring;
* the scatter / gather readers of the same headers;
* the thread-local reference counting macros (`include/VBox/VBoxVideo3D.h`).

## How it is built

| file | content |
|---|---|
| `Words.dfy` | 32-bit arithmetic, alignment, byte memory, the header's byte encoding |
| `Slots.dfy` | the ring area, slots (header and payload), walks from header to header |
| `Rings.dfy` | `INTNETRINGBUF` as a value, its invariant `Held()`, every operation as a function of it |
| `RingLaws.dfy`, `CommitLaws.dfy`, `ShortCommit.dfy`, `OneShot.dfy`, `Space.dfy` | what each operation keeps and does |
| `Runs.dfy`, `RunLaws.dfy`, `Gso.dfy`, `Delivery.dfy` | writer and reader as a step machine, properties of all runs |
| `Corner.dfy`, `CornerRuns.dfy` | runs through the exact-fit corner |
| `Confinement.dfy` | which stores stay inside a ring's area, and exactly when one does not |
| `RingBuffer.dfy` | the ring as a class over a byte array, each method proved equal to its function |
| `NetBuffer.dfy`, `TwoRings.dfy` | `INTNETBUF`, and both of its rings at work over one memory |
| `ScatterGather.dfy` | `IntNetSgRead` and `IntNetSgReadEx` |
| `TlsRefs.dfy`, `TlsLaws.dfy` | the reference counting macros step by step, conservation |
| `TlsDestructor.dfy`, `TlsTwice.dfy` | when destructors start, and exactly what makes one start twice |
| `TlsSafety.dfy`, `TlsReplacement.dfy` | the discipline of callers, and what goes wrong without |
| `TlsMacros.dfy` | the macros on one thread |

The central notion is `Ring.Held()`: it parses the ring's own bytes, header by header, from the read cursor to the commit
cursor and from there to the write cursor. It is `None` unless the cursors are in order and both walks end exactly; then
it gives the unread and the pending frames with the pointers an allocation returned for them. There is no ghost state
that could drift from the bytes. `HeldUpTo(wh)` is the same while a reservation behind `wh` has no header yet.

Cursors count from the ring structure, as in the program. An area is aligned, lies below 2^32 and is shorter than 2^31
bytes. `hide` statements only narrow what the solver looks at.

## Where the code and its description part

* A frame that exactly fits to the end of the ring while the reader stands at its start makes the full ring look empty
  (`include/VBox/intnetinline.h:421`, against `include/VBox/intnet.h:42-43`). `ExactFit` names the corner. The laws state
  that it is the only case that goes wrong. A later skip repairs it, if something is unread or pending besides and the
  writer samples no cursors before (`FifoThroughTheCorner`); else frames get lost (`WithoutSkip`, `FullOverwrites`).
* A writer that goes on in the full ring overwrites headers that it, or the reader, will follow later. No assertion of the
  program compares a header with what was allocated, so that a short commit can then store its padding header outside
  the ring (`PadIsConfinedExactly`, `ImpatientPadStrays`). While the writer waits for a skip that cannot happen
  (`PatientStaysIn`).
* `INTNETRINGBUF_ASSERT_SANITY` is not kept by the operations on its own; `OrderIsStrengthenedSanity` gives the missing
  half and `AssertedSanityIsNotInductive` a ring that shows it.
* A short commit whose used and allocated sizes round to the same leaves the allocated size in the header
  (`VisibleLength`), while the byte counter counts the used size (`CommitExLaw`).
* Padding without payload in the last eight bytes fails the strict header assertion (`StrictHeaderCheck`); skipping it is
  right all the same.
* `IntNetSgReadEx` restarts at the segment it has just read the end of. `ReadExIsRightExactlyWhenSimple` says for which
  reads that does not matter, `ReadAsWritten` what it copies in the others.
* `INTNETBUF_ASSERT_SANITY` uses the start offset for both ends and a misspelt name; the layout here is that of
  `IntNetBufInit`.
* `VBoxTlsRefSetCurrent` releases the old object before it references the new one. A destructor that replaces the slot
  of its own thread in between releases an object that is held and destroys it exactly when its count is one
  (`EarlyReplacementIsExact`, `DestructorMayFreeHeldObject`).
* `VBoxTlsRefRelease` decrements atomically, but tests and sets the state later. A reference taken from zero in between
  lets the destructor start twice, and nothing else but marking an object that is being destroyed does (`StepIsExact`,
  `AddRefIsExact`, `MarkIsExact`, `DestructorMayStartTwice`). The assertion in `VBoxTlsRefAddRef` rules it out, but by
  default it is compiled to nothing (`include/VBox/VBoxVideo3D.h:45-47`).

## Model

| member | source | states |
|---|---|---|
| Words.HeaderLayout | include/VBox/intnet.h:214-226 | the eight bytes are two little-endian words: size in the low 24 bits and type above, then the offset in two's complement |
| Words.DecodeEncode | include/VBox/intnet.h:214-226 | a header with a 24-bit size, a type and a signed offset is read back from its eight bytes as stored |
| Words.EncodeDecode | include/VBox/intnet.h:214-226 | and every eight bytes are the encoding of the header they decode to |
| Slots.CursorArithmeticIsExact | include/VBox/intnetinline.h:380-384 | for every well-formed slot, wrapped ones with negative offset included, the wrapping 32-bit sums, alignment and end test of skip and of both commits give the same aligned cursor inside the ring: payload start plus aligned size, or the ring start at the end |
| Slots.WalkAgrees | include/VBox/intnetinline.h:370-391 | parsing headers between two cursors depends only on the bytes of the arc between them |
| Slots.WalkConcat | include/VBox/intnetinline.h:370-391 | parsing from p to q and on from q to w is parsing from p to w, with the frames in that order |
| Slots.WalkSplit | include/VBox/intnetinline.h:370-391 | a parse can be split behind any of its frames |
| RingLaws.OrderIsStrengthenedSanity | include/VBox/intnet.h:85-104 | the cyclic order read, committed, reserved is the asserted order plus: a wrapped commit cursor behind the reader has the write cursor behind the reader too |
| RingLaws.AssertedSanityIsNotInductive | include/VBox/intnet.h:101-104 | the asserted order alone is broken by an allocation that fits and is not the corner |
| RingLaws.PlacementOrder | include/VBox/intnetinline.h:416-467 | each of the three placements, with a current or stale read cursor, keeps the cyclic order except when the ring start equals the read cursor and the frame fits exactly to the end |
| RingLaws.PlacementFits | include/VBox/intnetinline.h:421-478 | each placement stores a well-formed header whose slot ends at the new write cursor |
| RingLaws.PlacementIsExact | include/VBox/intnetinline.h:416-467 | on any sampled cursors the placement tests find room exactly where a slot of either shape ends before the reader, or in the corner, and give up the end of the ring only where the frame does not fit before it |
| RingLaws.AllocationIsExact | include/VBox/intnetinline.h:404-486 | the whole outcome: overflow, counted modulo 2^64 with nothing else changed, exactly without room; a lost race changes nothing; else header at the write cursor and payload behind it or, only without room there, at the ring start |
| RingLaws.KeepsWalks | include/VBox/intnetinline.h:421-479 | memory that agrees on the arc from the reader to the written end holds the same unread and pending frames |
| RingLaws.PutHdrLaw | include/VBox/intnetinline.h:430-433 | storing the header of a reservation touches no unread or pending frame and adds one pending frame |
| RingLaws.AllocateLaw | include/VBox/intnetinline.h:404-486 | a successful allocation, on a read cursor however stale, runs into the reader exactly in the exact-fit corner; otherwise all unread and pending frames are unchanged and the new one follows with the type, size and pointers returned |
| CommitLaws.SkipLaw | include/VBox/intnetinline.h:370-391 | a skip drops exactly the oldest unread frame and leaves earlier samples of the read cursor merely stale |
| CommitLaws.PublishLaw | include/VBox/intnetinline.h:564 | publishing the cursor behind the first k pending frames commits exactly those |
| CommitLaws.CommitLaw | include/VBox/intnetinline.h:541-567 | a commit moves the oldest pending frame to the end of the unread ones and counts its size |
| CommitLaws.FillLaw | include/VBox/intnetinline.h:434-435 | bytes written through an allocated frame pointer change that pending frame's payload and nothing else in the ring |
| ShortCommit.PaddingFills | include/VBox/intnetinline.h:611-620 | the shortened slot and the padding slot together take up the allocated slot, in both placements and down to zero-length padding |
| ShortCommit.VisibleLength | include/VBox/intnetinline.h:582-626 | any used size up to the allocated one can be committed; the reader then sees the used bytes, eight bytes of context included for an offload frame, with padding behind if the sizes round differently, else the whole frame; so the used length exactly when they round differently or are equal |
| ShortCommit.StrictHeaderCheck | include/VBox/intnet.h:263-273 | the strict header assertion fails on a well-formed slot exactly for zero-length padding in the last eight bytes |
| ShortCommit.PadLaw | include/VBox/intnetinline.h:608-620 | before publishing, the oldest pending frame has become its used part and padding, or stayed whole, the other frames are untouched, and the cursor to publish is the one behind the replacement |
| ShortCommit.CommitExLaw | include/VBox/intnetinline.h:582-626 | the replacement is appended to the unread frames, and the used bytes, context included, and one frame are counted modulo 2^64 |
| OneShot.WriteFrameIsTwoPhase | include/VBox/intnetinline.h:639-733 | the one-shot write gives the same memory, cursors, counters and result as allocate, copy and commit of its frame, in every placement, in the corner, on overflow and with a stale read cursor |
| OneShot.WriteFrameIsExact | include/VBox/intnetinline.h:639-733 | the outcome of the one-shot write on any sampled cursors: overflow, lost race or pointers, as for an allocation |
| OneShot.WriteFrameLaw | include/VBox/intnetinline.h:632-733 | a successful one-shot write appends the frame with its bytes exactly outside the corner, behind the pending frames, which it commits as well (what the documented assumption excludes); in the corner the ring is left looking empty |
| Space.SpaceIsConserved | include/VBox/intnetinline.h:262-315 | readable, pending and writable bytes and one unused byte make up the ring; readable is zero exactly when there is nothing to read |
| Space.AllocationSpace | include/VBox/intnetinline.h:413-479 | a success had header and aligned payload writable beforehand exactly outside the corner, then uses exactly those bytes or payload plus abandoned tail, and leaves at least eight bytes before the reader |
| Space.HalfCapacity | include/VBox/intnetinline.h:413-485 | an empty ring takes a frame at every cursor position exactly when twice the aligned size is less than the ring |
| Space.Drain | include/VBox/intnetinline.h:278-391 | with the writer at rest each skip removes one frame and at least eight readable bytes; there is more to read exactly until all frames are gone |
| Space.ShortCommitWalk | include/VBox/intnetinline.h:582-626 | after a short commit, skipping frame and padding ends at the cursor a plain commit would have published |
| Space.StaleSampleIsSafe | include/VBox/intnetinline.h:414-447 | sampling, then any number of skips, then allocating on the sample goes wrong only in the corner of the present cursors and else keeps all that is unread and pending |
| Runs.StepKeeps | include/VBox/intnetinline.h:370-626 | every step of writer or reader outside the corner keeps the ring in order, the pending frames as written, first-in-first-out, and every byte of every unread frame until it is skipped |
| Runs.CompareExchangeKeeps | include/VBox/intnetinline.h:421-467 | the compare-exchange on stale samples reserves a slot that no unread or pending frame overlaps |
| Runs.PadUnusedKeeps | include/VBox/intnetinline.h:611-620 | the padding header is stored without disturbing what readers or other pending frames see |
| RunLaws.CornerIsExact | include/VBox/intnetinline.h:416-467 | a compare-exchange never fails with one writer and leaves the system in order exactly when it is not in the corner |
| RunLaws.WriterIsNeverStuck | include/VBox/intnetinline.h:428-620 | in every reachable state the writer's stores lie inside the memory, its oldest pointer is the commit cursor unless padding has just been stored, and a short commit is possible exactly when it uses no more than was allocated |
| RunLaws.AllocateInSteps | include/VBox/intnetinline.h:404-486 | compare-exchange and header store make up the allocation, with the pointers it returns |
| RunLaws.CommitExInSteps | include/VBox/intnetinline.h:582-626 | padding and publishing make up the short commit |
| RunLaws.RunKeeps | include/VBox/intnetinline.h:370-626 | over every corner-free run an unread frame keeps its place and bytes until the frames before it and it have been skipped |
| RunLaws.FifoOverRuns | include/VBox/intnetinline.h:370-626 | after every corner-free run from an empty ring, the messages sent are those received followed by those parsed from the ring's bytes, in order, with types and payload as written and padding left out |
| RunLaws.FramesAreCounted | include/VBox/intnetinline.h:565-566 | the frame counter counts the messages sent |
| RunLaws.HeadIsReadable | include/VBox/intnetinline.h:292-336 | next frame, frame pointer and header lead to the oldest unread frame and its bytes |
| Corner.CornerFills | include/VBox/intnetinline.h:421-433 | the corner compare-exchange with something unread makes the cursors equal, and all but the oldest unread frame stays in order |
| Corner.FullWrites | include/VBox/intnetinline.h:428-620 | header, payload and padding stores and both commits in a full ring keep it so and leave the oldest unread frame as it was |
| Corner.SkipRepairs | include/VBox/intnetinline.h:370-391 | the next skip, whenever it comes, puts a full ring in order |
| Corner.CornerBrims | include/VBox/intnetinline.h:421-433 | with nothing unread but something pending the same compare-exchange leaves all but its own frame in order |
| Corner.BrimWrites | include/VBox/intnetinline.h:428-620 | stores, fills and padding then keep that, and the first commit of either kind gives the full ring with something to skip |
| Corner.FullOverwrites | include/VBox/intnetinline.h:413-433 | an allocation in a full ring stores its header over that of the oldest frame |
| CornerRuns.FifoThroughTheCorner | include/VBox/intnetinline.h:370-626 | first in, first out also over runs through the corner with something unread or pending, as long as the writer samples no cursors while the ring is full; a full ring whose frames are all committed looks empty |
| CornerRuns.WithoutSkip | include/VBox/intnetinline.h:404-567 | after the corner, storing, filling and committing all frames without a skip leaves a ring that looks empty although more was sent than received |
| CornerRuns.FreshRingReachesCorner | include/VBox/intnetinline.h:413-433 | a frame of the ring size less eight on a fresh ring gets there, with nothing that a skip could repair |
| Delivery.Passes | include/VBox/intnetinline.h:404-567 | from an empty ring with its cursors anywhere, a message of less than half the ring can be allocated, copied, committed, seen and skipped without meeting the corner, and then has been received |
| Delivery.EverythingArrives | include/VBox/intnetinline.h:370-567 | any list of such messages, however long, goes through one ring and is received whole and in order, and the ring ends empty |
| Delivery.WriteFrameInSteps | include/VBox/intnetinline.h:639-733 | with nothing pending the one-shot write, on what it has sampled, is the run of compare-exchange, header, payload and commit, in the corner or out, and sends its message |
| Delivery.WriteFrameInRun | include/VBox/intnetinline.h:639-733 | the same with the reader's steps anywhere in between: the ring is as after the one-shot write but for the read cursor |
| Gso.AllocateGsoIsExact | include/VBox/intnetinline.h:516-528 | refused, and then counted, exactly where the frame with its eight bytes of context has no room; else the pointers to header and behind the context, and outside the corner a pending frame that starts with the context |
| Gso.GsoFilled | include/VBox/intnetinline.h:516-528 | after allocating a segment-offload frame and copying the payload behind the returned pointer, the pending frame is context followed by payload |
| Gso.GsoRoundTrip | include/VBox/intnetinline.h:351-362 | once committed, and after any corner-free run that skips the frames before it, the reader's next frame has the context pointer lead to the same context and payload |
| Gso.GsoPut | include/VBox/intnetinline.h:516-528 | sampling, compare-exchange, header, context and payload, with the reader's steps anywhere in between, put context and payload behind all pending frames |
| Gso.PendingMovesUp | include/VBox/intnetinline.h:541-626 | a pending frame moves up with each commit of either kind and is otherwise as it was, whatever is allocated and filled beside it |
| Gso.GsoEndToEnd | include/VBox/intnetinline.h:351-528 | from sampling a segment-offload frame behind any number of pending frames, over their commits, its own and the skips of all before it, the reader's next frame leads to the context and payload put in |
| Gso.GsoShortEndToEnd | include/VBox/intnetinline.h:351-626 | the same with a short commit: the reader's next frame leads to the context and the used part of the payload, or all of it where the sizes round to the same |
| RingBuffer.RingBuf.AllocateSampled | include/VBox/intnetinline.h:404-486 | the method changes cursors, counter and memory as the allocation function says, and no byte outside the ring's area |
| RingBuffer.RingBuf.AllocateFrame | include/VBox/intnetinline.h:499-502 | allocates exactly where there is room, at the place that keeps the end of the ring if it can; outside the corner a frame joins the pending ones; an overflow only counts |
| RingBuffer.RingBuf.AllocateGsoFrame | include/VBox/intnetinline.h:516-528 | the same for the frame with its context, which is stored in front of the room for the payload |
| RingBuffer.RingBuf.CommitFrame | include/VBox/intnetinline.h:541-567 | the oldest pending frame becomes the newest unread one |
| RingBuffer.RingBuf.CommitFrameEx | include/VBox/intnetinline.h:582-626 | as CommitFrame with the frame shortened to context and used bytes and padded; these are counted |
| RingBuffer.RingBuf.WriteFrame | include/VBox/intnetinline.h:639-733 | writes exactly where there is room, at that place; appends the frame behind what is unread and pending, leaves the ring looking empty in the corner; an overflow only counts |
| RingBuffer.RingBuf.GetWritable | include/VBox/intnetinline.h:262-269 | the ring size less the distance from reader to writer and less one |
| RingBuffer.RingBuf.GetReadable | include/VBox/intnetinline.h:308-315 | the distance from the read to the commit cursor |
| RingBuffer.RingBuf.GetNextFrameToRead | include/VBox/intnetinline.h:292-299 | the header of the oldest unread frame, none exactly when there is no unread frame |
| RingBuffer.RingBuf.SkipFrame | include/VBox/intnetinline.h:370-391 | drops the oldest unread frame |
| RingBuffer.RingBuf.ReadAndSkipFrame | include/VBox/intnetinline.h:746-775 | copies out the oldest unread frame's bytes, returns their number and drops it; 0 and no change when there is none |
| NetBuffer.NetBuf.constructor | include/VBox/intnetinline.h:788-818 | the areas lie behind the 320-byte structure, adjacent and inside the buffer; a ring is in order and empty exactly when its size is positive (and below 2^31) |
| NetBuffer.OwnAreaOnly | include/VBox/intnet.h:116-153 | what a ring holds depends on the bytes of its own area only |
| NetBuffer.OtherRingKept | include/VBox/intnet.h:116-153 | an operation confined to one ring's area leaves what the other ring holds and its bytes unchanged |
| Confinement.StepIsConfined | include/VBox/intnetinline.h:421-620 | whatever has been lost or overwritten, no store leaves the ring's area but the padding header of a short commit whose header leads it out, and the cursors stay inside unless the reader follows such a header |
| Confinement.PadIsConfinedExactly | include/VBox/intnetinline.h:597-618 | a short commit keeps to the area, whatever lies outside, exactly if the header found at the frame leads the padding header inside |
| Confinement.PatientStaysIn | include/VBox/intnetinline.h:370-626 | while the writer is patient in the corner, no step of either side meets such a header |
| Confinement.ImpatientPadStrays | include/VBox/intnetinline.h:582-618 | a run of an impatient writer from a fresh ring, after which the asserted cursor order, commit order and header checks hold and a short commit stores its padding header behind the area |
| TwoRings.RecvStepKeeps | include/VBox/intnet.h:116-153 | over the shared memory a step on the receive ring that does not stray, in the corner or out, keeps the send ring's cursors, messages, area and standing as they were |
| TwoRings.SendStepKeeps | include/VBox/intnet.h:116-153 | the same for a step on the send ring |
| TwoRings.EachRingIsFifo | include/VBox/intnetinline.h:788-818 | from a buffer as initialised, over every interleaving of both writers and both readers, a ring whose writer is patient in the corner delivers first in, first out, as long as the other ring does not stray |
| TwoRings.BothRingsAreFifo | include/VBox/intnetinline.h:788-818 | with two patient writers both rings do, corners included |
| ScatterGather.SgRead | include/VBox/intnetinline.h:173-191 | the buffer starts with the concatenated segments and is otherwise unchanged |
| ScatterGather.SgReadEx | include/VBox/intnetinline.h:202-252 | the loops copy what ReadEx says and nothing else, or nothing when they would look past the used segments |
| ScatterGather.AdvancedReadIsRight | include/VBox/intnetinline.h:228 | with the segment advanced at the break every non-empty read in range copies the bytes asked for |
| ScatterGather.ReadAsWritten | include/VBox/intnetinline.h:212-251 | as written a read copies the bytes asked for if it stays simple, and else the segment tail followed by the list from that same segment |
| ScatterGather.ReadExIsRightExactlyWhenSimple | include/VBox/intnetinline.h:202-252 | for given segment sizes the read is right for every content exactly when it starts at a segment start or ends in its first segment |
| ScatterGather.StaysInList | include/VBox/intnetinline.h:237-251 | only an empty read behind the last segment looks past the used segments |
| TlsRefs.StepConserves | include/VBox/VBoxVideo3D.h:85-136 | in every interleaving, releases step by step, the count of each object is its explicit references plus slots holding it, corrected by what threads inside a macro have yet to do |
| TlsLaws.CountsBetweenOperations | include/VBox/VBoxVideo3D.h:85-136 | after any run, between operations, the count is the explicit references plus the number of threads whose slot holds the object |
| TlsLaws.UndisturbedRelease | include/VBox/VBoxVideo3D.h:100-107 | decrement, test of the state and destructor call of a release that no thread disturbs come to the macro as one: the destructor starts exactly at zero and outside a destructor |
| TlsLaws.GetCurrentIsExact | include/VBox/VBoxVideo3D.h:91-123 | the slot's object is handed out exactly if it is in the initialised state; else the slot is emptied and a release of the object is due, and nothing else changes |
| TlsLaws.MarkedIsGivenUp | include/VBox/VBoxVideo3D.h:109-123 | marking the object in a slot, whatever its state, makes the next request empty the slot and release it |
| TlsLaws.SetCurrentEffect | include/VBox/VBoxVideo3D.h:125-136 | SetCurrent does nothing for the object in the slot; else it replaces it and a release of the old object, then a reference to the new one, are due |
| TlsDestructor.AssertionIsFromZero | include/VBox/VBoxVideo3D.h:93-96 | the assertion of addref excludes taking a reference from zero, and nothing else where no count is negative |
| TlsDestructor.StepIsExact | include/VBox/VBoxVideo3D.h:93-111 | from a world in order (one start for what is being destroyed, none for the rest, exactly one release on its way where a count is used up) a step leads to a world in order exactly if it takes no reference from zero and re-marks nothing |
| TlsDestructor.RunIsExact | include/VBox/VBoxVideo3D.h:93-111 | such runs are exactly those that stay in order throughout |
| TlsDestructor.DestructorRunsOnce | include/VBox/VBoxVideo3D.h:93-107 | in every such run, so in every one that keeps to the assertion and never re-marks, no destructor starts twice |
| TlsDestructor.StartsAtZero | include/VBox/VBoxVideo3D.h:100-107 | after such a run, between operations, the destructor has started, once, exactly if the count has been zero at some time |
| TlsDestructor.PairEffect | include/VBox/VBoxVideo3D.h:93-107 | an addref and release by an undisturbed thread leave the world as it was, unless the count was zero and the object not marked as being destroyed: then the destructor starts |
| TlsDestructor.BalancedPairInDestructor | include/VBox/VBoxVideo3D.h:93-107 | such a pair inside the destructor changes nothing exactly when the object is still marked as being destroyed |
| TlsTwice.FromZeroStartsTwice | include/VBox/VBoxVideo3D.h:93-107 | a reference taken from zero and dropped while another thread's release stands before its test of the state, or before marking the object, makes both call the destructor |
| TlsTwice.AddRefIsExact | include/VBox/VBoxVideo3D.h:93-107 | from every world that an orderly run reaches, a free thread's addref lets the destructor start twice in an orderly continuation exactly when it takes the reference from zero; without negative counts exactly when it breaks the assertion |
| TlsTwice.SetCurrentIsExact | include/VBox/VBoxVideo3D.h:125-136 | the same for the addref inside SetCurrent, with the object still in the slot |
| TlsTwice.MarkIsExact | include/VBox/VBoxVideo3D.h:109-111 | between operations, marking an object lets its destructor start twice, in an orderly continuation, exactly when it is being destroyed already and still referenced |
| TlsTwice.ReMarkStartsTwice | include/VBox/VBoxVideo3D.h:93-111 | re-marking alone, with the assertion of addref kept throughout: taking a reference to an object being destroyed, marking it and dropping the reference starts the destructor again |
| TlsTwice.DestructorMayStartTwice | include/VBox/VBoxVideo3D.h:93-107 | a run from nothing without any marking starts a destructor twice |
| TlsSafety.LastReference | include/VBox/VBoxVideo3D.h:100-107 | when a release is about to take an object to zero nobody else refers to it |
| TlsSafety.DisciplineMeetsAssertions | include/VBox/VBoxVideo3D.h:93-102 | where callers keep to the discipline the assertions of addref and of release hold |
| TlsSafety.NobodyRefers | include/VBox/VBoxVideo3D.h:100-107 | a destructor that is about to start finds its object without explicit references, slots and work under way |
| TlsSafety.StepIsSafe | include/VBox/VBoxVideo3D.h:85-136 | disciplined steps, destructors replacing slots included, keep destroyed objects out of all slots and live objects counted |
| TlsSafety.DisciplinedRunsAreSafe | include/VBox/VBoxVideo3D.h:85-136 | after every disciplined run no slot holds a destroyed object, no destructor has started twice, no count is negative, what lives is counted, and a destructor starts only on an object nobody refers to |
| TlsReplacement.EarlyReplacementIsExact | include/VBox/VBoxVideo3D.h:125-136 | in every safe world, a thread that owes an addref for p and takes p out of its slot destroys p, which is held, exactly when the count of p is one |
| TlsReplacement.DestructorMayFreeHeldObject | include/VBox/VBoxVideo3D.h:125-136 | a run from nothing, disciplined until a destructor empties its thread's slot inside SetCurrent, destroys a held object |
| TlsMacros.RefObj.Release | include/VBox/VBoxVideo3D.h:100-107 | the count goes down; the state is set and the destructor called, once, exactly when zero is reached outside a destructor, however often the destructor itself takes and drops references |
| TlsMacros.Slot.SetCurrent | include/VBox/VBoxVideo3D.h:125-136 | the slot holds p; if it did not before, the old object is released and the new one gains a reference, and nothing happens otherwise |
| TlsMacros.Slot.GetCurrentFunctional | include/VBox/VBoxVideo3D.h:115-123 | the slot's object if it is in the initialised state, unchanged; any other leaves the slot and loses a reference |

## Left out

- Several writers: the ring is specified for one. A failed compare-exchange is modelled as the no-change result it
  returns, in `AllocateFrom`, `WriteFrameFrom` and the methods over them.
- Memory ordering: each access to a cursor is one atomic step. Within a step the writer's stores behind the commit cursor
  are taken together (header fields; padding header and shortened size), since the reader does not look there.
- Reader's copy: the reader's use of a frame is taken at its skip; that the bytes do not change between looking and
  skipping is part of `Runs.StepKeeps`.
- The assertion that a frame has at least twelve bytes: no law needs it, so none requires it.
- Profiling counters, logging, the poison fill of read frames, trunk ports and ring-0 entry points.
- `IntNetSgInitTemp` and its relatives: they fill in fields.
- Physical addresses, allocation and user counts of scatter / gather lists; a list is its used segments' bytes.
- The 32-bit width of the reference count: it is an integer here.
- Freeing the object's memory in its destructor: its record stays behind, marked as being destroyed.
- The state read by the assertion of addref is read together with the increment.
- TlsMacros.RefObj.Release: runs on one thread, with a destructor that takes and drops references to its own object;
  other destructors and threads in between are part of the step machine in `TlsRefs.dfy`.
- TlsMacros.Slot.SetCurrent: likewise; a destructor that replaces the slot is in `TlsReplacement.dfy`.
- TlsMacros.Slot.GetCurrentFunctional: likewise.
- TlsTwice.MarkIsExact: takes the moments between operations; `TlsDestructor.StepIsExact` has every marking.
- Confinement.StepIsConfined: stores that leave the memory which is modelled are no steps; it starts at the ring structure.
- RunLaws.FifoOverRuns: leaves out runs through the corner; `CornerRuns.FifoThroughTheCorner` has those.
- `VBOXTLSREFDATA_COPY` and `VBOXTLSREFDATA_EQUAL`: field by field.
