# Models of Chromium's net/base algorithms

A Dafny model of the self-contained algorithms in a slice of Chromium's network stack
(`base/` is `net/base`, `android/` is `net/android`), with proofs of what they promise. Code
that changes objects step by step is modelled by classes and loops; code made of expressions
by functions. Each class that works on a complicated representation is proved against a simpler
one, and the theorems about whole runs are proved there. For the file stream context, the arena, the
upload stream, the backoff entry and the network delegate a `Drive` method then takes an object through
any allowed sequence of calls and shows that it ends where the model does, so the theorems are about
the object. `Basics` holds what the models share.

| files | subject | representation | meaning it is proved against |
|---|---|---|---|
| `Interval`, `IntervalRun`, `IntervalSweep`, `IntervalSet` | `Interval`, `IntervalSet` | sorted list edited through two cursors | the set of covered points |
| `FileStreamProtocol`, `FileStreamContext` | `FileStream::Context` on Windows | flags, a stored callback, posted tasks | a state machine over all interleavings, and its history |
| `Powers`, `UInt128` | `uint128` | two 64-bit words | an integer modulo 2^128 |
| `Escape`, `EscapeTables`, `EscapeExact`, `EscapeLaws`, `EscapeExclusion`, `HtmlEscape` | URL and HTML escaping | byte and code-unit strings | what becomes of each byte, round trips, exclusions, fixed points |
| `ArenaModel`, `Arena` | `UnsafeArena` | blocks with a fill mark in a flat memory | pairwise disjoint live regions with contents |
| `ChunkedUpload`, `ChunkedUploadStream` | `ChunkedUploadDataStream` | list of chunks, index and offset | one flat byte stream with a position |
| `IpAddress` | IP prefixes | bytes and masks | bit strings |
| `Backoff` | `BackoffEntry`, serializer | counter and release time | balances and bounds over all request histories |
| `NetworkDelegate`, `NetworkHistory` | the Android network delegate | a map, a default, emitted events | replaying the event log, and the notifications alone |

## Where the code and its description differ

The model follows the code. Each difference is stated as a lemma, with the exact condition where
there is one.

- `operator>>=` clears the high word before reading it for shifts of 64 to 127
  (base/int128.h:263-265), so it disagrees with `operator>>` on exactly the values that `>>` does not send to
  zero: `ShiftRightAssignDiverges`, `ShiftRightAssignWitness`.
- `CanDiscard` calls an entry unused although its release time is up to a millisecond ahead, because
  the difference is rounded towards zero. An entry that may be discarded is never one that rejects
  requests exactly for the policies whose `entry_lifetime_ms` is -1 or positive: `DiscardableIsIdle`,
  and `DiscardedWhileRejecting` for the single call.
- The comment above the table of `EscapeUrlEncodedData` (base/escape.cc:375-379) agrees with the
  table on every byte except '!', which is listed and left alone, and '@', which is not listed and
  escaped: `UrlEscapeTable`. The other tables hold exactly what their comments list.
- The exclusion of bidirectional controls and lock symbols covers only characters that are entirely
  escaped. One appears in the output if and only if the input spells it byte by byte, each byte raw or
  escaped, with at least one raw: `ExcludedExactly`. A raw lead byte with escaped continuation bytes
  is an example: `MixedSpelling`.
- The DCHECK in `UnsafeArena::Realloc` holds for every region that has bytes. For one without it fails
  exactly when its address lies strictly inside the unused part of the last block, which well-behaved
  calls can bring about: `ReallocCheckExact`, `EmptyAllocationFailsCheck`.
- `IsDisjoint` on an empty interval answers whether its `min` is outside the set; `Contains` of an
  empty interval or an empty set is false. The contracts state both cases.
- Losing the default network falls back on the invalid handle -1; if a network were connected under
  that handle, observers would not be told that it is now the active default: `StepFaithful`, `PurgeFaithful`.

## Model

The handlers and helpers that a listed method calls have contracts of their own; what they promise is
stated by the methods and lemmas below.

| member | source | states |
|---|---|---|
| `Intervals.EqualsIffSamePoints` | base/interval.h:170-178 | equality holds exactly when the same points are contained, so all empty intervals are equal |
| `Intervals.IntersectsIncludesByPoints` | base/interval.h:129-143 | `Intersects` iff there is a common point; `Contains(interval)` iff the argument has points and all of them are contained |
| `Intervals.Interval.Overlap` | base/interval.h:209-216 | the out-parameter holds exactly the common points and is not empty |
| `Intervals.Interval.Difference` | base/interval.h:255-298 | the two pieces together hold exactly the points left, are ordered with a gap, and the flag says whether the intervals meet |
| `Intervals.IntervalCell.IntersectWith` | base/interval.h:219-232 | in-place intersection of point sets; the flag says whether the bounds changed |
| `Intervals.IntervalCell.SpanningUnion` | base/interval.h:235-252 | the least interval that holds both, and whether the bounds changed |
| `IntervalRuns.CanonicalForm` | base/interval_set.h:387-398 | two valid representations are equal element by element iff they cover the same points |
| `IntervalRuns.ComplementTwice` | base/interval_set.h:740-744 | complementing twice in [min, max) gives, interval by interval, the intersection with [min, max) |
| `IntervalRuns.CoveredStretch` | base/interval_set.h:412-419 | an interval is covered by a valid run iff one element includes it |
| `IntervalRuns.InsertSpot` | base/interval_set.h:850-854 | an element between two neighbours in comparator order is inserted there, is new, and keeps the order |
| `IntervalSweeps.DifferenceStep` | base/interval_set.h:707-735 | replacing an interval by its two remainders keeps the sweep invariant: nothing wanted is lost, everything left of the cursor is clear |
| `IntervalSweeps.DifferenceDone` | base/interval_set.h:701-737 | once the rest is clear, exactly the set difference is left |
| `IntervalSweeps.EraseClear` | base/interval_set.h:600-632 | erasing holes loses no common point |
| `IntervalSweeps.IntersectionStep` | base/interval_set.h:648-668 | replacing an interval by its overlaps keeps validity, the common points and the cursors' relation |
| `IntervalSweeps.CoalesceKeep` | base/interval_set.h:768-794 | the branch that keeps neighbours apart leaves a coalesced prefix with the same points |
| `IntervalSweeps.CoalesceMerge` | base/interval_set.h:768-794 | the branch that merges neighbours does too |
| `IntervalSweeps.WindowBounds` | base/interval_set.h:357-377 | `upper_bound` of [max, max) lies behind the new interval and before the first one it cannot touch |
| `IntervalSweeps.AddWindow` | base/interval_set.h:357-377 | coalescing only the window from the predecessor to that bound makes the whole set valid and adds exactly the new points |
| `IntervalSets.IntervalSet.SpanningInterval` | base/interval_set.h:347-354 | holds every point of the set, and its first and last point are in the set |
| `IntervalSets.IntervalSet.ContainsValue` | base/interval_set.h:401-409 | one `upper_bound` and one step back decide membership |
| `IntervalSets.IntervalSet.ContainsInterval` | base/interval_set.h:412-419 | true iff the interval has points and all are in the set |
| `IntervalSets.IntervalSet.FindValue` | base/interval_set.h:486-497 | the one interval that holds the value, or the end iff there is none |
| `IntervalSets.IntervalSet.FindInterval` | base/interval_set.h:544-554 | the one interval that includes the probe, or the end iff there is none |
| `IntervalSets.IntervalSet.IsDisjoint` | base/interval_set.h:557-567 | no point of the interval is in the set, nor, for an empty interval, its min; both directions |
| `IntervalSets.IntervalSet.FindIntersectionCandidate` | base/interval_set.h:583-596 | every interval before the candidate ends before the given one begins |
| `IntervalSets.IntervalSet.CheckValid` | base/interval_set.h:797-809 | true iff the representation is non-empty, sorted, disjoint and non-adjacent, whatever the list |
| `IntervalSets.IntervalSet.Equals` | base/interval_set.h:387-398 | memberwise comparison decides equality of point sets |
| `IntervalSets.IntervalSet.ContainsSet` | base/interval_set.h:422-434 | superset test, false for an empty argument |
| `IntervalSets.IntervalSet.Intersects` | base/interval_set.h:673-685 | true iff a point belongs to both sets |
| `IntervalSets.IntervalSet.MergeNeighbours` | base/interval_set.h:776-790 | erasing two neighbours and inserting their union lands in their place and keeps the order |
| `IntervalSets.IntervalSet.Compact` | base/interval_set.h:768-794 | any sorted run of non-empty intervals is coalesced in its window, same points, the rest untouched |
| `IntervalSets.IntervalSet.Add` | base/interval_set.h:357-377 | validity and set union with the interval; an interval already there changes nothing |
| `IntervalSets.IntervalSet.AddSet` | base/interval_set.h:380-384 | validity and set union, also of a set with itself, which stays as it is |
| `IntervalSets.IntervalSet.Union` | base/interval_set.h:570-573 | validity and set union, by one range insert and one coalescing pass |
| `IntervalSets.IntervalSet.Difference` | base/interval_set.h:701-737 | the two-cursor sweep terminates, keeps validity and leaves exactly the points not in the other set |
| `IntervalSets.IntervalSet.DifferenceInterval` | base/interval_set.h:688-693 | the same for one interval |
| `IntervalSets.IntervalSet.CutNext` | base/interval_set.h:707-735 | one turn keeps the invariant and lowers the measure of remaining positions plus overlap flag |
| `IntervalSets.IntervalSet.Complement` | base/interval_set.h:740-744 | exactly the points of [min, max) that were not in the set |
| `IntervalSets.IntervalSet.ComplementTwice` | base/interval_set.h:740-744 | two calls of `Complement` and one of `Intersection` with [min, max) on a copy give sets that `Equals` accepts, interval by interval |
| `IntervalSets.IntervalSet.Intersection` | base/interval_set.h:635-670 | the erasing sweep terminates, keeps validity and leaves exactly the common points |
| `IntervalSets.IntervalSet.CutDown` | base/interval_set.h:648-668 | the interval is replaced by its overlaps in order; every insert finds no equal element |
| `IntervalSets.IntervalSet.FindNextIntersectingPair` | base/interval_set.h:600-632 | the cursors stop at the next intersecting pair or past the last one; everything passed over meets nothing in the other set, and is erased if asked |
| `IntervalSets.NextPair` | base/interval_set.h:600-632 | the same on the two lists, with termination |
| `IntervalSets.StepBack` | base/interval_set.h:486-497 | in ascending-min, descending-max order only the element before the upper bound can include the probe |
| `IntervalSets.DisjointProbe` | base/interval_set.h:557-567 | looking at the two neighbours of the probe decides disjointness from the whole run |
| `FileStreamProtocol.StepKeepsInv` | base/file_stream_context_win.cc:69-245 | every user call, worker task, reply and kernel notice keeps the invariant, so no CHECK or DCHECK of a handler can fail |
| `FileStreamProtocol.MayStartIffIdle` | base/file_stream_context.cc:68-156 | an operation may be started iff nothing is outstanding for the stream; dropping it is always allowed |
| `FileStreamProtocol.UserStartsWork` | base/file_stream_context.cc:82-156 | each user call hands over its own kind of work and runs no callback; a write is an operation iff the kernel took it, and otherwise leaves all as it was |
| `FileStreamProtocol.ReplyAnswers` | base/file_stream_context.cc:226-268 | a reply answers its operation with its value if the context is owned, and otherwise ends the context without a callback; the handle an open brings takes the place of the one held |
| `FileStreamProtocol.WorkLeavesReply` | base/file_stream_context.cc:206-249 | a worker task leaves exactly one reply, to its own operation and with its own value; a read leaves its result and a completion iff the kernel accepted it, with the kernel's numbers; the final closing deletes the context with every handle closed |
| `FileStreamProtocol.ReadResultAnswers` | base/file_stream_context_win.cc:222-245 | the result of a read answers it iff the completion has come or will not come: with the bytes if the call succeeded, none at the end of the file, the mapped error of a call that failed, and otherwise what the completion brought |
| `FileStreamProtocol.CompletionAnswers` | base/file_stream_context_win.cc:137-204 | a completion answers a write at once and a read iff its result has come: with the kernel's byte count without an error, none for error 38 (end of file), and any other error mapped; an orphaned context is disposed of then |
| `FileStreamProtocol.RunLaws` | base/file_stream_context_win.cc:137-245 | every delivery meets the handler's DCHECKs, keeps the invariant, runs at most one callback, none once orphaned, and leaves less to do |
| `FileStreamProtocol.CallbackSafety` | base/file_stream_context_win.cc:137-196 | in every run each callback runs at most once, with what is owed for what the worker returned or the kernel reported, and a read's only after both of its notices |
| `FileStreamProtocol.KernelDecides` | base/file_stream_context_win.cc:137-204 | in every run the callback of a read or write gets an error iff the kernel reported one other than the end of the file, then that one; without an error the byte count, at the end of the file none; other operations get the worker's value |
| `FileStreamProtocol.OrphanSilences` | base/file_stream_context.cc:68-80 | no callback runs after `Orphan`, whatever follows |
| `FileStreamProtocol.QuiescentMeansAnswered` | base/file_stream_context.cc:256-268 | when nothing is outstanding and the stream is still owned, exactly the accepted operations have been answered |
| `FileStreamProtocol.DeletedOnceAndQuiet` | base/file_stream_context.cc:235-249 | the context is deleted at most once; by then no task is outstanding, no handle open, nothing can happen any more |
| `FileStreamProtocol.DeliveryDrains` | base/file_stream_context_win.cc:137-245 | each delivery lowers the weight of what is outstanding, owned or orphaned, whatever the scheduler and kernel choose |
| `FileStreamProtocol.DeliveriesFinish` | base/file_stream_context.cc:256-268 | deliveries alone come to an end within that weight, and then every operation accepted by an owned context has had its callback |
| `FileStreamProtocol.PostedOperationDone` | base/file_stream_context.cc:206-268 | opening, closing and plain operations take two deliveries; then the callback has the worker's value, the file is the one opened, none after a close, otherwise the same, and no other handle is open |
| `FileStreamProtocol.DrainsToDeletion` | base/file_stream_context.cc:235-249 | after `Orphan` runs are bounded, and once drained the context has been deleted once with every handle closed |
| `FileStreamProtocol.TaskCanRun` | base/file_stream_context.cc:219-268 | no outstanding task is ever stuck |
| `FileStreamProtocol.BufferHeld` | base/file_stream_context_win.cc:128-135 | while a kernel completion is outstanding the context lives and holds that operation's buffer |
| `FileStreamProtocol.NoticesCommute` | base/file_stream_context_win.cc:137-245 | the two notices of a read may arrive in either order: an owned context ends in the same state with one callback, an orphaned one is deleted or about to close its file either way |
| `FileStreamContexts.Context.constructor` | base/file_stream_context_win.cc:39-64 | starts in the machine's initial state, which satisfies the invariant |
| `FileStreamContexts.Context.Orphan` | base/file_stream_context.cc:68-80 | keeps the invariant and is the machine's step; an idle context without a file is gone at once, a busy one keeps what is outstanding |
| `FileStreamContexts.Context.Open` | base/file_stream_context.cc:82-97 | keeps the invariant and is the machine's step |
| `FileStreamContexts.Context.Close` | base/file_stream_context.cc:99-112 | keeps the invariant and is the machine's step |
| `FileStreamContexts.Context.StartPlain` | base/file_stream_context.cc:114-156 | keeps the invariant and is the machine's step |
| `FileStreamContexts.Context.Read` | base/file_stream_context_win.cc:69-90 | keeps the invariant and is the machine's step, from any state in which a read is allowed |
| `FileStreamContexts.Context.Write` | base/file_stream_context_win.cc:92-113 | keeps the invariant and is the machine's step; pending is returned exactly when an operation was started |
| `FileStreamContexts.Context.RunPosted` | base/file_stream_context_win.cc:137-245 | takes any outstanding task out of the queue and runs it on the fields: the invariant and all DCHECKs hold, at most one callback runs, none once orphaned, and there is less left to do |
| `FileStreamContexts.Drive` | base/file_stream_context.cc:82-268 | an object taken through any allowed sequence of calls and deliveries is in the state the machine reaches, so `CallbackSafety`, `QuiescentMeansAnswered` and `DeletedOnceAndQuiet` hold of it |
| `UInt128s.ValueInjective` | base/int128.h:106-109 | equality of words is equality of values |
| `UInt128s.ComparesByValue` | base/int128.h:138-148 | the four comparisons order by value |
| `UInt128s.FromInt` | base/int128.h:126-130 | sign extension is the value modulo 2^128 |
| `UInt128s.Add` | base/int128.h:285-292 | the hand-made carry is addition modulo 2^128 |
| `UInt128s.Sub` | base/int128.h:294-300 | the hand-made borrow is subtraction modulo 2^128 |
| `UInt128s.Negate` | base/int128.h:154-162 | unary minus is negation modulo 2^128 |
| `UInt128s.ShiftLeftMultiplies` | base/int128.h:201-217 | `<<` multiplies by 2^n modulo 2^128 for every n |
| `UInt128s.ShiftRightDivides` | base/int128.h:219-235 | `>>` divides by 2^n rounding down for every n |
| `UInt128s.ShiftRoundTrip` | base/int128.h:201-235 | shifting left and back gives the value iff nothing was pushed out |
| `UInt128s.Schoolbook` | base/int128.h:302-323 | the ten partial products kept are the product modulo 2^128 |
| `UInt128s.MulIsModular` | base/int128.h:302-323 | the steps of `*=`, wrapping sums and carries included, give the product modulo 2^128 |
| `UInt128s.UInt128.AddAssign` | base/int128.h:285-292 | `+=` in place is the modular sum, also when the operand is the object itself |
| `UInt128s.UInt128.SubAssign` | base/int128.h:294-300 | `-=` in place is the modular difference, also of the object with itself |
| `UInt128s.UInt128.MulAssign` | base/int128.h:302-323 | `*=` in place is the modular product, also `x *= x` |
| `UInt128s.UInt128.ShiftLeftAssign` | base/int128.h:237-253 | `<<=` agrees with `<<` and multiplies modulo 2^128 |
| `UInt128s.UInt128.ShiftRightAssign` | base/int128.h:255-271 | `>>=` as written divides by 2^n rounding down below 64 and gives zero from there on |
| `UInt128s.ShiftRightAssignDiverges` | base/int128.h:255-271 | `>>=` agrees with `>>` iff the shift is below 64 or at least 128, or the value is below 2^n |
| `UInt128s.ShiftRightAssignWitness` | base/int128.h:263-265 | 2^64 shifted by 64 gives 1 with `>>` and 0 with `>>=` |
| `Escapes.Triplet` | base/escape.cc:39-61 | the three bytes written for c are read back as c |
| `Escapes.Escape` | base/escape.cc:39-61 | the loop computes the recursive definition that `EscapeExactly` and the other laws pin down |
| `Escapes.UnescapeURLWithAdjustments` | base/escape.cc:200-315 | the loop computes the recursive definitions of text and adjustments that `NextExactly`, `ExcludedIsCopied` and `AdjustmentsLand` pin down; NONE returns the text |
| `EscapeTables.QueryTable` | base/escape.cc:353-358 | for all 256 bytes the table holds exactly what its comment lists |
| `EscapeTables.PathTable` | base/escape.cc:360-364 | for all 256 bytes the table holds exactly what its comment lists |
| `EscapeTables.ExternalHandlerTable` | base/escape.cc:387-392 | for all 256 bytes the table holds exactly what its comment lists |
| `EscapeTables.UrlEscapeTable` | base/escape.cc:375-379 | the table agrees with its comment on a byte iff it is neither '!' nor '@' |
| `EscapeExact.DigitValues` | base/escape.cc:15-20 | a character has digit value k iff it is at position k of the upper-case or the lower-case list of digits; digits are written in upper case |
| `EscapeExact.TripletValues` | base/escape.cc:102-122 | a triplet stands for 16 hi + lo iff its digits are at positions hi and lo of either list |
| `EscapeExact.EscapeExactly` | base/escape.cc:39-61 | for every table, all flags and every byte i: at its place in the output is its triplet if it must be escaped, '+' if it is a space and plus is used, and otherwise the byte itself; its place is three further for each escaped byte before it and one for each other |
| `EscapeExact.EscapedLength` | base/escape.cc:39-61 | and that is the whole output |
| `EscapeExact.TableBytesEscaped` | base/escape.cc:39-61 | with a table without hexadecimal digits a byte of the table occurs in the output only as the '%' of a triplet or as the '+' of a space |
| `EscapeExact.PublicEscapes` | base/escape.cc:353-416 | `EscapeQueryParamValue`, `EscapePath` and `EscapeUrlEncodedData` byte by byte, in terms of the lists in the comments of their tables |
| `EscapeExact.PublicEscapesClean` | base/escape.cc:353-416 | nothing those comments list is left in the output but the '%' of triplets and the '+' of spaces |
| `EscapeExact.NextExactly` | base/escape.cc:217-312 | what comes next in unescaped text: a triplet's byte if it is not ASCII or one of the listed characters or allowed by its flag, else its '%'; another byte as it is, or a space for '+' |
| `EscapeExact.ExcludedIsCopied` | base/escape.cc:124-280 | without the flag, the triplets of an excluded character are copied whole |
| `EscapeExact.CaseOfDigits` | base/escape.cc:105-122 | unescaping does not depend on the case of hexadecimal digits: the same triplets are replaced by the same bytes |
| `EscapeExact.AdjustmentsLand` | base/escape.cc:195-198 | the k-th adjustment, at offset a, is the triplet of the output byte at a - 2 k |
| `EscapeLaws.RoundTrip` | base/escape.cc:39-61 | permissive unescaping undoes escaping for every table that escapes '%', and '+' when plus is replaced |
| `EscapeLaws.EscapesAreUndone` | base/escape.cc:396-416 | so it undoes `EscapeQueryParamValue`, `EscapeUrlEncodedData` and `EscapePath` on every byte string |
| `EscapeLaws.EscapedIsClean` | base/escape.cc:45-60 | with escapes kept, the output has '%' only before two hexadecimal digits and no other character of the table |
| `EscapeLaws.CleanIsFixed` | base/escape.cc:45-60 | such text is left unchanged by another pass |
| `EscapeLaws.ExternalHandlerIdempotent` | base/escape.cc:418-420 | `EscapeExternalHandlerValue` is idempotent on every byte string |
| `EscapeLaws.KeepsMeaning` | base/escape.cc:45-60 | with escapes kept, the text and its escaped form unescape to the same bytes |
| `EscapeLaws.ExternalHandlerKeepsMeaning` | base/escape.cc:418-420 | so for `EscapeExternalHandlerValue` |
| `EscapeExclusion.ExcludedExactly` | base/escape.cc:217-312 | without SPOOFING_AND_CONTROL_CHARS an excluded character appears in the output iff the input spells one, each byte raw or escaped, with at least one raw; under NONE the output is the input |
| `EscapeExclusion.KeptIfEscaped` | base/escape.cc:124-192 | of the inputs that spell an excluded character the helpers recognise exactly those with every byte escaped |
| `EscapeExclusion.SpellingComesThrough` | base/escape.cc:217-312 | the output starts with a given multi-byte sequence iff the input spells it and is not kept |
| `EscapeExclusion.MixedSpelling` | base/escape.cc:217-312 | a raw lead byte with escaped continuation bytes is decoded to U+200E |
| `EscapeExclusion.UnescapeExcludes` | base/escape.cc:217-312 | so for every ASCII input nothing excluded appears, under any rules without the flag |
| `EscapeExclusion.ProtectedKept` | base/escape.cc:281-312 | for every byte string and all rules, the characters the rules do not unescape are the same before and after, in the same order |
| `EscapeExclusion.StructureKept` | base/escape.h:75-110 | what leaving out a flag guarantees on every byte string: path separators, spaces, control characters, and other ASCII characters not unescaped as normal, except '%', occur as often in the output as in the input; with plus replacement not for '+' and space |
| `EscapeExclusion.AdjustmentsCount` | base/escape.cc:195-198 | the output is shorter by two for each adjustment |
| `EscapeExclusion.AdjustmentsMark` | base/escape.cc:195-198 | each adjustment marks a triplet of the input, in increasing order, three or more apart |
| `HtmlEscapes.EscapeForHTML` | base/escape.cc:343-352 | the loop computes the recursive definition |
| `HtmlEscapes.UnescapeForHTML` | base/escape.cc:471-507 | rewriting in place behind a moving position reads the text once from left to right |
| `HtmlEscapes.HtmlRoundTrip` | base/escape.cc:471-507 | unescaping undoes escaping on every string |
| `HtmlEscapes.EscapedIsInert` | base/escape.cc:318-340 | escaped text has no markup character, and every '&' starts one of the five codes |
| `HtmlEscapes.EscapedTexts` | base/escape.cc:318-340 | which text is written for each of the five characters; every other character is written as it is |
| `HtmlEscapes.ReadTexts` | base/escape.cc:471-507 | which character is read for each of the five texts; everything else is copied |
| `ArenaModel.AllocKeeps` | base/arena.cc:22-29 | a new region is in bounds and apart from every live one, with or without a new block |
| `ArenaModel.FreeKeeps` | base/arena.cc:57-67 | taking back the last region disturbs no other |
| `ArenaModel.ReallocInPlaceKeeps` | base/arena.cc:31-49 | growing or shrinking the last region in place disturbs no other |
| `ArenaModel.ReallocMovesKeeps` | base/arena.cc:31-49 | moving a region disturbs no other |
| `ArenaModel.ReallocCopies` | base/arena.cc:31-49 | the first old bytes are at the returned address, wherever that is |
| `ArenaModel.ReallocCheckExact` | base/arena.cc:34-36 | the DCHECK holds for every live region; for an empty one iff its address is not strictly inside the unused part of the last block |
| `ArenaModel.EmptyAllocationFailsCheck` | base/arena.cc:34-36 | three well-behaved calls after which it fails for an empty allocation |
| `ArenaModel.MemdupStores` | base/arena.cc:51-55 | the returned region is live and holds the given bytes |
| `ArenaModel.FreeUndoesAlloc` | base/arena.cc:57-67 | freeing what was just allocated restores the arena unless a block was added |
| `ArenaModel.AllocPlaces` | base/arena.cc:22-88 | a request that fits comes from the last block behind what is used; otherwise exactly one block is added, of the usual size or the size of the request, with the request at its front |
| `ArenaModel.ReallocPlaces` | base/arena.cc:31-49 | a region is resized in place, without new memory, iff it was the last allocation and a byte is left behind it; otherwise it goes where an allocation would |
| `ArenaModel.FreeReclaims` | base/arena.cc:57-67 | bytes are taken back iff the region was the last allocation; otherwise the blocks stay as they are |
| `ArenaModel.StepKeepsInv` | base/arena.cc:22-88 | every operation keeps the invariant, including bytes allocated equal to the sum of block sizes |
| `ArenaModel.StepSpares` | base/arena.cc:22-88 | no operation changes a byte of a live region it was not given |
| `ArenaModel.EveryRunIsSafe` | base/arena.cc:22-88 | over every run from an empty arena live regions stay in bounds and pairwise disjoint |
| `ArenaModel.UntouchedBytesKept` | base/arena.cc:22-88 | over every run a region neither given up nor written keeps its bytes |
| `Arenas.UnsafeArena.Alloc` | base/arena.cc:22-29 | keeps the invariant; the returned region is new, in bounds and apart from everything that was live |
| `Arenas.UnsafeArena.Realloc` | base/arena.cc:31-49 | keeps the invariant; the old bytes are at the returned address, every other live region keeps place and bytes, and the DCHECK holds for regions with bytes |
| `Arenas.UnsafeArena.Memdup` | base/arena.cc:51-55 | keeps the invariant; the returned region is live and holds the given bytes, all others keep theirs |
| `Arenas.UnsafeArena.Free` | base/arena.cc:57-67 | keeps the invariant and gives up exactly that region |
| `Arenas.UnsafeArena.Reset` | base/arena.cc:69-72 | the invariant holds with no block, no byte allocated and no live region, whatever was before |
| `Arenas.UnsafeArena.Reserve` | base/arena.cc:74-83 | keeps the invariant and all live regions, makes room in the last block, and accounts for every byte |
| `Arenas.Drive` | base/arena.cc:22-88 | an arena taken through any run of calls and client writes is in the state the model reaches, so `EveryRunIsSafe` and `UntouchedBytesKept` hold of it |
| `ChunkedUploads.StepKeepsInv` | base/chunked_upload_data_stream.cc:44-120 | every append, read, reset and init keeps the invariant and adds exactly the appended bytes |
| `ChunkedUploads.DeliveredIsPrefix` | base/chunked_upload_data_stream.cc:44-120 | in every run the bytes delivered since the last reset are a prefix of everything appended; the final flag goes up only when all is appended and delivered |
| `ChunkedUploads.AppendAnswers` | base/chunked_upload_data_stream.cc:44-64 | an append runs the callback of a waiting read with the number of bytes copied, never negative and zero only at the end |
| `ChunkedUploads.AppendStores` | base/chunked_upload_data_stream.cc:44-64 | an append stores the bytes and whether they are the last, with or without a waiting read; without one it runs no callback and delivers nothing |
| `ChunkedUploads.ReadAnswers` | base/chunked_upload_data_stream.cc:75-120 | a read gets as many bytes as there are up to its size; it waits iff there are none and the end was not appended; the final flag goes up iff the rest was read and the end was appended; at the end it gets 0 |
| `ChunkedUploads.ResetRewinds` | base/upload_data_stream.cc:53-125 | `Reset` and `Init` go back to the first byte and cancel a waiting read without a callback; everything appended, the end included, stays |
| `ChunkedUploads.MarksOfARun` | base/chunked_upload_data_stream.cc:44-120 | in every run the stream knows its end iff some append was marked as the last, and may be read iff the last of its resets and initialisations was an initialisation |
| `ChunkedUploads.WaitersAnsweredOnce` | base/chunked_upload_data_stream.cc:44-120 | in every run each read left waiting is answered exactly once with the number of bytes in its buffer, unless a reset cancels it; only the last can still wait |
| `ChunkedUploads.ReadsReachTheEnd` | base/chunked_upload_data_stream.cc:93-120 | once the end is appended reads are always allowed and never wait; they deliver what they ask for as far as it goes, and the final flag goes up iff they ask for all of the rest |
| `ChunkedUploads.UploadEnds` | base/chunked_upload_data_stream.cc:44-120 | the upload comes to its end: after any run that appended the end and left the stream initialised, reads for as many bytes as were appended raise the final flag with everything delivered |
| `ChunkedUploadStreams.TakeFromChunk` | base/chunked_upload_data_stream.cc:95-110 | bytes of the current chunk are the next bytes of the flat stream |
| `ChunkedUploadStreams.ChunkedUploadDataStream.ReadChunk` | base/chunked_upload_data_stream.cc:93-120 | the buffer gets the next bytes of the flat stream, as many as fit, across chunks; pending iff there are none yet |
| `ChunkedUploadStreams.ChunkedUploadDataStream.Read` | base/upload_data_stream.cc:73-95 | behaves like a read of the flat stream; the bytes delivered are the ones in the buffer, and the callback is stored exactly when the read is left waiting |
| `ChunkedUploadStreams.ChunkedUploadDataStream.AppendData` | base/chunked_upload_data_stream.cc:44-64 | behaves like an append to the flat stream; whether the data is the last is remembered with and without a waiting read; the stored callback runs once with the number of bytes now in the waiting buffer, which are the front of the new data |
| `ChunkedUploadStreams.ChunkedUploadDataStream.Reset` | base/upload_data_stream.cc:103-125 | the position goes back to the start, a waiting read is cancelled, and the chunks stay |
| `ChunkedUploadStreams.ChunkedUploadDataStream.Init` | base/upload_data_stream.cc:53-71 | resets and becomes ready |
| `ChunkedUploadStreams.Drive` | base/chunked_upload_data_stream.cc:44-120 | a stream taken through any run of calls is in the state the flat stream reaches, so what its readers got is a prefix of what was appended, it knows the end iff that was appended, and each waiting read was answered once |
| `IpAddresses.IPAddressPrefixCheck` | base/ip_address.cc:28-48 | true iff the first n bits agree |
| `IpAddresses.MaskedEqual` | base/ip_address.cc:38-46 | comparing bytes under the shifted mask compares exactly the leading bits |
| `IpAddresses.FirstDifference` | base/ip_address.cc:437-451 | the shifting loop finds the first differing bit of two bytes |
| `IpAddresses.CommonPrefixLength` | base/ip_address.cc:437-451 | the length of the longest common leading bit string |
| `IpAddresses.MaskPrefixLength` | base/ip_address.cc:453-458 | the number of leading ones |
| `IpAddresses.ConvertIPv4ToIPv4MappedIPv6` | base/ip_address.cc:348-357 | gives a mapped address (section 2.5.5.2 of RFC 4291) that converts back |
| `IpAddresses.ConvertIPv4MappedIPv6ToIPv4` | base/ip_address.cc:359-367 | gives the IPv4 address whose mapped form it was |
| `IpAddresses.MappedForm` | base/ip_address.cc:348-367 | an address is mapped iff it has ten bytes of zeros, two of ones and four more, and conversion puts the IPv4 bytes there |
| `IpAddresses.IPAddressMatchesPrefix` | base/ip_address.cc:369-393 | true iff the 128-bit forms agree on n bits, or 96 + n for an IPv4 prefix, for all four mixtures of sizes |
| `IpAddresses.MatchesIffCommonPrefix` | base/ip_address.cc:369-393 | matching a prefix is having a common prefix that is long enough |
| `Backoff.JitterBounds` | base/backoff_entry.cc:136-145 | the delay lies between the nominal delay less the jitter's share and the nominal delay |
| `Backoff.FailureHoldsBack` | base/backoff_entry.cc:121-157 | a failure that counts holds requests back for the exponential delay less the random part of the jitter's share, to the nearest millisecond, unless the maximum or an earlier horizon rules; an ignored one does not |
| `Backoff.Schedule` | base/backoff_entry.cc:121-145 | no delay up to the last ignored error, the initial delay for the first failure that counts, and the factor times the previous delay for each further one; with an always-used initial delay one step ahead throughout |
| `Backoff.CountOfARun` | base/backoff_entry.cc:34-62 | over every history the failure count is the largest balance of failures over successes of any last part of it, or the balance of all of it added to the count at the start |
| `Backoff.SuccessesClear` | base/backoff_entry.cc:34-62 | as many successes as there were failures before them leave a new entry with count 0 |
| `Backoff.ReleaseNeverEarlier` | base/backoff_entry.cc:34-62 | over every history of requests the release time never moves earlier |
| `Backoff.ReleaseWithinHorizon` | base/backoff_entry.cc:159-184 | with a maximum and a clock that never runs backwards it stays within the larger of the maximum and an always-used initial delay, overflow included |
| `Backoff.FreshWithinHorizon` | base/backoff_entry.cc:34-62 | so for every history of a new entry |
| `Backoff.BackoffEntry.InformOfRequest` | base/backoff_entry.cc:34-62 | a failure counts one up, a success one down but not below zero; the release time moves no earlier, stays within the horizon if it was, after a failure is as `FailureHoldsBack` says, and after a success is the later of the old one and now with the always-used initial delay |
| `Backoff.Drive` | base/backoff_entry.cc:34-62 | an entry told of any history of requests is in the state the histories above reach, and so within the horizon |
| `Backoff.DiscardableIsIdle` | base/backoff_entry.cc:83-106 | an entry that can be discarded rejects no request, iff the lifetime is -1 or positive |
| `Backoff.DiscardedExactly` | base/backoff_entry.cc:83-106 | in microseconds: an entry may be discarded iff its lifetime is limited, its release is less than a millisecond ahead, and it has been unused for its lifetime, with failures for the maximum too |
| `Backoff.DiscardedWhileRejecting` | base/backoff_entry.cc:64-106 | exactly when an entry that may be discarded still rejects requests: lifetime not positive, release less than a millisecond ahead, and no failure kept for a positive maximum |
| `Backoff.Deserialize` | base/backoff_entry_serializer.cc:43-95 | accepts exactly the lists of version 1 with a failure count and a release time that are not negative, and the replay of failures leaves the count with the release time computed from the list |
| `Backoff.SerializationRoundTrip` | base/backoff_entry_serializer.cc:22-95 | `Serialize` then `Deserialize`: an entry comes back iff its release is not before the wall clock's epoch, with its failure count and the least of the original time left, what the wall clock leaves and the maximum |
| `NetworkDelegates.StepFaithful` | android/network_change_notifier_delegate_android.cc:148-280 | the events of one notification or purge replay to the new networks, and a network is announced as default exactly when it becomes default and connected; iff the invalid handle is not involved |
| `NetworkDelegates.RunFaithful` | android/network_change_notifier_delegate_android.cc:148-280 | over every run with valid handles, purges included, the log replays with strict alternation to the networks, and the announced defaults are the activations in order |
| `NetworkDelegates.PurgeIsDisconnects` | android/network_change_notifier_delegate_android.cc:278-280 | a purge does to state and log what a row of disconnects does |
| `NetworkDelegates.PurgeLeavesActive` | android/network_change_notifier_delegate_android.cc:254-280 | exactly the listed networks are left, and the default survives iff it was not disconnected |
| `NetworkDelegates.PurgeFaithful` | android/network_change_notifier_delegate_android.cc:254-280 | a purge tells of every network that is gone and announces no default; exact condition for that to be faithful |
| `NetworkDelegates.NetworkChangeNotifierDelegateAndroid.NotifyConnectionTypeChanged` | android/network_change_notifier_delegate_android.cc:148-179 | what observers are told is faithful to the change of state, always; the invalid handle stays out of the map |
| `NetworkDelegates.NetworkChangeNotifierDelegateAndroid.NotifyOfNetworkConnect` | android/network_change_notifier_delegate_android.cc:200-222 | what observers are told is faithful to the change of state, always; the invalid handle stays out of the map unless it is what connects |
| `NetworkDelegates.NetworkChangeNotifierDelegateAndroid.NotifyOfNetworkSoonToDisconnect` | android/network_change_notifier_delegate_android.cc:224-236 | what observers are told is faithful: neither networks nor defaults change |
| `NetworkDelegates.NetworkChangeNotifierDelegateAndroid.NotifyOfNetworkDisconnect` | android/network_change_notifier_delegate_android.cc:238-252 | what observers are told is faithful, exactly unless the default is lost to a network with the invalid handle |
| `NetworkDelegates.NetworkChangeNotifierDelegateAndroid.FindDisconnected` | android/network_change_notifier_delegate_android.cc:257-276 | the nested loops find exactly the networks that are not listed, in map order |
| `NetworkDelegates.NetworkChangeNotifierDelegateAndroid.NotifyPurgeActiveNetworkList` | android/network_change_notifier_delegate_android.cc:254-280 | exactly the listed networks are left, and what observers are told is faithful with the exact exception of `PurgeFaithful` |
| `NetworkDelegates.Drive` | android/network_change_notifier_delegate_android.cc:148-280 | an object taken through any notifications with valid handles is in the state the runs reach, and has told its observers a log that replays to its networks and announces exactly its activations |
| `NetworkHistory.StateOfARun` | android/network_change_notifier_delegate_android.cc:148-297 | after every run, from the notifications alone: a network is connected with the type of its last connect unless disconnected or purged since; the connection type is the last one reported, unknown ones as 0; the default is the last one named unless lost since |
| `NetworkHistory.NoticesOfARun` | android/network_change_notifier_delegate_android.cc:148-236 | over every run observers are told of a change of type once per report, and that a network will go once for each time the system said so while it was connected |

## Left out

- Interval, IntervalSet: endpoints are integers instead of an arbitrary ordered type; except in `AddSet`,
  `other` is a different object from the set being changed.
- FindNextIntersectingPair: the loop works on the two interval lists and stores the result once, so
  the intermediate states of the field during erasure are not modelled.
- Orphan: cancelling outstanding I/O only hastens a completion and is not modelled; nor are locks,
  message loops, `last_operation_`, file offsets and the mapping of system error numbers, which stay
  symbolic.
- FileStreamProtocol: that the kernel sends one completion exactly when a call succeeded or returned
  ERROR_IO_PENDING is part of what environment choices are possible. What a user does inside a
  callback is the next event.
- StartPlain: seeking, flushing and querying file information are one kind of posted operation.
- UInt128: bitwise operators, increments, division and negative shift amounts are not modelled.
- Rules: unescape rules are a record of flags; strings of 16-bit characters (which truncate
  characters above 255), conversion to UTF-8 and `EscapeNonASCII` are not modelled.
- ArenaModel: addresses are mathematical integers, so `size_t` overflow is not modelled; regions of
  size zero are not recorded. The address of a new block is a parameter that does not overlap
  existing blocks.
- Realloc: a region that has to move must not shrink, because the code copies the old size
  (base/arena.cc:46-47).
- AppendData: the `Writer` with its weak pointer and the network log are not modelled.
- IPAddressMatchesPrefix: parsing and printing of literals, reserved ranges and IPv6 scopes are not
  modelled.
- FailureHoldsBack: delays are real numbers, so rounding of `pow`, infinities and NaN are not
  modelled; a policy has non-negative delay and factor and a jitter between 0 and 1.
- ReleaseWithinHorizon: adding the always-used initial delay to the clock is not saturated, and the
  failure counter does not overflow.
- SerializationRoundTrip: the list is a typed four-tuple; rounding of the duration to a double and
  type errors inside the list are not modelled, nor is the release time stated when a remaining time
  is so negative that adding it to the clock underflows.
- NetworkChangeNotifierDelegateAndroid: JNI, locks, threads and the maximum bandwidth are not
  modelled.
- JNI bridges, netlink address tracking, directory listing, the POSIX file context, upload elements,
  data URLs, file names, host mapping rules, IP patterns, linked hash maps, expiring caches, network
  delegates and enumerations are not part of this model: wrappers, library calls or easy container
  updates.
