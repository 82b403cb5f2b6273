/** `ChunkedUploadDataStream` (base/chunked_upload_data_stream.cc) with the parts of its base
    class that drive it (base/upload_data_stream.cc). */
module ChunkedUploads {
  import opened Basics

  const ERR_IO_PENDING: int := -1

  // ----- The stream without chunks ----------------------------------------------------------------

  /** What the chunked stream amounts to: all bytes appended so far, a reading position, and
      at most one read waiting for more. `delivered` is what readers got since the last reset. */
  datatype Flat = Flat(data: seq<Byte>, pos: nat, done: bool, eof: bool, ready: bool, waiting: nat,
                       delivered: seq<Byte>, book: Book)

  /** The value a callback is run with, and the bytes then in the buffer of its read. */
  datatype Answer = Answer(read: nat, result: int, bytes: seq<Byte>)

  /** The reads that were left waiting, numbered in order: how many, which of them a reset
      cancelled, and the callbacks run. */
  datatype Book = Book(asked: nat, dropped: set<nat>, answers: seq<Answer>)

  ghost predicate Answered(answers: seq<Answer>, id: nat) {
    exists i :: 0 <= i < |answers| && answers[i].read == id
  }

  /** Every read left waiting has been answered once, in turn and with the number of bytes it
      got, or was cancelled, or is the last one and still waiting. */
  ghost predicate BookKept(b: Book, waiting: bool) {
    && (waiting ==> b.asked > 0)
    && (forall i :: 0 <= i < |b.answers| ==> b.answers[i].read < b.asked && b.answers[i].result == |b.answers[i].bytes|)
    && (forall i, j :: 0 <= i < j < |b.answers| ==> b.answers[i].read < b.answers[j].read)
    && (forall id :: id in b.dropped ==> id < b.asked && !Answered(b.answers, id))
    && (forall id: nat :: id < b.asked ==>
          if waiting && id == b.asked - 1 then id !in b.dropped && !Answered(b.answers, id)
          else id in b.dropped || Answered(b.answers, id))
  }

  ghost predicate Inv(f: Flat) {
    && f.pos <= |f.data| && f.delivered == f.data[..f.pos]
    && (f.waiting > 0 ==> f.ready && f.pos == |f.data| && !f.done && !f.eof)
    && (f.eof ==> f.done && f.pos == |f.data|)
    && (!f.ready ==> f.pos == 0 && f.waiting == 0 && !f.eof)
    && BookKept(f.book, f.waiting > 0)
  }

  /** The n bytes of s at p. */
  function Slice(s: seq<Byte>, p: nat, n: nat): (r: seq<Byte>)
    requires p + n <= |s|
    ensures |r| == n
  {
    s[p..p + n]
  }

  /** The outcome of a read of up to len bytes. */
  function Available(f: Flat, len: nat): nat
    requires f.pos <= |f.data|
  {
    Min(len, |f.data| - f.pos)
  }

  predicate Blocks(f: Flat, len: nat)
    requires f.pos <= |f.data|
  {
    Available(f, len) == 0 && !f.done
  }

  /** Handing out what is there; the final flag goes up with the last byte. */
  function Deliver(f: Flat, len: nat): Flat
    requires f.pos <= |f.data|
  {
    var n := Available(f, len);
    f.(pos := f.pos + n, delivered := f.delivered + Slice(f.data, f.pos, n), waiting := 0,
       eof := f.eof || (f.done && f.pos + n == |f.data|))
  }

  function Read(f: Flat, len: nat): Flat
    requires f.pos <= |f.data|
  {
    if f.eof then f
    else if Blocks(f, len) then f.(waiting := len, book := f.book.(asked := f.book.asked + 1))
    else Deliver(f, len)
  }

  function ReadResult(f: Flat, len: nat): int
    requires f.pos <= |f.data|
  {
    if f.eof then 0 else if Blocks(f, len) then ERR_IO_PENDING else Available(f, len)
  }

  function Append(f: Flat, bytes: seq<Byte>, isDone: bool): Flat
    requires f.pos <= |f.data|
  {
    var g := f.(data := f.data + bytes, done := isDone);
    if f.waiting > 0 then
      var n := Available(g, f.waiting);
      Answering(Deliver(g, f.waiting), ReadResult(g, f.waiting), Slice(g.data, g.pos, n))
    else g
  }

  /** Running the callback of the read that was waiting. */
  function Answering(f: Flat, result: int, bytes: seq<Byte>): Flat {
    if f.book.asked == 0 then f
    else f.(book := f.book.(answers := f.book.answers + [Answer(f.book.asked - 1, result, bytes)]))
  }

  function Reset(f: Flat): Flat {
    f.(pos := 0, eof := false, ready := false, waiting := 0, delivered := [],
       book := if f.waiting > 0 && f.book.asked > 0 then f.book.(dropped := f.book.dropped + {f.book.asked - 1}) else f.book)
  }

  function Init(f: Flat): Flat { Reset(f).(ready := true) }

  // ----- Events -------------------------------------------------------------------------------------

  datatype Event = DoAppend(bytes: seq<Byte>, isDone: bool) | DoRead(len: nat) | DoReset | DoInit

  /** What callers owe: nothing is appended after the end, every append adds bytes or ends the
      stream, reads ask for at least one byte, one at a time, on an initialised stream. */
  predicate Enabled(f: Flat, e: Event) {
    match e
    case DoAppend(bytes, isDone) => !f.done && (bytes != [] || isDone)
    case DoRead(len) => f.ready && len > 0 && f.waiting == 0
    case DoReset => true
    case DoInit => true
  }

  function Step(f: Flat, e: Event): Flat
    requires f.pos <= |f.data|
  {
    match e
    case DoAppend(bytes, isDone) => Append(f, bytes, isDone)
    case DoRead(len) => Read(f, len)
    case DoReset => Reset(f)
    case DoInit => Init(f)
  }

  lemma StepKeepsInv(f: Flat, e: Event)
    requires Inv(f) && Enabled(f, e)
    ensures Inv(Step(f, e))
    ensures Step(f, e).data == f.data + if e.DoAppend? then e.bytes else []
  {
    assert f.data + [] == f.data;
    match e
    case DoAppend(bytes, isDone) => AppendKeeps(f, bytes, isDone);
    case DoRead(len) =>
      ReadAsks(f.book);
      hide BookKept;
      if !f.eof && !Blocks(f, len) { DeliverKeeps(f, len); }
    case DoReset => ResetDrops(f.book, f.waiting > 0);
    case DoInit => ResetDrops(f.book, f.waiting > 0);
  }

  lemma AppendKeeps(f: Flat, bytes: seq<Byte>, isDone: bool)
    requires Inv(f) && Enabled(f, DoAppend(bytes, isDone))
    ensures Inv(Append(f, bytes, isDone))
  {
    hide BookKept;
    var g := f.(data := f.data + bytes, done := isDone);
    assert g.data[..f.pos] == f.data[..f.pos];
    if f.waiting > 0 {
      var n := Available(g, f.waiting);
      DeliverKeeps(g, f.waiting);
      AskedWhenWaiting(f.book);
      BookAnswers(f.book, Slice(g.data, g.pos, n));
    }
  }

  lemma DeliverKeeps(f: Flat, len: nat)
    requires f.pos <= |f.data| && f.delivered == f.data[..f.pos] && f.ready && !f.eof
    ensures var d := Deliver(f, len);
            && d.pos <= |d.data| && d.delivered == d.data[..d.pos] && d.waiting == 0 && d.ready
            && (d.eof ==> d.done && d.pos == |d.data|)
  {
    var n := Available(f, len);
    assert f.data[..f.pos + n] == f.data[..f.pos] + f.data[f.pos..f.pos + n];
  }

  // ----- The book of waiting reads --------------------------------------------------------------------

  lemma ReadAsks(b: Book)
    requires BookKept(b, false)
    ensures BookKept(b.(asked := b.asked + 1), true)
  {
  }

  lemma ResetDrops(b: Book, waiting: bool)
    requires BookKept(b, waiting)
    ensures BookKept(if waiting then b.(dropped := b.dropped + {b.asked - 1}) else b, false)
  {
  }

  lemma BookAnswers(b: Book, bytes: seq<Byte>)
    requires BookKept(b, true)
    ensures BookKept(b.(answers := b.answers + [Answer(b.asked - 1, |bytes|, bytes)]), false)
  {
    var last := Answer(b.asked - 1, |bytes|, bytes);
    forall id: nat
      ensures Answered(b.answers + [last], id) <==> Answered(b.answers, id) || id == last.read
    {
      AnsweredGrows(b.answers, last, id);
    }
    hide Answered;
    forall i | 0 <= i < |b.answers|
      ensures b.answers[i].read < last.read
    {
      NotLast(b, i);
    }
  }

  lemma NotLast(b: Book, i: nat)
    requires BookKept(b, true) && i < |b.answers|
    ensures b.answers[i].read < b.asked - 1
  {
    assert Answered(b.answers, b.answers[i].read);
  }

  lemma AnsweredGrows(answers: seq<Answer>, last: Answer, id: nat)
    ensures Answered(answers + [last], id) <==> Answered(answers, id) || id == last.read
  {
    assert (answers + [last])[|answers|] == last;
    if i :| 0 <= i < |answers| && answers[i].read == id {
      assert (answers + [last])[i].read == id;
    }
  }

  // ----- Runs ---------------------------------------------------------------------------------------------

  ghost predicate Runs(f: Flat, evs: seq<Event>)
    requires Inv(f)
    decreases |evs|
  {
    evs == [] || (Enabled(f, evs[0]) && (StepKeepsInv(f, evs[0]); Runs(Step(f, evs[0]), evs[1..])))
  }

  ghost function Exec(f: Flat, evs: seq<Event>): (r: Flat)
    requires Inv(f) && Runs(f, evs)
    ensures Inv(r)
    decreases |evs|
  {
    if evs == [] then f else StepKeepsInv(f, evs[0]); Exec(Step(f, evs[0]), evs[1..])
  }

  /** Everything appended in the course of the run. */
  function Appended(evs: seq<Event>): seq<Byte> {
    if evs == [] then [] else (if evs[0].DoAppend? then evs[0].bytes else []) + Appended(evs[1..])
  }

  function Fresh(): (f: Flat)
    ensures Inv(f)
  {
    Flat([], 0, false, false, false, 0, [], Book(0, {}, []))
  }

  lemma {:induction false} DataIsAppended(f: Flat, evs: seq<Event>)
    requires Inv(f) && Runs(f, evs)
    ensures Exec(f, evs).data == f.data + Appended(evs)
    decreases |evs|
  {
    assert f.pos <= |f.data|;
    hide Inv, Step, Enabled;
    if evs == [] {
      assert f.data + [] == f.data;
    } else {
      StepKeepsInv(f, evs[0]);
      var g := Step(f, evs[0]);
      DataIsAppended(g, evs[1..]);
      Assoc(f.data, if evs[0].DoAppend? then evs[0].bytes else [], Appended(evs[1..]));
    }
  }

  /** In every run the bytes delivered since the last reset are a prefix of everything appended,
      and the final flag is up only when the end was appended and all of it delivered. */
  lemma DeliveredIsPrefix(evs: seq<Event>)
    requires Runs(Fresh(), evs)
    ensures var f := Exec(Fresh(), evs);
            && f.delivered <= Appended(evs)
            && (f.eof ==> f.done && f.delivered == Appended(evs))
  {
    var f := Exec(Fresh(), evs);
    DataIsAppended(Fresh(), evs);
    assert f.data == Appended(evs);
    assert f.eof ==> f.data[..f.pos] == f.data;
  }

  /** An append always answers the read that is waiting: its callback runs with the number of
      bytes copied, which is never negative and never the code for pending, and is zero only at
      the end of the stream. */
  lemma AppendAnswers(f: Flat, bytes: seq<Byte>, isDone: bool)
    requires Inv(f) && Enabled(f, DoAppend(bytes, isDone)) && f.waiting > 0
    ensures var g, n := Append(f, bytes, isDone), Min(f.waiting, |bytes|);
            && g.waiting == 0 && n >= 0
            && g.book.answers == f.book.answers + [Answer(f.book.asked - 1, n, bytes[..n])]
            && g.delivered == f.delivered + bytes[..n]
            && (n == 0 ==> g.eof) && (g.eof <==> isDone && |bytes| <= f.waiting)
  {
    hide BookKept;
    var n := Min(f.waiting, |bytes|);
    assert f.book.asked > 0 by { AskedWhenWaiting(f.book); }
    assert (f.data + bytes)[f.pos..f.pos + n] == bytes[..n];
  }

  lemma AskedWhenWaiting(b: Book)
    requires BookKept(b, true)
    ensures b.asked > 0
  {
  }

  /** In every run each read that was left waiting is answered exactly once, with the number of
      bytes put into its buffer, unless a reset cancels it; only the last one can still be
      waiting. */
  lemma WaitersAnsweredOnce(evs: seq<Event>, id: nat)
    requires Runs(Fresh(), evs) && id < Exec(Fresh(), evs).book.asked
    ensures var f := Exec(Fresh(), evs);
            var open := f.waiting > 0 && id == f.book.asked - 1;
            && (Answered(f.book.answers, id) <==> !open && id !in f.book.dropped)
            && (forall i, j :: 0 <= i < j < |f.book.answers| ==> f.book.answers[i].read != f.book.answers[j].read)
            && (forall i :: 0 <= i < |f.book.answers| ==> f.book.answers[i].result == |f.book.answers[i].bytes|)
  {
    var f := Exec(Fresh(), evs);
    assert BookKept(f.book, f.waiting > 0);
  }

  /** A read on a stream that is not at its end gets as many bytes as there are, at most len. If
      there are none it waits, unless the end was appended; the final flag goes up when all has
      been read and the end was appended. At the end it gets 0 and changes nothing. */
  lemma ReadAnswers(f: Flat, len: nat)
    requires Inv(f) && Enabled(f, DoRead(len))
    ensures var g, n, v := Read(f, len), Min(len, |f.data| - f.pos), ReadResult(f, len);
            if f.eof then v == 0 && g == f
            else if n == 0 && !f.done then
              && v == -1 && g.waiting == len && g.pos == f.pos && g.delivered == f.delivered && !g.eof
              && g.book == Book(f.book.asked + 1, f.book.dropped, f.book.answers)
            else
              && v == n && g.waiting == 0 && g.delivered == f.delivered + f.data[f.pos..f.pos + n] && g.book == f.book
              && (g.eof <==> f.done && n == |f.data| - f.pos)
  {
    hide BookKept;
  }

  /** Without a waiting read an append only stores the bytes and the end mark. */
  lemma AppendStores(f: Flat, bytes: seq<Byte>, isDone: bool)
    requires Inv(f) && Enabled(f, DoAppend(bytes, isDone))
    ensures var g := Append(f, bytes, isDone);
            && g.data == f.data + bytes && g.done == isDone
            && (f.waiting == 0 ==> g.delivered == f.delivered && g.book == f.book && g.eof == f.eof && g.waiting == 0)
  {
    hide BookKept;
  }

  /** A reset rewinds to the first byte and cancels the read that is waiting, without running its
      callback; everything appended stays. */
  lemma ResetRewinds(f: Flat, initialise: bool)
    requires Inv(f)
    ensures var g := if initialise then Init(f) else Reset(f);
            && g.data == f.data && g.done == f.done && g.ready == initialise
            && g.pos == 0 && g.delivered == [] && !g.eof && g.waiting == 0
            && g.book == Book(f.book.asked, f.book.dropped + (if f.waiting > 0 then {f.book.asked - 1} else {}), f.book.answers)
  {
    hide BookKept;
    assert f.waiting > 0 ==> f.book.asked > 0 by { if f.waiting > 0 { AskedWhenWaiting(f.book); } }
    assert f.book.dropped + {} == f.book.dropped;
  }

  /** The end was appended in the course of the run. */
  ghost predicate Ended(evs: seq<Event>) {
    exists i :: 0 <= i < |evs| && evs[i].DoAppend? && evs[i].isDone
  }

  /** The last reset or initialisation of the run was an initialisation. */
  function ReadyAfter(evs: seq<Event>): bool {
    if evs == [] then false
    else
      var last := evs[|evs| - 1];
      last.DoInit? || (!last.DoReset? && ReadyAfter(evs[..|evs| - 1]))
  }

  lemma {:induction false} EndIsRemembered(f: Flat, evs: seq<Event>)
    requires Inv(f) && Runs(f, evs)
    ensures Exec(f, evs).done <==> f.done || Ended(evs)
    decreases |evs|
  {
    assert f.pos <= |f.data|;
    if evs != [] {
      StepKeepsInv(f, evs[0]);
      StepMarks(f, evs[0]);
      EndedCons(evs);
      hide Inv, Step, Enabled, Ended;
      EndIsRemembered(Step(f, evs[0]), evs[1..]);
    }
  }

  lemma StepMarks(f: Flat, e: Event)
    requires Inv(f) && Enabled(f, e)
    ensures Step(f, e).done <==> f.done || (e.DoAppend? && e.isDone)
    ensures Step(f, e).ready <==> e.DoInit? || (!e.DoReset? && f.ready)
  {
    hide BookKept;
  }

  lemma EndedCons(evs: seq<Event>)
    requires evs != []
    ensures Ended(evs) <==> (evs[0].DoAppend? && evs[0].isDone) || Ended(evs[1..])
  {
    if i :| 0 <= i < |evs| && evs[i].DoAppend? && evs[i].isDone {
      assert i > 0 ==> evs[1..][i - 1] == evs[i];
    }
    if i :| 0 <= i < |evs[1..]| && evs[1..][i].DoAppend? && evs[1..][i].isDone {
      assert evs[i + 1] == evs[1..][i];
    }
  }

  /** Cutting a run in two. */
  lemma {:induction false} RunSplit(f: Flat, a: seq<Event>, b: seq<Event>)
    requires Inv(f) && Runs(f, a)
    ensures Runs(f, a + b) <==> Runs(Exec(f, a), b)
    ensures Runs(f, a + b) ==> Exec(f, a + b) == Exec(Exec(f, a), b)
    decreases |a|
  {
    assert f.pos <= |f.data|;
    hide Inv, Step, Enabled;
    if a == [] {
      assert a + b == b;
    } else {
      assert (a + b)[0] == a[0] && (a + b)[1..] == a[1..] + b;
      StepKeepsInv(f, a[0]);
      RunSplit(Step(f, a[0]), a[1..], b);
    }
  }

  lemma {:induction false} RunPrefix(f: Flat, evs: seq<Event>, n: nat)
    requires Inv(f) && Runs(f, evs) && n <= |evs|
    ensures Runs(f, evs[..n])
    decreases |evs|
  {
    assert f.pos <= |f.data|;
    hide Inv, Step, Enabled;
    if n > 0 {
      StepKeepsInv(f, evs[0]);
      RunPrefix(Step(f, evs[0]), evs[1..], n - 1);
      assert evs[..n][1..] == evs[1..][..n - 1];
    }
  }

  /** In every run: the stream knows the end exactly if it was appended, and may be read exactly
      if the last of its resets and initialisations was an initialisation. */
  lemma {:induction false} MarksOfARun(evs: seq<Event>)
    requires Runs(Fresh(), evs)
    ensures Exec(Fresh(), evs).done <==> Ended(evs)
    ensures Exec(Fresh(), evs).ready <==> ReadyAfter(evs)
  {
    EndIsRemembered(Fresh(), evs);
    if evs != [] {
      var n := |evs| - 1;
      var a, last := evs[..n], evs[n..];
      assert evs == a + last && last == [evs[n]] && last[1..] == [];
      RunPrefix(Fresh(), evs, n);
      RunSplit(Fresh(), a, last);
      MarksOfARun(a);
      var f := Exec(Fresh(), a);
      StepKeepsInv(f, last[0]);
      StepMarks(f, last[0]);
      hide Inv, Step, Enabled, Ended;
    }
  }

  // ----- Reading to the end --------------------------------------------------------------------------------

  ghost predicate OnlyReads(evs: seq<Event>) {
    forall i :: 0 <= i < |evs| ==> evs[i].DoRead? && evs[i].len > 0
  }

  /** The bytes that the reads of a run ask for. */
  function Wanted(evs: seq<Event>): nat {
    if evs == [] then 0 else (if evs[0].DoRead? then evs[0].len else 0) + Wanted(evs[1..])
  }

  /** Once the end was appended, reads can go on for as long as the caller likes. They get what
      they ask for as far as it goes, and the final flag goes up with the read that asks for the
      last of it. */
  lemma {:induction false} ReadsReachTheEnd(f: Flat, more: seq<Event>)
    requires Inv(f) && f.done && f.ready && OnlyReads(more)
    ensures Runs(f, more)
    ensures var g := Exec(f, more);
            && g.data == f.data && g.pos == Min(|f.data|, f.pos + Wanted(more))
            && (g.eof <==> f.eof || (more != [] && Wanted(more) >= |f.data| - f.pos))
    decreases |more|
  {
    if more != [] {
      var e := more[0];
      StepKeepsInv(f, e);
      OneRead(f, e.len);
      hide Inv, Step, Enabled;
      ReadsReachTheEnd(Step(f, e), more[1..]);
    }
  }

  lemma OneRead(f: Flat, len: nat)
    requires Inv(f) && f.done && f.ready && len > 0
    ensures Enabled(f, DoRead(len)) && f.pos <= |f.data|
    ensures var g := Step(f, DoRead(len));
            && g.done && g.ready && g.data == f.data && g.pos == Min(|f.data|, f.pos + len)
            && (g.eof <==> f.eof || len >= |f.data| - f.pos)
  {
    hide BookKept;
  }

  /** The upload comes to its end: after any run that appended the end and left the stream
      initialised, reads that ask for as many bytes as were appended, and for one at least, raise
      the final flag and have delivered everything. */
  lemma UploadEnds(evs: seq<Event>, more: seq<Event>)
    requires Runs(Fresh(), evs) && Ended(evs) && ReadyAfter(evs)
    requires OnlyReads(more) && more != [] && Wanted(more) >= |Appended(evs)|
    ensures Runs(Fresh(), evs + more)
    ensures var f := Exec(Fresh(), evs + more); f.eof && f.delivered == Appended(evs)
  {
    var f := Exec(Fresh(), evs);
    MarksOfARun(evs);
    DataIsAppended(Fresh(), evs);
    assert f.data == Appended(evs);
    ReadsReachTheEnd(f, more);
    RunSplit(Fresh(), evs, more);
    var g := Exec(f, more);
    assert g.data[..g.pos] == g.data;
  }
}
