/** The stream object itself: a list of chunks with an index and an offset into them, proved
    to behave like the flat stream of ChunkedUploads. */
module ChunkedUploadStreams {
  import opened Basics
  import opened ChunkedUploads

  function Flatten(chunks: seq<seq<Byte>>): seq<Byte> {
    if chunks == [] then [] else Flatten(chunks[..|chunks| - 1]) + chunks[|chunks| - 1]
  }

  /** The position in the flat data that chunk i, offset o stands for. */
  function PosAt(chunks: seq<seq<Byte>>, i: nat, o: nat): nat
    requires i <= |chunks|
  {
    |Flatten(chunks[..i])| + o
  }

  /** The cursor points at the next byte, or past the end. */
  ghost predicate Cursor(chunks: seq<seq<Byte>>, i: nat, o: nat) {
    && (forall k :: 0 <= k < |chunks| ==> chunks[k] != [])
    && i <= |chunks| && if i < |chunks| then o < |chunks[i]| else o == 0
  }

  predicate StartsWith(all: seq<Byte>, a: seq<Byte>, b: seq<Byte>) { a + b <= all }

  lemma {:induction false} FlattenPrefix(chunks: seq<seq<Byte>>, i: nat)
    requires i <= |chunks|
    ensures Flatten(chunks[..i]) <= Flatten(chunks)
    ensures i < |chunks| ==> StartsWith(Flatten(chunks), Flatten(chunks[..i]), chunks[i])
    decreases |chunks| - i
  {
    if i == |chunks| {
      assert chunks[..i] == chunks;
    } else {
      FlattenPrefix(chunks, i + 1);
      FlattenNext(chunks, i);
    }
  }

  lemma FlattenNext(chunks: seq<seq<Byte>>, i: nat)
    requires i < |chunks|
    ensures Flatten(chunks[..i + 1]) == Flatten(chunks[..i]) + chunks[i]
  {
    assert chunks[..i + 1][..i] == chunks[..i];
  }

  /** Appending a chunk moves neither the cursor nor the position. */
  lemma FlattenAppend(chunks: seq<seq<Byte>>, c: seq<Byte>, i: nat, o: nat)
    requires i <= |chunks|
    ensures Flatten(chunks + [c]) == Flatten(chunks) + c
    ensures PosAt(chunks + [c], i, o) == PosAt(chunks, i, o)
  {
    assert (chunks + [c])[..|chunks|] == chunks;
    assert (chunks + [c])[..i] == chunks[..i];
  }

  lemma PosInData(chunks: seq<seq<Byte>>, i: nat, o: nat)
    requires Cursor(chunks, i, o)
    ensures PosAt(chunks, i, o) <= |Flatten(chunks)|
    ensures PosAt(chunks, i, o) == |Flatten(chunks)| <==> i == |chunks|
  {
    FlattenPrefix(chunks, i);
    if i == |chunks| { assert chunks[..i] == chunks; }
  }

  lemma NextChunk(chunks: seq<seq<Byte>>, i: nat, o: nat)
    requires Cursor(chunks, i, o) && i < |chunks|
    ensures Cursor(chunks, i + 1, 0) && PosAt(chunks, i + 1, 0) == PosAt(chunks, i, o) + (|chunks[i]| - o)
  {
    FlattenNext(chunks, i);
    hide Flatten;
  }

  /** Taking n bytes of the current chunk takes the next n bytes of the flat data. */
  lemma TakeFromChunk(chunks: seq<seq<Byte>>, i: nat, o: nat, n: nat)
    requires Cursor(chunks, i, o) && i < |chunks| && o + n <= |chunks[i]|
    ensures var p := PosAt(chunks, i, o);
            p + n <= |Flatten(chunks)| && chunks[i][o..o + n] == Slice(Flatten(chunks), p, n)
    ensures o + n == |chunks[i]| ==>
              Cursor(chunks, i + 1, 0) && PosAt(chunks, i + 1, 0) == PosAt(chunks, i, o) + n
  {
    hide Flatten, StartsWith, Slice;
    FlattenPrefix(chunks, i);
    if o + n == |chunks[i]| { NextChunk(chunks, i, o); }
    hide Cursor;
    SliceOfMiddle(Flatten(chunks[..i]), chunks[i], Flatten(chunks), o, n);
  }

  lemma SliceOfMiddle(a: seq<Byte>, b: seq<Byte>, all: seq<Byte>, o: nat, n: nat)
    requires StartsWith(all, a, b) && o + n <= |b|
    ensures |a| + o + n <= |all| && b[o..o + n] == Slice(all, |a| + o, n)
  {
    forall j | o <= j < o + n
      ensures b[j] == all[|a| + j]
    {
      assert (a + b)[|a| + j] == b[j];
    }
  }

  /** What readers and callbacks got so far. */
  datatype History = History(delivered: seq<Byte>, dropped: set<nat>, answers: seq<Answer>)

  /** The base class; the stored callback goes by the number of the read it belongs to, and
      waiters counts the reads that were left waiting. */
  datatype UploadState = UploadState(currentPosition: nat, initializedSuccessfully: bool, isEof: bool,
                                     callback: Option<nat>, waiters: nat)

  class ChunkedUploadDataStream {
    // ChunkedUploadDataStream
    var uploadData: seq<seq<Byte>>
    var readIndex: nat
    var readOffset: nat
    var allDataAppended: bool
    var readBuffer: array?<Byte>
    var readBufferLen: nat
    // The fields of UploadDataStream.
    var base: UploadState
    ghost var told: History

    ghost function View(): Flat
      reads this
      requires readIndex <= |uploadData|
    {
      Flat(Flatten(uploadData), PosAt(uploadData, readIndex, readOffset), allDataAppended, base.isEof,
           base.initializedSuccessfully, if readBuffer == null then 0 else readBufferLen, told.delivered,
           Book(base.waiters, told.dropped, told.answers))
    }

    ghost predicate Valid()
      reads this
    {
      && Cursor(uploadData, readIndex, readOffset) && Inv(View())
      && (readBuffer != null ==> 0 < readBufferLen <= readBuffer.Length)
      && base.currentPosition == |told.delivered|
      && base.callback == if readBuffer == null then None else Some(base.waiters - 1)
    }

    constructor ()
      ensures Valid() && View() == Fresh() && readBuffer == null
    {
      uploadData, readIndex, readOffset, allDataAppended := [], 0, 0, false;
      readBuffer, readBufferLen := null, 0;
      base := UploadState(0, false, false, None, 0);
      told := History([], {}, []);
    }

    /** memcpy. */
    static method CopyBytes(buf: array<Byte>, at: nat, data: seq<Byte>)
      requires at + |data| <= buf.Length
      modifies buf
      ensures buf[at..at + |data|] == data && buf[..at] == old(buf[..at])
    {
      forall k | 0 <= k < |data| {
        buf[at + k] := data[k];
      }
    }

    /** One turn of the copying loop: up to `want` bytes out of the current chunk. */
    method CopyFromChunk(buf: array<Byte>, at: nat, want: nat) returns (n: nat)
      requires Cursor(uploadData, readIndex, readOffset) && readIndex < |uploadData|
      requires 0 < want && at + want <= buf.Length
      modifies this`readIndex, this`readOffset, buf
      ensures Cursor(uploadData, readIndex, readOffset) && 0 < n <= want
      ensures var p := PosAt(uploadData, old(readIndex), old(readOffset));
              && PosAt(uploadData, readIndex, readOffset) == p + n <= |Flatten(uploadData)|
              && buf[at..at + n] == Slice(Flatten(uploadData), p, n)
      ensures buf[..at] == old(buf[..at])
    {
      var data := uploadData[readIndex];
      n := Min(want, |data| - readOffset);
      TakeFromChunk(uploadData, readIndex, readOffset, n);
      hide Flatten;
      CopyBytes(buf, at, data[readOffset..readOffset + n]);
      readOffset := readOffset + n;
      if readOffset == |data| {
        readIndex := readIndex + 1;
        readOffset := 0;
      }
    }

    /** `ReadChunk`: copies as much as fits, or reports that nothing is there yet. */
    method ReadChunk(buf: array<Byte>, bufLen: nat) returns (result: int, ghost avail: nat)
      requires Cursor(uploadData, readIndex, readOffset) && !base.isEof && 0 < bufLen <= buf.Length
      requires PosAt(uploadData, readIndex, readOffset) <= |Flatten(uploadData)|
      modifies this`readIndex, this`readOffset, this`base, buf
      ensures readIndex <= |uploadData| && Cursor(uploadData, readIndex, readOffset)
      ensures var p := PosAt(uploadData, old(readIndex), old(readOffset));
              && avail == Min(bufLen, |Flatten(uploadData)| - p)
              && PosAt(uploadData, readIndex, readOffset) == p + avail
              && buf[..avail] == Slice(Flatten(uploadData), p, avail)
              && base == old(base).(isEof := allDataAppended && p + avail == |Flatten(uploadData)|)
      ensures result == if avail == 0 && !allDataAppended then ERR_IO_PENDING else avail
    {
      hide Flatten, PosAt, Slice;
      var bytesRead := 0;
      ghost var p := PosAt(uploadData, readIndex, readOffset);
      while readIndex < |uploadData| && bytesRead < bufLen
        invariant base == old(base) && 0 <= bytesRead <= bufLen && Cursor(uploadData, readIndex, readOffset)
        invariant PosAt(uploadData, readIndex, readOffset) == p + bytesRead <= |Flatten(uploadData)|
        invariant buf[..bytesRead] == Slice(Flatten(uploadData), p, bytesRead)
        decreases bufLen - bytesRead
      {
        var n := CopyFromChunk(buf, bytesRead, bufLen - bytesRead);
        JoinSlices(buf[..], Flatten(uploadData), p, bytesRead, n);
        bytesRead := bytesRead + n;
      }
      PosInData(uploadData, readIndex, readOffset);
      avail := bytesRead;
      if bytesRead == 0 && !allDataAppended {
        return ERR_IO_PENDING, avail;
      }
      if readIndex == |uploadData| && allDataAppended {
        // SetIsFinalChunk
        base := base.(isEof := true);
      }
      result := bytesRead;
    }

    /** `UploadDataStream::OnReadCompleted`: runs the callback, if one is stored, and forgets it. */
    method OnReadCompleted(result: nat, ghost bytes: seq<Byte>)
      requires base.initializedSuccessfully && (result != 0 || base.isEof) && |bytes| == result
      requires readIndex <= |uploadData|
      modifies this`base, this`told
      ensures var f := old(View());
              View() == f.(delivered := f.delivered + bytes, book := f.book.(answers := told.answers))
      ensures base == old(base).(currentPosition := old(base).currentPosition + result, callback := None)
      ensures told == old(told).(delivered := old(told).delivered + bytes,
                                 answers := if old(base).callback.None? then old(told).answers
                                            else old(told).answers + [Answer(old(base).callback.value, result, bytes)])
    {
      if result > 0 {
        base := base.(currentPosition := base.currentPosition + result);
      }
      told := told.(delivered := told.delivered + bytes);
      if base.callback.Some? {
        told := told.(answers := told.answers + [Answer(base.callback.value, result, bytes)]);
        base := base.(callback := None);
      }
    }

    /** `ReadInternal`. */
    method ReadInternal(buf: array<Byte>, bufLen: nat) returns (result: int)
      requires Cursor(uploadData, readIndex, readOffset) && !base.isEof && 0 < bufLen <= buf.Length && readBuffer == null
      requires readIndex <= |uploadData| && View().pos <= |View().data|
      modifies this`readIndex, this`readOffset, this`base, this`readBuffer, this`readBufferLen, buf
      ensures readIndex <= |uploadData| && Cursor(uploadData, readIndex, readOffset)
      ensures var f := old(View());
              var n := Min(bufLen, |f.data| - f.pos);
              var eof := f.done && f.pos + n == |f.data|;
              && View() == f.(pos := f.pos + n, eof := eof, waiting := if n == 0 && !f.done then bufLen else 0)
              && base == old(base).(isEof := eof) && buf[..n] == Slice(f.data, f.pos, n)
              && if n == 0 && !f.done then
                   result == ERR_IO_PENDING && readBuffer == buf && readBufferLen == bufLen
                 else result == n && readBuffer == null
    {
      assert readIndex <= |uploadData|;
      hide Flatten, PosAt, Slice;
      ghost var n;
      result, n := ReadChunk(buf, bufLen);
      if result == ERR_IO_PENDING {
        readBuffer := buf;
        readBufferLen := bufLen;
      }
    }

    /** `UploadDataStream::Read`. */
    method Read(buf: array<Byte>, bufLen: nat) returns (result: int)
      requires Valid() && base.initializedSuccessfully && 0 < bufLen <= buf.Length && readBuffer == null
      modifies this`readIndex, this`readOffset, this`base, this`readBuffer, this`readBufferLen, this`told, buf
      ensures Valid() && View() == ChunkedUploads.Read(old(View()), bufLen)
      ensures result == ReadResult(old(View()), bufLen)
      ensures result >= 0 ==> told == old(told).(delivered := old(told).delivered + buf[..result])
      ensures result == ERR_IO_PENDING ==> base.callback == Some(old(base).waiters)
      ensures readBuffer == null || readBuffer == buf
    {
      assert readIndex <= |uploadData| && View().pos <= |View().data|;
      ReadServes(View(), bufLen);
      if base.isEof {
        hide Flatten, PosAt, Cursor, Slice, Inv, ChunkedUploads.Read, ReadResult;
        OnReadCompleted(0, []);
        assert told.delivered + buf[..0] == told.delivered && old(told).delivered + [] == old(told).delivered;
        result := 0;
      } else {
        hide Flatten, PosAt, Cursor, Slice, Inv, ChunkedUploads.Read, ReadResult;
        result := ReadOn(buf, bufLen);
      }
    }

    method ReadOn(buf: array<Byte>, bufLen: nat) returns (result: int)
      requires Valid() && base.initializedSuccessfully && 0 < bufLen <= buf.Length && readBuffer == null && !base.isEof
      modifies this`readIndex, this`readOffset, this`base, this`readBuffer, this`readBufferLen, this`told, buf
      ensures Valid() && View() == ChunkedUploads.Read(old(View()), bufLen)
      ensures result == ReadResult(old(View()), bufLen)
      ensures result >= 0 ==> told == old(told).(delivered := old(told).delivered + buf[..result])
      ensures result == ERR_IO_PENDING ==> base.callback == Some(old(base).waiters)
      ensures readBuffer == null || readBuffer == buf
    {
      ghost var f := View();
      StepKeepsInv(f, DoRead(bufLen));
      assert readIndex <= |uploadData| && f.pos <= |f.data| && f.waiting == 0 && f.ready;
      ReadServes(f, bufLen);
      hide View, Flatten, PosAt, Cursor, Slice, Inv, ChunkedUploads.Read, ReadResult, Enabled;
      result := ReadInternal(buf, bufLen);
      if result == ERR_IO_PENDING {
        StoreCallback();
        assert View() == ChunkedUploads.Read(f, bufLen);
      } else {
        OnReadCompleted(result, buf[..result]);
        assert View() == ChunkedUploads.Read(f, bufLen);
      }
    }

    method StoreCallback()
      requires readIndex <= |uploadData|
      modifies this`base
      ensures var f := old(View()); View() == f.(book := f.book.(asked := f.book.asked + 1))
      ensures base == old(base).(callback := Some(old(base).waiters), waiters := old(base).waiters + 1)
    {
      base := base.(callback := Some(base.waiters), waiters := base.waiters + 1);
    }

    /** `AppendData`: the callback of a waiting read runs once, with the number of bytes that are
        now in its buffer; without a waiting read none runs. */
    method AppendData(data: seq<Byte>, isDone: bool)
      requires Valid() && !allDataAppended && (data != [] || isDone)
      modifies this`uploadData, this`allDataAppended, this`readIndex, this`readOffset, this`base,
               this`readBuffer, this`readBufferLen, this`told, if readBuffer == null then {} else {readBuffer}
      ensures Valid() && View() == Append(old(View()), data, isDone)
      ensures allDataAppended == isDone && Flatten(uploadData) == Flatten(old(uploadData)) + data
      ensures if old(readBuffer) == null then told == old(told) && readBuffer == null
              else var n := Min(old(readBufferLen), |data|);
                && old(readBuffer)[..n] == data[..n]
                && told.answers == old(told).answers + [Answer(old(base).waiters - 1, n, data[..n])]
    {
      StepKeepsInv(View(), DoAppend(data, isDone));
      AppendStores(View(), data, isDone);
      assert readIndex <= |uploadData|;
      if readBuffer == null {
        assert Append(View(), data, isDone) == View().(data := View().data + data, done := isDone);
        hide Flatten, PosAt, Slice, Inv, Append;
        PushChunk(data, isDone);
      } else {
        AppendServes(View(), data, isDone);
        hide Flatten, PosAt, Slice, Inv, Append, Cursor;
        AppendToWaiting(data, isDone);
      }
    }

    method AppendToWaiting(data: seq<Byte>, isDone: bool)
      requires Valid() && !allDataAppended && (data != [] || isDone) && readBuffer != null
      modifies this`uploadData, this`allDataAppended, this`readIndex, this`readOffset, this`base,
               this`readBuffer, this`readBufferLen, this`told, readBuffer
      ensures Valid() && View() == Append(old(View()), data, isDone)
      ensures var n := Min(old(readBufferLen), |data|); old(readBuffer)[..n] == data[..n]
    {
      ghost var f := View();
      StepKeepsInv(f, DoAppend(data, isDone));
      AppendServes(f, data, isDone);
      hide Flatten, PosAt, Slice, Inv, Append;
      PushChunk(data, isDone);
      hide Cursor;
      CompleteRead(f.pos, data);
    }

    /** The second half: the waiting read is served. */
    method CompleteRead(ghost p: nat, ghost data: seq<Byte>)
      requires readBuffer != null && 0 < readBufferLen <= readBuffer.Length && base.initializedSuccessfully && !base.isEof
      requires Cursor(uploadData, readIndex, readOffset) && PosAt(uploadData, readIndex, readOffset) == p
      requires p + |data| == |Flatten(uploadData)| && (data != [] || allDataAppended) && base.callback.Some?
      modifies this`readIndex, this`readOffset, this`base, this`readBuffer, this`readBufferLen, this`told, readBuffer
      ensures var n, all := Min(old(readBufferLen), |data|), Flatten(uploadData);
              && Cursor(uploadData, readIndex, readOffset) && PosAt(uploadData, readIndex, readOffset) == p + n
              && old(readBuffer)[..n] == Slice(all, p, n)
              && base == old(base).(isEof := allDataAppended && n == |data|, callback := None,
                                    currentPosition := old(base).currentPosition + n)
              && told == old(told).(delivered := old(told).delivered + Slice(all, p, n),
                                    answers := old(told).answers + [Answer(old(base).callback.value, n, Slice(all, p, n))])
      ensures readBuffer == null
    {
      hide Flatten, PosAt, Cursor, Slice;
      var result, avail := ReadChunk(readBuffer, readBufferLen);
      ghost var bytes := readBuffer[..result];
      readBuffer := null;
      readBufferLen := 0;
      OnReadCompleted(result, bytes);
    }

    /** The first half of `AppendData`. */
    method PushChunk(data: seq<Byte>, isDone: bool)
      requires Valid()
      modifies this`uploadData, this`allDataAppended
      ensures Cursor(uploadData, readIndex, readOffset)
      ensures View() == old(View()).(data := old(View()).data + data, done := isDone)
    {
      FlattenAppend(uploadData, data, readIndex, readOffset);
      PosInData(uploadData, readIndex, readOffset);
      if data != [] {
        uploadData := uploadData + [data];
      } else {
        assert Flatten(uploadData) + data == Flatten(uploadData);
      }
      allDataAppended := isDone;
    }

    /** `UploadDataStream::Reset`: a waiting read is cancelled, the chunks stay. */
    method Reset()
      requires Valid()
      modifies this`readIndex, this`readOffset, this`base, this`readBuffer, this`readBufferLen, this`told
      ensures Valid() && View() == ChunkedUploads.Reset(old(View()))
    {
      StepKeepsInv(View(), DoReset);
      assert readBuffer != null ==> View().waiting > 0 && base.waiters > 0;
      hide Inv, Flatten;
      told := told.(delivered := [], dropped := if base.callback.Some? then told.dropped + {base.callback.value} else told.dropped);
      base := UploadState(0, false, false, None, base.waiters);
      ResetInternal();
    }

    method ResetInternal()
      requires Cursor(uploadData, readIndex, readOffset)
      modifies this`readBuffer, this`readBufferLen, this`readIndex, this`readOffset
      ensures readBuffer == null && readIndex == 0 && readOffset == 0
      ensures Cursor(uploadData, readIndex, readOffset) && PosAt(uploadData, readIndex, readOffset) == 0
    {
      readBuffer := null;
      readBufferLen := 0;
      readIndex := 0;
      readOffset := 0;
      assert uploadData[..0] == [];
    }

    /** `UploadDataStream::Init`: `InitInternal` always succeeds. */
    method Init()
      requires Valid()
      modifies this`readIndex, this`readOffset, this`base, this`readBuffer, this`readBufferLen, this`told
      ensures Valid() && View() == ChunkedUploads.Init(old(View()))
    {
      StepKeepsInv(View(), DoInit);
      Reset();
      hide Inv, Flatten, Cursor, PosAt;
      base := base.(initializedSuccessfully := true);
    }
  }

  lemma JoinSlices(buf: seq<Byte>, data: seq<Byte>, p: nat, k: nat, n: nat)
    requires k + n <= |buf| && p + k + n <= |data|
    requires buf[..k] == Slice(data, p, k) && buf[k..k + n] == Slice(data, p + k, n)
    ensures buf[..k + n] == Slice(data, p, k + n)
  {
    assert buf[..k + n] == buf[..k] + buf[k..k + n];
    assert data[p..p + k + n] == data[p..p + k] + data[p + k..p + k + n];
  }

  /** The three outcomes of a read. */
  lemma ReadServes(f: Flat, len: nat)
    requires f.pos <= |f.data| && f.waiting == 0
    ensures var n := Min(len, |f.data| - f.pos);
            if f.eof then ChunkedUploads.Read(f, len) == f && ReadResult(f, len) == 0
            else if n == 0 && !f.done then
              && ChunkedUploads.Read(f, len) == f.(waiting := len, book := f.book.(asked := f.book.asked + 1))
              && ReadResult(f, len) == ERR_IO_PENDING
            else
              && ChunkedUploads.Read(f, len)
                 == f.(pos := f.pos + n, delivered := f.delivered + Slice(f.data, f.pos, n),
                       eof := f.done && f.pos + n == |f.data|)
              && ReadResult(f, len) == n
  {
  }

  /** An append that finds a read waiting hands it the first of the new bytes. */
  lemma AppendServes(f: Flat, data: seq<Byte>, isDone: bool)
    requires Inv(f) && f.waiting > 0 && (data != [] || isDone)
    ensures f.pos == |f.data| && f.ready && !f.eof && f.book.asked > 0
    ensures var n := Min(f.waiting, |data|);
            && Slice(f.data + data, f.pos, n) == data[..n]
            && Append(f, data, isDone) == Flat(f.data + data, f.pos + n, isDone, f.eof || (isDone && n == |data|),
                                               f.ready, 0, f.delivered + data[..n],
                                               f.book.(answers := f.book.answers + [Answer(f.book.asked - 1, n, data[..n])]))
  {
    assert f.pos == |f.data| && f.ready && !f.eof && f.book.asked > 0;
    hide Inv;
    assert Slice(f.data + data, f.pos, Min(f.waiting, |data|)) == data[..Min(f.waiting, |data|)];
  }

  // ----- Any run ------------------------------------------------------------------------------------------

  /** Any call; every read brings a buffer of its own. */
  method Dispatch(s: ChunkedUploadDataStream, e: Event)
    requires s.Valid() && Enabled(s.View(), e)
    modifies s, if s.readBuffer == null then {} else {s.readBuffer}
    ensures s.Valid() && s.View() == Step(old(s.View()), e)
    ensures s.readBuffer == null || s.readBuffer == old(s.readBuffer) || fresh(s.readBuffer)
  {
    match e
    case DoAppend(bytes, isDone) =>
      hide Inv, Append;
      s.AppendData(bytes, isDone);
    case DoRead(len) =>
      assert s.readBuffer == null;
      hide Inv, ChunkedUploads.Read;
      var buf := new Byte[len];
      var _ := s.Read(buf, len);
    case DoReset =>
      hide Inv;
      s.Reset();
    case DoInit =>
      hide Inv;
      s.Init();
  }

  /** A stream taken through any run of calls is in the state the flat stream reaches. So what
      its readers got is a prefix of what was appended, all of it once the final flag is up; the
      end is known exactly if it was appended; and every read left waiting but not cancelled nor
      still waiting has had its callback, once. */
  method Drive(evs: seq<Event>) returns (s: ChunkedUploadDataStream)
    requires Runs(Fresh(), evs)
    ensures fresh(s) && s.Valid() && s.View() == Exec(Fresh(), evs)
    ensures s.told.delivered <= Appended(evs) && (s.base.isEof ==> s.told.delivered == Appended(evs))
    ensures (s.allDataAppended <==> Ended(evs)) && (s.base.initializedSuccessfully <==> ReadyAfter(evs))
    ensures forall id: nat :: id < s.base.waiters ==>
              (Answered(s.told.answers, id) <==> s.base.callback != Some(id) && id !in s.told.dropped)
  {
    s := new ChunkedUploadDataStream();
    hide Inv, Step, Enabled, Flatten, PosAt, ChunkedUploadDataStream.View;
    var i := 0;
    assert evs[0..] == evs;
    while i < |evs|
      invariant 0 <= i <= |evs| && fresh(s) && s.Valid() && (s.readBuffer == null || fresh(s.readBuffer))
      invariant Inv(s.View()) && Runs(s.View(), evs[i..]) && Exec(s.View(), evs[i..]) == Exec(Fresh(), evs)
    {
      assert evs[i..][0] == evs[i] && evs[i..][1..] == evs[i + 1..];
      Dispatch(s, evs[i]);
      i := i + 1;
    }
    assert evs[i..] == [];
    DrivenLaws(s, evs);
  }

  lemma DrivenLaws(s: ChunkedUploadDataStream, evs: seq<Event>)
    requires s.Valid() && Runs(Fresh(), evs) && s.View() == Exec(Fresh(), evs)
    ensures s.told.delivered <= Appended(evs) && (s.base.isEof ==> s.told.delivered == Appended(evs))
    ensures (s.allDataAppended <==> Ended(evs)) && (s.base.initializedSuccessfully <==> ReadyAfter(evs))
    ensures forall id: nat :: id < s.base.waiters ==>
              (Answered(s.told.answers, id) <==> s.base.callback != Some(id) && id !in s.told.dropped)
  {
    DeliveredIsPrefix(evs);
    MarksOfARun(evs);
    forall id: nat | id < s.base.waiters
      ensures Answered(s.told.answers, id) <==> s.base.callback != Some(id) && id !in s.told.dropped
    {
      WaitersAnsweredOnce(evs, id);
    }
  }
}
