/** `FileStream::Context` itself: the Windows fields and methods
    (base/file_stream_context.cc, base/file_stream_context_win.cc), with the message loop
    and the worker pool that run its posted tasks. Every method the user calls and every
    task that runs is a step of the state machine of FileStreamProtocol, so what is proved
    there about runs holds of the object. What the operating system answers is a parameter. */
module FileStreamContexts {
  import opened Basics
  import opened FileStreamProtocol

  class Context {
    var file: Option<Handle>
    var asyncInProgress: bool
    var orphaned: bool
    var callback: Option<OpId>
    var inFlightBuf: Option<OpId>
    var asyncReadInitiated: bool
    var asyncReadCompleted: bool
    var ioCompleteForReadReceived: bool
    var result: IoResult
    var posted: seq<Task>
    var nextOp: nat

    ghost var w: World

    ghost function View(): Ctx
      reads this
    {
      Ctx(file, asyncInProgress, orphaned, callback, inFlightBuf, asyncReadInitiated, asyncReadCompleted,
          ioCompleteForReadReceived, result, posted, nextOp, w)
    }

    constructor (f: Option<Handle>)
      ensures View() == Init(f) && Inv(View())
    {
      file, asyncInProgress, orphaned, callback, inFlightBuf := f, false, false, None, None;
      asyncReadInitiated, asyncReadCompleted, ioCompleteForReadReceived := false, false, false;
      result, posted, nextOp := Count(0), [], 0;
      w := World(true, HandleSet(f), {}, map[], {}, {}, [], 0);
    }

    method PostTask(t: Task)
      modifies this`posted
      ensures View() == Post(old(View()), t)
    {
      posted := posted + [t];
    }

    method RunCallback(op: OpId, v: IoResult)
      modifies this`w
      ensures View() == Call(old(View()), op, v)
    {
      w := w.(calls := w.calls + [(op, v)]);
    }

    // ----- file_stream_context.cc -------------------------------------------------------

    /** The owner lets go. No callback runs from here on (OrphanSilences), and the context is
        gone as soon as what is outstanding has drained (DrainsToDeletion). */
    method Orphan()
      requires Inv(View()) && Enabled(View(), UserOrphan)
      modifies this`orphaned, this`posted, this`w
      ensures Inv(View()) && View() == Step(old(View()), UserOrphan)
      ensures !old(asyncInProgress) && file.None? ==> !w.alive
      ensures old(asyncInProgress) ==> posted == old(posted) && w == old(w)
    {
      StepKeepsInv(View(), UserOrphan);
      hide Inv;
      orphaned := true;
      if !asyncInProgress {
        CloseAndDelete();
      }
      // Otherwise an open file has its I/O cancelled, which only hastens the completion.
    }

    method Open()
      requires Inv(View()) && Enabled(View(), UserOpen)
      modifies this`posted, this`asyncInProgress, this`nextOp
      ensures Inv(View()) && View() == Step(old(View()), UserOpen)
    {
      StepKeepsInv(View(), UserOpen);
      hide Inv;
      PostOperation(WorkOpen(nextOp));
    }

    method Close()
      requires Inv(View()) && Enabled(View(), UserClose)
      modifies this`posted, this`asyncInProgress, this`nextOp
      ensures Inv(View()) && View() == Step(old(View()), UserClose)
    {
      StepKeepsInv(View(), UserClose);
      hide Inv;
      PostOperation(WorkClose(nextOp));
    }

    /** Seek, GetFileInfo and Flush. */
    method StartPlain()
      requires Inv(View()) && Enabled(View(), UserPlain)
      modifies this`posted, this`asyncInProgress, this`nextOp
      ensures Inv(View()) && View() == Step(old(View()), UserPlain)
    {
      StepKeepsInv(View(), UserPlain);
      hide Inv;
      PostOperation(WorkPlain(nextOp));
    }

    /** Posting to the worker pool after `CheckNoAsyncInProgress`. */
    method PostOperation(t: Task)
      requires !asyncInProgress
      modifies this`posted, this`asyncInProgress, this`nextOp
      ensures View() == StartPosted(old(View()), t)
    {
      PostTask(t);
      asyncInProgress := true;
      nextOp := nextOp + 1;
    }

    method CloseAndDelete()
      requires !asyncInProgress
      modifies this`posted, this`w
      ensures View() == FileStreamProtocol.CloseAndDelete(old(View()))
    {
      if file.Some? {
        PostTask(WorkCloseAndDelete);
      } else {
        w := w.(alive := false, deletions := w.deletions + 1);
      }
    }

    method OnOpenCompleted(op: OpId, newFile: Option<Handle>, v: IoResult)
      modifies this`file, this`w, this`asyncInProgress, this`posted
      ensures View() == FileStreamProtocol.OnOpenCompleted(old(View()), op, newFile, v)
    {
      w := w.(openHandles := w.openHandles - HandleSet(file));
      file := newFile;
      OnAsyncCompleted(op, v);
    }

    method OnAsyncCompleted(op: OpId, v: IoResult)
      modifies this`asyncInProgress, this`w, this`posted
      ensures View() == FileStreamProtocol.OnAsyncCompleted(old(View()), op, v)
    {
      asyncInProgress := false;
      if orphaned {
        CloseAndDelete();
      } else {
        RunCallback(op, v);
      }
    }

    // ----- file_stream_context_win.cc ----------------------------------------------------

    method Read()
      requires Inv(View()) && Enabled(View(), UserRead)
      modifies this`callback, this`inFlightBuf, this`asyncInProgress, this`asyncReadInitiated, this`result,
               this`posted, this`nextOp, this`w
      ensures Inv(View()) && View() == Step(old(View()), UserRead)
    {
      StepKeepsInv(View(), UserRead);
      IdleIsQuiet(View());
      assert Step(View(), UserRead) == QueueRead(FileStreamProtocol.IOCompletionIsPending(View(), nextOp), nextOp);
      hide Inv, Step, QueueRead, FileStreamProtocol.IOCompletionIsPending;
      var op := nextOp;
      IOCompletionIsPending(op);
      PostRead(op);
    }

    /** The rest of `Read`: the call of ReadFile is left to the worker. */
    method PostRead(op: OpId)
      modifies this`asyncReadInitiated, this`result, this`posted, this`nextOp, this`w
      ensures View() == QueueRead(old(View()), op)
    {
      asyncReadInitiated := true;
      result := Count(0);
      PostTask(WorkRead(op));
      nextOp := op + 1;
      w := w.(readOps := w.readOps + {op});
    }

    /** ret and error are what WriteFile returns; ioBytes and ioError what its completion,
        if there is one, will carry. The result is None for ERR_IO_PENDING: exactly when an
        operation has been started, which then gets its callback. */
    method Write(ret: bool, error: nat, ioBytes: nat, ioError: nat) returns (r: Option<IoResult>)
      requires Inv(View()) && Enabled(View(), UserWrite(ret, error, ioBytes, ioError))
      modifies this`result, this`callback, this`inFlightBuf, this`asyncInProgress, this`posted, this`nextOp,
               this`w
      ensures Inv(View()) && View() == Step(old(View()), UserWrite(ret, error, ioBytes, ioError))
      ensures r == if Completes(ret, error) then None else Some(Mapped(error))
      ensures r.None? <==> nextOp == old(nextOp) + 1 && asyncInProgress
    {
      StepKeepsInv(View(), UserWrite(ret, error, ioBytes, ioError));
      IdleIsQuiet(View());
      hide Inv;
      result := Count(0);
      if !ret {
        if error == ERROR_IO_PENDING {
          WriteUnderWay(ioBytes, ioError);
          return None;
        }
        return Some(Mapped(error));
      }
      WriteUnderWay(ioBytes, ioError);
      r := None;
    }

    method WriteUnderWay(ioBytes: nat, ioError: nat)
      requires callback.None?
      modifies this`callback, this`inFlightBuf, this`asyncInProgress, this`posted, this`nextOp, this`w
      ensures View() == Accepted(FileStreamProtocol.IOCompletionIsPending(old(View()), old(nextOp)), ioBytes, ioError)
    {
      hide FileStreamProtocol.IOCompletionIsPending;
      IOCompletionIsPending(nextOp);
      KernelAccepts(ioBytes, ioError);
    }

    /** The kernel's side of a write under way. */
    method KernelAccepts(ioBytes: nat, ioError: nat)
      modifies this`posted, this`nextOp, this`w
      ensures View() == Accepted(old(View()), ioBytes, ioError)
    {
      var op := nextOp;
      PostTask(IoCompletion(op, ioBytes, ioError));
      nextOp := op + 1;
      w := w.(settled := w.settled[op := ByKernel(ioBytes, ioError)]);
    }

    method IOCompletionIsPending(op: OpId)
      requires callback.None?
      modifies this`callback, this`inFlightBuf, this`asyncInProgress
      ensures View() == FileStreamProtocol.IOCompletionIsPending(old(View()), op)
    {
      callback := Some(op);
      inFlightBuf := Some(op);
      asyncInProgress := true;
    }

    method OnIOCompleted(bytes: nat, error: nat)
      requires callback.Some? && asyncInProgress
      requires !orphaned && error == ERROR_SUCCESS ==> result in {Count(0), Count(bytes)}
      modifies this`w, this`asyncReadInitiated, this`ioCompleteForReadReceived, this`asyncReadCompleted,
               this`asyncInProgress, this`callback, this`inFlightBuf, this`posted, this`result
      ensures View() == FileStreamProtocol.OnIOCompleted(old(View()), bytes, error)
    {
      hide FileStreamProtocol.InvokeUserCallback, FileStreamProtocol.DeleteOrphanedContext;
      w := w.(ioNotices := w.ioNotices + {callback.value});
      if !asyncReadInitiated {
        asyncInProgress := false;
      }
      if orphaned {
        ioCompleteForReadReceived := true;
        if asyncReadInitiated && !asyncReadCompleted {
          return;
        }
        DeleteOrphanedContext();
        return;
      }
      if error == ERROR_HANDLE_EOF {
        result := Count(0);
      } else if error != ERROR_SUCCESS {
        result := Mapped(error);
      } else {
        assert result != Count(0) ==> result == Count(bytes);
        result := Count(bytes);
      }
      if asyncReadInitiated {
        ioCompleteForReadReceived := true;
      }
      InvokeUserCallback();
    }

    method InvokeUserCallback()
      requires callback.Some?
      modifies this`asyncReadInitiated, this`ioCompleteForReadReceived, this`asyncReadCompleted,
               this`asyncInProgress, this`callback, this`inFlightBuf, this`w
      ensures View() == FileStreamProtocol.InvokeUserCallback(old(View()))
    {
      if asyncReadInitiated {
        if !ioCompleteForReadReceived || !asyncReadCompleted {
          return;
        }
        asyncReadInitiated := false;
        ioCompleteForReadReceived := false;
        asyncReadCompleted := false;
        asyncInProgress := false;
      }
      TakeCallback();
    }

    /** The callback and the buffer are given up before the callback runs. */
    method TakeCallback()
      requires callback.Some?
      modifies this`callback, this`inFlightBuf, this`w
      ensures View() == Call(old(View()).(callback := None, buffer := None), old(callback).value, result)
    {
      var op := callback.value;
      callback := None;
      inFlightBuf := None;
      RunCallback(op, result);
    }

    method DeleteOrphanedContext()
      modifies this`asyncInProgress, this`callback, this`inFlightBuf, this`posted, this`w
      ensures View() == FileStreamProtocol.DeleteOrphanedContext(old(View()))
    {
      asyncInProgress := false;
      callback := None;
      inFlightBuf := None;
      CloseAndDelete();
    }

    method ReadAsyncResult(ret: bool, bytes: nat, error: nat)
      requires callback.Some? && asyncInProgress
      requires !orphaned && !Completes(ret, error) ==> result == Count(0)
      modifies this`w, this`asyncReadInitiated, this`ioCompleteForReadReceived, this`asyncReadCompleted,
               this`asyncInProgress, this`callback, this`inFlightBuf, this`posted, this`result
      ensures View() == FileStreamProtocol.ReadAsyncResult(old(View()), ret, bytes, error)
    {
      hide FileStreamProtocol.InvokeUserCallback, FileStreamProtocol.DeleteOrphanedContext,
           FileStreamProtocol.OnIOCompleted;
      w := w.(readNotices := w.readNotices + {callback.value});
      if orphaned && ioCompleteForReadReceived {
        DeleteOrphanedContext();
        return;
      }
      asyncReadCompleted := true;
      if ret {
        result := Count(bytes);
        InvokeUserCallback();
        return;
      }
      if error == ERROR_IO_PENDING {
        InvokeUserCallback();
      } else {
        OnIOCompleted(0, error);
      }
    }

    // ----- The message loop and the worker pool ----------------------------------------------

    method Dequeue(k: nat) returns (t: Task)
      requires k < |View().tasks|
      modifies this`posted
      ensures var c := old(View()); t == c.tasks[k] && View() == c.(tasks := c.tasks[..k] + c.tasks[k + 1..])
    {
      t := posted[k];
      posted := posted[..k] + posted[k + 1..];
    }

    /** A task on the worker pool; the choice is what the operating system answers. */
    method Work(t: Task, choice: Choice)
      requires Fits(View(), t, choice) && OnWorker(t)
      modifies this`file, this`posted, this`w
      ensures View() == Perform(old(View()), t, choice)
    {
      match t
      case WorkOpen(op) =>
        w := w.(openHandles := w.openHandles + HandleSet(choice.file), settled := w.settled[op := ByWorker(choice.value)]);
        PostTask(ReplyOpen(op, choice.file, choice.value));
      case WorkClose(op) =>
        CloseFileImpl();
        w := w.(settled := w.settled[op := ByWorker(choice.value)]);
        PostTask(Reply(op, choice.value));
      case WorkPlain(op) =>
        w := w.(settled := w.settled[op := ByWorker(choice.value)]);
        PostTask(Reply(op, choice.value));
      case WorkRead(op) =>
        // ReadAsync calls ReadFile; the kernel completes what it accepted.
        w := w.(settled := w.settled[op := Outcome(choice.ret, choice.error, choice.ioBytes, choice.ioError)]);
        PostTask(ReadResult(op, choice.ret, choice.bytes, choice.error));
        if Completes(choice.ret, choice.error) {
          PostTask(IoCompletion(op, choice.ioBytes, choice.ioError));
        }
      case WorkCloseAndDelete =>
        CloseFileImpl();
        w := w.(alive := false, deletions := w.deletions + 1);
    }

    method CloseFileImpl()
      modifies this`file, this`w
      ensures View() == CloseFile(old(View()))
    {
      w := w.(openHandles := w.openHandles - HandleSet(file));
      file := None;
    }

    /** A reply or a notice on the thread of the stream. */
    method Deliver(t: Task)
      requires Deliverable(View(), t) && !OnWorker(t)
      modifies this
      ensures View() == Perform(old(View()), t, Nothing)
    {
      hide FileStreamProtocol.OnIOCompleted, FileStreamProtocol.ReadAsyncResult, FileStreamProtocol.OnOpenCompleted,
           FileStreamProtocol.OnAsyncCompleted;
      match t
      case ReplyOpen(op, f, v) => OnOpenCompleted(op, f, v);
      case Reply(op, v) => OnAsyncCompleted(op, v);
      case ReadResult(op, ret, bytes, error) => ReadAsyncResult(ret, bytes, error);
      case IoCompletion(op, bytes, error) => OnIOCompleted(bytes, error);
    }

    /** Runs one of the outstanding tasks, whichever the scheduler picks. At most one callback
        runs, that of the operation in progress with the value it settled on, and none once the
        context is orphaned; there is less left to do each time. */
    method RunPosted(k: nat, choice: Choice)
      requires Inv(View()) && Enabled(View(), Run(k, choice))
      modifies this
      ensures Inv(View()) && View() == Step(old(View()), Run(k, choice))
      ensures CallsAtMostOnce(old(View()), View())
      ensures Rank(View().tasks) < old(Rank(View().tasks))
      ensures old(View()).orphaned ==> View().w.calls == old(View()).w.calls
    {
      RunLaws(View(), k, choice);
      hide View, Inv, Enabled, Step, Fits, Deliverable, CallsAtMostOnce, Perform, Rank;
      var t := Dequeue(k);
      if OnWorker(t) {
        Work(t, choice);
      } else {
        Deliver(t);
      }
    }

    /** Any event. */
    method Dispatch(e: Event)
      requires Inv(View()) && Enabled(View(), e)
      modifies this
      ensures Inv(View()) && View() == Step(old(View()), e)
    {
      hide Inv, Step;
      match e
      case UserOpen => Open();
      case UserClose => Close();
      case UserPlain => StartPlain();
      case UserRead => Read();
      case UserWrite(ret, error, ioBytes, ioError) => var _ := Write(ret, error, ioBytes, ioError);
      case UserOrphan => Orphan();
      case Run(k, choice) => RunPosted(k, choice);
    }
  }

  /** An object driven through any sequence of calls and deliveries that the machine allows is
      in the state the machine reaches: CallbackSafety, QuiescentMeansAnswered and
      DeletedOnceAndQuiet are about this object. */
  method Drive(file: Option<Handle>, evs: seq<Event>) returns (c: Context)
    requires Runs(Init(file), evs)
    ensures fresh(c) && Inv(c.View()) && c.View() == Exec(Init(file), evs)
  {
    hide Inv, Step, Enabled;
    c := new Context(file);
    var i := 0;
    assert evs[0..] == evs;
    while i < |evs|
      invariant 0 <= i <= |evs| && fresh(c) && Inv(c.View())
      invariant Runs(c.View(), evs[i..]) && Exec(c.View(), evs[i..]) == Exec(Init(file), evs)
    {
      assert evs[i..][0] == evs[i] && evs[i..][1..] == evs[i + 1..];
      c.Dispatch(evs[i]);
      i := i + 1;
    }
  }
}
