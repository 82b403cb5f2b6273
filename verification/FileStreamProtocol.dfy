/** The asynchronous life of a `FileStream::Context` on Windows
    (base/file_stream_context.cc, base/file_stream_context_win.cc) as a state machine.

    A state holds the fields of the context, the tasks and completions still outstanding
    on its behalf, the operating-system handles it is responsible for, and a history of
    what happened. The scheduler may run any outstanding task next, and the user may start
    an operation or drop the stream whenever the interface allows it, so a run is any
    interleaving of these. Callbacks are the last thing a handler does: what a callback
    does to the stream is the next event of the run. */
module FileStreamProtocol {
  import opened Basics

  type OpId = nat
  type Handle = nat

  /** The value handed to a completion callback: a byte count or a mapped system error. */
  datatype IoResult = Count(n: nat) | Mapped(osError: nat)

  const ERROR_SUCCESS: nat := 0
  const ERROR_HANDLE_EOF: nat := 38
  const ERROR_IO_PENDING: nat := 997

  /** Outstanding work. The `Work` tasks run on the worker pool, the others are delivered
      on the thread of the stream. */
  datatype Task =
    | WorkOpen(op: OpId)
    | WorkClose(op: OpId)
    | WorkPlain(op: OpId)            // Seek, GetFileInfo and Flush
    | WorkRead(op: OpId)             // ReadAsync
    | WorkCloseAndDelete             // CloseFileImpl with ownership of the context
    | ReplyOpen(op: OpId, file: Option<Handle>, value: IoResult)
    | Reply(op: OpId, value: IoResult)
    | ReadResult(op: OpId, ret: bool, bytes: nat, error: nat)
    | IoCompletion(op: OpId, bytes: nat, error: nat)

  /** What decides an operation: the value a worker returned, or the numbers the kernel reported. */
  datatype Settlement = ByWorker(value: IoResult) | ByKernel(bytes: nat, error: nat)

  /** v is what the user is owed: the worker's value; or for I/O the byte count if there was no
      error, none at the end of the file, and any other error mapped. */
  predicate Owed(s: Settlement, v: IoResult) {
    match s
    case ByWorker(value) => v == value
    case ByKernel(bytes, error) =>
      if error == 0 then v == Count(bytes) else if error == 38 then v == Count(0) else v == Mapped(error)
  }

  /** The context's surroundings and what happened to them so far. */
  datatype World = World(
    alive: bool,
    openHandles: set<Handle>,
    readOps: set<OpId>,
    settled: map<OpId, Settlement>,
    readNotices: set<OpId>,
    ioNotices: set<OpId>,
    calls: seq<(OpId, IoResult)>,
    deletions: nat)

  /** The fields of the context, the tasks posted on its behalf, and the world. */
  datatype Ctx = Ctx(
    file: Option<Handle>,
    inProgress: bool,
    orphaned: bool,
    callback: Option<OpId>,
    buffer: Option<OpId>,
    readInitiated: bool,
    readCompleted: bool,
    ioReceived: bool,
    result: IoResult,
    tasks: seq<Task>,
    nextOp: nat,
    w: World)

  function HandleSet(f: Option<Handle>): set<Handle> {
    if f.Some? then {f.value} else {}
  }

  /** What a completed I/O amounts to for the user. */
  function Value(bytes: nat, error: nat): IoResult {
    if error == ERROR_HANDLE_EOF then Count(0) else if error != ERROR_SUCCESS then Mapped(error) else Count(bytes)
  }

  /** The kernel's promise: a call that succeeded completes with the same byte count; a
      call that is pending completes somehow; a failed call does not complete. */
  predicate Completes(ret: bool, error: nat) { ret || error == ERROR_IO_PENDING }

  predicate Promise(ret: bool, bytes: nat, error: nat, ioBytes: nat, ioError: nat) {
    ret ==> ioBytes == bytes && ioError == ERROR_SUCCESS
  }

  function Outcome(ret: bool, error: nat, ioBytes: nat, ioError: nat): Settlement {
    if Completes(ret, error) then ByKernel(ioBytes, ioError) else ByKernel(0, error)
  }

  // ----- The handlers ---------------------------------------------------------------

  function Post(c: Ctx, t: Task): Ctx { c.(tasks := c.tasks + [t]) }

  function Call(c: Ctx, op: OpId, v: IoResult): Ctx { c.(w := c.w.(calls := c.w.calls + [(op, v)])) }

  function Settle(c: Ctx, op: OpId, v: Settlement): Ctx { c.(w := c.w.(settled := c.w.settled[op := v])) }

  function Delete(c: Ctx): Ctx { c.(w := c.w.(alive := false, deletions := c.w.deletions + 1)) }

  /** `CloseAndDelete`. Its CHECK is the precondition. */
  function CloseAndDelete(c: Ctx): Ctx
    requires !c.inProgress
  {
    if c.file.Some? then Post(c, WorkCloseAndDelete) else Delete(c)
  }

  function DeleteOrphanedContext(c: Ctx): Ctx {
    CloseAndDelete(c.(inProgress := false, callback := None, buffer := None))
  }

  function InvokeUserCallback(c: Ctx): Ctx
    requires c.callback.Some?
  {
    if c.readInitiated && (!c.ioReceived || !c.readCompleted) then c
    else
      var c1 := if c.readInitiated
                then c.(readInitiated := false, ioReceived := false, readCompleted := false, inProgress := false)
                else c;
      Call(c1.(callback := None, buffer := None), c.callback.value, c.result)
  }

  /** `OnIOCompleted`. Its DCHECKs are the preconditions. */
  function OnIOCompleted(c: Ctx, bytes: nat, error: nat): Ctx
    requires c.callback.Some? && c.inProgress
    requires !c.orphaned && error == ERROR_SUCCESS ==> c.result in {Count(0), Count(bytes)}
  {
    var c0 := c.(w := c.w.(ioNotices := c.w.ioNotices + {c.callback.value}));
    var c1 := if c0.readInitiated then c0 else c0.(inProgress := false);
    if c1.orphaned then
      var c2 := c1.(ioReceived := true);
      if c2.readInitiated && !c2.readCompleted then c2 else DeleteOrphanedContext(c2)
    else
      var c2 := c1.(result := Value(bytes, error));
      var c3 := if c2.readInitiated then c2.(ioReceived := true) else c2;
      InvokeUserCallback(c3)
  }

  function ReadAsyncResult(c: Ctx, ret: bool, bytes: nat, error: nat): Ctx
    requires c.callback.Some? && c.inProgress
    requires !c.orphaned && !Completes(ret, error) ==> c.result == Count(0)
  {
    var c0 := c.(w := c.w.(readNotices := c.w.readNotices + {c.callback.value}));
    if c0.orphaned && c0.ioReceived then DeleteOrphanedContext(c0)
    else
      var c1 := c0.(readCompleted := true);
      if ret then InvokeUserCallback(c1.(result := Count(bytes)))
      else if error == ERROR_IO_PENDING then InvokeUserCallback(c1)
      else OnIOCompleted(c1, 0, error)
  }

  function OnAsyncCompleted(c: Ctx, op: OpId, v: IoResult): Ctx {
    var c1 := c.(inProgress := false);
    if c1.orphaned then CloseAndDelete(c1) else Call(c1, op, v)
  }

  /** `file_.Close()` on the worker. */
  function CloseFile(c: Ctx): Ctx {
    c.(file := None, w := c.w.(openHandles := c.w.openHandles - HandleSet(c.file)))
  }

  /** Moving the opened file in closes whatever the context held before. */
  function OnOpenCompleted(c: Ctx, op: OpId, file: Option<Handle>, v: IoResult): Ctx {
    OnAsyncCompleted(CloseFile(c).(file := file), op, v)
  }

  // ----- What the user may do ---------------------------------------------------------

  function Orphan(c: Ctx): Ctx
    requires !c.orphaned
  {
    var c1 := c.(orphaned := true);
    if !c1.inProgress then CloseAndDelete(c1) else c1
  }

  function StartPosted(c: Ctx, t: Task): Ctx
    requires !c.inProgress
  {
    Post(c, t).(inProgress := true, nextOp := c.nextOp + 1)
  }

  function IOCompletionIsPending(c: Ctx, op: OpId): Ctx
    requires c.callback.None?
  {
    c.(callback := Some(op), buffer := Some(op), inProgress := true)
  }

  function StartRead(c: Ctx): Ctx
    requires !c.inProgress && c.callback.None? && !c.readInitiated && !c.readCompleted && !c.ioReceived
  {
    QueueRead(IOCompletionIsPending(c, c.nextOp), c.nextOp)
  }

  function QueueRead(c: Ctx, op: OpId): Ctx {
    Post(c.(readInitiated := true, result := Count(0)), WorkRead(op))
      .(nextOp := op + 1, w := c.w.(readOps := c.w.readOps + {op}))
  }

  /** A write whose WriteFile call fails outright is refused: no operation is started. */
  function StartWrite(c: Ctx, ret: bool, error: nat, ioBytes: nat, ioError: nat): Ctx
    requires !c.inProgress && c.callback.None?
  {
    var c1 := c.(result := Count(0));
    if Completes(ret, error) then Accepted(IOCompletionIsPending(c1, c.nextOp), ioBytes, ioError) else c1
  }

  /** The kernel will complete the operation. */
  function Accepted(c: Ctx, ioBytes: nat, ioError: nat): Ctx {
    Settle(Post(c, IoCompletion(c.nextOp, ioBytes, ioError)), c.nextOp, ByKernel(ioBytes, ioError)).(nextOp := c.nextOp + 1)
  }

  // ----- Events and steps ---------------------------------------------------------------

  /** The environment's choices when a task runs. */
  datatype Choice =
    | Nothing
    | Opened(file: Option<Handle>, value: IoResult)
    | Worked(value: IoResult)
    | ReadCalled(ret: bool, bytes: nat, error: nat, ioBytes: nat, ioError: nat)

  datatype Event =
    | UserOpen | UserClose | UserPlain | UserRead
    | UserWrite(ret: bool, error: nat, ioBytes: nat, ioError: nat)
    | UserOrphan
    | Run(k: nat, choice: Choice)

  predicate Enabled(c: Ctx, e: Event) {
    match e
    case UserOrphan => c.w.alive && !c.orphaned
    case Run(k, choice) => k < |c.tasks| && Fits(c, c.tasks[k], choice)
    case _ => c.w.alive && !c.orphaned && !c.inProgress
  }

  predicate Fits(c: Ctx, t: Task, choice: Choice) {
    match t
    case WorkOpen(_) => choice.Opened? && HandleSet(choice.file) !! c.w.openHandles
    case WorkClose(_) => choice.Worked?
    case WorkPlain(_) => choice.Worked?
    case WorkRead(_) =>
      choice.ReadCalled? && Promise(choice.ret, choice.bytes, choice.error, choice.ioBytes, choice.ioError)
    case _ => choice.Nothing?
  }

  /** Running task k. */
  function RunTask(c: Ctx, k: nat, choice: Choice): Ctx
    requires k < |c.tasks| && Fits(c, c.tasks[k], choice) && Deliverable(c, c.tasks[k])
  {
    Perform(c.(tasks := c.tasks[..k] + c.tasks[k + 1..]), c.tasks[k], choice)
  }

  predicate OnWorker(t: Task) {
    t.WorkOpen? || t.WorkClose? || t.WorkPlain? || t.WorkRead? || t.WorkCloseAndDelete?
  }

  /** What a task does. The worker tasks touch only what they are given; the rest are the
      handlers above. */
  function Perform(c: Ctx, t: Task, choice: Choice): Ctx
    requires Fits(c, t, choice) && Deliverable(c, t)
  {
    match t
    case WorkOpen(op) =>
      var c1 := Settle(Post(c, ReplyOpen(op, choice.file, choice.value)), op, ByWorker(choice.value));
      c1.(w := c1.w.(openHandles := c.w.openHandles + HandleSet(choice.file)))
    case WorkClose(op) => Settle(Post(CloseFile(c), Reply(op, choice.value)), op, ByWorker(choice.value))
    case WorkPlain(op) => Settle(Post(c, Reply(op, choice.value)), op, ByWorker(choice.value))
    case WorkRead(op) =>
      var c1 := Settle(Post(c, ReadResult(op, choice.ret, choice.bytes, choice.error)), op,
                       Outcome(choice.ret, choice.error, choice.ioBytes, choice.ioError));
      if Completes(choice.ret, choice.error) then Post(c1, IoCompletion(op, choice.ioBytes, choice.ioError)) else c1
    case WorkCloseAndDelete => Delete(CloseFile(c))
    case ReplyOpen(op, f, v) => OnOpenCompleted(c, op, f, v)
    case Reply(op, v) => OnAsyncCompleted(c, op, v)
    case ReadResult(op, ret, bytes, error) => ReadAsyncResult(c, ret, bytes, error)
    case IoCompletion(op, bytes, error) => OnIOCompleted(c, bytes, error)
  }

  /** The DCHECKs of the handler a task is delivered to. */
  predicate Deliverable(c: Ctx, t: Task) {
    match t
    case ReadResult(op, ret, bytes, error) =>
      && c.callback.Some? && c.inProgress
      && (!c.orphaned && !Completes(ret, error) ==> c.result == Count(0))
    case IoCompletion(op, bytes, error) =>
      && c.callback.Some? && c.inProgress
      && (!c.orphaned && error == ERROR_SUCCESS ==> c.result in {Count(0), Count(bytes)})
    case _ => true
  }

  function Step(c: Ctx, e: Event): Ctx
    requires Inv(c) && Enabled(c, e)
  {
    assert e.Run? ==> Deliverable(c, c.tasks[e.k]);
    match e
    case UserOpen => StartPosted(c, WorkOpen(c.nextOp))
    case UserClose => StartPosted(c, WorkClose(c.nextOp))
    case UserPlain => StartPosted(c, WorkPlain(c.nextOp))
    case UserRead => StartRead(c)
    case UserWrite(ret, error, ioBytes, ioError) => StartWrite(c, ret, error, ioBytes, ioError)
    case UserOrphan => Orphan(c)
    case Run(k, choice) => RunTask(c, k, choice)
  }

  // ----- The invariant -----------------------------------------------------------------

  predicate Quiet(c: Ctx) { !c.readInitiated && !c.readCompleted && !c.ioReceived && c.callback.None? }

  /** A posted operation: one task, on the worker or on its way back. */
  predicate Posted(c: Ctx, op: OpId) {
    && Quiet(c) && |c.tasks| == 1 && op !in c.w.readOps
    && match c.tasks[0]
       case WorkOpen(o) => o == op
       case WorkClose(o) => o == op
       case WorkPlain(o) => o == op
       case ReplyOpen(o, f, v) => o == op && op in c.w.settled && c.w.settled[op] == ByWorker(v)
       case Reply(o, v) => o == op && op in c.w.settled && c.w.settled[op] == ByWorker(v)
       case _ => false
  }

  predicate Writing(c: Ctx, op: OpId) {
    && !c.readInitiated && !c.readCompleted && !c.ioReceived && op !in c.w.readOps
    && c.callback == Some(op) && |c.tasks| == 1
    && match c.tasks[0]
       case IoCompletion(o, b, e) =>
         o == op && op in c.w.settled && c.w.settled[op] == ByKernel(b, e) && c.result == Count(0)
       case _ => false
  }

  /** The four stages of a read: queued, called, and one notice of two received. */
  predicate Reading(c: Ctx, op: OpId) {
    && c.readInitiated && c.callback == Some(op) && op in c.w.readOps && !(c.readCompleted && c.ioReceived)
    && (c.readCompleted ==> op in c.w.readNotices) && (c.ioReceived ==> op in c.w.ioNotices)
    && 1 <= |c.tasks| <= 2
    && match c.tasks[0]
       case WorkRead(o) => o == op && |c.tasks| == 1 && !c.readCompleted && !c.ioReceived && c.result == Count(0)
       case ReadResult(o, ret, b, e) =>
         && o == op && !c.readCompleted && op in c.w.settled && c.w.settled[op].ByKernel?
         && if |c.tasks| == 2 then
              && c.tasks[1].IoCompletion? && c.tasks[1].op == op && !c.ioReceived && c.result == Count(0)
              && Completes(ret, e) && Promise(ret, b, e, c.tasks[1].bytes, c.tasks[1].error)
              && c.w.settled[op] == ByKernel(c.tasks[1].bytes, c.tasks[1].error)
            else if c.ioReceived then
              && Completes(ret, e) && (ret ==> c.w.settled[op] == ByKernel(b, ERROR_SUCCESS))
              && (!c.orphaned ==> Owed(c.w.settled[op], c.result))
            else !Completes(ret, e) && c.w.settled[op] == ByKernel(0, e) && c.result == Count(0)
       case IoCompletion(o, b, e) =>
         && o == op && |c.tasks| == 1 && c.readCompleted && !c.ioReceived && op in c.w.settled
         && c.w.settled[op] == ByKernel(b, e) && (e == ERROR_SUCCESS ==> c.result in {Count(0), Count(b)})
       case _ => false
  }

  predicate Idle(c: Ctx) {
    if c.orphaned then c.callback.None? && c.tasks == [WorkCloseAndDelete] && c.file.Some?
    else Quiet(c) && c.tasks == []
  }

  function InFlight(tasks: seq<Task>): set<Handle> {
    if tasks != [] && tasks[0].ReplyOpen? then HandleSet(tasks[0].file) else {}
  }

  /** Every handle the context is answerable for is either its file or on its way to it. */
  predicate Handles(c: Ctx) {
    c.w.openHandles == HandleSet(c.file) + InFlight(c.tasks) && HandleSet(c.file) !! InFlight(c.tasks)
  }

  predicate Pending(c: Ctx, op: OpId) { c.inProgress && op == c.nextOp - 1 }

  ghost predicate Called(calls: seq<(OpId, IoResult)>, op: OpId) {
    exists i :: 0 <= i < |calls| && calls[i].0 == op
  }

  /** What the history says. */
  ghost predicate History(c: Ctx) {
    && (forall i :: 0 <= i < |c.w.calls| ==> c.w.calls[i].0 < c.nextOp && !Pending(c, c.w.calls[i].0))
    && (forall i, j :: 0 <= i < j < |c.w.calls| ==> c.w.calls[i].0 != c.w.calls[j].0)
    && (forall i :: 0 <= i < |c.w.calls| ==>
          c.w.calls[i].0 in c.w.settled && Owed(c.w.settled[c.w.calls[i].0], c.w.calls[i].1))
    && (forall i :: 0 <= i < |c.w.calls| && c.w.calls[i].0 in c.w.readOps ==>
          c.w.calls[i].0 in c.w.readNotices && c.w.calls[i].0 in c.w.ioNotices)
    && (!c.orphaned ==> forall op: OpId :: op < c.nextOp && !Pending(c, op) ==> Called(c.w.calls, op))
    && (forall op :: op in c.w.readOps ==> op < c.nextOp)
    && (forall i :: 0 <= i < |c.w.calls| && c.w.calls[i].0 in c.w.readOps ==> c.w.settled[c.w.calls[i].0].ByKernel?)
  }

  ghost predicate Inv(c: Ctx) {
    History(c) && Shape(c)
  }

  predicate Shape(c: Ctx) {
    && c.w.deletions == (if c.w.alive then 0 else 1)
    && if !c.w.alive then c.orphaned && !c.inProgress && c.tasks == [] && c.w.openHandles == {}
       else
         && Handles(c) && c.buffer == c.callback
         && if c.inProgress then
              c.nextOp > 0 && (Posted(c, c.nextOp - 1) || Writing(c, c.nextOp - 1) || Reading(c, c.nextOp - 1))
            else Idle(c)
  }

  // ----- Every step keeps the invariant ---------------------------------------------------

  lemma TasksAreDeliverable(c: Ctx, k: nat)
    requires Inv(c) && k < |c.tasks|
    ensures Deliverable(c, c.tasks[k])
  {
  }

  /** An owned context with nothing in progress is ready for the next operation. */
  lemma IdleIsQuiet(c: Ctx)
    requires Inv(c) && c.w.alive && !c.orphaned && !c.inProgress
    ensures Quiet(c)
  {
  }

  lemma CalledGrows(calls: seq<(OpId, IoResult)>, last: (OpId, IoResult), op: OpId)
    ensures Called(calls + [last], op) <==> Called(calls, op) || op == last.0
  {
    assert (calls + [last])[|calls|] == last;
    if i :| 0 <= i < |calls| && calls[i].0 == op {
      assert (calls + [last])[i].0 == op;
    }
  }

  lemma UserKeepsShape(c: Ctx, e: Event)
    requires Inv(c) && Enabled(c, e) && !e.Run?
    ensures Shape(Step(c, e))
  {
    assert c.nextOp !in c.w.readOps;
    hide History;
  }

  /** The user starts at most one operation, which is then pending, and runs no callback. */
  ghost predicate StartsAtMostOne(c: Ctx, c': Ctx) {
    && c'.w.calls == c.w.calls && c'.w.readNotices == c.w.readNotices && c'.w.ioNotices == c.w.ioNotices
    && (forall op :: op in c.w.settled && op < c.nextOp ==> op in c'.w.settled && c'.w.settled[op] == c.w.settled[op])
    && (c.orphaned ==> c'.orphaned)
    && if c'.nextOp == c.nextOp then c'.w.readOps == c.w.readOps && c'.inProgress == c.inProgress
       else
         && !c.inProgress && c'.inProgress && c'.nextOp == c.nextOp + 1
         && c.w.readOps <= c'.w.readOps <= c.w.readOps + {c.nextOp}
  }

  lemma UserStarts(c: Ctx, e: Event)
    requires Inv(c) && Enabled(c, e) && !e.Run?
    ensures StartsAtMostOne(c, Step(c, e))
  {
    hide History;
  }

  lemma StartHistoryKept(c: Ctx, c': Ctx)
    requires History(c) && StartsAtMostOne(c, c')
    ensures History(c')
  {
  }

  /** A task either runs no callback, or it runs exactly one: that of the pending operation,
      with the value the user is owed for it, and for a read after both notices. */
  ghost predicate CallsAtMostOnce(c: Ctx, c': Ctx) {
    && c'.nextOp == c.nextOp && c'.w.readOps == c.w.readOps && c'.orphaned == c.orphaned
    && c.w.readNotices <= c'.w.readNotices && c.w.ioNotices <= c'.w.ioNotices
    && (forall op :: op in c.w.settled && !Pending(c, op) ==> op in c'.w.settled && c'.w.settled[op] == c.w.settled[op])
    && (c'.inProgress ==> c.inProgress)
    && if c'.w.calls == c.w.calls then c.orphaned || c'.inProgress == c.inProgress
       else
         c.nextOp > 0 && var op := c.nextOp - 1;
         && Pending(c, op) && !c.orphaned && !c'.inProgress && op in c'.w.settled
         && |c'.w.calls| == |c.w.calls| + 1 && c'.w.calls == c.w.calls + [c'.w.calls[|c.w.calls|]]
         && c'.w.calls[|c.w.calls|].0 == op && Owed(c'.w.settled[op], c'.w.calls[|c.w.calls|].1)
         && (op in c.w.readOps ==> op in c'.w.readNotices && op in c'.w.ioNotices && c'.w.settled[op].ByKernel?)
  }

  lemma RunWorkOpen(c: Ctx, k: nat, choice: Choice)
    requires Shape(c) && Enabled(c, Run(k, choice)) && c.tasks[k].WorkOpen?
    ensures Shape(RunTask(c, k, choice)) && CallsAtMostOnce(c, RunTask(c, k, choice))
  {
    assert k == 0 && c.tasks[..0] + c.tasks[1..] == [];
  }

  lemma RunWorkCloseOrPlain(c: Ctx, k: nat, choice: Choice)
    requires Shape(c) && Enabled(c, Run(k, choice)) && (c.tasks[k].WorkClose? || c.tasks[k].WorkPlain?)
    ensures Shape(RunTask(c, k, choice)) && CallsAtMostOnce(c, RunTask(c, k, choice))
  {
    assert k == 0 && c.tasks[..0] + c.tasks[1..] == [];
  }

  lemma RunWorkCloseAndDelete(c: Ctx, k: nat, choice: Choice)
    requires Shape(c) && Enabled(c, Run(k, choice)) && c.tasks[k].WorkCloseAndDelete?
    ensures Shape(RunTask(c, k, choice)) && CallsAtMostOnce(c, RunTask(c, k, choice))
  {
    assert k == 0 && c.tasks[..0] + c.tasks[1..] == [];
  }

  lemma RunWorkRead(c: Ctx, k: nat, choice: Choice)
    requires Shape(c) && Enabled(c, Run(k, choice)) && c.tasks[k].WorkRead?
    ensures Shape(RunTask(c, k, choice)) && CallsAtMostOnce(c, RunTask(c, k, choice))
  {
    assert k == 0 && c.tasks[..0] + c.tasks[1..] == [] && Reading(c, c.nextOp - 1);
    hide Posted, Writing, Idle;
  }

  lemma RunReply(c: Ctx, k: nat, choice: Choice)
    requires Shape(c) && Enabled(c, Run(k, choice)) && (c.tasks[k].ReplyOpen? || c.tasks[k].Reply?)
    ensures Shape(RunTask(c, k, choice)) && CallsAtMostOnce(c, RunTask(c, k, choice))
  {
    assert k == 0 && c.tasks[..0] + c.tasks[1..] == [];
  }

  /** The first notice of a read. */
  lemma RunReadResult(c: Ctx, k: nat, choice: Choice)
    requires Shape(c) && Enabled(c, Run(k, choice)) && Deliverable(c, c.tasks[k]) && c.tasks[k].ReadResult?
    ensures Shape(RunTask(c, k, choice)) && CallsAtMostOnce(c, RunTask(c, k, choice))
  {
    ReadResultShape(c, k, choice);
    ReadResultCalls(c, k, choice);
    hide *;
  }

  lemma ReadResultShape(c: Ctx, k: nat, choice: Choice)
    requires Shape(c) && Enabled(c, Run(k, choice)) && Deliverable(c, c.tasks[k]) && c.tasks[k].ReadResult?
    ensures Shape(RunTask(c, k, choice))
  {
    assert k == 0 && Reading(c, c.nextOp - 1);
    assert c.tasks[..0] + c.tasks[1..] == if |c.tasks| == 2 then [c.tasks[1]] else [];
  }

  lemma ReadResultCalls(c: Ctx, k: nat, choice: Choice)
    requires Shape(c) && Enabled(c, Run(k, choice)) && Deliverable(c, c.tasks[k]) && c.tasks[k].ReadResult?
    ensures CallsAtMostOnce(c, RunTask(c, k, choice))
  {
    assert k == 0 && Reading(c, c.nextOp - 1);
    assert c.tasks[..0] + c.tasks[1..] == if |c.tasks| == 2 then [c.tasks[1]] else [];
  }

  /** The second notice of a read, or the only one of a write. */
  lemma RunIoCompletion(c: Ctx, k: nat, choice: Choice)
    requires Shape(c) && Enabled(c, Run(k, choice)) && Deliverable(c, c.tasks[k]) && c.tasks[k].IoCompletion?
    ensures Shape(RunTask(c, k, choice)) && CallsAtMostOnce(c, RunTask(c, k, choice))
  {
    assert Writing(c, c.nextOp - 1) || Reading(c, c.nextOp - 1);
    assert c.tasks[..k] + c.tasks[k + 1..] == if k == 1 then [c.tasks[0]] else [];
  }

  // ----- What each delivery does ------------------------------------------------------------

  /** The end of an orphaned context: it is gone, or only the closing of its file is left. */
  predicate Disposed(c: Ctx) { (!c.w.alive && c.tasks == []) || c.tasks == [WorkCloseAndDelete] }

  /** A worker task leaves exactly one reply to its own operation; a read leaves its result and,
      if the kernel accepted it, the completion; the final closing deletes the context. */
  lemma WorkLeavesReply(c: Ctx, k: nat, choice: Choice)
    requires Shape(c) && Enabled(c, Run(k, choice)) && OnWorker(c.tasks[k])
    ensures |c.tasks| == 1
    ensures var t, c' := c.tasks[k], RunTask(c, k, choice);
            && c'.w.calls == c.w.calls
            && match t
               case WorkOpen(op) => c'.tasks == [ReplyOpen(op, choice.file, choice.value)] && c'.file == c.file
               case WorkClose(op) => c'.tasks == [Reply(op, choice.value)] && c'.file == None
               case WorkPlain(op) => c'.tasks == [Reply(op, choice.value)] && c'.file == c.file
               case WorkRead(op) =>
                 if choice.ret || choice.error == 997 then
                   && c'.tasks == [ReadResult(op, choice.ret, choice.bytes, choice.error),
                                   IoCompletion(op, choice.ioBytes, choice.ioError)]
                   && op in c'.w.settled && c'.w.settled[op] == ByKernel(choice.ioBytes, choice.ioError)
                 else
                   && c'.tasks == [ReadResult(op, choice.ret, choice.bytes, choice.error)]
                   && op in c'.w.settled && c'.w.settled[op] == ByKernel(0, choice.error)
               case _ => c'.tasks == [] && !c'.w.alive && c'.w.openHandles == {}
  {
    assert |c.tasks| == 1 && c.tasks[..k] + c.tasks[k + 1..] == [];
  }

  /** A reply answers its operation with its value, if the context is owned, and otherwise ends
      it; the handle an open brings takes the place of the one held. */
  lemma ReplyAnswers(c: Ctx, k: nat, choice: Choice)
    requires Shape(c) && Enabled(c, Run(k, choice)) && (c.tasks[k].ReplyOpen? || c.tasks[k].Reply?)
    ensures |c.tasks| == 1
    ensures var t, c' := c.tasks[k], RunTask(c, k, choice);
            && (if c.orphaned then c'.w.calls == c.w.calls && Disposed(c')
                else c'.tasks == [] && c'.w.calls == c.w.calls + [(t.op, t.value)])
            && c'.file == (if t.ReplyOpen? then t.file else c.file)
  {
    assert |c.tasks| == 1 && c.tasks[..k] + c.tasks[k + 1..] == [];
  }

  /** The result of a read answers it exactly if the completion has come or will not come: with
      the bytes read if the call succeeded, with what the completion brought if it was pending,
      and with the error of a call that failed. */
  lemma ReadResultAnswers(c: Ctx, k: nat, choice: Choice)
    requires Shape(c) && Enabled(c, Run(k, choice)) && Deliverable(c, c.tasks[k]) && c.tasks[k].ReadResult?
    ensures k == 0 && 1 <= |c.tasks| <= 2
    ensures var t, c' := c.tasks[k], RunTask(c, k, choice);
            && (|c.tasks| == 1 <==> c.ioReceived || !Completes(t.ret, t.error))
            && if |c.tasks| == 2 then c'.tasks == [c.tasks[1]] && c'.w.calls == c.w.calls
               else if c.orphaned then c'.w.calls == c.w.calls && Disposed(c')
               else
                 && c'.tasks == [] && t.op in c.w.settled && c.w.settled[t.op].ByKernel?
                 && c'.w.calls == c.w.calls + [(t.op, if t.ret then Count(t.bytes)
                                                      else if Completes(t.ret, t.error) then c.result
                                                      else if t.error == 0 || t.error == 38 then Count(0)
                                                      else Mapped(t.error))]
                 && (t.ret ==> c.w.settled[t.op] == ByKernel(t.bytes, 0))
                 && (!t.ret && Completes(t.ret, t.error) ==> Owed(c.w.settled[t.op], c.result))
                 && (!Completes(t.ret, t.error) ==> c.w.settled[t.op] == ByKernel(0, t.error))
  {
    assert k == 0 && Reading(c, c.nextOp - 1);
    assert c.tasks[..0] + c.tasks[1..] == if |c.tasks| == 2 then [c.tasks[1]] else [];
  }

  /** A completion answers a write at once, and a read exactly if its result has come, with the
      bytes or the error that the kernel reports. */
  lemma CompletionAnswers(c: Ctx, k: nat, choice: Choice)
    requires Shape(c) && Enabled(c, Run(k, choice)) && Deliverable(c, c.tasks[k]) && c.tasks[k].IoCompletion?
    ensures 1 <= |c.tasks| <= 2
    ensures var t, c' := c.tasks[k], RunTask(c, k, choice);
            && (|c.tasks| == 1 <==> t.op !in c.w.readOps || c.readCompleted)
            && if |c.tasks| == 2 then k == 1 && c'.tasks == [c.tasks[0]] && c'.w.calls == c.w.calls
               else if c.orphaned then c'.w.calls == c.w.calls && Disposed(c')
               else c'.tasks == [] && c'.w.calls == c.w.calls + [(t.op, if t.error == 0 then Count(t.bytes)
                                                                         else if t.error == 38 then Count(0)
                                                                         else Mapped(t.error))]
  {
    assert Writing(c, c.nextOp - 1) || Reading(c, c.nextOp - 1);
    assert c.tasks[..k] + c.tasks[k + 1..] == if k == 1 then [c.tasks[0]] else [];
  }

  /** The user of a stream may start an operation exactly when nothing is outstanding on its
      behalf, and may drop the stream at any time. */
  lemma MayStartIffIdle(c: Ctx, e: Event)
    requires Inv(c) && !c.orphaned && !e.Run?
    ensures Enabled(c, e) <==> e.UserOrphan? || c.tasks == []
  {
    hide History;
  }

  /** What the user starts: each call hands its own kind of work over, and a write that the
      kernel refuses leaves everything as it was. */
  lemma UserStartsWork(c: Ctx, e: Event)
    requires Inv(c) && Enabled(c, e) && !e.Run?
    ensures var op, c' := c.nextOp, Step(c, e);
            && c'.w.calls == c.w.calls && c'.file == c.file
            && match e
               case UserOpen => c'.tasks == [WorkOpen(op)] && c'.inProgress
               case UserClose => c'.tasks == [WorkClose(op)] && c'.inProgress
               case UserPlain => c'.tasks == [WorkPlain(op)] && c'.inProgress
               case UserRead => c'.tasks == [WorkRead(op)] && c'.inProgress && op in c'.w.readOps
               case UserWrite(ret, error, ioBytes, ioError) =>
                 if ret || error == 997 then
                   && c'.tasks == [IoCompletion(op, ioBytes, ioError)] && c'.inProgress
                   && op in c'.w.settled && c'.w.settled[op] == ByKernel(ioBytes, ioError)
                 else c' == c.(result := Count(0))
               case _ => c'.orphaned && c'.inProgress == c.inProgress && (c.inProgress ==> c'.tasks == c.tasks)
  {
    assert !c.inProgress && !c.orphaned ==> c.tasks == [];
    hide History;
  }

  // ----- Every step keeps the history -----------------------------------------------------------

  lemma HistoryKept(c: Ctx, c': Ctx)
    requires History(c) && CallsAtMostOnce(c, c')
    ensures History(c')
  {
    if c'.w.calls != c.w.calls { HistoryGrows(c, c'); }
  }

  lemma HistoryGrows(c: Ctx, c': Ctx)
    requires History(c) && CallsAtMostOnce(c, c') && c'.w.calls != c.w.calls
    ensures History(c')
  {
    forall op
      ensures Called(c'.w.calls, op) <==> Called(c.w.calls, op) || op == c.nextOp - 1
    {
      CalledGrows(c.w.calls, c'.w.calls[|c.w.calls|], op);
    }
    hide Called;
  }

  lemma RunKeepsInv(c: Ctx, k: nat, choice: Choice)
    requires Inv(c) && Enabled(c, Run(k, choice))
    ensures Inv(Step(c, Run(k, choice)))
    ensures CallsAtMostOnce(c, Step(c, Run(k, choice)))
  {
    TasksAreDeliverable(c, k);
    match c.tasks[k] {
    case ReadResult(_, _, _, _) => RunReadResult(c, k, choice);
    case IoCompletion(_, _, _) => RunIoCompletion(c, k, choice);
    case WorkRead(_) => RunWorkRead(c, k, choice);
    case ReplyOpen(_, _, _) => RunReply(c, k, choice);
    case Reply(_, _) => RunReply(c, k, choice);
    case WorkOpen(_) => RunWorkOpen(c, k, choice);
    case WorkCloseAndDelete => RunWorkCloseAndDelete(c, k, choice);
    case _ => RunWorkCloseOrPlain(c, k, choice);
    }
    HistoryKept(c, RunTask(c, k, choice));
  }

  lemma StepKeepsInv(c: Ctx, e: Event)
    requires Inv(c) && Enabled(c, e)
    ensures Inv(Step(c, e))
  {
    if e.Run? {
      RunKeepsInv(c, e.k, e.choice);
    } else {
      UserKeepsShape(c, e);
      UserStarts(c, e);
      StartHistoryKept(c, Step(c, e));
    }
  }

  // ----- Runs --------------------------------------------------------------------------------

  /** A freshly constructed context, with or without a file. */
  function Init(file: Option<Handle>): (c: Ctx)
    ensures Inv(c)
  {
    Ctx(file, false, false, None, None, false, false, false, Count(0), [], 0,
        World(true, HandleSet(file), {}, map[], {}, {}, [], 0))
  }

  /** The event sequence is possible from c. */
  ghost predicate Runs(c: Ctx, evs: seq<Event>)
    requires Inv(c)
    decreases |evs|
  {
    evs == [] || (Enabled(c, evs[0]) && (StepKeepsInv(c, evs[0]); Runs(Step(c, evs[0]), evs[1..])))
  }

  ghost function Exec(c: Ctx, evs: seq<Event>): (r: Ctx)
    requires Inv(c) && Runs(c, evs)
    ensures Inv(r)
    decreases |evs|
  {
    if evs == [] then c else StepKeepsInv(c, evs[0]); Exec(Step(c, evs[0]), evs[1..])
  }

  /** In every run each callback runs at most once, with the value owed for its operation,
      and the callback of a read only after both of its notices have been received. */
  lemma CallbackSafety(file: Option<Handle>, evs: seq<Event>)
    requires Runs(Init(file), evs)
    ensures var c := Exec(Init(file), evs);
            && (forall i, j :: 0 <= i < j < |c.w.calls| ==> c.w.calls[i].0 != c.w.calls[j].0)
            && (forall i :: 0 <= i < |c.w.calls| ==>
                  c.w.calls[i].0 in c.w.settled && Owed(c.w.settled[c.w.calls[i].0], c.w.calls[i].1))
            && (forall i :: 0 <= i < |c.w.calls| && c.w.calls[i].0 in c.w.readOps ==>
                  c.w.calls[i].0 in c.w.readNotices && c.w.calls[i].0 in c.w.ioNotices)
  {
    var c := Exec(Init(file), evs);
    assert History(c);
  }

  /** In every run, the callback of a read or a write gets the byte count the kernel reported if
      it reported no error, none at the end of the file, and the mapped error otherwise; so it
      gets an error exactly if the kernel reported one other than the end of the file. */
  lemma KernelDecides(file: Option<Handle>, evs: seq<Event>, i: nat)
    requires Runs(Init(file), evs) && i < |Exec(Init(file), evs).w.calls|
    ensures var c := Exec(Init(file), evs);
            var (op, v) := c.w.calls[i];
            && op in c.w.settled
            && match c.w.settled[op]
               case ByWorker(value) => v == value && op !in c.w.readOps
               case ByKernel(bytes, error) =>
                 && (v.Mapped? <==> error != 0 && error != 38) && (v.Mapped? ==> v.osError == error)
                 && (error == 0 ==> v == Count(bytes)) && (error == 38 ==> v == Count(0))
  {
    var c := Exec(Init(file), evs);
    assert History(c);
  }

  /** Once the stream has been dropped no callback runs any more. */
  lemma {:induction false} OrphanSilences(c: Ctx, evs: seq<Event>)
    requires Inv(c) && c.orphaned && Runs(c, evs)
    ensures Exec(c, evs).orphaned && Exec(c, evs).w.calls == c.w.calls
    decreases |evs|
  {
    if evs != [] {
      RunKeepsInv(c, evs[0].k, evs[0].choice);
      OrphanSilences(Step(c, evs[0]), evs[1..]);
    }
  }

  /** At rest and not dropped, every operation accepted so far has had its callback. */
  lemma QuiescentMeansAnswered(file: Option<Handle>, evs: seq<Event>)
    requires Runs(Init(file), evs)
    ensures var c := Exec(Init(file), evs);
            c.tasks == [] && !c.orphaned ==>
              !c.inProgress && forall op: OpId :: op < c.nextOp <==> Called(c.w.calls, op)
  {
    var c := Exec(Init(file), evs);
    if c.tasks == [] && !c.orphaned {
      forall op: OpId
        ensures op < c.nextOp <==> Called(c.w.calls, op)
      {
        assert History(c) && !Pending(c, op);
      }
    }
  }

  /** The context is deleted at most once, and by then nothing is left to deliver to it. */
  lemma DeletedOnceAndQuiet(file: Option<Handle>, evs: seq<Event>)
    requires Runs(Init(file), evs)
    ensures var c := Exec(Init(file), evs);
            && c.w.deletions == (if c.w.alive then 0 else 1)
            && (!c.w.alive ==> c.tasks == [] && c.w.openHandles == {} && forall e :: !Enabled(c, e))
  {
    var c := Exec(Init(file), evs);
    assert Shape(c);
  }

  // ----- Draining ------------------------------------------------------------------------------

  function Weight(t: Task): nat {
    match t
    case WorkRead(_) => 5
    case WorkOpen(_) => 3
    case WorkClose(_) => 3
    case WorkPlain(_) => 3
    case WorkCloseAndDelete => 1
    case _ => 2
  }

  function Rank(tasks: seq<Task>): nat {
    if tasks == [] then 0 else Weight(tasks[0]) + Rank(tasks[1..])
  }

  /** Whatever the scheduler and the kernel choose, each delivery leaves less to do. */
  lemma DeliveryDrains(c: Ctx, k: nat, choice: Choice)
    requires Inv(c) && Enabled(c, Run(k, choice))
    ensures Rank(Step(c, Run(k, choice)).tasks) < Rank(c.tasks)
  {
    hide Shape, History, RunTask, Perform, Rank, Fits, Deliverable;
    TasksAreDeliverable(c, k);
    var t := c.tasks[k];
    var c' := RunTask(c, k, choice);
    if OnWorker(t) {
      WorkLeavesReply(c, k, choice);
    } else if t.ReadResult? {
      ReadResultAnswers(c, k, choice);
    } else if t.IoCompletion? {
      CompletionAnswers(c, k, choice);
    } else {
      ReplyAnswers(c, k, choice);
    }
    RankOf(c.tasks);
    RankOf(c'.tasks);
  }

  lemma RankOf(tasks: seq<Task>)
    requires |tasks| <= 2
    ensures Rank(tasks) == if |tasks| == 0 then 0
                           else if |tasks| == 1 then Weight(tasks[0])
                           else Weight(tasks[0]) + Weight(tasks[1])
  {
    if |tasks| == 2 {
      assert Rank(tasks[1..]) == Weight(tasks[1]) + Rank(tasks[1..][1..]);
    }
  }

  /** All about one delivery: the task leaves the queue, the handler's checks hold, and what it
      does keeps the invariant, runs at most one callback, and drains an orphaned context. */
  lemma RunLaws(c: Ctx, k: nat, choice: Choice)
    requires Inv(c) && Enabled(c, Run(k, choice))
    ensures k < |c.tasks|
    ensures var t, d, c' := c.tasks[k], c.(tasks := c.tasks[..k] + c.tasks[k + 1..]), Step(c, Run(k, choice));
            && Fits(d, t, choice) && Deliverable(d, t) && (OnWorker(t) || choice == Nothing)
            && c' == Perform(d, t, choice)
            && Inv(c') && CallsAtMostOnce(c, c')
            && (c.orphaned ==> c'.w.calls == c.w.calls) && Rank(c'.tasks) < Rank(c.tasks)
  {
    RunKeepsInv(c, k, choice);
    TasksAreDeliverable(c, k);
    DeliveryDrains(c, k, choice);
    hide Inv, Perform, Rank;
  }

  /** No task is ever stuck. */
  lemma TaskCanRun(c: Ctx, k: nat)
    requires Inv(c) && k < |c.tasks|
    ensures exists choice :: Enabled(c, Run(k, choice))
  {
    match c.tasks[k]
    case WorkOpen(_) => assert Enabled(c, Run(k, Opened(None, Count(0))));
    case WorkClose(_) => assert Enabled(c, Run(k, Worked(Count(0))));
    case WorkPlain(_) => assert Enabled(c, Run(k, Worked(Count(0))));
    case WorkRead(_) => assert Enabled(c, Run(k, ReadCalled(false, 0, 1, 0, 0)));
    case _ => assert Enabled(c, Run(k, Nothing));
  }

  /** Deliveries alone come to an end, and then the operation that was in progress has had its
      callback, if the context is owned. */
  lemma {:induction false} DeliveriesFinish(c: Ctx, evs: seq<Event>)
    requires Inv(c) && Runs(c, evs) && forall i :: 0 <= i < |evs| ==> evs[i].Run?
    ensures |evs| + Rank(Exec(c, evs).tasks) <= Rank(c.tasks)
    ensures Exec(c, evs).orphaned == c.orphaned && Exec(c, evs).nextOp == c.nextOp
    ensures Exec(c, evs).tasks == [] && !c.orphaned ==>
              !Exec(c, evs).inProgress && forall op: OpId :: op < c.nextOp ==> Called(Exec(c, evs).w.calls, op)
    decreases |evs|
  {
    if evs == [] {
      assert History(c) && Shape(c);
    } else {
      RunLaws(c, evs[0].k, evs[0].choice);
      hide Inv, Step, Enabled, Rank, Called;
      DeliveriesFinish(Step(c, evs[0]), evs[1..]);
    }
  }

  /** An opening, closing or plain operation of an owned context takes two deliveries, the work
      and the reply. Then its callback has run with the worker's value, the file is the one that
      was opened, none after a close, and otherwise the same; and no other handle is open. */
  lemma PostedOperationDone(c: Ctx, evs: seq<Event>)
    requires Inv(c) && !c.orphaned && Runs(c, evs) && forall i :: 0 <= i < |evs| ==> evs[i].Run?
    requires |c.tasks| == 1 && (c.tasks[0].WorkOpen? || c.tasks[0].WorkClose? || c.tasks[0].WorkPlain?)
    requires Exec(c, evs).tasks == []
    ensures |evs| == 2 && evs[0].k == 0 && Fits(c, c.tasks[0], evs[0].choice)
    ensures var t, d, choice := c.tasks[0], Exec(c, evs), evs[0].choice;
            && d.w.calls == c.w.calls + [(t.op, choice.value)]
            && d.file == (if t.WorkOpen? then choice.file else if t.WorkClose? then None else c.file)
            && d.w.openHandles == HandleSet(d.file)
  {
    hide *;
    Unfolded(c, evs);
    var c1 := Step(c, evs[0]);
    PostedStep(c, evs[0]);
    Unfolded(c1, evs[1..]);
    assert evs[1..][0] == evs[1] && evs[1..][1..] == evs[2..];
    var c2 := Step(c1, evs[1]);
    ReplyStep(c1, evs[1]);
    NothingLeft(c2, evs[2..]);
  }

  /** A run that leaves nothing of something begins with a step. */
  lemma Unfolded(c: Ctx, evs: seq<Event>)
    requires Inv(c) && Runs(c, evs) && c.tasks != [] && Exec(c, evs).tasks == []
    ensures evs != [] && Enabled(c, evs[0]) && Inv(Step(c, evs[0])) && Runs(Step(c, evs[0]), evs[1..])
    ensures Exec(c, evs) == Exec(Step(c, evs[0]), evs[1..])
  {
    hide Inv, Step, Enabled;
    assert evs != [];
    StepKeepsInv(c, evs[0]);
  }

  lemma NothingLeft(c: Ctx, evs: seq<Event>)
    requires Inv(c) && c.tasks == [] && Runs(c, evs) && forall i :: 0 <= i < |evs| ==> evs[i].Run?
    ensures evs == [] && Exec(c, evs) == c
  {
  }

  lemma PostedStep(c: Ctx, e: Event)
    requires Inv(c) && !c.orphaned && Enabled(c, e) && e.Run?
    requires |c.tasks| == 1 && (c.tasks[0].WorkOpen? || c.tasks[0].WorkClose? || c.tasks[0].WorkPlain?)
    ensures e.k == 0 && Fits(c, c.tasks[0], e.choice)
    ensures var t, d := c.tasks[0], Step(c, e);
            && Inv(d) && !d.orphaned && d.w.calls == c.w.calls
            && d.tasks == [if t.WorkOpen? then ReplyOpen(t.op, e.choice.file, e.choice.value) else Reply(t.op, e.choice.value)]
            && d.file == if t.WorkClose? then None else c.file
  {
    RunLaws(c, e.k, e.choice);
    TasksAreDeliverable(c, e.k);
    WorkLeavesReply(c, e.k, e.choice);
    hide Inv, Perform, Rank, RunTask;
  }

  lemma ReplyStep(c: Ctx, e: Event)
    requires Inv(c) && !c.orphaned && Enabled(c, e) && e.Run?
    requires |c.tasks| == 1 && (c.tasks[0].ReplyOpen? || c.tasks[0].Reply?)
    ensures var t, d := c.tasks[0], Step(c, e);
            && Inv(d) && d.tasks == [] && d.w.calls == c.w.calls + [(t.op, t.value)] && d.file == (if t.ReplyOpen? then t.file else c.file)
            && d.w.openHandles == HandleSet(d.file)
  {
    RunLaws(c, e.k, e.choice);
    TasksAreDeliverable(c, e.k);
    ReplyAnswers(c, e.k, e.choice);
    hide Perform, Rank, RunTask, History, CallsAtMostOnce;
    assert !Step(c, e).orphaned;
  }

  /** After the stream is dropped every run is short, and when nothing is outstanding any
      more the context has been deleted, once, with every handle closed. */
  lemma {:induction false} DrainsToDeletion(c: Ctx, evs: seq<Event>)
    requires Inv(c) && c.orphaned && Runs(c, evs)
    ensures |evs| + Rank(Exec(c, evs).tasks) <= Rank(c.tasks)
    ensures Exec(c, evs).tasks == [] ==>
              !Exec(c, evs).w.alive && Exec(c, evs).w.deletions == 1 && Exec(c, evs).w.openHandles == {}
    decreases |evs|
  {
    if evs == [] {
      assert Shape(c);
    } else {
      assert evs[0].Run?;
      RunLaws(c, evs[0].k, evs[0].choice);
      hide Inv, Step, Enabled, Rank;
      DrainsToDeletion(Step(c, evs[0]), evs[1..]);
    }
  }

  // ----- The two notices of a read ---------------------------------------------------------------

  /** While the kernel may still write into it, the user's buffer is kept alive. */
  lemma BufferHeld(c: Ctx, k: nat)
    requires Inv(c) && k < |c.tasks| && c.tasks[k].IoCompletion?
    ensures c.w.alive && c.inProgress && c.buffer == Some(c.tasks[k].op)
  {
  }

  predicate SameAnswer(c: Ctx, a: Ctx, b: Ctx) { a == b && |a.w.calls| == |c.w.calls| + 1 }

  predicate SameDeletion(c: Ctx, a: Ctx, b: Ctx) {
    && a.(readCompleted := b.readCompleted, result := b.result) == b && a.w.calls == c.w.calls
    && if c.file.None? then !a.w.alive else a.tasks == [WorkCloseAndDelete]
  }

  /** The order in which the two notices of a read arrive makes no difference. An owned context
      ends in the same state with one callback; an orphaned one is deleted, or its file is about
      to be closed, and only two fields that nobody reads any more may differ. */
  lemma NoticesCommute(c: Ctx)
    requires Inv(c) && |c.tasks| == 2
    ensures Runs(c, [Run(0, Nothing), Run(0, Nothing)]) && Runs(c, [Run(1, Nothing), Run(0, Nothing)])
    ensures var a, b := Exec(c, [Run(0, Nothing), Run(0, Nothing)]), Exec(c, [Run(1, Nothing), Run(0, Nothing)]);
            if c.orphaned then SameDeletion(c, a, b) else SameAnswer(c, a, b)
  {
    NoticesCommuteSteps(c);
    var a, b := Step(c, Run(0, Nothing)), Step(c, Run(1, Nothing));
    TwoSteps(c, Run(0, Nothing), Run(0, Nothing));
    TwoSteps(c, Run(1, Nothing), Run(0, Nothing));
    hide Inv, Step, Enabled, Runs, Exec;
  }

  lemma TwoSteps(c: Ctx, e: Event, f: Event)
    requires Inv(c) && Enabled(c, e) && Inv(Step(c, e)) && Enabled(Step(c, e), f)
    ensures Runs(c, [e, f]) && Exec(c, [e, f]) == Step(Step(c, e), f)
  {
    hide Step, Inv, Enabled;
    var c1 := Step(c, e);
    StepKeepsInv(c1, f);
    var c2 := Step(c1, f);
    assert [e, f][1..] == [f] && [f][1..] == [];
    assert Runs(c2, []) && Exec(c2, []) == c2;
    assert Runs(c1, [f]) && Exec(c1, [f]) == c2;
  }

  /** The fields while a read has neither notice. */
  predicate Fresh(c: Ctx) { c.readInitiated && c.callback.Some? && c.inProgress && !c.readCompleted && !c.ioReceived }

  lemma FirstResult(c: Ctx, ret: bool, bytes: nat, error: nat)
    requires Fresh(c) && Completes(ret, error)
    ensures ReadAsyncResult(c, ret, bytes, error)
            == c.(readCompleted := true, result := if ret then Count(bytes) else c.result,
                  w := c.w.(readNotices := c.w.readNotices + {c.callback.value}))
  {
  }

  lemma FirstCompletion(c: Ctx, bytes: nat, error: nat)
    requires Fresh(c) && (!c.orphaned && error == ERROR_SUCCESS ==> c.result in {Count(0), Count(bytes)})
    ensures OnIOCompleted(c, bytes, error)
            == c.(ioReceived := true, result := if c.orphaned then c.result else Value(bytes, error),
                  w := c.w.(ioNotices := c.w.ioNotices + {c.callback.value}))
  {
  }

  /** What the second notice does, whichever it is: the flags go down and the callback runs. */
  function Finished(c: Ctx, result: IoResult): Ctx
    requires c.callback.Some?
  {
    Call(c.(readInitiated := false, ioReceived := false, readCompleted := false, inProgress := false, callback := None,
            buffer := None, result := result), c.callback.value, result)
  }

  lemma SecondCompletion(c: Ctx, bytes: nat, error: nat)
    requires c.readInitiated && c.callback.Some? && c.inProgress && c.readCompleted
    requires !c.orphaned && error == ERROR_SUCCESS ==> c.result in {Count(0), Count(bytes)}
    ensures var d := c.(w := c.w.(ioNotices := c.w.ioNotices + {c.callback.value}));
            OnIOCompleted(c, bytes, error)
            == if c.orphaned then DeleteOrphanedContext(d.(ioReceived := true)) else Finished(d, Value(bytes, error))
  {
  }

  lemma SecondResult(c: Ctx, ret: bool, bytes: nat, error: nat)
    requires c.readInitiated && c.callback.Some? && c.inProgress && c.ioReceived && Completes(ret, error)
    ensures var d := c.(w := c.w.(readNotices := c.w.readNotices + {c.callback.value}));
            ReadAsyncResult(c, ret, bytes, error)
            == if c.orphaned then DeleteOrphanedContext(d) else Finished(d, if ret then Count(bytes) else c.result)
  {
  }

  /** Both notices on the fields alone, in either order. */
  lemma HandlersCommute(c: Ctx, ts: seq<Task>, us: seq<Task>, ret: bool, bytes: nat, error: nat, ioBytes: nat, ioError: nat)
    requires Fresh(c) && c.result == Count(0) && Completes(ret, error) && Promise(ret, bytes, error, ioBytes, ioError)
    ensures var a, b := ReadAsyncResult(c.(tasks := ts), ret, bytes, error), OnIOCompleted(c.(tasks := us), ioBytes, ioError);
            && a.tasks == ts && b.tasks == us
            && a.callback.Some? && a.inProgress && b.callback.Some? && b.inProgress
            && (!a.orphaned && ioError == ERROR_SUCCESS ==> a.result in {Count(0), Count(ioBytes)})
            && var a2, b2 := OnIOCompleted(a.(tasks := []), ioBytes, ioError),
                             ReadAsyncResult(b.(tasks := []), ret, bytes, error);
               if c.orphaned then SameDeletion(c, a2, b2) else SameAnswer(c, a2, b2)
  {
    FirstResult(c.(tasks := ts), ret, bytes, error);
    FirstCompletion(c.(tasks := us), ioBytes, ioError);
    var a, b := ReadAsyncResult(c.(tasks := ts), ret, bytes, error), OnIOCompleted(c.(tasks := us), ioBytes, ioError);
    hide ReadAsyncResult, OnIOCompleted;
    SecondCompletion(a.(tasks := []), ioBytes, ioError);
    SecondResult(b.(tasks := []), ret, bytes, error);
  }

  lemma TwoNotices(c: Ctx)
    requires Inv(c) && |c.tasks| == 2
    ensures var t, u := c.tasks[0], c.tasks[1];
            && t.ReadResult? && u.IoCompletion? && Completes(t.ret, t.error) && Fresh(c) && c.result == Count(0)
            && Promise(t.ret, t.bytes, t.error, u.bytes, u.error)
  {
    assert Reading(c, c.nextOp - 1);
  }

  /** Delivering a notice is running its handler on what is left. */
  lemma NoticeStep(c: Ctx, k: nat, rest: seq<Task>)
    requires Inv(c) && k < |c.tasks| && rest == c.tasks[..k] + c.tasks[k + 1..]
    requires c.tasks[k].ReadResult? || c.tasks[k].IoCompletion?
    ensures Enabled(c, Run(k, Nothing)) && Inv(Step(c, Run(k, Nothing)))
    ensures var t, d := c.tasks[k], c.(tasks := rest);
            && Deliverable(d, t)
            && Step(c, Run(k, Nothing)) == if t.ReadResult? then ReadAsyncResult(d, t.ret, t.bytes, t.error)
                                           else OnIOCompleted(d, t.bytes, t.error)
  {
    hide ReadAsyncResult, OnIOCompleted, Rank, CallsAtMostOnce;
    assert Enabled(c, Run(k, Nothing));
    RunLaws(c, k, Nothing);
    hide Inv;
  }

  lemma NoticesCommuteSteps(c: Ctx)
    requires Inv(c) && |c.tasks| == 2
    ensures Enabled(c, Run(0, Nothing)) && Enabled(c, Run(1, Nothing))
    ensures var a, b := Step(c, Run(0, Nothing)), Step(c, Run(1, Nothing));
            && Inv(a) && Inv(b) && Enabled(a, Run(0, Nothing)) && Enabled(b, Run(0, Nothing))
            && var a2, b2 := Step(a, Run(0, Nothing)), Step(b, Run(0, Nothing));
               if c.orphaned then SameDeletion(c, a2, b2) else SameAnswer(c, a2, b2)
  {
    hide *;
    TwoNotices(c);
    var t, u := c.tasks[0], c.tasks[1];
    assert c.tasks[..0] + c.tasks[1..] == [u] && c.tasks[..1] + c.tasks[2..] == [t];
    assert [u][..0] + [u][1..] == [] && [t][..0] + [t][1..] == [];
    HandlersCommute(c, [u], [t], t.ret, t.bytes, t.error, u.bytes, u.error);
    NoticeStep(c, 0, [u]);
    NoticeStep(c, 1, [t]);
    NoticeStep(Step(c, Run(0, Nothing)), 0, []);
    NoticeStep(Step(c, Run(1, Nothing)), 0, []);
  }
}
