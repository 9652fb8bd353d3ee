/** The submit/complete handshake of core/rtw_cmd.c as interleaved steps. Any number of
    submitters each put a `submit_ctx` on their own stack, enqueue a `cmd_obj`, wait with a
    timeout and detach under `sctx_mutex`; executors complete under the same mutex and free. */
module CmdHandshake {

  type Id = nat

  /** What the surroundings allow: whether a lock attempt can come back without the lock (the
      result of the interruptible lock is ignored, and core/rtw_ap.c completes without locking),
      whether a command may be larger than the command buffer, and whether a submitter may wait
      for a command that enqueueing itself handles and frees. */
  datatype System = System(submitterSkipsLock: bool, executorSkipsLock: bool, oversize: bool, inlineWaits: bool)

  datatype SubmitterPc = SNew | SWait | SLock | STest | SDetach | SUnlock | SRead | SReturned
  datatype ExecutorPc = EIdle | EQueued | ELock | ETest | EStatus | EComplete | EClear | EUnlock | EFree | EFinished

  datatype Code = Success | CmdError | CmdDrop
  datatype Status = Submitted | Done(code: Code)

  /** What happened that must not: a write to a stack frame that is gone, or to freed memory. */
  datatype Fault = NoFault | DeadContext | FreedObject

  /** One command: its shape, the two threads' positions, the object, the context and the frees.
      Some submitters that wait do not read the outcome: `rtw_createbss_cmd` does not,
      `_rtw_run_in_thread_cmd` does. */
  datatype Cmd = Cmd(
    wait: bool, hasParm: bool, oversize: bool, heeds: bool,
    spc: SubmitterPc, epc: ExecutorPc,
    sctx: bool,          // cmd_obj.sctx points at the submitter's context
    status: Status,      // submit_ctx.status
    completed: bool,     // submit_ctx.done
    code: Code,          // what the executor reports
    ret: bool,           // what the submitter returns
    objFrees: nat, parmFrees: nat,
    fault: Fault)

  datatype Mutex = Free | Submitter(id: Id) | Executor(id: Id)
  datatype State = State(cmds: map<Id, Cmd>, mutex: Mutex)

  /** Where a command goes when it is enqueued (`rtw_enqueue_cmd`, `rtw_enqueue_phl_cmd`): dropped
      by the filter, refused by the queue, handled on the spot and freed, or queued. */
  datatype Admission = Filtered | Refused | Inline | Accepted

  datatype Step =
    | Prepare(id: Id, wait: bool, hasParm: bool, oversize: bool, heeds: bool)
    | Enqueue(id: Id, admission: Admission)
    | Wake(id: Id, timeout: bool)
    | Submit(id: Id, skip: bool)
    | Run(id: Id, code: Code)
    | Execute(id: Id, skip: bool)

  function Init(): State {
    State(map[], Free)
  }

  predicate Alive(c: Cmd) {
    c.spc != SReturned
  }

  /** `rtw_free_cmd_obj`: the parameter buffer, if any, then the object. */
  function Freed(c: Cmd): (r: Cmd)
    ensures r.spc == c.spc
  {
    c.(objFrees := c.objFrees + 1, parmFrees := c.parmFrees + if c.hasParm then 1 else 0)
  }

  /** A store through `cmd_obj`. */
  function ObjectWrite(c: Cmd, sctx: bool): (r: Cmd)
    ensures r.spc == c.spc
  {
    if c.objFrees > 0 then c.(fault := FreedObject) else c.(sctx := sctx)
  }

  /** A store through `*sctx`: it needs the pointer and the submitter's frame. */
  function ContextWrite(c: Cmd, status: Status, completed: bool): (r: Cmd)
    ensures r.spc == c.spc
  {
    if !c.sctx || !Alive(c) then c.(fault := DeadContext) else c.(status := status, completed := completed)
  }

  predicate Enabled(sys: System, s: State, step: Step) {
    match step
    case Prepare(id, wait, hasParm, oversize, heeds) => id !in s.cmds && (oversize ==> sys.oversize)
    case Enqueue(id, admission) =>
      id in s.cmds && s.cmds[id].spc == SNew && (admission == Inline && s.cmds[id].wait ==> sys.inlineWaits)
    case Wake(id, timeout) => id in s.cmds && s.cmds[id].spc == SWait && (timeout || s.cmds[id].completed)
    case Submit(id, skip) =>
      && id in s.cmds && s.cmds[id].spc in {SLock, STest, SDetach, SUnlock, SRead}
      && (s.cmds[id].spc == SLock ==> if skip then sys.submitterSkipsLock else s.mutex == Free)
    case Run(id, code) => id in s.cmds && s.cmds[id].epc == EQueued
    case Execute(id, skip) =>
      && id in s.cmds && s.cmds[id].epc in {ELock, ETest, EStatus, EComplete, EClear, EUnlock, EFree}
      && (s.cmds[id].epc == ELock ==> if skip then sys.executorSkipsLock else s.mutex == Free)
  }

  /** `rtw_enqueue_cmd`: a filtered or oversized command is freed here; what is returned is the
      filter's verdict, which for an oversized command that passes the filter is success. A command
      handled on the spot is freed too, and reported as the handler went; here it succeeds, a
      failure being a refusal. */
  function EnqueueCmd(c: Cmd, admission: Admission): Cmd {
    if admission == Filtered then Freed(c).(epc := EFinished, spc := SReturned, ret := false)
    else if c.oversize then Freed(c).(epc := EFinished, spc := if c.wait then SWait else SReturned, ret := true)
    else if admission == Refused then Freed(c).(epc := EFinished, spc := SReturned, ret := false)
    else if admission == Inline then Freed(c).(epc := EFinished, spc := if c.wait then SWait else SReturned, ret := true)
    else c.(epc := EQueued, spc := if c.wait then SWait else SReturned, ret := true)
  }

  /** The submitter after its wait: lock, test its own status, detach, unlock, read the outcome. */
  function SubmitterStep(c: Cmd): Cmd {
    match c.spc
    case SLock => c.(spc := STest)
    case STest => c.(spc := if c.status == Submitted then SDetach else SUnlock)
    case SDetach => ObjectWrite(c, false).(spc := SUnlock)
    case SUnlock => c.(spc := SRead)
    case SRead => c.(spc := SReturned, ret := if c.heeds then c.status == Done(Success) else c.ret)
    case _ => c
  }

  /** The executor after the handler (`rtw_run_cmd` from `post_process` on). */
  function ExecutorStep(c: Cmd): Cmd {
    match c.epc
    case ELock => c.(epc := ETest)
    case ETest => c.(epc := if c.sctx then EStatus else EUnlock)
    case EStatus => ContextWrite(c, Done(c.code), c.completed).(epc := EComplete)
    case EComplete => ContextWrite(c, c.status, true).(epc := EClear)
    case EClear => ObjectWrite(c, false).(epc := EUnlock)
    case EUnlock => c.(epc := EFree)
    case EFree => Freed(c).(epc := EFinished)
    case _ => c
  }

  function MutexAfter(m: Mutex, locks: bool, unlocks: bool, skip: bool, me: Mutex): Mutex {
    if locks && !skip then me else if unlocks && m == me then Free else m
  }

  function Apply(sys: System, s: State, step: Step): State
    requires Enabled(sys, s, step)
  {
    match step
    case Prepare(id, wait, hasParm, oversize, heeds) =>
      s.(cmds := s.cmds[id := Cmd(wait, hasParm, oversize, heeds, SNew, EIdle, wait, Submitted, false, Success, false, 0, 0, NoFault)])
    case Enqueue(id, admission) => s.(cmds := s.cmds[id := EnqueueCmd(s.cmds[id], admission)])
    case Wake(id, timeout) => s.(cmds := s.cmds[id := s.cmds[id].(spc := SLock)])
    case Submit(id, skip) =>
      var c := s.cmds[id];
      State(s.cmds[id := SubmitterStep(c)], MutexAfter(s.mutex, c.spc == SLock, c.spc == SUnlock, skip, Submitter(id)))
    case Run(id, code) => s.(cmds := s.cmds[id := s.cmds[id].(epc := ELock, code := code)])
    case Execute(id, skip) =>
      var c := s.cmds[id];
      State(s.cmds[id := ExecutorStep(c)], MutexAfter(s.mutex, c.epc == ELock, c.epc == EUnlock, skip, Executor(id)))
  }

  ghost predicate Legal(sys: System, steps: seq<Step>)
    decreases |steps|, 0
  {
    steps == [] ||
    (Legal(sys, steps[..|steps| - 1]) && Enabled(sys, After(sys, steps[..|steps| - 1]), steps[|steps| - 1]))
  }

  /** The state after a legal run. */
  ghost function After(sys: System, steps: seq<Step>): State
    requires Legal(sys, steps)
    decreases |steps|, 1
  {
    if steps == [] then Init() else Apply(sys, After(sys, steps[..|steps| - 1]), steps[|steps| - 1])
  }

  // ---------------------------------------------------------------- the invariant

  predicate Locked(c: Cmd, m: Mutex, id: Id) {
    && (m == Executor(id) <==> c.epc in {ETest, EStatus, EComplete, EClear, EUnlock})
    && (m == Submitter(id) <==> c.spc in {STest, SDetach, SUnlock})
  }

  predicate Memory(c: Cmd) {
    && c.objFrees == (if c.epc == EFinished then 1 else 0)
    && c.parmFrees == (if c.epc == EFinished && c.hasParm then 1 else 0)
  }

  /** How far the submitter's view and the executor's progress can be apart. */
  predicate Handshake(c: Cmd) {
    && (c.epc == EIdle <==> c.spc == SNew)
    && (!c.wait ==> !c.sctx && c.spc in {SNew, SReturned})
    && (c.wait && c.spc == SNew ==> c.sctx && c.status == Submitted)
    && (c.epc in {EStatus, EComplete, EClear} ==> c.sctx && Alive(c))
    && (c.spc in {SWait, SLock, STest, SDetach} ==>
        if c.status == Submitted then c.sctx && c.epc in {EQueued, ELock, ETest, EStatus}
        else c.epc in {EComplete, EClear, EUnlock, EFree, EFinished} && (c.sctx ==> c.epc in {EComplete, EClear}))
    && (c.spc == SDetach ==> c.status == Submitted)
    && (c.wait && c.spc in {SUnlock, SRead, SReturned} && c.epc != EFinished ==> !c.sctx)
    && (c.status.Done? ==> c.status == Done(c.code) && c.epc in {EComplete, EClear, EUnlock, EFree, EFinished})
    && (c.spc in {SUnlock, SRead, SReturned} && c.status.Done? ==> c.epc in {EFree, EFinished})
    && (c.wait && c.heeds && c.spc == SReturned && c.ret ==> c.status == Done(Success))
  }

  ghost predicate CmdInv(c: Cmd, m: Mutex, id: Id) {
    !c.oversize && c.fault == NoFault && Locked(c, m, id) && Memory(c) && Handshake(c)
  }

  ghost predicate Inv(s: State) {
    && (forall id :: id in s.cmds ==> CmdInv(s.cmds[id], s.mutex, id))
    && (s.mutex.Submitter? || s.mutex.Executor? ==> s.mutex.id in s.cmds)
  }

  predicate Careful(sys: System) {
    !sys.submitterSkipsLock && !sys.executorSkipsLock && !sys.oversize && !sys.inlineWaits
  }

  lemma SubmitterKeeps(c: Cmd, m: Mutex, id: Id)
    requires CmdInv(c, m, id) && c.spc in {SLock, STest, SDetach, SUnlock, SRead} && (c.spc == SLock ==> m == Free)
    ensures CmdInv(SubmitterStep(c), MutexAfter(m, c.spc == SLock, c.spc == SUnlock, false, Submitter(id)), id)
  {
  }

  lemma ExecutorKeeps(c: Cmd, m: Mutex, id: Id)
    requires CmdInv(c, m, id) && c.epc in {ELock, ETest, EStatus, EComplete, EClear, EUnlock, EFree} && (c.epc == ELock ==> m == Free)
    ensures CmdInv(ExecutorStep(c), MutexAfter(m, c.epc == ELock, c.epc == EUnlock, false, Executor(id)), id)
  {
  }

  lemma EnqueueKeeps(c: Cmd, m: Mutex, id: Id, admission: Admission)
    requires CmdInv(c, m, id) && c.spc == SNew && (admission == Inline ==> !c.wait)
    ensures CmdInv(EnqueueCmd(c, admission), m, id)
  {
  }

  /** No step of a careful system leaves the invariant. */
  lemma StepKeepsInv(sys: System, s: State, step: Step)
    requires Careful(sys) && Inv(s) && Enabled(sys, s, step)
    ensures Inv(Apply(sys, s, step))
  {
    var s' := Apply(sys, s, step);
    var id := step.id;
    assert id in s.cmds ==> CmdInv(s.cmds[id], s.mutex, id);
    assert CmdInv(s'.cmds[id], s'.mutex, id) by {
      match step
      case Prepare(_, _, _, _, _) =>
      case Enqueue(_, admission) => EnqueueKeeps(s.cmds[id], s.mutex, id, admission);
      case Submit(_, _) => SubmitterKeeps(s.cmds[id], s.mutex, id);
      case Execute(_, _) => ExecutorKeeps(s.cmds[id], s.mutex, id);
      case _ =>
    }
    forall i | i in s'.cmds && i != id ensures CmdInv(s'.cmds[i], s'.mutex, i) {
      assert CmdInv(s.cmds[i], s.mutex, i);
    }
  }

  lemma {:induction false} InvHolds(sys: System, steps: seq<Step>)
    requires Careful(sys) && Legal(sys, steps)
    ensures Inv(After(sys, steps))
  {
    if steps != [] {
      var n := |steps| - 1;
      InvHolds(sys, steps[..n]);
      StepKeepsInv(sys, After(sys, steps[..n]), steps[n]);
    }
  }

  // ---------------------------------------------------------------- safety, exactly

  ghost predicate Faultless(s: State) {
    forall id :: id in s.cmds ==> s.cmds[id].fault == NoFault && s.cmds[id].objFrees <= 1
  }

  ghost predicate SafeInEveryRun(sys: System) {
    forall steps :: Legal(sys, steps) ==> Faultless(After(sys, steps))
  }

  /** Append a step to a run. */
  lemma Extend(sys: System, steps: seq<Step>, step: Step)
    requires Legal(sys, steps) && Enabled(sys, After(sys, steps), step)
    ensures Legal(sys, steps + [step]) && After(sys, steps + [step]) == Apply(sys, After(sys, steps), step)
  {
    assert (steps + [step])[..|steps|] == steps;
  }

  /** One more step of a run with a single command. */
  lemma Then(sys: System, steps: seq<Step>, c: Cmd, m: Mutex, step: Step) returns (steps': seq<Step>, c': Cmd, m': Mutex)
    requires Legal(sys, steps) && After(sys, steps) == State(map[0 := c], m)
    requires step.id == 0 && Enabled(sys, State(map[0 := c], m), step)
    ensures Legal(sys, steps') && After(sys, steps') == State(map[0 := c'], m')
    ensures c' == Apply(sys, State(map[0 := c], m), step).cmds[0]
    ensures m' == Apply(sys, State(map[0 := c], m), step).mutex
  {
    Extend(sys, steps, step);
    steps' := steps + [step];
    var s' := Apply(sys, State(map[0 := c], m), step);
    c', m' := s'.cmds[0], s'.mutex;
    assert s'.cmds == map[0 := c'];
  }

  /** The executor's next step in a run with a single command. */
  lemma ThenExecute(sys: System, steps: seq<Step>, c: Cmd, m: Mutex, skip: bool) returns (steps': seq<Step>, c': Cmd, m': Mutex)
    requires Legal(sys, steps) && After(sys, steps) == State(map[0 := c], m)
    requires c.epc != EIdle && c.epc != EQueued && c.epc != EFinished
    requires c.epc == ELock ==> if skip then sys.executorSkipsLock else m == Free
    ensures Legal(sys, steps') && After(sys, steps') == State(map[0 := c'], m')
    ensures c' == ExecutorStep(c) && m' == MutexAfter(m, c.epc == ELock, c.epc == EUnlock, skip, Executor(0))
  {
    steps', c', m' := Then(sys, steps, c, m, Execute(0, skip));
  }

  /** The submitter's next step after its wait. */
  lemma ThenSubmit(sys: System, steps: seq<Step>, c: Cmd, m: Mutex, skip: bool) returns (steps': seq<Step>, c': Cmd, m': Mutex)
    requires Legal(sys, steps) && After(sys, steps) == State(map[0 := c], m)
    requires c.spc != SNew && c.spc != SWait && c.spc != SReturned
    requires c.spc == SLock ==> if skip then sys.submitterSkipsLock else m == Free
    ensures Legal(sys, steps') && After(sys, steps') == State(map[0 := c'], m')
    ensures c' == SubmitterStep(c) && m' == MutexAfter(m, c.spc == SLock, c.spc == SUnlock, skip, Submitter(0))
  {
    steps', c', m' := Then(sys, steps, c, m, Submit(0, skip));
  }

  function Fresh(oversize: bool): Cmd {
    Cmd(true, true, oversize, true, SNew, EIdle, true, Submitted, false, Success, false, 0, 0, NoFault)
  }

  /** A waiting submitter whose command is reported accepted. */
  lemma Begin(sys: System, oversize: bool, admission: Admission) returns (steps: seq<Step>)
    requires (oversize ==> sys.oversize) && (admission == Accepted || (admission == Inline && sys.inlineWaits))
    ensures Legal(sys, steps)
    ensures After(sys, steps) == State(map[0 := EnqueueCmd(Fresh(oversize), admission).(spc := SLock)], Free)
  {
    var prepare := Prepare(0, true, true, oversize, true);
    Extend(sys, [], prepare);
    steps := [] + [prepare];
    assert After(sys, steps) == State(map[0 := Fresh(oversize)], Free);
    var c, m;
    steps, c, m := Then(sys, steps, Fresh(oversize), Free, Enqueue(0, admission));
    steps, c, m := Then(sys, steps, c, m, Wake(0, true));
  }

  /** The executor, alone with the mutex free, completes a command ... */
  lemma Complete(sys: System, steps0: seq<Step>, c0: Cmd) returns (steps: seq<Step>)
    requires Legal(sys, steps0) && After(sys, steps0) == State(map[0 := c0], Free)
    requires c0.epc == ELock && c0.sctx && Alive(c0)
    ensures Legal(sys, steps)
    ensures After(sys, steps) == State(map[0 := c0.(epc := EClear, status := Done(c0.code), completed := true)], Executor(0))
  {
    steps := Look(sys, steps0, c0);
    steps := Signal(sys, steps, c0.(epc := EStatus));
  }

  lemma Look(sys: System, steps0: seq<Step>, c0: Cmd) returns (steps: seq<Step>)
    requires Legal(sys, steps0) && After(sys, steps0) == State(map[0 := c0], Free)
    requires c0.epc == ELock && c0.sctx && Alive(c0)
    ensures Legal(sys, steps) && After(sys, steps) == State(map[0 := c0.(epc := EStatus)], Executor(0))
  {
    var c, m;
    steps, c, m := ThenExecute(sys, steps0, c0, Free, false);
    steps, c, m := ThenExecute(sys, steps, c, m, false);
  }

  lemma Signal(sys: System, steps0: seq<Step>, c0: Cmd) returns (steps: seq<Step>)
    requires Legal(sys, steps0) && After(sys, steps0) == State(map[0 := c0], Executor(0))
    requires c0.epc == EStatus && c0.sctx && Alive(c0)
    ensures Legal(sys, steps)
    ensures After(sys, steps) == State(map[0 := c0.(epc := EClear, status := Done(c0.code), completed := true)], Executor(0))
  {
    var c, m;
    steps, c, m := ThenExecute(sys, steps0, c0, Executor(0), false);
    assert c == c0.(epc := EComplete, status := Done(c0.code)) && m == Executor(0);
    steps, c, m := ThenExecute(sys, steps, c, m, false);
    assert c == c0.(epc := EClear, status := Done(c0.code), completed := true) && m == Executor(0);
  }

  /** ... lets go of it ... */
  lemma LetGo(sys: System, steps0: seq<Step>, c0: Cmd) returns (steps: seq<Step>)
    requires Legal(sys, steps0) && After(sys, steps0) == State(map[0 := c0], Executor(0))
    requires c0.epc == EClear && c0.objFrees == 0
    ensures Legal(sys, steps) && After(sys, steps) == State(map[0 := c0.(epc := EFree, sctx := false)], Free)
  {
    var c, m;
    steps, c, m := ThenExecute(sys, steps0, c0, Executor(0), false);
    assert c == c0.(epc := EUnlock, sctx := false);
    steps, c, m := ThenExecute(sys, steps, c, m, false);
    assert c == c0.(epc := EFree, sctx := false);
  }

  /** ... and frees it. */
  lemma Finish(sys: System, steps0: seq<Step>, c0: Cmd) returns (steps: seq<Step>, c: Cmd)
    requires Legal(sys, steps0) && After(sys, steps0) == State(map[0 := c0], Executor(0))
    requires c0.epc == EClear && c0.objFrees == 0
    ensures Legal(sys, steps) && After(sys, steps) == State(map[0 := c], Free)
    ensures c.objFrees == 1 && c.spc == c0.spc && c.fault == c0.fault
  {
    var m;
    steps := LetGo(sys, steps0, c0);
    steps, c, m := ThenExecute(sys, steps, c0.(epc := EFree, sctx := false), Free, false);
  }

  /** The submitter goes on without the lock after seeing its status still submitted; the executor
      completes and frees; the submitter then writes the freed object. */
  lemma SubmitterUnlockedFails(sys: System) returns (steps: seq<Step>)
    requires sys.submitterSkipsLock
    ensures Legal(sys, steps) && !Faultless(After(sys, steps))
  {
    var c, m;
    steps, c := Bypass(sys);
    steps := Complete(sys, steps, c);
    steps, c := Finish(sys, steps, c.(epc := EClear, status := Done(c.code), completed := true));
    steps, c, m := ThenSubmit(sys, steps, c, Free, false);
    assert After(sys, steps).cmds[0] == c && c.fault == FreedObject;
  }

  /** The submitter has looked at its status without the lock while the command is being run. */
  lemma Bypass(sys: System) returns (steps: seq<Step>, c: Cmd)
    requires sys.submitterSkipsLock
    ensures Legal(sys, steps) && After(sys, steps) == State(map[0 := c], Free)
    ensures c.spc == SDetach && c.epc == ELock && c.sctx && Alive(c) && c.objFrees == 0 && c.fault == NoFault
  {
    steps := Begin(sys, false, Accepted);
    var m;
    c, m := EnqueueCmd(Fresh(false), Accepted).(spc := SLock), Free;
    steps, c, m := Then(sys, steps, c, m, Run(0, Success));
    steps, c, m := ThenSubmit(sys, steps, c, m, true);
    steps, c, m := ThenSubmit(sys, steps, c, m, false);
  }

  /** The executor sees the context and goes on without the lock; the submitter times out, detaches
      and returns; the executor then writes a stack frame that is gone. */
  lemma ExecutorUnlockedFails(sys: System) returns (steps: seq<Step>)
    requires sys.executorSkipsLock
    ensures Legal(sys, steps) && !Faultless(After(sys, steps))
  {
    steps := Begin(sys, false, Accepted);
    var c0 := EnqueueCmd(Fresh(false), Accepted).(spc := SLock);
    var c, m := c0, Free;
    steps, c, m := Then(sys, steps, c, m, Run(0, Success));
    steps, c, m := ThenExecute(sys, steps, c, m, true);
    steps, c, m := ThenExecute(sys, steps, c, m, false);
    assert c == c0.(epc := EStatus) && m == Free;
    steps := Detach(sys, steps, c);
    steps := Abandon(sys, steps, c.(spc := SUnlock, sctx := false));
  }

  /** A submitter that wakes with its status unchanged is about to detach. */
  lemma AboutToDetach(sys: System, steps0: seq<Step>, c0: Cmd) returns (steps: seq<Step>)
    requires Legal(sys, steps0) && After(sys, steps0) == State(map[0 := c0], Free)
    requires c0.spc == SLock && c0.status == Submitted
    ensures Legal(sys, steps) && After(sys, steps) == State(map[0 := c0.(spc := SDetach)], Submitter(0))
  {
    var c, m;
    steps, c, m := ThenSubmit(sys, steps0, c0, Free, false);
    assert c == c0.(spc := STest) && m == Submitter(0);
    steps, c, m := ThenSubmit(sys, steps, c, m, false);
    assert c == c0.(spc := SDetach);
  }

  /** A submitter that times out detaches and returns. */
  lemma Detach(sys: System, steps0: seq<Step>, c0: Cmd) returns (steps: seq<Step>)
    requires Legal(sys, steps0) && After(sys, steps0) == State(map[0 := c0], Free)
    requires c0.spc == SLock && c0.status == Submitted && c0.objFrees == 0
    ensures Legal(sys, steps)
    ensures After(sys, steps) == State(map[0 := c0.(spc := SUnlock, sctx := false)], Submitter(0))
  {
    var c, m;
    steps := AboutToDetach(sys, steps0, c0);
    steps, c, m := ThenSubmit(sys, steps, c0.(spc := SDetach), Submitter(0), false);
  }

  lemma Abandon(sys: System, steps0: seq<Step>, c0: Cmd) returns (steps: seq<Step>)
    requires Legal(sys, steps0) && After(sys, steps0) == State(map[0 := c0], Submitter(0))
    requires c0.spc == SUnlock && c0.epc == EStatus
    ensures Legal(sys, steps) && !Faultless(After(sys, steps))
  {
    var c, m;
    steps, c, m := ThenSubmit(sys, steps0, c0, Submitter(0), false);
    assert c == c0.(spc := SRead) && m == Free;
    steps, c, m := ThenSubmit(sys, steps, c, m, false);
    steps, c, m := ThenExecute(sys, steps, c, m, false);
    assert After(sys, steps).cmds[0] == c && c.fault == DeadContext;
  }

  /** A submitter that wakes to a freed object detaches from it. */
  lemma DetachFreed(sys: System, steps0: seq<Step>, c0: Cmd) returns (steps: seq<Step>)
    requires Legal(sys, steps0) && After(sys, steps0) == State(map[0 := c0], Free)
    requires c0.spc == SLock && c0.status == Submitted && c0.objFrees > 0
    ensures Legal(sys, steps) && !Faultless(After(sys, steps))
  {
    var c, m;
    steps := AboutToDetach(sys, steps0, c0);
    steps, c, m := ThenSubmit(sys, steps, c0.(spc := SDetach), Submitter(0), false);
    assert After(sys, steps).cmds[0] == c && c.fault == FreedObject;
  }

  /** An oversized command that passes the filter is freed and reported accepted; its submitter
      times out and detaches from the freed object. */
  lemma OversizeFails(sys: System) returns (steps: seq<Step>)
    requires sys.oversize
    ensures Legal(sys, steps) && !Faultless(After(sys, steps))
  {
    steps := Begin(sys, true, Accepted);
    steps := DetachFreed(sys, steps, EnqueueCmd(Fresh(true), Accepted).(spc := SLock));
  }

  /** So does the submitter of a command that enqueueing handles and frees, if it waits. */
  lemma InlineWaitFails(sys: System) returns (steps: seq<Step>)
    requires sys.inlineWaits
    ensures Legal(sys, steps) && !Faultless(After(sys, steps))
  {
    steps := Begin(sys, false, Inline);
    steps := DetachFreed(sys, steps, EnqueueCmd(Fresh(false), Inline).(spc := SLock));
  }

  /** The handshake is safe in every interleaving exactly when both sides really hold the mutex,
      no command exceeds the command buffer, and nobody waits for a command handled on the spot. */
  lemma SafeExactlyWhenCareful(sys: System)
    ensures SafeInEveryRun(sys) <==> Careful(sys)
  {
    if Careful(sys) {
      forall steps | Legal(sys, steps) ensures Faultless(After(sys, steps)) {
        InvHolds(sys, steps);
      }
    } else {
      var steps;
      if sys.submitterSkipsLock {
        steps := SubmitterUnlockedFails(sys);
      } else if sys.executorSkipsLock {
        steps := ExecutorUnlockedFails(sys);
      } else if sys.oversize {
        steps := OversizeFails(sys);
      } else {
        steps := InlineWaitFails(sys);
      }
      assert Legal(sys, steps) && !Faultless(After(sys, steps));
    }
  }

  // ---------------------------------------------------------------- what a finished command leaves

  /** Once both threads are through with a command its object and its parameter buffer have been
      freed exactly once, and a submitter that waits and reads the outcome reports success only for
      a handler that did. */
  lemma FinishedCommand(sys: System, steps: seq<Step>, id: Id)
    requires Careful(sys) && Legal(sys, steps) && id in After(sys, steps).cmds
    ensures var c := After(sys, steps).cmds[id];
      && (c.epc == EFinished <==> c.objFrees == 1)
      && (c.epc == EFinished ==> c.parmFrees == if c.hasParm then 1 else 0)
      && (c.epc != EFinished ==> c.objFrees == c.parmFrees == 0)
      && (c.wait && c.heeds && c.spc == SReturned && c.ret ==> c.code == Success && c.epc in {EFree, EFinished})
  {
    InvHolds(sys, steps);
    assert CmdInv(After(sys, steps).cmds[id], After(sys, steps).mutex, id);
  }

  // ---------------------------------------------------------------- what is reported

  datatype Option<T> = None | Some(value: T)

  /** What the handler of a command answered, if it was run. */
  ghost function Ran(steps: seq<Step>, id: Id): Option<Code> {
    if steps == [] then None
    else
      var step := steps[|steps| - 1];
      if step.Run? && step.id == id then Some(step.code) else Ran(steps[..|steps| - 1], id)
  }

  /** How a command was enqueued, if it was. */
  ghost function Admitted(steps: seq<Step>, id: Id): Option<Admission> {
    if steps == [] then None
    else
      var step := steps[|steps| - 1];
      if step.Enqueue? && step.id == id then Some(step.admission) else Admitted(steps[..|steps| - 1], id)
  }

  /** How often its handler was started. */
  ghost function Starts(steps: seq<Step>, id: Id): nat {
    if steps == [] then 0
    else
      var step := steps[|steps| - 1];
      Starts(steps[..|steps| - 1], id) + if step.Run? && step.id == id then 1 else 0
  }

  /** What has been done with a command so far. */
  datatype Past = Past(admitted: Option<Admission>, ran: Option<Code>, starts: nat)

  ghost function PastOf(steps: seq<Step>, id: Id): Past {
    Past(Admitted(steps, id), Ran(steps, id), Starts(steps, id))
  }

  const UNTOUCHED := Past(None, None, 0)

  function Grown(p: Past, step: Step, id: Id): Past {
    if step.id != id then p
    else match step
      case Enqueue(_, admission) => p.(admitted := Some(admission))
      case Run(_, code) => p.(ran := Some(code), starts := p.starts + 1)
      case _ => p
  }

  const AFTER_COMPLETION := {EClear, EUnlock, EFree, EFinished}

  /** The context is completed exactly when the executor is past completing one that was not
      abandoned, and a submitter that waits and reads the outcome reports what it finds. */
  predicate Told(c: Cmd) {
    && (c.completed <==> c.epc in AFTER_COMPLETION && c.status.Done?)
    && (c.wait && c.heeds && c.spc == SReturned ==> (c.ret <==> c.status == Done(Success)))
  }

  /** A command is run once if it was accepted, and never otherwise; the executor has the handler's
      answer from then on; and a submitter that reads no outcome reports whether it was taken. */
  predicate Recorded(c: Cmd, p: Past) {
    && (match p.admitted
        case None => c.epc == EIdle && c.spc == SNew && p == UNTOUCHED
        case Some(Accepted) => if c.epc == EQueued then p.starts == 0 else c.epc != EIdle && p.starts == 1 && p.ran == Some(c.code)
        case Some(_) => c.epc == EFinished && p.starts == 0 && p.ran == None && !c.status.Done?)
    && (c.spc != SNew && !(c.wait && c.heeds) ==>
          p.admitted.Some? && (c.ret <==> p.admitted.value in {Accepted, Inline}))
  }

  lemma EnqueueTold(c: Cmd, m: Mutex, id: Id, admission: Admission)
    requires CmdInv(c, m, id) && Told(c) && c.spc == SNew && (admission == Inline ==> !c.wait)
    ensures Told(EnqueueCmd(c, admission)) && Recorded(EnqueueCmd(c, admission), Past(Some(admission), None, 0))
  {
  }

  lemma SubmitterTold(c: Cmd, m: Mutex, id: Id)
    requires CmdInv(c, m, id) && Told(c) && c.spc in {SLock, STest, SDetach, SUnlock, SRead}
    ensures Told(SubmitterStep(c)) && forall p :: Recorded(c, p) ==> Recorded(SubmitterStep(c), p)
  {
  }

  lemma ExecutorTold(c: Cmd, m: Mutex, id: Id)
    requires CmdInv(c, m, id) && Told(c) && c.epc in {ELock, ETest, EStatus, EComplete, EClear, EUnlock, EFree}
    ensures Told(ExecutorStep(c)) && forall p :: Recorded(c, p) ==> Recorded(ExecutorStep(c), p)
  {
  }

  /** A command and its past agree, or it does not exist and has none. */
  predicate Chronicled(s: State, id: Id, p: Past) {
    if id in s.cmds then Told(s.cmds[id]) && Recorded(s.cmds[id], p) else p == UNTOUCHED
  }

  lemma StepTold(sys: System, s: State, step: Step, id: Id, p: Past)
    requires Careful(sys) && Inv(s) && Enabled(sys, s, step) && Chronicled(s, id, p)
    ensures Chronicled(Apply(sys, s, step), id, Grown(p, step, id))
  {
    if step.id == id && id in s.cmds {
      var c := s.cmds[id];
      assert CmdInv(c, s.mutex, id);
      match step
      case Enqueue(_, admission) => EnqueueTold(c, s.mutex, id, admission);
      case Submit(_, _) => SubmitterTold(c, s.mutex, id);
      case Execute(_, _) => ExecutorTold(c, s.mutex, id);
      case _ =>
    }
  }

  lemma {:induction false} AlwaysTold(sys: System, steps: seq<Step>, id: Id)
    requires Careful(sys) && Legal(sys, steps)
    ensures Chronicled(After(sys, steps), id, PastOf(steps, id))
  {
    if steps != [] {
      var n := |steps| - 1;
      AlwaysTold(sys, steps[..n], id);
      InvHolds(sys, steps[..n]);
      StepTold(sys, After(sys, steps[..n]), steps[n], id, PastOf(steps[..n], id));
      assert PastOf(steps, id) == Grown(PastOf(steps[..n], id), steps[n], id);
    }
  }

  /** Over every careful run the handler of a command is started once if the command was accepted
      and its executor is done, and not at all if it was not; and a submitter that reads no
      outcome reports exactly whether the command was taken. */
  lemma RunExactly(sys: System, steps: seq<Step>, id: Id)
    requires Careful(sys) && Legal(sys, steps) && id in After(sys, steps).cmds
    ensures var c := After(sys, steps).cmds[id];
      && Starts(steps, id) <= 1 && (Starts(steps, id) == 1 ==> Admitted(steps, id) == Some(Accepted))
      && (c.epc == EFinished ==> (Starts(steps, id) == 1 <==> Admitted(steps, id) == Some(Accepted)))
      && (c.spc == SReturned && !(c.wait && c.heeds) ==>
            (c.ret <==> Admitted(steps, id) == Some(Accepted) || Admitted(steps, id) == Some(Inline)))
  {
    AlwaysTold(sys, steps, id);
  }

  /** Over every careful run a submitter that waits and reads the outcome reports success exactly
      when its command's handler ran successfully and the executor completed it before the
      submitter gave up. */
  lemma SuccessExactly(sys: System, steps: seq<Step>, id: Id)
    requires Careful(sys) && Legal(sys, steps) && id in After(sys, steps).cmds
    ensures var c := After(sys, steps).cmds[id];
      c.wait && c.heeds && c.spc == SReturned ==> (c.ret <==> c.completed && Ran(steps, id) == Some(Success))
  {
    InvHolds(sys, steps);
    AlwaysTold(sys, steps, id);
    assert CmdInv(After(sys, steps).cmds[id], After(sys, steps).mutex, id);
  }

  /** No wake-up is lost: a waiting submitter can go on without its timeout exactly when the
      executor is past completing its command. */
  lemma WakesExactly(sys: System, steps: seq<Step>, id: Id)
    requires Careful(sys) && Legal(sys, steps) && id in After(sys, steps).cmds && After(sys, steps).cmds[id].spc == SWait
    ensures Enabled(sys, After(sys, steps), Wake(id, false)) <==> After(sys, steps).cmds[id].epc in {EClear, EUnlock, EFree, EFinished}
  {
    InvHolds(sys, steps);
    AlwaysTold(sys, steps, id);
    assert CmdInv(After(sys, steps).cmds[id], After(sys, steps).mutex, id);
  }

  // ---------------------------------------------------------------- no deadlock

  /** The step a thread of a command is due to take, if it waits for nothing but its turn. */
  function Due(s: State, id: Id): (step: Step)
    requires id in s.cmds
  {
    var c := s.cmds[id];
    if c.spc == SNew then Enqueue(id, Accepted)
    else if c.spc == SWait then Wake(id, true)
    else if c.spc in {STest, SDetach, SUnlock, SRead} then Submit(id, false)
    else if c.epc == EQueued then Run(id, Success)
    else if c.epc in {ETest, EStatus, EComplete, EClear, EUnlock, EFree} then Execute(id, false)
    else if c.spc == SLock then Submit(id, false)
    else Execute(id, false)
  }

  predicate Through(c: Cmd) {
    c.spc == SReturned && c.epc == EFinished
  }

  /** No deadlock: while some command is unfinished, a thread of a command that exists can go on. */
  lemma SomeStepPossible(sys: System, steps: seq<Step>, id: Id) returns (step: Step)
    requires Careful(sys) && Legal(sys, steps) && id in After(sys, steps).cmds && !Through(After(sys, steps).cmds[id])
    ensures Enabled(sys, After(sys, steps), step) && !step.Prepare?
  {
    InvHolds(sys, steps);
    var s := After(sys, steps);
    assert CmdInv(s.cmds[id], s.mutex, id);
    var who := if s.mutex == Free then id else s.mutex.id;
    assert CmdInv(s.cmds[who], s.mutex, who);
    step := if s.mutex.Executor? then Execute(who, false) else Due(s, who);
  }

  // ---------------------------------------------------------------- every run ends

  /** How many steps a submitter has before it at most. */
  function SubmitterRank(pc: SubmitterPc): nat {
    match pc
    case SNew => 7
    case SWait => 6
    case SLock => 5
    case STest => 4
    case SDetach => 3
    case SUnlock => 2
    case SRead => 1
    case SReturned => 0
  }

  function ExecutorRank(pc: ExecutorPc): nat {
    match pc
    case EIdle => 9
    case EQueued => 8
    case ELock => 7
    case ETest => 6
    case EStatus => 5
    case EComplete => 4
    case EClear => 3
    case EUnlock => 2
    case EFree => 1
    case EFinished => 0
  }

  function Rank(c: Cmd): nat {
    SubmitterRank(c.spc) + ExecutorRank(c.epc)
  }

  /** No command is run before it is enqueued. */
  predicate InOrder(c: Cmd) {
    c.spc == SNew ==> c.epc == EIdle
  }

  ghost predicate Orderly(s: State) {
    forall id | id in s.cmds :: InOrder(s.cmds[id])
  }

  lemma EnqueueLowers(c: Cmd, admission: Admission)
    requires c.spc == SNew && c.epc == EIdle
    ensures var d := EnqueueCmd(c, admission); Rank(d) < Rank(c) && InOrder(d)
  {
  }

  lemma SubmitterLowers(c: Cmd)
    requires c.spc in {SLock, STest, SDetach, SUnlock, SRead}
    ensures var d := SubmitterStep(c); Rank(d) < Rank(c) && InOrder(d)
  {
  }

  lemma ExecutorAlone(c: Cmd)
    ensures ExecutorStep(c).spc == c.spc
  {
    match c.epc case ELock | ETest | EStatus | EComplete | EClear | EUnlock | EFree => case _ =>
  }

  lemma ExecutorAhead(c: Cmd)
    requires c.epc in {ELock, ETest, EStatus, EComplete, EClear, EUnlock, EFree}
    ensures ExecutorRank(ExecutorStep(c).epc) < ExecutorRank(c.epc)
  {
  }

  lemma ExecutorLowers(c: Cmd)
    requires InOrder(c) && c.epc in {ELock, ETest, EStatus, EComplete, EClear, EUnlock, EFree}
    ensures var d := ExecutorStep(c); Rank(d) < Rank(c) && InOrder(d)
  {
    ExecutorAlone(c);
    ExecutorAhead(c);
  }

  /** A step lowers the rank of its own command and leaves the others alone, locked or not. */
  lemma StepLowersRank(sys: System, s: State, step: Step)
    requires Orderly(s) && Enabled(sys, s, step) && !step.Prepare?
    ensures var cmds := Apply(sys, s, step).cmds;
            && step.id in s.cmds && cmds == s.cmds[step.id := cmds[step.id]]
            && Rank(cmds[step.id]) < Rank(s.cmds[step.id]) && InOrder(cmds[step.id])
  {
    var c := s.cmds[step.id];
    assert InOrder(c);
    match step
    case Enqueue(_, admission) => EnqueueLowers(c, admission);
    case Wake(_, _) =>
    case Submit(_, _) => SubmitterLowers(c);
    case Run(_, _) =>
    case Execute(_, _) => ExecutorLowers(c);
  }

  lemma StepOrderly(sys: System, s: State, step: Step)
    requires Orderly(s) && Enabled(sys, s, step)
    ensures Orderly(Apply(sys, s, step))
  {
    if !step.Prepare? {
      StepLowersRank(sys, s, step);
    }
  }

  lemma {:induction false} AlwaysOrderly(sys: System, steps: seq<Step>)
    requires Legal(sys, steps)
    ensures Orderly(After(sys, steps))
  {
    if steps != [] {
      var n := |steps| - 1;
      AlwaysOrderly(sys, steps[..n]);
      StepOrderly(sys, After(sys, steps[..n]), steps[n]);
    }
  }

  /** The ranks of all commands together. */
  ghost function Work(cmds: map<Id, Cmd>): nat {
    if cmds == map[] then 0 else
      var id :| id in cmds;
      Rank(cmds[id]) + Work(cmds - {id})
  }

  lemma {:induction false} WorkAt(cmds: map<Id, Cmd>, id: Id)
    requires id in cmds
    ensures Work(cmds) == Rank(cmds[id]) + Work(cmds - {id})
  {
    var pick :| pick in cmds && Work(cmds) == Rank(cmds[pick]) + Work(cmds - {pick});
    if pick != id {
      WorkAt(cmds - {pick}, id);
      WorkAt(cmds - {id}, pick);
      assert cmds - {pick} - {id} == cmds - {id} - {pick};
    }
  }

  lemma {:induction false} WorkBounded(cmds: map<Id, Cmd>)
    ensures Work(cmds) <= 16 * |cmds|
  {
    if cmds != map[] {
      var id :| id in cmds;
      WorkAt(cmds, id);
      WorkBounded(cmds - {id});
      assert (cmds - {id}).Keys == cmds.Keys - {id};
    }
  }

  lemma StepLowersWork(sys: System, s: State, step: Step)
    requires Orderly(s) && Enabled(sys, s, step) && !step.Prepare?
    ensures Work(Apply(sys, s, step).cmds) < Work(s.cmds) && Apply(sys, s, step).cmds.Keys == s.cmds.Keys
  {
    StepLowersRank(sys, s, step);
    var cmds := Apply(sys, s, step).cmds;
    WorkAt(s.cmds, step.id);
    WorkAt(cmds, step.id);
    assert cmds - {step.id} == s.cmds - {step.id};
  }

  ghost predicate NothingNew(steps: seq<Step>) {
    forall i | 0 <= i < |steps| :: !steps[i].Prepare?
  }

  lemma SplitLast(steps: seq<Step>, more: seq<Step>)
    requires more != []
    ensures var run := steps + more;
            run[..|run| - 1] == steps + more[..|more| - 1] && run[|run| - 1] == more[|more| - 1]
    ensures NothingNew(more) ==> NothingNew(more[..|more| - 1]) && !more[|more| - 1].Prepare?
  {
  }

  lemma LastLowersWork(sys: System, run: seq<Step>)
    requires Legal(sys, run) && run != [] && !run[|run| - 1].Prepare?
    ensures var front := run[..|run| - 1];
            && Legal(sys, front) && After(sys, run).cmds.Keys == After(sys, front).cmds.Keys
            && Work(After(sys, run).cmds) < Work(After(sys, front).cmds)
  {
    var front := run[..|run| - 1];
    AlwaysOrderly(sys, front);
    StepLowersWork(sys, After(sys, front), run[|run| - 1]);
  }

  /** Every step of a run without new commands lowers the work left. */
  lemma {:induction false} RunLowersWork(sys: System, steps: seq<Step>, more: seq<Step>)
    requires Legal(sys, steps + more) && NothingNew(more)
    ensures Legal(sys, steps) && After(sys, steps + more).cmds.Keys == After(sys, steps).cmds.Keys
    ensures |more| + Work(After(sys, steps + more).cmds) <= Work(After(sys, steps).cmds)
    decreases |more|
  {
    if more == [] {
      assert steps + more == steps;
    } else {
      SplitLast(steps, more);
      LastLowersWork(sys, steps + more);
      RunLowersWork(sys, steps, more[..|more| - 1]);
    }
  }

  /** In every system: without new commands a run goes on for at most sixteen steps per command. */
  lemma RunsEnd(sys: System, steps: seq<Step>, more: seq<Step>)
    requires Legal(sys, steps + more) && NothingNew(more)
    ensures Legal(sys, steps) && |more| <= 16 * |After(sys, steps).cmds|
  {
    RunLowersWork(sys, steps, more);
    WorkBounded(After(sys, steps).cmds);
  }

  /** Every submitter has returned and every object and parameter buffer was freed exactly once. */
  ghost predicate AllThrough(s: State) {
    forall id | id in s.cmds ::
      var c := s.cmds[id]; Through(c) && c.objFrees == 1 && c.parmFrees == if c.hasParm then 1 else 0
  }

  ghost predicate Halted(sys: System, s: State) {
    forall step :: Enabled(sys, s, step) ==> step.Prepare?
  }

  lemma ThroughMeansFreed(sys: System, steps: seq<Step>)
    requires Careful(sys) && Legal(sys, steps)
    requires forall id | id in After(sys, steps).cmds :: Through(After(sys, steps).cmds[id])
    ensures AllThrough(After(sys, steps))
  {
    forall id | id in After(sys, steps).cmds
      ensures var c := After(sys, steps).cmds[id]; c.objFrees == 1 && c.parmFrees == if c.hasParm then 1 else 0
    {
      FinishedCommand(sys, steps, id);
    }
  }

  /**
   * A careful run can stop, but for new commands, exactly where everything is
   * done; with RunsEnd, every run without new commands gets there.
   */
  lemma HaltsExactlyWhenThrough(sys: System, steps: seq<Step>)
    requires Careful(sys) && Legal(sys, steps)
    ensures Halted(sys, After(sys, steps)) <==> AllThrough(After(sys, steps))
  {
    var s := After(sys, steps);
    if id :| id in s.cmds && !Through(s.cmds[id]) {
      var step := SomeStepPossible(sys, steps, id);
    } else {
      ThroughMeansFreed(sys, steps);
    }
  }

  lemma Joined(steps: seq<Step>, step: Step, rest: seq<Step>)
    ensures steps + [step] + rest == steps + ([step] + rest)
    ensures !step.Prepare? && NothingNew(rest) ==> NothingNew([step] + rest)
  {
  }

  lemma Nearer(sys: System, steps: seq<Step>, step: Step)
    requires Legal(sys, steps) && Enabled(sys, After(sys, steps), step) && !step.Prepare?
    ensures Legal(sys, steps + [step])
    ensures Work(After(sys, steps + [step]).cmds) < Work(After(sys, steps).cmds)
    ensures After(sys, steps + [step]).cmds.Keys == After(sys, steps).cmds.Keys
  {
    Extend(sys, steps, step);
    AlwaysOrderly(sys, steps);
    StepLowersWork(sys, After(sys, steps), step);
  }

  /** From every reachable state of a careful system everything can be brought to its end. */
  lemma {:induction false} CanComplete(sys: System, steps: seq<Step>) returns (more: seq<Step>)
    requires Careful(sys) && Legal(sys, steps)
    ensures NothingNew(more) && Legal(sys, steps + more) && AllThrough(After(sys, steps + more))
    ensures After(sys, steps + more).cmds.Keys == After(sys, steps).cmds.Keys
    decreases Work(After(sys, steps).cmds)
  {
    var s := After(sys, steps);
    if id :| id in s.cmds && !Through(s.cmds[id]) {
      var step := SomeStepPossible(sys, steps, id);
      Nearer(sys, steps, step);
      var rest := CanComplete(sys, steps + [step]);
      more := [step] + rest;
      Joined(steps, step, rest);
    } else {
      more := [];
      assert steps + more == steps;
      ThroughMeansFreed(sys, steps);
    }
  }
}
