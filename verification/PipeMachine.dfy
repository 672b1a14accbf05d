/** Pipes over the cooperative round-robin scheduler (`lps-linux/sys/sys_pipe.c`, `lps-linux/sched.c`) as a state
    machine. A thread runs until it blocks, is preempted or exits; a blocked read or write resumes at its loop head
    when the thread is dispatched again.  One thread per process, known by the same number; a pipe may be made for a
    process before its thread is added, and each pipe end is closed when its owner exits. */
module PipeMachine {
  import opened Basics
  import opened PipeSteps

  datatype ThreadState = Runnable | Blocked | Exited

  /** What the last call gave: the bytes of a read, the count of a write, or -1. */
  datatype CallResult = NoCall | Got(bytes: seq<byte>) | Wrote(count: nat) | Failed

  /** Where a thread is: in user code, with the result of its last call, inside `pipe_read` or `pipe_write`, or
      closing its files on the way out. */
  datatype Op =
    | User(last: CallResult)
    | Reading(pipe: nat, n: nat)
    | Writing(pipe: nat, bytes: seq<byte>, written: nat)
    | Exiting

  datatype Thread = Thread(state: ThreadState, op: Op)

  /** A pipe slot with the owners of its ends and the history of its bytes since `pipe_new`. */
  datatype Slot = Slot(view: PipeView, reader: Tid, writer: Tid, sent: seq<byte>, received: seq<byte>)

  datatype State = State(threads: map<Tid, Thread>, running: Option<Tid>, runq: seq<Tid>, slots: seq<Slot>)

  datatype Event =
    | Spawn(t: Tid)                              // rrschedadd of the thread of process `t`
    | NewPipe(slot: nat, from: Tid, to: Tid)     // pipe_new took this slot; process `from` writes, `to` reads
    | Dispatch                                   // rrschedstart takes the head of the run queue
    | Preempt                                    // timer: back to the scheduler, still runnable
    | StartRead(pipe: nat, n: nat)
    | StartWrite(pipe: nat, bytes: seq<byte>)
    | Resume                                     // pipe_read or pipe_write from its loop head
    | BeginExit                                  // sys_exit
    | Close(pipe: nat, isRead: bool)             // fdfree closes one end
    | EndExit                                    // the last switch away

  // ----- steps

  function Wake(threads: map<Tid, Thread>, woken: seq<Tid>): map<Tid, Thread> {
    map t | t in threads :: if t in woken then threads[t].(state := Runnable) else threads[t]
  }

  predicate Owns(s: State, t: Tid, p: nat, isRead: bool) {
    && p < |s.slots|
    && (if isRead then s.slots[p].view.readopen && s.slots[p].reader == t
                  else s.slots[p].view.writeopen && s.slots[p].writer == t)
  }

  predicate Enabled(s: State, e: Event) {
    match e
    case Spawn(t) => t !in s.threads
    case NewPipe(p, from, to) =>
      && p < |s.slots| && !s.slots[p].view.inUse && (forall q | 0 <= q < p :: s.slots[q].view.inUse)
      && NotExited(s, from) && NotExited(s, to)
    case Dispatch => s.running.None? && s.runq != []
    case Preempt => RunsUser(s)
    case StartRead(p, n) => RunsUser(s) && Owns(s, s.running.value, p, true)
    case StartWrite(p, bytes) => RunsUser(s) && Owns(s, s.running.value, p, false)
    case Resume => Runs(s) && Resumable(s, s.threads[s.running.value].op)
    case BeginExit => RunsUser(s)
    case Close(p, isRead) => Runs(s) && s.threads[s.running.value].op.Exiting? && Owns(s, s.running.value, p, isRead)
    case EndExit =>
      && Runs(s) && s.threads[s.running.value].op.Exiting?
      && forall p | 0 <= p < |s.slots| :: !Owns(s, s.running.value, p, true) && !Owns(s, s.running.value, p, false)
  }

  /** A process whose thread has not been added yet, or has not begun to exit. */
  predicate NotExited(s: State, t: Tid) {
    t in s.threads ==> !s.threads[t].state.Exited?
  }

  predicate Resumable(s: State, op: Op) {
    && (op.Reading? || op.Writing?)
    && op.pipe < |s.slots|
    && (op.Writing? ==> op.written <= |op.bytes| && |s.slots[op.pipe].view.buf| <= PIPESZ)
  }

  predicate Runs(s: State) {
    s.running.Some? && s.running.value in s.threads
  }

  predicate RunsUser(s: State) {
    Runs(s) && s.threads[s.running.value].op.User?
  }

  function Step(s: State, e: Event): State
    requires Enabled(s, e)
  {
    match e
    case Spawn(t) => s.(threads := s.threads[t := Thread(Runnable, User(NoCall))], runq := s.runq + [t])
    case NewPipe(p, from, to) => s.(slots := s.slots[p := Slot(FreshPipe(), to, from, [], [])])
    case Dispatch => s.(running := Some(s.runq[0]), runq := s.runq[1..])
    case Preempt => s.(running := None, runq := s.runq + [s.running.value])
    case StartRead(p, n) => SetOp(s, s.running.value, Reading(p, n))
    case StartWrite(p, bytes) => SetOp(s, s.running.value, Writing(p, bytes, 0))
    case Resume => Apply(s, s.threads[s.running.value].op.pipe, ResumeEffect(s, s.running.value))
    case BeginExit => s.(threads := s.threads[s.running.value := Thread(Exited, Exiting)])
    case Close(p, isRead) => Apply(s, p, CloseEffect(s.slots[p], s.threads[s.running.value], isRead))
    case EndExit => s.(running := None)
  }

  function SetOp(s: State, t: Tid, op: Op): State
    requires t in s.threads
  {
    s.(threads := s.threads[t := s.threads[t].(op := op)])
  }

  /** What a stretch of pipe code does: the slot after it, the threads it takes off a wait queue and hands to the run
      queue, the running thread after it, and whether that thread keeps running. */
  datatype Effect = Effect(slot: Slot, woken: seq<Tid>, thread: Thread, stays: bool)

  function Apply(s: State, p: nat, effect: Effect): State
    requires Runs(s) && p < |s.slots|
  {
    State(Wake(s.threads, effect.woken)[s.running.value := effect.thread],
          if effect.stays then s.running else None,
          s.runq + effect.woken,
          s.slots[p := effect.slot])
  }

  function ReadEffect(slot: Slot, t: Tid, op: Op): Effect
    requires op.Reading?
  {
    var (v, woken, outcome) := ReadStep(slot.view, t, op.n);
    if outcome.Blocks? then
      Effect(slot.(view := v), woken, Thread(Blocked, op), false)
    else
      Effect(slot.(view := v, received := slot.received + outcome.result), woken,
             Thread(Runnable, User(Got(outcome.result))), true)
  }

  function WriteEffect(slot: Slot, t: Tid, op: Op): Effect
    requires op.Writing? && op.written <= |op.bytes| && |slot.view.buf| <= PIPESZ
  {
    var (v, woken, outcome) := WriteStep(slot.view, t, op.bytes, op.written);
    match outcome
    case Fails => Effect(slot, woken, Thread(Runnable, User(Failed)), true)
    case Blocks(w) =>
      Effect(slot.(view := v, sent := slot.sent + op.bytes[op.written..w]), woken,
             Thread(Blocked, op.(written := w)), false)
    case Returns(w) =>
      Effect(slot.(view := v, sent := slot.sent + op.bytes[op.written..w]), woken,
             Thread(Runnable, User(Wrote(w))), true)
  }

  function ResumeEffect(s: State, t: Tid): Effect
    requires t in s.threads && Resumable(s, s.threads[t].op)
  {
    var op := s.threads[t].op;
    if op.Reading? then ReadEffect(s.slots[op.pipe], t, op) else WriteEffect(s.slots[op.pipe], t, op)
  }

  function CloseEffect(slot: Slot, thread: Thread, isRead: bool): Effect {
    var (v, woken) := CloseStep(slot.view, isRead);
    Effect(slot.(view := v), woken, thread, true)
  }
}
