/** What holds over every run of the pipe machine. */
module PipeRuns {
  import opened Basics
  import opened PipeSteps
  import opened PipeMachine
  import opened PipeInvariant

  const NPIPE: nat := 64

  /** Static storage: no thread yet, every slot free. */
  function Initial(): State {
    State(map[], None, [], seq(NPIPE, _ => Slot(PipeView(false, false, false, [], [], []), 0, 0, [], [])))
  }

  predicate IsRun(s: State, es: seq<Event>)
    decreases |es|
  {
    es == [] || (Enabled(s, es[0]) && IsRun(Step(s, es[0]), es[1..]))
  }

  function Final(s: State, es: seq<Event>): State
    requires IsRun(s, es)
    decreases |es|
  {
    if es == [] then s else Final(Step(s, es[0]), es[1..])
  }

  // ----- the invariant

  lemma {:induction false} EmptyQueues(slots: seq<Slot>, t: Tid)
    requires forall p | 0 <= p < |slots| :: slots[p].view.readq == [] && slots[p].view.writeq == []
    ensures QueueCount(slots, t) == 0
  {
    if slots != [] {
      EmptyQueues(slots[1..], t);
      CountOne(t, t);
    }
  }

  lemma InitialInv()
    ensures Inv(Initial())
  {
    var s := Initial();
    forall t ensures Places(s, t) == if Alive(s, t) then 1 else 0 {
      EmptyQueues(s.slots, t);
    }
  }

  /** The invariant holds in every state a run reaches. */
  lemma {:induction false} RunKeepsInv(s: State, es: seq<Event>)
    requires Inv(s) && IsRun(s, es)
    ensures Inv(Final(s, es))
    decreases |es|
  {
    hide Inv, Enabled, Step;
    if es != [] {
      StepKeepsInv(s, es[0]);
      RunKeepsInv(Step(s, es[0]), es[1..]);
    }
  }

  // ----- what the invariant says

  /** Waiting for a reason: on a pipe that is empty with its write end open, or full with its read end open. */
  ghost predicate TrulyWaits(s: State, t: Tid, p: nat) {
    && p < |s.slots| && t in s.threads && s.threads[t].state.Blocked?
    && var v := s.slots[p].view;
       || (t in v.readq && v.buf == [] && v.writeopen && s.slots[p].reader == t)
       || (t in v.writeq && |v.buf| == PIPESZ && v.readopen && s.slots[p].writer == t)
  }

  /** A blocked thread is on exactly one wait queue, for a reason. */
  lemma BlockedTrulyWaits(s: State, t: Tid) returns (p: nat)
    requires Inv(s) && t in s.threads && s.threads[t].state.Blocked?
    ensures TrulyWaits(s, t, p)
  {
    hide QueueCount, Count;
    InvConserves(s, t);
    CountPositive(s.runq, t);
    assert t !in s.runq && s.running != Some(t);
    p := QueueCountMember(s.slots, t);
    assert SlotOk(s.threads, p, s.slots[p]);
    assert OpOk(s, t);
  }

  /** When `rrschedstart` returns, every thread has exited or waits for a reason. */
  lemma StoppedState(s: State, t: Tid) returns (p: nat)
    requires Inv(s) && s.running.None? && s.runq == [] && t in s.threads
    ensures s.threads[t].state.Exited? || TrulyWaits(s, t, p)
  {
    hide QueueCount;
    p := 0;
    if !s.threads[t].state.Exited? {
      InvConserves(s, t);
      var q := QueueCountMember(s.slots, t);
      assert SlotOk(s.threads, q, s.slots[q]);
      p := BlockedTrulyWaits(s, t);
    }
  }

  /** The machine never gets stuck while a thread runs: whatever it is doing, a step is enabled. */
  lemma RunningCanStep(s: State) returns (e: Event)
    requires Inv(s) && s.running.Some?
    ensures Enabled(s, e)
    ensures s.threads[s.running.value].op.Reading? || s.threads[s.running.value].op.Writing? ==> e == Resume
  {
    var t := s.running.value;
    assert OpOk(s, t);
    match s.threads[t].op
    case User(_) => e := Preempt;
    case Reading(p, _) => e := Resume;
    case Writing(p, _, _) => assert SlotOk(s.threads, p, s.slots[p]); e := Resume;
    case Exiting =>
      if p :| 0 <= p < |s.slots| && Owns(s, t, p, true) {
        e := Close(p, true);
      } else if p :| 0 <= p < |s.slots| && Owns(s, t, p, false) {
        e := Close(p, false);
      } else {
        e := EndExit;
      }
  }

  // ----- the invariant along runs

  /** No lost wakeup, along every run: readers wait only on an empty pipe with an open write end, writers only on a full
      one with an open read end, never both at once, and nobody waits on a pipe with both ends closed. */
  lemma NoLostWakeup(es: seq<Event>, p: nat)
    requires IsRun(Initial(), es) && p < |Final(Initial(), es).slots|
    ensures var v := Final(Initial(), es).slots[p].view;
            && (v.readq != [] ==> v.buf == [] && v.writeopen && v.writeq == [])
            && (v.writeq != [] ==> |v.buf| == 65536 && v.readopen && v.readq == [])
            && (!v.readopen && !v.writeopen ==> v.readq == [] && v.writeq == [] && !v.inUse)
  {
    hide IsRun, Final, Conserved, StatesAgree, OpsOk, OwnersAlive;
    InitialInv();
    RunKeepsInv(Initial(), es);
    var s := Final(Initial(), es);
    assert SlotOk(s.threads, p, s.slots[p]);
  }

  /** Thread conservation, along every run: a thread that has not exited is in exactly one place, and its state says
      which kind of place that is. */
  lemma ThreadsConserved(es: seq<Event>, t: Tid)
    requires IsRun(Initial(), es) && t in Final(Initial(), es).threads
    ensures var s := Final(Initial(), es);
            match s.threads[t].state
            case Runnable =>
              Places(s, t) == 1 && (s.running == Some(t) <==> t !in s.runq) && QueueCount(s.slots, t) == 0
            case Blocked => Places(s, t) == 1 && s.running != Some(t) && t !in s.runq && QueueCount(s.slots, t) == 1
            case Exited => Places(s, t) == if s.running == Some(t) then 1 else 0
  {
    hide IsRun, Final, QueueCount, Count, OpsOk, OwnersAlive;
    InitialInv();
    RunKeepsInv(Initial(), es);
    var s := Final(Initial(), es);
    InvConserves(s, t);
    CountPositive(s.runq, t);
    if QueueCount(s.slots, t) > 0 {
      var p := QueueCountMember(s.slots, t);
      assert SlotOk(s.threads, p, s.slots[p]);
    }
  }

  // ----- round robin

  function Dispatches(es: seq<Event>): nat {
    if es == [] then 0 else (if es[0].Dispatch? then 1 else 0) + Dispatches(es[1..])
  }

  /** Only a dispatch takes from the run queue; everything else at most adds to its end. */
  lemma StepRunQueue(s: State, e: Event)
    requires Enabled(s, e)
    ensures if e.Dispatch? then s.runq != [] && Step(s, e).runq == s.runq[1..] && Step(s, e).running == Some(s.runq[0])
            else s.runq <= Step(s, e).runq
  {
  }

  /** Fairness: a thread at position `k` moves up by one per dispatch, whatever is woken or re-queued meanwhile. */
  lemma {:induction false} MovesUp(s: State, es: seq<Event>, k: nat)
    requires IsRun(s, es) && k < |s.runq| && Dispatches(es) <= k
    ensures k - Dispatches(es) < |Final(s, es).runq| && Final(s, es).runq[k - Dispatches(es)] == s.runq[k]
    decreases |es|
  {
    hide Enabled, Step;
    if es != [] {
      StepRunQueue(s, es[0]);
      MovesUp(Step(s, es[0]), es[1..], if es[0].Dispatch? then k - 1 else k);
    }
  }

  lemma {:induction false} RunConcat(s: State, xs: seq<Event>, ys: seq<Event>)
    requires IsRun(s, xs + ys)
    ensures IsRun(s, xs) && IsRun(Final(s, xs), ys) && Final(s, xs + ys) == Final(Final(s, xs), ys)
    decreases |xs|
  {
    hide Enabled, Step;
    if xs == [] {
      assert xs + ys == ys;
    } else {
      assert (xs + ys)[1..] == xs[1..] + ys;
      RunConcat(Step(s, xs[0]), xs[1..], ys);
    }
  }

  /** ... and so it runs at exactly the `k+1`-th dispatch from now. */
  lemma DispatchedInTurn(s: State, es: seq<Event>, k: nat)
    requires IsRun(s, es + [Dispatch]) && k < |s.runq| && Dispatches(es) == k
    ensures Final(s, es + [Dispatch]).running == Some(s.runq[k])
  {
    hide Enabled, Step;
    RunConcat(s, es, [Dispatch]);
    MovesUp(s, es, k);
    var m := Final(s, es);
    StepRunQueue(m, Dispatch);
    assert [Dispatch][1..] == [];
    assert Final(m, [Dispatch]) == Final(Step(m, Dispatch), []);
  }
}
