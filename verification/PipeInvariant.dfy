/** What every step of the pipe machine keeps. */
module PipeInvariant {
  import opened Basics
  import opened PipeSteps
  import opened PipeMachine

  // ----- where threads are

  /** How often a thread occurs in a queue. */
  ghost function Count(q: seq<Tid>, t: Tid): nat { multiset(q)[t] }

  ghost function SlotCount(slot: Slot, t: Tid): nat {
    Count(slot.view.readq, t) + Count(slot.view.writeq, t)
  }

  ghost function QueueCount(slots: seq<Slot>, t: Tid): nat {
    if slots == [] then 0 else SlotCount(slots[0], t) + QueueCount(slots[1..], t)
  }

  /** The number of places a thread occupies: running, the run queue, and all wait queues. */
  ghost function Places(s: State, t: Tid): nat {
    (if s.running == Some(t) then 1 else 0) + Count(s.runq, t) + QueueCount(s.slots, t)
  }

  /** A thread is present until its last switch away. */
  ghost predicate Alive(s: State, t: Tid) {
    t in s.threads && (s.threads[t].state.Exited? ==> s.running == Some(t))
  }

  /** Thread conservation: a present thread is in exactly one place, and nothing else is anywhere. */
  ghost predicate Conserved(s: State) {
    forall t: Tid :: Places(s, t) == if Alive(s, t) then 1 else 0
  }

  // ----- what threads are doing

  /** A pending operation is on an open end that the thread owns. */
  ghost predicate OpOk(s: State, t: Tid) {
    t in s.threads ==>
      match s.threads[t].op
      case User(_) => true
      case Reading(p, n) => Owns(s, t, p, true)
      case Writing(p, bytes, written) => Owns(s, t, p, false) && written <= |bytes|
      case Exiting => true
  }

  /** The `state` field agrees with the queue a thread is on. */
  ghost predicate StatesAgree(s: State) {
    && (forall t | t in s.threads :: s.threads[t].state.Exited? <==> s.threads[t].op.Exiting?)
    && (forall i | 0 <= i < |s.runq| :: s.runq[i] in s.threads && s.threads[s.runq[i]].state.Runnable?)
    && (s.running.Some? ==> s.running.value in s.threads && !s.threads[s.running.value].state.Blocked?)
  }

  // ----- pipes

  /** A thread blocked in `pipe_read` of pipe `p`. */
  ghost predicate WaitsToRead(threads: map<Tid, Thread>, t: Tid, p: nat) {
    t in threads && threads[t].state.Blocked? && threads[t].op.Reading? && threads[t].op.pipe == p
  }

  ghost predicate WaitsToWrite(threads: map<Tid, Thread>, t: Tid, p: nat) {
    && t in threads && threads[t].state.Blocked? && threads[t].op.Writing? && threads[t].op.pipe == p
    && threads[t].op.written < |threads[t].op.bytes|
  }

  /** No lost wakeup, and the byte stream: readers wait only on an empty pipe with an open write end, writers only on a
      full one with an open read end; bytes received followed by bytes buffered are the bytes sent. */
  ghost predicate SlotOk(threads: map<Tid, Thread>, p: nat, slot: Slot) {
    var v := slot.view;
    && |v.buf| <= PIPESZ
    && slot.sent == slot.received + v.buf
    && v.inUse == (v.readopen || v.writeopen)
    && (v.readq != [] ==> v.buf == [] && v.writeopen)
    && (v.writeq != [] ==> |v.buf| == PIPESZ && v.readopen)
    && (forall i | 0 <= i < |v.readq| :: WaitsToRead(threads, v.readq[i], p))
    && (forall i | 0 <= i < |v.writeq| :: WaitsToWrite(threads, v.writeq[i], p))
  }

  ghost predicate SlotsOk(s: State) {
    forall p | 0 <= p < |s.slots| :: SlotOk(s.threads, p, s.slots[p])
  }

  /** A process whose thread is present or still to be added. */
  ghost predicate Here(s: State, t: Tid) {
    t in s.threads ==> Alive(s, t)
  }

  /** The owner of an open end has not left. */
  ghost predicate OwnersAlive(s: State) {
    forall p | 0 <= p < |s.slots| :: OwnersHere(s, s.slots[p])
  }

  ghost predicate OwnersHere(s: State, slot: Slot) {
    && (slot.view.readopen ==> Here(s, slot.reader))
    && (slot.view.writeopen ==> Here(s, slot.writer))
  }

  ghost predicate OpsOk(s: State) {
    forall t | t in s.threads :: OpOk(s, t)
  }

  ghost predicate Inv(s: State) {
    Conserved(s) && StatesAgree(s) && SlotsOk(s) && OpsOk(s) && OwnersAlive(s)
  }

  // ----- counting

  lemma CountConcat(a: seq<Tid>, b: seq<Tid>, t: Tid)
    ensures Count(a + b, t) == Count(a, t) + Count(b, t)
  {
  }

  lemma CountOne(x: Tid, t: Tid)
    ensures Count([x], t) == (if x == t then 1 else 0) && Count([], t) == 0
  {
  }

  lemma CountPositive(q: seq<Tid>, t: Tid)
    ensures Count(q, t) > 0 <==> t in q
  {
  }

  lemma {:induction false} QueueCountUpdate(slots: seq<Slot>, p: nat, slot: Slot, t: Tid)
    requires p < |slots|
    ensures QueueCount(slots[p := slot], t) + SlotCount(slots[p], t) == QueueCount(slots, t) + SlotCount(slot, t)
  {
    hide SlotCount;
    var slots' := slots[p := slot];
    if p == 0 {
      assert slots'[1..] == slots[1..];
    } else {
      assert slots'[1..] == slots[1..][p - 1 := slot];
      QueueCountUpdate(slots[1..], p - 1, slot, t);
    }
  }

  lemma {:induction false} QueueCountMember(slots: seq<Slot>, t: Tid) returns (p: nat)
    requires QueueCount(slots, t) > 0
    ensures p < |slots| && (t in slots[p].view.readq || t in slots[p].view.writeq)
  {
    CountPositive(slots[0].view.readq, t);
    CountPositive(slots[0].view.writeq, t);
    if SlotCount(slots[0], t) > 0 {
      p := 0;
    } else {
      p := QueueCountMember(slots[1..], t);
      p := p + 1;
    }
  }

  // ----- stretches of pipe code

  /** No thread is lost or duplicated between the slot's queues, the woken threads and the running one. */
  ghost predicate CountsOk(slot: Slot, t: Tid, effect: Effect) {
    forall u :: SlotCount(effect.slot, u) + Count(effect.woken, u)
                == SlotCount(slot, u) + if u == t && !effect.stays then 1 else 0
  }

  /** Only threads blocked on this pipe are woken. */
  ghost predicate WokenOk(threads: map<Tid, Thread>, p: nat, woken: seq<Tid>) {
    forall i | 0 <= i < |woken| :: WaitsToRead(threads, woken[i], p) || WaitsToWrite(threads, woken[i], p)
  }

  /** No end is opened or changes hands, and the running thread's state fits what it does next. */
  ghost predicate KeepsRoles(slot: Slot, thread: Thread, effect: Effect) {
    && effect.slot.reader == slot.reader && effect.slot.writer == slot.writer
    && (effect.slot.view.readopen ==> slot.view.readopen)
    && (effect.slot.view.writeopen ==> slot.view.writeopen)
    && (effect.stays <==> !effect.thread.state.Blocked?)
    && (effect.thread.state.Exited? <==> effect.thread.op.Exiting?)
    && (effect.thread.state.Exited? <==> thread.state.Exited?)
    && (effect.thread.op.Reading? || effect.thread.op.Writing? ==>
          thread.op == effect.thread.op ||
          (thread.op.Writing? && effect.thread.op.Writing? && thread.op.pipe == effect.thread.op.pipe
           && effect.thread.op.written <= |effect.thread.op.bytes|))
  }

  ghost predicate EffectOk(s: State, p: nat, effect: Effect)
    requires Runs(s) && p < |s.slots|
  {
    var t := s.running.value;
    && CountsOk(s.slots[p], t, effect)
    && WokenOk(s.threads, p, effect.woken)
    && KeepsRoles(s.slots[p], s.threads[t], effect)
    && SlotOk(Wake(s.threads, effect.woken)[t := effect.thread], p, effect.slot)
  }

  lemma ReadCounts(slot: Slot, t: Tid, op: Op)
    requires op.Reading?
    ensures CountsOk(slot, t, ReadEffect(slot, t, op))
  {
    hide Count;
    var effect := ReadEffect(slot, t, op);
    forall u ensures SlotCount(effect.slot, u) + Count(effect.woken, u)
                     == SlotCount(slot, u) + if u == t && !effect.stays then 1 else 0 {
      CountConcat(slot.view.readq, [t], u);
      CountOne(t, u);
    }
  }

  lemma WriteCounts(slot: Slot, t: Tid, op: Op)
    requires op.Writing? && op.written <= |op.bytes| && |slot.view.buf| <= PIPESZ
    ensures CountsOk(slot, t, WriteEffect(slot, t, op))
  {
    hide Count;
    var effect := WriteEffect(slot, t, op);
    forall u ensures SlotCount(effect.slot, u) + Count(effect.woken, u)
                     == SlotCount(slot, u) + if u == t && !effect.stays then 1 else 0 {
      CountConcat(slot.view.writeq, [t], u);
      CountOne(t, u);
    }
  }

  /** A queue of blocked threads does not hold the running one, and waking others leaves it alone. */
  lemma QueueAfter(threads: map<Tid, Thread>, p: nat, q: seq<Tid>, woken: seq<Tid>, t: Tid, thread: Thread)
    requires t in threads && !threads[t].state.Blocked?
    ensures && (forall i | 0 <= i < |q| :: WaitsToRead(threads, q[i], p))
            && (forall i | 0 <= i < |woken| :: WaitsToWrite(threads, woken[i], p))
            ==> forall i | 0 <= i < |q| :: WaitsToRead(Wake(threads, woken)[t := thread], q[i], p)
    ensures && (forall i | 0 <= i < |q| :: WaitsToWrite(threads, q[i], p))
            && (forall i | 0 <= i < |woken| :: WaitsToRead(threads, woken[i], p))
            ==> forall i | 0 <= i < |q| :: WaitsToWrite(Wake(threads, woken)[t := thread], q[i], p)
  {
  }

  lemma ReadSlotOk(threads: map<Tid, Thread>, p: nat, slot: Slot, t: Tid)
    requires t in threads && threads[t].state.Runnable? && threads[t].op.Reading? && threads[t].op.pipe == p
    requires SlotOk(threads, p, slot)
    ensures var effect := ReadEffect(slot, t, threads[t].op);
            && WokenOk(threads, p, effect.woken)
            && KeepsRoles(slot, threads[t], effect)
            && SlotOk(Wake(threads, effect.woken)[t := effect.thread], p, effect.slot)
  {
    hide Wake;
    var effect := ReadEffect(slot, t, threads[t].op);
    QueueAfter(threads, p, slot.view.readq, effect.woken, t, effect.thread);
    QueueAfter(threads, p, slot.view.writeq, effect.woken, t, effect.thread);
  }

  lemma WriteSlotOk(threads: map<Tid, Thread>, p: nat, slot: Slot, t: Tid)
    requires t in threads && threads[t].state.Runnable? && threads[t].op.Writing? && threads[t].op.pipe == p
    requires threads[t].op.written <= |threads[t].op.bytes|
    requires SlotOk(threads, p, slot)
    ensures var effect := WriteEffect(slot, t, threads[t].op);
            && WokenOk(threads, p, effect.woken)
            && KeepsRoles(slot, threads[t], effect)
            && SlotOk(Wake(threads, effect.woken)[t := effect.thread], p, effect.slot)
  {
    hide Wake, WaitsToRead, WaitsToWrite;
    var op := threads[t].op;
    var effect := WriteEffect(slot, t, op);
    var (v, woken, outcome) := WriteStep(slot.view, t, op.bytes, op.written);
    QueueAfter(threads, p, slot.view.readq, effect.woken, t, effect.thread);
    QueueAfter(threads, p, slot.view.writeq, effect.woken, t, effect.thread);
    if outcome.Blocks? {
      NowWaits(threads, p, woken, t, effect.thread);
    }
  }

  lemma NowWaits(threads: map<Tid, Thread>, p: nat, woken: seq<Tid>, t: Tid, thread: Thread)
    requires thread.state.Blocked? && thread.op.Writing? && thread.op.pipe == p && thread.op.written < |thread.op.bytes|
    ensures WaitsToWrite(Wake(threads, woken)[t := thread], t, p)
  {
  }

  lemma ResumeEffectOk(s: State)
    requires Inv(s) && Runs(s) && Resumable(s, s.threads[s.running.value].op)
    ensures EffectOk(s, s.threads[s.running.value].op.pipe, ResumeEffect(s, s.running.value))
  {
    hide CountsOk, Conserved, OpsOk, OwnersAlive, Wake, SlotOk, WokenOk, KeepsRoles, ReadEffect, WriteEffect;
    var t := s.running.value;
    var op := s.threads[t].op;
    assert SlotOk(s.threads, op.pipe, s.slots[op.pipe]);
    if op.Reading? {
      ReadCounts(s.slots[op.pipe], t, op);
      ReadSlotOk(s.threads, op.pipe, s.slots[op.pipe], t);
    } else {
      WriteCounts(s.slots[op.pipe], t, op);
      WriteSlotOk(s.threads, op.pipe, s.slots[op.pipe], t);
    }
  }

  lemma CloseEffectOk(s: State, p: nat, isRead: bool)
    requires Inv(s) && Enabled(s, Close(p, isRead))
    ensures EffectOk(s, p, CloseEffect(s.slots[p], s.threads[s.running.value], isRead))
  {
    hide Count, Conserved, OpsOk, OwnersAlive, Wake;
    var t := s.running.value;
    var slot := s.slots[p];
    var effect := CloseEffect(slot, s.threads[t], isRead);
    forall u ensures Count([], u) == 0 { CountOne(t, u); }
    QueueAfter(s.threads, p, slot.view.readq, effect.woken, t, effect.thread);
    QueueAfter(s.threads, p, slot.view.writeq, effect.woken, t, effect.thread);
  }

  /** An end is only closed by its owner, on the way out. */
  ghost predicate ClosesOwn(s: State, p: nat, effect: Effect)
    requires Runs(s) && p < |s.slots|
  {
    var t, slot := s.running.value, s.slots[p];
    && (slot.view.readopen && !effect.slot.view.readopen ==> slot.reader == t && s.threads[t].op.Exiting?)
    && (slot.view.writeopen && !effect.slot.view.writeopen ==> slot.writer == t && s.threads[t].op.Exiting?)
  }

  /** Waking blocked threads changes their state and nothing else. */
  lemma WakeFacts(threads: map<Tid, Thread>, p: nat, woken: seq<Tid>, t: Tid, thread: Thread, u: Tid)
    requires t in threads && WokenOk(threads, p, woken)
    ensures var after := Wake(threads, woken)[t := thread];
            && (u in after <==> u in threads)
            && (u != t && u in threads ==> after[u].op == threads[u].op)
            && (u != t && u in threads && u !in woken ==> after[u] == threads[u])
            && (u != t && u in woken ==>
                  && u in threads && threads[u].state.Blocked? && after[u].state.Runnable?
                  && threads[u].op.pipe == p)
            && after[t] == thread
  {
  }

  lemma ApplyAlive(s: State, p: nat, effect: Effect, u: Tid)
    requires Inv(s) && Runs(s) && p < |s.slots| && EffectOk(s, p, effect)
    ensures Alive(Apply(s, p, effect), u) <==> Alive(s, u)
    ensures u in Apply(s, p, effect).threads <==> u in s.threads
  {
    hide Wake, SlotOk, WokenOk, CountsOk, Conserved, SlotsOk, OpsOk, OwnersAlive;
    WakeFacts(s.threads, p, effect.woken, s.running.value, effect.thread, u);
  }

  lemma ApplyConserves(s: State, p: nat, effect: Effect)
    requires Inv(s) && Runs(s) && p < |s.slots| && EffectOk(s, p, effect)
    ensures Conserved(Apply(s, p, effect))
  {
    hide Wake, SlotOk, WokenOk, SlotsOk, OpsOk, OwnersAlive, StatesAgree, KeepsRoles, Inv;
    hide Alive, SlotCount, QueueCount, Count;
    var r := Apply(s, p, effect);
    forall u ensures Places(r, u) == if Alive(r, u) then 1 else 0 {
      InvConserves(s, u);
      ApplyAlive(s, p, effect, u);
      QueueCountUpdate(s.slots, p, effect.slot, u);
      CountConcat(s.runq, effect.woken, u);
    }
  }

  lemma InvConserves(s: State, u: Tid)
    requires Inv(s)
    ensures Places(s, u) == if Alive(s, u) then 1 else 0
  {
    assert Conserved(s);
  }

  lemma ApplyStates(s: State, p: nat, effect: Effect)
    requires Inv(s) && Runs(s) && p < |s.slots| && EffectOk(s, p, effect)
    ensures StatesAgree(Apply(s, p, effect))
  {
    hide Wake, SlotOk, CountsOk, WokenOk, Conserved, SlotsOk, OpsOk, OwnersAlive, Alive;
    var t, r := s.running.value, Apply(s, p, effect);
    RunningIsNotQueued(s);
    forall u ensures u in r.threads ==> (r.threads[u].state.Exited? <==> r.threads[u].op.Exiting?) {
      WakeFacts(s.threads, p, effect.woken, t, effect.thread, u);
    }
    forall i | 0 <= i < |r.runq| ensures r.runq[i] in r.threads && r.threads[r.runq[i]].state.Runnable? {
      WakeFacts(s.threads, p, effect.woken, t, effect.thread, r.runq[i]);
      if i < |s.runq| {
        assert r.runq[i] == s.runq[i];
      } else {
        assert r.runq[i] == effect.woken[i - |s.runq|];
        WokenIsBlocked(s.threads, p, effect.woken, i - |s.runq|);
      }
    }
    WakeFacts(s.threads, p, effect.woken, t, effect.thread, t);
  }

  lemma WokenIsBlocked(threads: map<Tid, Thread>, p: nat, woken: seq<Tid>, i: nat)
    requires WokenOk(threads, p, woken) && i < |woken|
    ensures woken[i] in threads && threads[woken[i]].state.Blocked?
  {
  }

  /** The running thread is on no queue. */
  lemma RunningIsNotQueued(s: State)
    requires Inv(s) && s.running.Some?
    ensures s.running.value !in s.runq
  {
    hide QueueCount, Count;
    var t := s.running.value;
    InvConserves(s, t);
    CountPositive(s.runq, t);
  }

  lemma ApplySlots(s: State, p: nat, effect: Effect)
    requires Inv(s) && Runs(s) && p < |s.slots| && EffectOk(s, p, effect)
    ensures SlotsOk(Apply(s, p, effect))
  {
    hide Wake, CountsOk, WokenOk, Conserved, OpsOk, OwnersAlive, Alive, KeepsRoles;
    var t, r := s.running.value, Apply(s, p, effect);
    forall q | 0 <= q < |r.slots| && q != p ensures SlotOk(r.threads, q, r.slots[q]) {
      assert SlotOk(s.threads, q, s.slots[q]);
      forall i | 0 <= i < |s.slots[q].view.readq| ensures WaitsToRead(r.threads, s.slots[q].view.readq[i], q) {
        WakeFacts(s.threads, p, effect.woken, t, effect.thread, s.slots[q].view.readq[i]);
      }
      forall i | 0 <= i < |s.slots[q].view.writeq| ensures WaitsToWrite(r.threads, s.slots[q].view.writeq[i], q) {
        WakeFacts(s.threads, p, effect.woken, t, effect.thread, s.slots[q].view.writeq[i]);
      }
    }
  }

  lemma ApplyOps(s: State, p: nat, effect: Effect)
    requires Inv(s) && Runs(s) && p < |s.slots| && EffectOk(s, p, effect) && ClosesOwn(s, p, effect)
    ensures OpsOk(Apply(s, p, effect))
  {
    hide Wake, CountsOk, WokenOk, Conserved, OwnersAlive, Alive, SlotOk, SlotsOk;
    var t, r := s.running.value, Apply(s, p, effect);
    forall u | u in r.threads ensures OpOk(r, u) {
      WakeFacts(s.threads, p, effect.woken, t, effect.thread, u);
      assert OpOk(s, u);
    }
  }

  lemma ApplyOwners(s: State, p: nat, effect: Effect)
    requires Inv(s) && Runs(s) && p < |s.slots| && EffectOk(s, p, effect)
    ensures OwnersAlive(Apply(s, p, effect))
  {
    hide Wake, CountsOk, WokenOk, Conserved, OpsOk, Alive, SlotOk, SlotsOk, StatesAgree;
    var r := Apply(s, p, effect);
    forall q | 0 <= q < |r.slots| ensures OwnersHere(r, r.slots[q]) {
      assert OwnersHere(s, s.slots[q]);
      ApplyAlive(s, p, effect, s.slots[q].reader);
      ApplyAlive(s, p, effect, s.slots[q].writer);
    }
  }

  // ----- the other steps

  lemma SpawnCounts(s: State, t: Tid)
    requires Inv(s) && Enabled(s, Spawn(t))
    ensures Conserved(Step(s, Spawn(t)))
  {
    hide QueueCount, Count, SlotsOk, OpsOk, OwnersAlive;
    var r := Step(s, Spawn(t));
    forall u ensures Places(r, u) == if Alive(r, u) then 1 else 0 {
      InvConserves(s, u);
      CountConcat(s.runq, [t], u);
      CountOne(t, u);
    }
  }

  lemma SpawnSlots(s: State, t: Tid)
    requires Inv(s) && Enabled(s, Spawn(t))
    ensures SlotsOk(Step(s, Spawn(t)))
  {
    hide Conserved, StatesAgree, OpsOk, OwnersAlive;
    forall p | 0 <= p < |s.slots| ensures SlotOk(Step(s, Spawn(t)).threads, p, s.slots[p]) {
      assert SlotOk(s.threads, p, s.slots[p]);
    }
  }

  /** The new thread takes over the ends its process already owns, and nobody else's. */
  lemma SpawnRest(s: State, t: Tid)
    requires Inv(s) && Enabled(s, Spawn(t))
    ensures var r := Step(s, Spawn(t)); StatesAgree(r) && OpsOk(r) && OwnersAlive(r)
  {
    hide Conserved, SlotsOk;
    var r := Step(s, Spawn(t));
    forall u | u in r.threads ensures OpOk(r, u) {
      assert u != t ==> OpOk(s, u);
    }
    forall p | 0 <= p < |s.slots| ensures OwnersHere(r, r.slots[p]) {
      assert OwnersHere(s, s.slots[p]);
    }
  }

  lemma SpawnKeeps(s: State, t: Tid)
    requires Inv(s) && Enabled(s, Spawn(t))
    ensures Inv(Step(s, Spawn(t)))
  {
    hide Conserved, StatesAgree, SlotsOk, OpsOk, OwnersAlive, Step;
    SpawnCounts(s, t);
    SpawnSlots(s, t);
    SpawnRest(s, t);
  }

  lemma NewPipeKeeps(s: State, p: nat, from: Tid, to: Tid)
    requires Inv(s) && Enabled(s, NewPipe(p, from, to))
    ensures Inv(Step(s, NewPipe(p, from, to)))
  {
    hide QueueCount, Count;
    var r := Step(s, NewPipe(p, from, to));
    assert SlotOk(s.threads, p, s.slots[p]);
    forall u ensures Places(r, u) == if Alive(r, u) then 1 else 0 {
      InvConserves(s, u);
      QueueCountUpdate(s.slots, p, r.slots[p], u);
      CountOne(u, u);
    }
    forall u | u in r.threads ensures OpOk(r, u) {
      assert OpOk(s, u);
    }
    forall q | 0 <= q < |s.slots| ensures OwnersHere(r, r.slots[q]) {
      assert OwnersHere(s, s.slots[q]);
    }
  }

  lemma DispatchKeeps(s: State)
    requires Inv(s) && Enabled(s, Dispatch)
    ensures Inv(Step(s, Dispatch))
  {
    hide QueueCount, Count;
    var r := Step(s, Dispatch);
    var t := s.runq[0];
    assert s.runq == [t] + s.runq[1..];
    forall u ensures Places(r, u) == if Alive(r, u) then 1 else 0 {
      InvConserves(s, u);
      CountConcat([t], s.runq[1..], u);
      CountOne(t, u);
    }
    forall u | u in r.threads ensures OpOk(r, u) {
      assert OpOk(s, u);
    }
  }

  lemma LeaveKeeps(s: State, e: Event)
    requires Inv(s) && Enabled(s, e) && (e.Preempt? || e.EndExit?)
    ensures Inv(Step(s, e))
  {
    hide QueueCount, Count;
    var r := Step(s, e);
    var t := s.running.value;
    forall u ensures Places(r, u) == if Alive(r, u) then 1 else 0 {
      InvConserves(s, u);
      CountConcat(s.runq, [t], u);
      CountOne(t, u);
    }
    forall u | u in r.threads ensures OpOk(r, u) {
      assert OpOk(s, u);
    }
    forall p | 0 <= p < |s.slots| ensures OwnersHere(r, r.slots[p]) {
      assert OwnersHere(s, s.slots[p]);
      assert e.EndExit? ==> !Owns(s, t, p, true) && !Owns(s, t, p, false);
    }
  }

  /** Changing the running thread's entry, without blocking it, disturbs no queue and no count. */
  lemma RewriteRunning(s: State, thread: Thread)
    requires Inv(s) && Runs(s) && !thread.state.Blocked? && (thread.state.Exited? <==> thread.op.Exiting?)
    ensures var r := s.(threads := s.threads[s.running.value := thread]);
            Conserved(r) && StatesAgree(r) && SlotsOk(r) && OwnersAlive(r)
  {
    hide QueueCount, Count, OpsOk, SlotCount;
    var t := s.running.value;
    var r := s.(threads := s.threads[t := thread]);
    RunningIsNotQueued(s);
    forall u ensures Alive(r, u) <==> Alive(s, u) {}
    forall u ensures Places(r, u) == if Alive(r, u) then 1 else 0 {
      InvConserves(s, u);
    }
    forall p | 0 <= p < |s.slots| ensures SlotOk(r.threads, p, r.slots[p]) {
      assert SlotOk(s.threads, p, s.slots[p]);
      SlotIgnores(s.threads, p, s.slots[p], t, thread);
    }
  }

  lemma SlotIgnores(threads: map<Tid, Thread>, p: nat, slot: Slot, t: Tid, thread: Thread)
    requires SlotOk(threads, p, slot) && t in threads && !threads[t].state.Blocked?
    ensures SlotOk(threads[t := thread], p, slot)
  {
  }

  /** The running thread starts a call, or starts to exit. */
  lemma BeginKeeps(s: State, e: Event)
    requires Inv(s) && Enabled(s, e) && (e.StartRead? || e.StartWrite? || e.BeginExit?)
    ensures Inv(Step(s, e))
  {
    hide Conserved, StatesAgree, SlotsOk, OwnersAlive;
    var r := Step(s, e);
    var t := s.running.value;
    assert s.threads[t].state.Runnable? by { UserIsRunnable(s); }
    RewriteRunning(s, r.threads[t]);
    assert r == s.(threads := s.threads[t := r.threads[t]]);
    forall u | u in r.threads ensures OpOk(r, u) {
      assert OpOk(s, u);
    }
  }

  lemma UserIsRunnable(s: State)
    requires Inv(s) && RunsUser(s)
    ensures s.threads[s.running.value].state.Runnable?
  {
  }

  lemma ApplyKeeps(s: State, p: nat, effect: Effect)
    requires Inv(s) && Runs(s) && p < |s.slots| && EffectOk(s, p, effect) && ClosesOwn(s, p, effect)
    ensures Inv(Apply(s, p, effect))
  {
    hide EffectOk, ClosesOwn, Apply;
    ApplyConserves(s, p, effect);
    ApplyStates(s, p, effect);
    ApplySlots(s, p, effect);
    ApplyOps(s, p, effect);
    ApplyOwners(s, p, effect);
  }

  /** Every step keeps the invariant. */
  lemma StepKeepsInv(s: State, e: Event)
    requires Inv(s) && Enabled(s, e)
    ensures Inv(Step(s, e))
  {
    hide Inv, EffectOk, Apply, ReadEffect, WriteEffect;
    match e
    case Spawn(t) => SpawnKeeps(s, t);
    case NewPipe(p, from, to) => NewPipeKeeps(s, p, from, to);
    case Dispatch => DispatchKeeps(s);
    case Preempt => LeaveKeeps(s, e);
    case EndExit => LeaveKeeps(s, e);
    case StartRead(_, _) => BeginKeeps(s, e);
    case StartWrite(_, _) => BeginKeeps(s, e);
    case BeginExit => BeginKeeps(s, e);
    case Resume =>
      ResumeEffectOk(s);
      ResumeClosesNothing(s);
      ApplyKeeps(s, s.threads[s.running.value].op.pipe, ResumeEffect(s, s.running.value));
    case Close(p, isRead) =>
      CloseEffectOk(s, p, isRead);
      ApplyKeeps(s, p, CloseEffect(s.slots[p], s.threads[s.running.value], isRead));
  }

  lemma ResumeClosesNothing(s: State)
    requires Runs(s) && Resumable(s, s.threads[s.running.value].op)
    ensures ClosesOwn(s, s.threads[s.running.value].op.pipe, ResumeEffect(s, s.running.value))
  {
  }
}
