/** When the scheduler returns, the threads still there wait for each other in a knot of pipes; so if the pipes in
    use form a forest, every thread has exited. */
module PipeFinish {
  import opened Basics
  import opened PipeSteps
  import opened PipeMachine
  import opened PipeInvariant
  import opened PipeRuns
  import opened PipeGraphs

  /** The scheduler has nothing left to run. */
  ghost predicate Stopped(s: State) {
    s.running.None? && s.runq == []
  }

  ghost function LinksOf(s: State): (links: seq<Link>)
    ensures |links| == |s.slots|
    ensures forall p | 0 <= p < |links| :: links[p] == Link(s.slots[p].writer, s.slots[p].reader)
  {
    seq(|s.slots|, p requires 0 <= p < |s.slots| => Link(s.slots[p].writer, s.slots[p].reader))
  }

  /** The pipes in use whose writer has been added to the scheduler. */
  ghost function Pipes(s: State): (ps: set<nat>)
    ensures Among(LinksOf(s), ps)
  {
    set p | 0 <= p < |s.slots| && s.slots[p].view.inUse && s.slots[p].writer in s.threads
  }

  /** The process at one end of a pipe in use has been added exactly when the one at the other end has. */
  ghost predicate Paired(s: State) {
    forall p | 0 <= p < |s.slots| && s.slots[p].view.inUse ::
      s.slots[p].writer in s.threads <==> s.slots[p].reader in s.threads
  }

  function PipeOf(op: Op): nat { if op.Reading? || op.Writing? then op.pipe else 0 }

  /** Who waits on which pipe. */
  ghost function WaitMap(s: State): map<Tid, nat> {
    map t | t in s.threads && s.threads[t].state.Blocked? :: PipeOf(s.threads[t].op)
  }

  /** A blocked thread waits on the pipe its operation names, for a reason. */
  lemma WaitsThere(s: State, t: Tid)
    requires Inv(s) && t in WaitMap(s)
    ensures TrulyWaits(s, t, WaitMap(s)[t])
    ensures var slot := s.slots[WaitMap(s)[t]]; slot.view.inUse
  {
    hide Conserved, OwnersAlive;
    var p := BlockedTrulyWaits(s, t);
    assert SlotOk(s.threads, p, s.slots[p]);
  }

  /** The thread at the other end of that pipe waits as well. */
  lemma OtherEndWaits(s: State, t: Tid)
    requires Inv(s) && Stopped(s) && Paired(s) && t in WaitMap(s)
    ensures Waits(LinksOf(s), Pipes(s), WaitMap(s), t)
  {
    hide Conserved, StatesAgree, SlotsOk, OpsOk;
    WaitsThere(s, t);
    var p := WaitMap(s)[t];
    var slot := s.slots[p];
    assert OwnersHere(s, slot);
    var u := Across(LinksOf(s)[p], t);
    assert u in s.threads && Alive(s, u) by { OwnEnd(s, t); }
    var q := StoppedState(s, u);
  }

  /** A reader waits with the write end open, a writer with the read end open. */
  lemma OwnEnd(s: State, t: Tid)
    requires Inv(s) && t in WaitMap(s)
    ensures var p := WaitMap(s)[t];
            p < |s.slots| && var slot := s.slots[p];
            || (slot.reader == t && slot.view.writeopen && slot.view.buf == [] && t in slot.view.readq)
            || (slot.writer == t && slot.view.readopen && |slot.view.buf| == PIPESZ && t in slot.view.writeq)
  {
    hide Inv, Alive;
    WaitsThere(s, t);
  }

  /** Two threads never wait on the same pipe: one would find it empty, the other full. */
  lemma WaitApart(s: State, t: Tid, u: Tid)
    requires Inv(s) && t in WaitMap(s) && u in WaitMap(s) && WaitMap(s)[t] == WaitMap(s)[u]
    ensures t == u
  {
    hide Inv, WaitMap;
    OwnEnd(s, t);
    OwnEnd(s, u);
  }

  /** Whoever is left when the scheduler returns waits in a knot. */
  lemma LeftoversAreKnot(s: State)
    requires Inv(s) && Stopped(s) && Paired(s) && WaitMap(s) != map[]
    ensures Knot(LinksOf(s), Pipes(s), WaitMap(s))
  {
    hide Inv, Paired, WaitMap, Waits;
    forall t | t in WaitMap(s) ensures Waits(LinksOf(s), Pipes(s), WaitMap(s), t) {
      OtherEndWaits(s, t);
    }
    forall t, u | t in WaitMap(s) && u in WaitMap(s) && WaitMap(s)[t] == WaitMap(s)[u] ensures t == u {
      WaitApart(s, t, u);
    }
  }

  lemma ForestFinishes(s: State, t: Tid)
    requires Inv(s) && Stopped(s) && Paired(s) && Forest(LinksOf(s), Pipes(s)) && t in s.threads
    ensures s.threads[t].state.Exited?
  {
    hide Inv, Paired, Knot, Forest;
    var p := StoppedState(s, t);
    if t in WaitMap(s) {
      LeftoversAreKnot(s);
      KnotOrForest(LinksOf(s), Pipes(s), WaitMap(s));
    }
  }

  /** Deadlock freedom, along every run from power-up: if the scheduler returns, the pipes still in use form a forest
      and none of them has only one of its processes added, then every thread ever added has exited. */
  lemma ForestsFinish(es: seq<Event>, t: Tid)
    requires IsRun(Initial(), es)
    requires var s := Final(Initial(), es);
             Stopped(s) && Paired(s) && Forest(LinksOf(s), Pipes(s)) && t in s.threads
    ensures Final(Initial(), es).threads[t].state.Exited?
  {
    hide Inv, Paired, Forest, IsRun, Final;
    InitialInv();
    RunKeepsInv(Initial(), es);
    ForestFinishes(Final(Initial(), es), t);
  }
}
