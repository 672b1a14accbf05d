/** ... and the other direction: a set-up whose pipes are not a forest, or that leaves one process of a pipe out, has
    a run that ends with threads waiting for ever.  The run is built here thread by thread. */
module PipeTraps {
  import opened Basics
  import opened PipeSteps
  import opened PipeMachine
  import opened PipeInvariant
  import opened PipeRuns
  import opened PipeGraphs
  import opened PipeFinish
  import opened PipeSetups

  /** Threads that can be made to wait for ever: each has a pipe of its own, with another of them, or a process that is
      never added, at the other end. */
  ghost predicate Trap(links: seq<Link>, ts: seq<Tid>, w: map<Tid, nat>) {
    w != map[] && OneEach(w) && forall t {:trigger Trapped(links, ts, w, t)} | t in w :: Trapped(links, ts, w, t)
  }

  ghost predicate Trapped(links: seq<Link>, ts: seq<Tid>, w: map<Tid, nat>, t: Tid)
    requires t in w
  {
    && t in ts && w[t] < |links| && Touches(links[w[t]], t)
    && (Across(links[w[t]], t) in w || Across(links[w[t]], t) !in ts)
  }

  /** The run so far: the first `d` threads have had their only turn. */
  ghost predicate Turned(s: State, links: seq<Link>, ts: seq<Tid>, w: map<Tid, nat>, d: nat) {
    && |s.slots| == NPIPE
    && (forall t :: t in s.threads <==> t in ts)
    && (forall j | d <= j < |ts| :: s.threads[ts[j]] == Thread(Runnable, User(NoCall)))
    && (forall j | 0 <= j < d && j < |ts| && ts[j] in w :: s.threads[ts[j]].state.Blocked?)
    && (forall p | 0 <= p < NPIPE :: SlotTurned(s.slots[p], links, w, p))
    && (forall j | d <= j < |ts| && ts[j] in w :: w[ts[j]] < NPIPE && Untouched(s.slots[w[ts[j]]].view))
  }

  /** Trap pipes stay open at both ends; nobody waits on the others. */
  ghost predicate SlotTurned(slot: Slot, links: seq<Link>, w: map<Tid, nat>, p: nat) {
    && (if p < |links| then slot.writer == links[p].from && slot.reader == links[p].to
                       else !slot.view.readopen && !slot.view.writeopen)
    && (if p in w.Values then slot.view.readopen && slot.view.writeopen
                         else slot.view.readq == [] && slot.view.writeq == [])
  }

  predicate Untouched(v: PipeView) { v.buf == [] && v.readq == [] && v.writeq == [] }

  ghost predicate Between(s: State, links: seq<Link>, ts: seq<Tid>, w: map<Tid, nat>, d: nat) {
    Turned(s, links, ts, w, d) && s.running.None? && d <= |ts| && s.runq == ts[d..]
  }

  lemma ReadyTurned(links: seq<Link>, ts: seq<Tid>, w: map<Tid, nat>)
    requires |links| <= NPIPE && Trap(links, ts, w)
    ensures Between(Ready(links, ts), links, ts, w, 0)
  {
    var s := Ready(links, ts);
    forall p | 0 <= p < NPIPE ensures SlotTurned(s.slots[p], links, w, p) {
      if p in w.Values {
        var t :| t in w && w[t] == p;
        assert Trapped(links, ts, w, t);
      }
    }
    forall j | 0 <= j < |ts| && ts[j] in w ensures w[ts[j]] < NPIPE && Untouched(s.slots[w[ts[j]]].view) {
      assert Trapped(links, ts, w, ts[j]);
    }
  }

  // ----- a thread of the trap blocks

  /** More bytes than a pipe holds. */
  function TooMuch(): seq<byte> { seq(PIPESZ + 1, _ => 0) }

  function BlockingCall(link: Link, t: Tid, p: nat): Event {
    if link.to == t then StartRead(p, 1) else StartWrite(p, TooMuch())
  }

  /** Thread `t` has had its turn and waits on pipe `p`; nothing else has changed. */
  ghost predicate OnlyBlocks(s: State, r: State, t: Tid, p: nat) {
    && p < |s.slots| == |r.slots| && r.running.None?
    && r.threads.Keys == s.threads.Keys && t in r.threads && r.threads[t].state.Blocked?
    && (forall u | u in s.threads && u != t :: r.threads[u] == s.threads[u])
    && (forall q | 0 <= q < |s.slots| && q != p :: r.slots[q] == s.slots[q])
    && r.slots[p].reader == s.slots[p].reader && r.slots[p].writer == s.slots[p].writer
    && r.slots[p].view.readopen == s.slots[p].view.readopen && r.slots[p].view.writeopen == s.slots[p].view.writeopen
  }

  lemma WakeNobody(threads: map<Tid, Thread>)
    ensures Wake(threads, []) == threads
  {
  }

  lemma ResumeBlocks(s: State)
    requires Runs(s) && var op := s.threads[s.running.value].op;
             && (op == Reading(PipeOf(op), 1) || op == Writing(PipeOf(op), TooMuch(), 0)) && PipeOf(op) < |s.slots|
             && var v := s.slots[PipeOf(op)].view; v.readopen && v.writeopen && Untouched(v)
    ensures Enabled(s, Resume)
    ensures OnlyBlocks(s, Step(s, Resume), s.running.value, PipeOf(s.threads[s.running.value].op))
    ensures Step(s, Resume).runq == s.runq
  {
    WakeNobody(s.threads);
  }

  lemma CallIsQuiet(link: Link, t: Tid, p: nat)
    ensures Quiet([Dispatch] + [BlockingCall(link, t, p)] + [Resume])
  {
  }

  lemma CallStarts(s: State, link: Link, t: Tid, p: nat)
    requires s.running.None? && s.runq != [] && s.runq[0] == t
    requires t in s.threads && s.threads[t] == Thread(Runnable, User(NoCall))
    requires p < |s.slots| && s.slots[p].writer == link.from && s.slots[p].reader == link.to && Touches(link, t)
    requires s.slots[p].view.readopen && s.slots[p].view.writeopen
    ensures Enabled(s, Dispatch) && Enabled(Step(s, Dispatch), BlockingCall(link, t, p))
    ensures var op := if link.to == t then Reading(p, 1) else Writing(p, TooMuch(), 0);
            Step(Step(s, Dispatch), BlockingCall(link, t, p))
            == State(s.threads[t := Thread(Runnable, op)], Some(t), s.runq[1..], s.slots)
  {
  }

  /** A dispatched thread makes a call on its pipe and blocks in it. */
  lemma BlocksOn(s: State, link: Link, t: Tid, p: nat) returns (es: seq<Event>)
    requires s.running.None? && s.runq != [] && s.runq[0] == t
    requires t in s.threads && s.threads[t] == Thread(Runnable, User(NoCall))
    requires p < |s.slots| && s.slots[p].writer == link.from && s.slots[p].reader == link.to && Touches(link, t)
    requires var v := s.slots[p].view; v.readopen && v.writeopen && Untouched(v)
    ensures IsRun(s, es) && Quiet(es) && OnlyBlocks(s, Final(s, es), t, p) && Final(s, es).runq == s.runq[1..]
  {
    hide IsRun, Final, Enabled, Step, TooMuch, BlockingCall;
    CallStarts(s, link, t, p);
    CallIsQuiet(link, t, p);
    var call := BlockingCall(link, t, p);
    var s1 := Step(s, Dispatch);
    var s2 := Step(s1, call);
    ResumeBlocks(s2);
    es := [Dispatch] + [call] + [Resume];
    OneStep(s, Dispatch);
    OneMore(s, [Dispatch], call);
    OneMore(s, [Dispatch] + [call], Resume);
  }

  lemma BlockingKeeps(s: State, r: State, links: seq<Link>, ts: seq<Tid>, w: map<Tid, nat>, d: nat)
    requires Trap(links, ts, w) && AllDifferent(ts) && Between(s, links, ts, w, d) && d < |ts| && ts[d] in w
    requires OnlyBlocks(s, r, ts[d], w[ts[d]]) && r.runq == s.runq[1..]
    ensures Between(r, links, ts, w, d + 1)
  {
    var t, p := ts[d], w[ts[d]];
    assert p in w.Values;
    forall q | 0 <= q < NPIPE ensures SlotTurned(r.slots[q], links, w, q) {
      assert SlotTurned(s.slots[q], links, w, q);
    }
    forall j | d + 1 <= j < |ts| && ts[j] in w ensures w[ts[j]] < NPIPE && Untouched(r.slots[w[ts[j]]].view) {
      assert ts[j] != t && w[ts[j]] != p;
    }
  }

  lemma TrapTurn(s: State, links: seq<Link>, ts: seq<Tid>, w: map<Tid, nat>, d: nat) returns (es: seq<Event>)
    requires Trap(links, ts, w) && AllDifferent(ts) && Between(s, links, ts, w, d) && d < |ts| && ts[d] in w
    ensures IsRun(s, es) && Quiet(es) && Between(Final(s, es), links, ts, w, d + 1)
  {
    hide IsRun, Final, Quiet, OnlyBlocks;
    var t, p := ts[d], w[ts[d]];
    assert Trapped(links, ts, w, t);
    assert p in w.Values && SlotTurned(s.slots[p], links, w, p);
    assert s.runq[0] == t;
    es := BlocksOn(s, links[p], t, p);
    BlockingKeeps(s, Final(s, es), links, ts, w, d);
  }

  // ----- any other thread exits

  /** Thread number `d` is on its way out. */
  ghost predicate Leaving(s: State, links: seq<Link>, ts: seq<Tid>, w: map<Tid, nat>, d: nat) {
    && d < |ts| && ts[d] !in w && Turned(s, links, ts, w, d + 1)
    && s.running == Some(ts[d]) && s.threads[ts[d]].op.Exiting? && s.runq == ts[d + 1..]
  }

  /** It has no end left on the first `p` pipes. */
  ghost predicate Cleared(s: State, t: Tid, p: nat) {
    forall q | 0 <= q < p && q < |s.slots| :: !Owns(s, t, q, true) && !Owns(s, t, q, false)
  }

  /** It owns no end of a trap pipe, so nobody waits on what it closes. */
  lemma OwnsNoTrap(s: State, links: seq<Link>, ts: seq<Tid>, w: map<Tid, nat>, d: nat, p: nat, isRead: bool)
    requires Trap(links, ts, w) && Leaving(s, links, ts, w, d) && Owns(s, ts[d], p, isRead)
    ensures p !in w.Values && s.slots[p].view.readq == [] && s.slots[p].view.writeq == []
  {
    assert SlotTurned(s.slots[p], links, w, p);
    forall u | u in w ensures w[u] != p {
      assert Trapped(links, ts, w, u);
    }
  }

  lemma CloseKeeps(s: State, links: seq<Link>, ts: seq<Tid>, w: map<Tid, nat>, d: nat, p: nat, isRead: bool)
    requires Trap(links, ts, w) && Leaving(s, links, ts, w, d) && Owns(s, ts[d], p, isRead)
    ensures Enabled(s, Close(p, isRead)) && Leaving(Step(s, Close(p, isRead)), links, ts, w, d)
    ensures forall q, other | 0 <= q < |s.slots| ::
              Owns(Step(s, Close(p, isRead)), ts[d], q, other)
              <==> Owns(s, ts[d], q, other) && (q, other) != (p, isRead)
  {
    OwnsNoTrap(s, links, ts, w, d, p, isRead);
    WakeNobody(s.threads);
    var r := Step(s, Close(p, isRead));
    assert r.threads == s.threads;
    forall q | 0 <= q < NPIPE ensures SlotTurned(r.slots[q], links, w, q) {
      assert SlotTurned(s.slots[q], links, w, q);
    }
    forall j | d + 1 <= j < |ts| && ts[j] in w ensures w[ts[j]] < NPIPE && Untouched(r.slots[w[ts[j]]].view) {
      assert w[ts[j]] in w.Values;
    }
  }

  lemma MaybeClose(s: State, links: seq<Link>, ts: seq<Tid>, w: map<Tid, nat>, d: nat, p: nat, isRead: bool)
    returns (es: seq<Event>)
    requires Trap(links, ts, w) && Leaving(s, links, ts, w, d) && p < |s.slots| && Cleared(s, ts[d], p)
    ensures IsRun(s, es) && Quiet(es) && Leaving(Final(s, es), links, ts, w, d) && Cleared(Final(s, es), ts[d], p)
    ensures !Owns(Final(s, es), ts[d], p, isRead)
    ensures !Owns(s, ts[d], p, !isRead) ==> !Owns(Final(s, es), ts[d], p, !isRead)
  {
    assert d < |ts|;
    hide Leaving, Trap, IsRun, Final, Owns, Step, Enabled;
    if Owns(s, ts[d], p, isRead) {
      CloseKeeps(s, links, ts, w, d, p, isRead);
      OneStep(s, Close(p, isRead));
      es := [Close(p, isRead)];
    } else {
      NoSteps(s);
      es := [];
    }
  }

  lemma JoinQuiet(s: State, xs: seq<Event>, ys: seq<Event>)
    requires IsRun(s, xs) && IsRun(Final(s, xs), ys) && Quiet(xs) && Quiet(ys)
    ensures IsRun(s, xs + ys) && Final(s, xs + ys) == Final(Final(s, xs), ys) && Quiet(xs + ys)
  {
    hide IsRun, Final;
    JoinRuns(s, xs, ys);
  }

  lemma {:induction false} CloseRest(s: State, links: seq<Link>, ts: seq<Tid>, w: map<Tid, nat>, d: nat, p: nat)
    returns (es: seq<Event>)
    requires Trap(links, ts, w) && Leaving(s, links, ts, w, d) && p <= |s.slots| && Cleared(s, ts[d], p)
    ensures IsRun(s, es) && Quiet(es) && Leaving(Final(s, es), links, ts, w, d) && Cleared(Final(s, es), ts[d], NPIPE)
    decreases NPIPE - p
  {
    assert |s.slots| == NPIPE;
    if p == NPIPE {
      NoSteps(s);
      es := [];
    } else {
      hide Trap, IsRun, Final, Owns, Quiet, Turned;
      var xs := MaybeClose(s, links, ts, w, d, p, true);
      var m := Final(s, xs);
      LeavingSlots(m, links, ts, w, d);
      var ys := MaybeClose(m, links, ts, w, d, p, false);
      JoinQuiet(s, xs, ys);
      var n := Final(m, ys);
      LeavingSlots(n, links, ts, w, d);
      var zs := CloseRest(n, links, ts, w, d, p + 1);
      JoinQuiet(s, xs + ys, zs);
      es := xs + ys + zs;
    }
  }

  lemma LeavingSlots(s: State, links: seq<Link>, ts: seq<Tid>, w: map<Tid, nat>, d: nat)
    requires Leaving(s, links, ts, w, d)
    ensures |s.slots| == NPIPE
  {
  }

  lemma StartsLeaving(s: State, links: seq<Link>, ts: seq<Tid>, w: map<Tid, nat>, d: nat)
    requires AllDifferent(ts) && Between(s, links, ts, w, d) && d < |ts| && ts[d] !in w
    ensures IsRun(s, [Dispatch] + [BeginExit]) && Leaving(Final(s, [Dispatch] + [BeginExit]), links, ts, w, d)
  {
    hide IsRun, Final;
    var s1 := Step(s, Dispatch);
    OneStep(s, Dispatch);
    OneMore(s, [Dispatch], BeginExit);
    var r := Step(s1, BeginExit);
    assert r.runq == ts[d + 1..];
  }

  lemma LeavesForGood(s: State, links: seq<Link>, ts: seq<Tid>, w: map<Tid, nat>, d: nat)
    requires Leaving(s, links, ts, w, d) && Cleared(s, ts[d], NPIPE)
    ensures Enabled(s, EndExit) && Between(Step(s, EndExit), links, ts, w, d + 1)
  {
  }

  lemma OtherTurn(s: State, links: seq<Link>, ts: seq<Tid>, w: map<Tid, nat>, d: nat) returns (es: seq<Event>)
    requires Trap(links, ts, w) && AllDifferent(ts) && Between(s, links, ts, w, d) && d < |ts| && ts[d] !in w
    ensures IsRun(s, es) && Quiet(es) && Between(Final(s, es), links, ts, w, d + 1)
  {
    hide IsRun, Final, Leaving, Turned, Trap, Owns;
    var xs := [Dispatch] + [BeginExit];
    StartsLeaving(s, links, ts, w, d);
    var m := Final(s, xs);
    LeavingSlots(m, links, ts, w, d);
    var ys := CloseRest(m, links, ts, w, d, 0);
    JoinQuiet(s, xs, ys);
    var n := Final(m, ys);
    LeavesForGood(n, links, ts, w, d);
    OneMore(s, xs + ys, EndExit);
    es := xs + ys + [EndExit];
  }

  // ----- the whole run

  /** Everyone gets one turn: the threads of the trap block for ever, the others exit. */
  lemma {:induction false} SpringTrap(s: State, links: seq<Link>, ts: seq<Tid>, w: map<Tid, nat>, d: nat)
    returns (es: seq<Event>)
    requires Trap(links, ts, w) && AllDifferent(ts) && Between(s, links, ts, w, d)
    ensures IsRun(s, es) && Quiet(es) && Between(Final(s, es), links, ts, w, |ts|)
    decreases |ts| - d
  {
    assert d <= |ts|;
    hide IsRun, Final, Between, Trap, Quiet;
    if d == |ts| {
      NoSteps(s);
      QuietNothing();
      es := [];
    } else {
      var xs;
      if ts[d] in w {
        xs := TrapTurn(s, links, ts, w, d);
      } else {
        xs := OtherTurn(s, links, ts, w, d);
      }
      var ys := SpringTrap(Final(s, xs), links, ts, w, d + 1);
      JoinQuiet(s, xs, ys);
      es := xs + ys;
    }
  }

  lemma QuietNothing()
    ensures Quiet([])
  {
  }

  lemma TrapCatches(links: seq<Link>, ts: seq<Tid>, w: map<Tid, nat>)
    requires |links| <= NPIPE && AllDifferent(ts) && Trap(links, ts, w)
    ensures !AlwaysFinishes(links, ts)
  {
    hide IsRun, Final, Ready, Quiet;
    ReadyTurned(links, ts, w);
    var es := SpringTrap(Ready(links, ts), links, ts, w, 0);
    var s := Final(Ready(links, ts), es);
    var t :| t in w;
    assert Trapped(links, ts, w, t);
    var j :| 0 <= j < |ts| && ts[j] == t;
    assert s.threads[ts[j]].state.Blocked?;
    assert Stopped(s) && !AllExited(s);
  }

  /** A pipe with only one process added is a trap of its own. */
  lemma HalfPipeTraps(links: seq<Link>, ts: seq<Tid>) returns (w: map<Tid, nat>)
    requires !Whole(links, ts)
    ensures Trap(links, ts, w)
  {
    var p :| 0 <= p < |links| && !(links[p].from in ts <==> links[p].to in ts);
    var t := if links[p].from in ts then links[p].from else links[p].to;
    w := map[t := p];
    assert Trapped(links, ts, w, t);
  }

  lemma KnotTraps(links: seq<Link>, ts: seq<Tid>, w: map<Tid, nat>)
    requires Whole(links, ts) && Knot(links, Inside(links, ts), w)
    ensures Trap(links, ts, w)
  {
    forall t | t in w ensures Trapped(links, ts, w, t) {
      assert Waits(links, Inside(links, ts), w, t);
    }
  }

  /** A set-up always finishes exactly when no pipe has only one of its processes added and the pipes form a forest. */
  lemma FinishesIffForest(links: seq<Link>, ts: seq<Tid>)
    requires |links| <= 64 && AllDifferent(ts)
    ensures AlwaysFinishes(links, ts) <==> Whole(links, ts) && Forest(links, Inside(links, ts))
  {
    hide AlwaysFinishes, Whole, Forest, Inside, Trap, Knot;
    if !Whole(links, ts) {
      var w := HalfPipeTraps(links, ts);
      TrapCatches(links, ts, w);
    } else if !Forest(links, Inside(links, ts)) {
      var w := NoForestThenKnot(links, Inside(links, ts));
      KnotTraps(links, ts, w);
      TrapCatches(links, ts, w);
    } else {
      WholeForestFinishes(links, ts);
    }
  }

  // ----- the host programs of the repository

  /** The chain runner, for pipelines of any length and any order of adding the threads. */
  lemma PipelinesFinish(links: seq<Link>, ts: seq<Tid>)
    requires |links| <= 64 && AllDifferent(ts) && Pipeline(links)
    requires forall p | 0 <= p < |links| :: links[p].from in ts && links[p].to in ts
    ensures AlwaysFinishes(links, ts)
  {
    hide AlwaysFinishes, Forest;
    PipelineIsForest(links, Inside(links, ts));
    FinishesIffForest(links, ts);
  }

  /** Two processes with a pipe each way, as the ping-pong program has them, need not finish: both may read first. */
  lemma PingPongMayHang()
    ensures !AlwaysFinishes([Link(0, 1), Link(1, 0)], [0, 1])
  {
    var links, ts, w := [Link(0, 1), Link(1, 0)], [0, 1], map[0 := 1, 1 := 0];
    assert Trapped(links, ts, w, 0) && Trapped(links, ts, w, 1);
    TrapCatches(links, ts, w);
  }

  lemma RunOf(s: State, e: Event, rest: seq<Event>)
    requires Enabled(s, e) && IsRun(Step(s, e), rest)
    ensures IsRun(s, [e] + rest) && Final(s, [e] + rest) == Final(Step(s, e), rest)
  {
    assert ([e] + rest)[1..] == rest;
  }

  /** A pipeline of which one process is never added: the other waits for ever. */
  lemma MissingWriterHangs()
    ensures var es := [NewPipe(0, 0, 1), Spawn(1), Dispatch, StartRead(0, 1), Resume];
            && IsRun(Initial(), es) && Stopped(Final(Initial(), es))
            && 1 in Final(Initial(), es).threads && Final(Initial(), es).threads[1].state.Blocked?
  {
    var s0 := Initial();
    var s1 := Step(s0, NewPipe(0, 0, 1));
    var s2 := Step(s1, Spawn(1));
    var s3 := Step(s2, Dispatch);
    var s4 := Step(s3, StartRead(0, 1));
    assert Enabled(s4, Resume);
    RunOf(s4, Resume, []);
    RunOf(s3, StartRead(0, 1), [Resume]);
    RunOf(s2, Dispatch, [StartRead(0, 1), Resume]);
    RunOf(s1, Spawn(1), [Dispatch, StartRead(0, 1), Resume]);
    RunOf(s0, NewPipe(0, 0, 1), [Spawn(1), Dispatch, StartRead(0, 1), Resume]);
  }

  /** A thread that reads from a pipe it made for itself waits for ever. */
  lemma SelfPipeHangs()
    ensures var es := [Spawn(0), Dispatch, NewPipe(0, 0, 0), StartRead(0, 1), Resume];
            && IsRun(Initial(), es) && Stopped(Final(Initial(), es))
            && 0 in Final(Initial(), es).threads && Final(Initial(), es).threads[0].state.Blocked?
  {
    var s0 := Initial();
    var s1 := Step(s0, Spawn(0));
    var s2 := Step(s1, Dispatch);
    var s3 := Step(s2, NewPipe(0, 0, 0));
    var s4 := Step(s3, StartRead(0, 1));
    assert Enabled(s4, Resume);
    RunOf(s4, Resume, []);
    RunOf(s3, StartRead(0, 1), [Resume]);
    RunOf(s2, NewPipe(0, 0, 0), [StartRead(0, 1), Resume]);
    RunOf(s1, Dispatch, [NewPipe(0, 0, 0), StartRead(0, 1), Resume]);
    RunOf(s0, Spawn(0), [Dispatch, NewPipe(0, 0, 0), StartRead(0, 1), Resume]);
  }
}
