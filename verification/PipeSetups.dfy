/** Host programs: make pipes, add threads, start the scheduler.  Which of them always finish? */
module PipeSetups {
  import opened Basics
  import opened PipeSteps
  import opened PipeMachine
  import opened PipeInvariant
  import opened PipeRuns
  import opened PipeGraphs
  import opened PipeFinish

  // ----- joining runs

  lemma {:induction false} JoinRuns(s: State, xs: seq<Event>, ys: seq<Event>)
    requires IsRun(s, xs) && IsRun(Final(s, xs), ys)
    ensures IsRun(s, xs + ys) && Final(s, xs + ys) == Final(Final(s, xs), ys)
    decreases |xs|
  {
    hide Enabled, Step;
    if xs == [] {
      assert xs + ys == ys;
    } else {
      assert (xs + ys)[1..] == xs[1..] + ys;
      JoinRuns(Step(s, xs[0]), xs[1..], ys);
    }
  }

  lemma OneStep(s: State, e: Event)
    requires Enabled(s, e)
    ensures IsRun(s, [e]) && Final(s, [e]) == Step(s, e)
  {
    hide Enabled, Step;
    assert [e][1..] == [];
    assert Final(s, [e]) == Final(Step(s, e), []);
  }

  lemma OneMore(s: State, es: seq<Event>, e: Event)
    requires IsRun(s, es) && Enabled(Final(s, es), e)
    ensures IsRun(s, es + [e]) && Final(s, es + [e]) == Step(Final(s, es), e)
  {
    hide Enabled, Step, IsRun, Final;
    OneStep(Final(s, es), e);
    JoinRuns(s, es, [e]);
  }

  // ----- setting up

  ghost predicate AllDifferent(ts: seq<Tid>) {
    forall i, j | 0 <= i < j < |ts| :: ts[i] != ts[j]
  }

  /** `lps_pipe_new` for each link, then `rrschedadd` for each thread. */
  function SetUp(links: seq<Link>, ts: seq<Tid>): seq<Event> {
    if ts != [] then SetUp(links, ts[..|ts| - 1]) + [Spawn(ts[|ts| - 1])]
    else if links != [] then
      var k := |links| - 1;
      SetUp(links[..k], []) + [NewPipe(k, links[k].from, links[k].to)]
    else []
  }

  function SlotFor(links: seq<Link>, p: nat): Slot {
    if p < |links| then Slot(FreshPipe(), links[p].to, links[p].from, [], [])
    else Slot(PipeView(false, false, false, [], [], []), 0, 0, [], [])
  }

  /** The state in which the scheduler is started. */
  function Ready(links: seq<Link>, ts: seq<Tid>): State {
    State(map t | t in ts :: Thread(Runnable, User(NoCall)), None, ts,
          seq(NPIPE, p requires 0 <= p < NPIPE => SlotFor(links, p)))
  }

  lemma {:induction false} SetUpPipes(links: seq<Link>)
    requires |links| <= NPIPE
    ensures IsRun(Initial(), SetUp(links, [])) && Final(Initial(), SetUp(links, [])) == Ready(links, [])
  {
    hide IsRun, Final;
    if links == [] {
      assert Ready([], []).slots == Initial().slots;
      NoSteps(Initial());
    } else {
      var k := |links| - 1;
      SetUpPipes(links[..k]);
      var e := NewPipe(k, links[k].from, links[k].to);
      OneMore(Initial(), SetUp(links[..k], []), e);
      assert Step(Ready(links[..k], []), e).slots == Ready(links, []).slots;
    }
  }

  lemma NoSteps(s: State)
    ensures IsRun(s, []) && Final(s, []) == s
  {
  }

  /** The order of the host programs, pipes first, is a run, and leads to `Ready`. */
  lemma {:induction false} SetUpRuns(links: seq<Link>, ts: seq<Tid>)
    requires |links| <= NPIPE && AllDifferent(ts)
    ensures IsRun(Initial(), SetUp(links, ts)) && Final(Initial(), SetUp(links, ts)) == Ready(links, ts)
    decreases |ts|
  {
    hide IsRun, Final, Enabled, Step, Ready, Initial;
    if ts == [] {
      SetUpPipes(links);
    } else {
      var k := |ts| - 1;
      SetUpRuns(links, ts[..k]);
      ReadyMore(links, ts);
      OneMore(Initial(), SetUp(links, ts[..k]), Spawn(ts[k]));
    }
  }

  lemma ReadyMore(links: seq<Link>, ts: seq<Tid>)
    requires ts != [] && AllDifferent(ts)
    ensures var k := |ts| - 1;
            && Enabled(Ready(links, ts[..k]), Spawn(ts[k]))
            && Step(Ready(links, ts[..k]), Spawn(ts[k])) == Ready(links, ts)
  {
    hide SlotFor;
    var k := |ts| - 1;
    assert ts == ts[..k] + [ts[k]];
    assert Step(Ready(links, ts[..k]), Spawn(ts[k])).threads == Ready(links, ts).threads;
  }

  lemma ReadyInv(links: seq<Link>, ts: seq<Tid>)
    requires |links| <= NPIPE && AllDifferent(ts)
    ensures Inv(Ready(links, ts))
  {
    hide Inv, Ready, Initial;
    InitialInv();
    SetUpRuns(links, ts);
    RunKeepsInv(Initial(), SetUp(links, ts));
  }

  // ----- from there on

  /** A run in which no pipe is made and no thread is added. */
  ghost predicate Quiet(es: seq<Event>) {
    forall i | 0 <= i < |es| :: !es[i].Spawn? && !es[i].NewPipe?
  }

  /** Every run of this set-up that comes to an end has let all its threads exit. */
  ghost predicate AlwaysFinishes(links: seq<Link>, ts: seq<Tid>) {
    forall es | IsRun(Ready(links, ts), es) && Quiet(es) && Stopped(Final(Ready(links, ts), es)) ::
      AllExited(Final(Ready(links, ts), es))
  }

  ghost predicate AllExited(s: State) {
    forall t | t in s.threads :: s.threads[t].state.Exited?
  }

  /** The pipes between added processes. */
  ghost function Inside(links: seq<Link>, ts: seq<Tid>): (ps: set<nat>)
    ensures Among(links, ps)
  {
    set p | 0 <= p < |links| && links[p].from in ts
  }

  /** No pipe leads between an added process and one that is not. */
  ghost predicate Whole(links: seq<Link>, ts: seq<Tid>) {
    forall p | 0 <= p < |links| :: links[p].from in ts <==> links[p].to in ts
  }

  // ----- a whole forest finishes

  /** The pipes and threads of a set-up stay what they are. */
  ghost predicate SameShape(s: State, links: seq<Link>, ts: seq<Tid>) {
    && |s.slots| == NPIPE
    && (forall t :: t in s.threads <==> t in ts)
    && (forall p | 0 <= p < |s.slots| && s.slots[p].view.inUse ::
          p < |links| && s.slots[p].writer == links[p].from && s.slots[p].reader == links[p].to)
  }

  lemma StepKeepsShape(s: State, e: Event, links: seq<Link>, ts: seq<Tid>)
    requires SameShape(s, links, ts) && Enabled(s, e) && !e.Spawn? && !e.NewPipe?
    ensures SameShape(Step(s, e), links, ts)
  {
    var r := Step(s, e);
    assert forall p | 0 <= p < |s.slots| ::
      && r.slots[p].reader == s.slots[p].reader && r.slots[p].writer == s.slots[p].writer
      && (r.slots[p].view.inUse ==> s.slots[p].view.inUse);
  }

  lemma {:induction false} RunKeepsShape(s: State, es: seq<Event>, links: seq<Link>, ts: seq<Tid>)
    requires SameShape(s, links, ts) && IsRun(s, es) && Quiet(es)
    ensures SameShape(Final(s, es), links, ts)
    decreases |es|
  {
    hide SameShape, Enabled, Step;
    if es != [] {
      StepKeepsShape(s, es[0], links, ts);
      assert forall i | 0 <= i < |es[1..]| :: es[1..][i] == es[i + 1];
      RunKeepsShape(Step(s, es[0]), es[1..], links, ts);
    }
  }

  lemma ForestShows(s: State, links: seq<Link>, ts: seq<Tid>)
    requires SameShape(s, links, ts) && Whole(links, ts) && Forest(links, Inside(links, ts))
    ensures Paired(s) && Forest(LinksOf(s), Pipes(s))
  {
    forall qs | qs <= Pipes(s) && qs != {} ensures HasLeaf(LinksOf(s), qs) {
      assert forall q | q in qs :: q in Inside(links, ts) && LinksOf(s)[q] == links[q];
      assert HasLeaf(links, qs);
      var p, t :| Leaf(links, qs, p, t);
      assert Leaf(LinksOf(s), qs, p, t);
    }
  }

  lemma WholeForestFinishes(links: seq<Link>, ts: seq<Tid>)
    requires |links| <= NPIPE && AllDifferent(ts) && Whole(links, ts) && Forest(links, Inside(links, ts))
    ensures AlwaysFinishes(links, ts)
  {
    var s := Ready(links, ts);
    assert SameShape(s, links, ts);
    ReadyInv(links, ts);
    hide Inv, IsRun, Final, Ready, SameShape, Paired, Forest, Whole, Inside, AllDifferent;
    forall es | IsRun(s, es) && Quiet(es) && Stopped(Final(s, es)) ensures AllExited(Final(s, es)) {
      RunKeepsInv(s, es);
      RunKeepsShape(s, es, links, ts);
      ForestShows(Final(s, es), links, ts);
      forall t | t in Final(s, es).threads ensures Final(s, es).threads[t].state.Exited? {
        ForestFinishes(Final(s, es), t);
      }
    }
  }
}
