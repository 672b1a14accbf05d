/** The shape of a set of pipes: a graph whose nodes are the processes and whose edges are the pipes.  A set of pipes
    is a forest exactly when no group of processes can wait for each other in it. */
module PipeGraphs {
  import opened PipeSteps

  /** One pipe: process `from` writes, process `to` reads. */
  datatype Link = Link(from: Tid, to: Tid)

  predicate Touches(l: Link, t: Tid) { l.from == t || l.to == t }

  /** The process at the other end. */
  function Across(l: Link, t: Tid): Tid { if l.from == t then l.to else l.from }

  ghost predicate Among(links: seq<Link>, ps: set<nat>) {
    forall p | p in ps :: p < |links|
  }

  /** Process `t` has one end of pipe `p`, and of no other of these pipes. */
  ghost predicate Leaf(links: seq<Link>, ps: set<nat>, p: nat, t: Tid)
    requires Among(links, ps)
  {
    && p in ps && Touches(links[p], t) && links[p].from != links[p].to
    && forall q | q in ps && Touches(links[q], t) :: q == p
  }

  ghost predicate HasLeaf(links: seq<Link>, ps: set<nat>)
    requires Among(links, ps)
  {
    exists p, t :: Leaf(links, ps, p, t)
  }

  /** No cycle, whichever way the pipes point: every non-empty selection of the pipes has a leaf. */
  ghost predicate Forest(links: seq<Link>, ps: set<nat>)
    requires Among(links, ps)
  {
    forall qs | qs <= ps && qs != {} :: HasLeaf(links, qs)
  }

  /** Each of these processes has a pipe of its own to wait on, with another of them at the other end. */
  ghost predicate Knot(links: seq<Link>, ps: set<nat>, w: map<Tid, nat>)
    requires Among(links, ps)
  {
    && w != map[]
    && OneEach(w)
    && (forall t {:trigger Waits(links, ps, w, t)} | t in w :: Waits(links, ps, w, t))
  }

  /** No two of them wait on the same pipe. */
  ghost predicate OneEach(w: map<Tid, nat>) {
    forall t, u | t in w && u in w && w[t] == w[u] :: t == u
  }

  ghost predicate Waits(links: seq<Link>, ps: set<nat>, w: map<Tid, nat>, t: Tid)
    requires Among(links, ps) && t in w
  {
    w[t] in ps && Touches(links[w[t]], t) && Across(links[w[t]], t) in w
  }

  // ----- a knot rules out a forest

  ghost predicate WaitsFor(links: seq<Link>, w: map<Tid, nat>, t: Tid, u: Tid) {
    t in w && w[t] < |links| && Across(links[w[t]], t) == u
  }

  ghost predicate IsAwaited(links: seq<Link>, w: map<Tid, nat>, u: Tid) {
    exists t :: WaitsFor(links, w, t, u)
  }

  /** Everyone in the knot is waited for. */
  ghost predicate AllAwaited(links: seq<Link>, w: map<Tid, nat>) {
    forall u {:trigger IsAwaited(links, w, u)} | u in w :: IsAwaited(links, w, u)
  }

  /** Those who are waited for still form a knot. */
  lemma Shrink(links: seq<Link>, ps: set<nat>, w: map<Tid, nat>) returns (smaller: map<Tid, nat>)
    requires Among(links, ps) && Knot(links, ps, w) && !AllAwaited(links, w)
    ensures Knot(links, ps, smaller) && |smaller.Keys| < |w.Keys|
  {
    smaller := map t | t in w && IsAwaited(links, w, t) :: w[t];
    forall t | t in smaller ensures Waits(links, ps, smaller, t) {
      ShrinkKeeps(links, ps, w, t);
    }
    assert smaller != map[] by {
      var t :| t in w;
      ShrinkKeeps(links, ps, w, t);
      assert Across(links[w[t]], t) in smaller;
    }
    ProperSubset(smaller.Keys, w.Keys);
  }

  lemma ShrinkKeeps(links: seq<Link>, ps: set<nat>, w: map<Tid, nat>, t: Tid)
    requires Among(links, ps) && Knot(links, ps, w) && t in w
    ensures Waits(links, ps, w, t) && IsAwaited(links, w, Across(links[w[t]], t))
  {
    assert Waits(links, ps, w, t);
    assert WaitsFor(links, w, t, Across(links[w[t]], t));
  }

  lemma {:induction false} KnotHasCore(links: seq<Link>, ps: set<nat>, w: map<Tid, nat>) returns (core: map<Tid, nat>)
    requires Among(links, ps) && Knot(links, ps, w)
    ensures Knot(links, ps, core) && AllAwaited(links, core)
    decreases |w.Keys|
  {
    hide Knot, AllAwaited;
    core := w;
    if !AllAwaited(links, w) {
      core := Shrink(links, ps, w);
      core := KnotHasCore(links, ps, core);
    }
  }

  lemma {:induction false} ProperSubset<T>(a: set<T>, b: set<T>)
    requires a < b
    ensures |a| < |b|
  {
    var x :| x in b && x !in a;
    if a != {} {
      var y :| y in a;
      ProperSubset(a - {y}, b - {y});
    }
  }

  lemma KnotOrForest(links: seq<Link>, ps: set<nat>, w: map<Tid, nat>)
    requires Among(links, ps) && Knot(links, ps, w)
    ensures !Forest(links, ps)
  {
    var core := KnotHasCore(links, ps, w);
    var qs := core.Values;
    forall q | q in qs ensures q in ps {
      var t :| t in core && core[t] == q;
      assert Waits(links, ps, core, t);
    }
    assert qs != {} by { var t :| t in core; assert core[t] in qs; }
    if HasLeaf(links, qs) {
      var p, u :| Leaf(links, qs, p, u);
      NoLeafInCore(links, ps, core, p, u);
    }
  }

  /** Where everyone is waited for, everyone has two ends. */
  lemma NoLeafInCore(links: seq<Link>, ps: set<nat>, core: map<Tid, nat>, p: nat, u: Tid)
    requires Among(links, ps) && Knot(links, ps, core) && AllAwaited(links, core) && core.Values <= ps
    ensures !Leaf(links, core.Values, p, u)
  {
    if u in core {
      assert IsAwaited(links, core, u);
      var x :| WaitsFor(links, core, x, u);
      assert Waits(links, ps, core, u) && core[u] in core.Values;
      assert Waits(links, ps, core, x) && core[x] in core.Values;
    }
    if p in core.Values {
      var t :| t in core && core[t] == p;
      assert Waits(links, ps, core, t);
    }
  }

  // ----- no forest, then a knot

  predicate Joins(l: Link, t: Tid, u: Tid) { l == Link(t, u) || l == Link(u, t) }

  /** A path without repetition, along pipes of the selection. */
  ghost predicate Path(links: seq<Link>, qs: set<nat>, path: seq<Tid>, via: seq<nat>)
    requires Among(links, qs)
  {
    && |path| == |via| + 1
    && (forall i, j | 0 <= i < j < |path| :: path[i] != path[j])
    && (forall i | 0 <= i < |via| :: via[i] in qs && Joins(links[via[i]], path[i], path[i + 1]))
    && exists q :: q in qs && Touches(links[q], path[|via|])
  }

  /** Where there are no leaves, a path leads on by another pipe than the one it came by, or along a pipe from its last
      process to itself. */
  lemma LeadsOn(links: seq<Link>, qs: set<nat>, path: seq<Tid>, via: seq<nat>) returns (e: nat)
    requires Among(links, qs) && !HasLeaf(links, qs) && Path(links, qs, path, via)
    ensures e in qs && Touches(links[e], path[|via|]) && e !in via
  {
    var m := |via|;
    if m == 0 {
      e :| e in qs && Touches(links[e], path[m]);
    } else {
      assert !Leaf(links, qs, via[m - 1], path[m]);
      e :| e in qs && Touches(links[e], path[m]) && e != via[m - 1];
      forall j | 0 <= j < m - 1 ensures via[j] != e {
        assert path[m] != path[j] && path[m] != path[j + 1];
      }
    }
  }

  ghost function PlaceOf(path: seq<Tid>, t: Tid): (j: nat)
    requires t in path
    ensures j < |path| && path[j] == t
  {
    var j :| 0 <= j < |path| && path[j] == t;
    j
  }

  /** A path whose last process is joined to the `i`-th one. */
  ghost predicate Closed(links: seq<Link>, qs: set<nat>, path: seq<Tid>, via: seq<nat>, i: nat)
    requires Among(links, qs)
  {
    && i < |path| == |via| && (forall j | 0 <= j < |via| :: via[j] in qs)
    && (forall j, k | 0 <= j < k < |path| :: path[j] != path[k])
    && (forall j, k | 0 <= j < k < |via| :: via[j] != via[k])
    && (forall j | 0 <= j < |via| - 1 :: Joins(links[via[j]], path[j], path[j + 1]))
    && Joins(links[via[|via| - 1]], path[|via| - 1], path[i])
  }

  ghost function Loop(path: seq<Tid>, via: seq<nat>, i: nat): (w: map<Tid, nat>)
    requires i < |path| == |via|
    ensures path[i] in w
  {
    assert path[i] in path[i..];
    map t | t in path[i..] :: via[PlaceOf(path, t)]
  }

  lemma LoopWaits(links: seq<Link>, qs: set<nat>, path: seq<Tid>, via: seq<nat>, i: nat, t: Tid)
    requires Among(links, qs) && Closed(links, qs, path, via, i) && t in Loop(path, via, i)
    ensures Waits(links, qs, Loop(path, via, i), t)
  {
    var j := PlaceOf(path, t);
    var k := PlaceOf(path[i..], t);
    assert path[i + k] == t && j == i + k;
    if j + 1 < |path| {
      assert path[j + 1] == path[i..][k + 1];
      assert Joins(links[via[j]], path[j], path[j + 1]);
    }
  }

  lemma LoopOneEach(links: seq<Link>, qs: set<nat>, path: seq<Tid>, via: seq<nat>, i: nat)
    requires Among(links, qs) && Closed(links, qs, path, via, i)
    ensures OneEach(Loop(path, via, i))
  {
    hide Joins;
    var w := Loop(path, via, i);
    forall t, u | t in w && u in w && w[t] == w[u] ensures t == u {
      assert via[PlaceOf(path, t)] == via[PlaceOf(path, u)];
    }
  }

  lemma CloseKnot(links: seq<Link>, qs: set<nat>, path: seq<Tid>, via: seq<nat>, i: nat)
    requires Among(links, qs) && Closed(links, qs, path, via, i)
    ensures Knot(links, qs, Loop(path, via, i))
  {
    assert i < |path| == |via|;
    hide Closed, Loop, Waits, OneEach;
    var w := Loop(path, via, i);
    assert w != map[] by { assert path[i] in w; }
    LoopOneEach(links, qs, path, via, i);
    forall t | t in w ensures Waits(links, qs, w, t) {
      LoopWaits(links, qs, path, via, i, t);
    }
  }

  lemma {:induction false} Distinct(path: seq<Tid>, via: seq<nat>, links: seq<Link>)
    requires |path| == |via| + 1 && forall i, j | 0 <= i < j < |path| :: path[i] != path[j]
    requires forall i | 0 <= i < |via| :: via[i] < |links| && Joins(links[via[i]], path[i], path[i + 1])
    ensures forall i, j | 0 <= i < j < |via| :: via[i] != via[j]
  {
    forall i, j | 0 <= i < j < |via| ensures via[i] != via[j] {
      assert Joins(links[via[i]], path[i], path[i + 1]) && Joins(links[via[j]], path[j], path[j + 1]);
      assert path[i] != path[j] && path[i] != path[j + 1];
    }
  }

  ghost function Processes(links: seq<Link>): set<Tid> {
    (set p | 0 <= p < |links| :: links[p].from) + (set p | 0 <= p < |links| :: links[p].to)
  }

  ghost function Visited(path: seq<Tid>): set<Tid> { set t | t in path }

  lemma VisitedMore(path: seq<Tid>, t: Tid)
    ensures Visited(path + [t]) == Visited(path) + {t}
  {
  }

  /** Following a path through a selection without leaves ends in a knot. */
  lemma {:induction false} Follow(links: seq<Link>, qs: set<nat>, path: seq<Tid>, via: seq<nat>)
    returns (w: map<Tid, nat>)
    requires Among(links, qs) && !HasLeaf(links, qs) && Path(links, qs, path, via)
    ensures Knot(links, qs, w)
    decreases Processes(links) - Visited(path)
  {
    hide Path, HasLeaf, Knot, Loop, Closed;
    var e := LeadsOn(links, qs, path, via);
    var other, i := NextStop(links, qs, path, via, e);
    if i < |path| {
      w := Loop(path, via + [e], i);
      CloseKnot(links, qs, path, via + [e], i);
    } else {
      VisitedMore(path, other);
      w := Follow(links, qs, path + [other], via + [e]);
    }
  }

  /** The next pipe leads back to the path, or to a process that is not on it. */
  lemma NextStop(links: seq<Link>, qs: set<nat>, path: seq<Tid>, via: seq<nat>, e: nat) returns (other: Tid, i: nat)
    requires Among(links, qs) && Path(links, qs, path, via)
    requires e in qs && e !in via && Touches(links[e], path[|via|])
    ensures |path| == |via| + 1
    ensures i < |path| ==> Closed(links, qs, path, via + [e], i)
    ensures i >= |path| ==>
              Path(links, qs, path + [other], via + [e]) && other in Processes(links) && other !in Visited(path)
  {
    other := Across(links[e], path[|via|]);
    i := |path|;
    if other in path {
      i := PlaceOf(path, other);
      Distinct(path, via, links);
    } else {
      assert Touches(links[e], other);
      assert forall j | 0 <= j < |path| :: (path + [other])[j] == path[j];
    }
  }

  lemma NoForestThenKnot(links: seq<Link>, ps: set<nat>) returns (w: map<Tid, nat>)
    requires Among(links, ps) && !Forest(links, ps)
    ensures Knot(links, ps, w)
  {
    hide HasLeaf, Touches, OneEach;
    var qs :| qs <= ps && qs != {} && !HasLeaf(links, qs);
    var p :| p in qs;
    StartPath(links, qs, p);
    w := Follow(links, qs, [links[p].from], []);
    forall t | t in w ensures Waits(links, ps, w, t) {
      assert Waits(links, qs, w, t);
    }
  }

  lemma StartPath(links: seq<Link>, qs: set<nat>, p: nat)
    requires Among(links, qs) && p in qs
    ensures Path(links, qs, [links[p].from], [])
  {
    assert Touches(links[p], links[p].from);
  }

  /** A set of pipes is a forest exactly when it admits no knot. */
  lemma ForestIffNoKnot(links: seq<Link>, ps: set<nat>)
    requires Among(links, ps)
    ensures Forest(links, ps) <==> !exists w :: Knot(links, ps, w)
  {
    hide Knot, Forest;
    if w :| Knot(links, ps, w) {
      KnotOrForest(links, ps, w);
    }
    if !Forest(links, ps) {
      var w := NoForestThenKnot(links, ps);
    }
  }

  // ----- pipelines

  /** Each pipe leads to the next process, and no two start at the same one. */
  ghost predicate Pipeline(links: seq<Link>) {
    && (forall p | 0 <= p < |links| :: links[p].to == links[p].from + 1)
    && (forall p, q | 0 <= p < q < |links| :: links[p].from != links[q].from)
  }

  lemma PipelineIsForest(links: seq<Link>, ps: set<nat>)
    requires Pipeline(links) && Among(links, ps)
    ensures Forest(links, ps)
  {
    forall qs | qs <= ps && qs != {} ensures HasLeaf(links, qs) {
      var p := LastStage(links, qs);
      assert Leaf(links, qs, p, links[p].to);
    }
  }

  lemma {:induction false} LastStage(links: seq<Link>, qs: set<nat>) returns (p: nat)
    requires Among(links, qs) && qs != {}
    ensures p in qs && forall q | q in qs :: links[q].from <= links[p].from
  {
    p :| p in qs;
    if qs != {p} {
      assert qs - {p} != {};
      var q := LastStage(links, qs - {p});
      if links[p].from < links[q].from {
        p := q;
      }
    }
  }
}
