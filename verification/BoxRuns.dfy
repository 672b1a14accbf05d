/** Whole runs of the box allocator: the boxes a client holds, over any series of requests and returns. */
module BoxRuns {
  import opened Basics
  import opened BoxMap

  /** A client asks for a box, or gives back the one at an address; it gives back only boxes it holds. */
  datatype Call = Add | Remove(addr: nat)

  /** The addresses handed out and not given back yet. */
  function Held(calls: seq<Call>, answers: seq<nat>): set<nat>
    requires |calls| == |answers|
  {
    if calls == [] then {} else
      var k := |calls| - 1;
      var before := Held(calls[..k], answers[..k]);
      match calls[k]
      case Add => if answers[k] == 0 then before else before + {answers[k]}
      case Remove(addr) => before - {addr}
  }

  // ----- addresses and chunks

  ghost predicate AllAligned(held: set<nat>, k: nat)
    requires 0 < k
  {
    forall a | a in held :: a % k == 0
  }

  ghost function ChunksOf(held: set<nat>, k: nat): set<nat>
    requires 0 < k
  {
    set a | a in held :: a / k
  }

  lemma SameChunk(a: nat, b: nat, k: nat)
    requires 0 < k && a % k == 0 && b % k == 0 && a / k == b / k
    ensures a == b
  {
    assert a == a / k * k && b == b / k * k;
  }

  lemma ChunksPlus(held: set<nat>, chunk: nat, k: nat)
    requires 0 < k && AllAligned(held, k)
    ensures AllAligned(held + {chunk * k}, k) && ChunksOf(held + {chunk * k}, k) == ChunksOf(held, k) + {chunk}
    ensures chunk !in ChunksOf(held, k) ==> chunk * k !in held
  {
    DivideBack(chunk, k, 0);
    var more := held + {chunk * k};
    forall c | c in ChunksOf(held, k) + {chunk} ensures c in ChunksOf(more, k) {
      if c == chunk {
        assert chunk * k in more;
      } else {
        var a :| a in held && a / k == c;
        assert a in more;
      }
    }
  }

  lemma ChunksMinus(held: set<nat>, a: nat, k: nat)
    requires 0 < k && AllAligned(held, k) && a in held
    ensures AllAligned(held - {a}, k) && ChunksOf(held - {a}, k) == ChunksOf(held, k) - {a / k}
  {
    var less := held - {a};
    forall c | c in ChunksOf(less, k) ensures c in ChunksOf(held, k) - {a / k} {
      var b :| b in less && b / k == c;
      if c == a / k { SameChunk(a, b, k); }
    }
    forall c | c in ChunksOf(held, k) - {a / k} ensures c in ChunksOf(less, k) {
      var b :| b in held && b / k == c;
      assert b in less;
    }
  }

  lemma {:induction false} ChunksCount(held: set<nat>, k: nat)
    requires 0 < k && AllAligned(held, k)
    ensures |ChunksOf(held, k)| == |held|
  {
    if held == {} {
      assert ChunksOf(held, k) == {};
    } else {
      var a :| a in held;
      ChunksMinus(held, a, k);
      ChunksCount(held - {a}, k);
      assert a / k in ChunksOf(held, k);
    }
  }

  // ----- capacity

  function Capacity(rs: seq<Region>): nat {
    if rs == [] then 0 else Capacity(rs[..|rs| - 1]) + rs[|rs| - 1].alloc.size
  }

  ghost function Range(lo: nat, n: nat): (cs: set<nat>)
    ensures |cs| == n && forall c :: c in cs <==> lo <= c < lo + n
  {
    if n == 0 then {} else Range(lo, n - 1) + {lo + n - 1}
  }

  ghost function Everything(rs: seq<Region>): (cs: set<nat>)
    ensures forall c :: c in cs <==> exists i :: 0 <= i < |rs| && rs[i].Covers(c)
  {
    if rs == [] then {} else
      var k := |rs| - 1;
      var cs := Everything(rs[..k]) + Range(rs[k].alloc.base, rs[k].alloc.size);
      EverythingSnoc(rs, cs);
      cs
  }

  lemma EverythingSnoc(rs: seq<Region>, cs: set<nat>)
    requires rs != []
    requires var k := |rs| - 1;
             forall c :: c in cs <==> rs[k].Covers(c) || exists i :: 0 <= i < k && rs[..k][i].Covers(c)
    ensures forall c :: c in cs <==> exists i :: 0 <= i < |rs| && rs[i].Covers(c)
  {
    var k := |rs| - 1;
    forall c ensures (exists i :: 0 <= i < |rs| && rs[i].Covers(c)) <==> c in cs {
      if i :| 0 <= i < |rs| && rs[i].Covers(c) {
        assert i < k ==> rs[..k][i].Covers(c);
      }
      if i :| 0 <= i < k && rs[..k][i].Covers(c) {
        assert rs[i].Covers(c);
      }
    }
  }

  lemma {:induction false} EverythingCounts(rs: seq<Region>)
    requires Separate(rs)
    ensures |Everything(rs)| == Capacity(rs)
  {
    hide Range, Separate;
    if rs != [] {
      var k := |rs| - 1;
      SeparateInit(rs);
      EverythingCounts(rs[..k]);
      LastApart(rs);
      Together(Everything(rs[..k]), Range(rs[k].alloc.base, rs[k].alloc.size));
    }
  }

  lemma SeparateInit(rs: seq<Region>)
    requires rs != [] && Separate(rs)
    ensures Separate(rs[..|rs| - 1])
  {
  }

  lemma LastApart(rs: seq<Region>)
    requires rs != [] && Separate(rs)
    ensures var k := |rs| - 1; Everything(rs[..k]) !! Range(rs[k].alloc.base, rs[k].alloc.size)
  {
    var k := |rs| - 1;
    forall c | c in Everything(rs[..k]) ensures c !in Range(rs[k].alloc.base, rs[k].alloc.size) {
      var i :| 0 <= i < k && rs[..k][i].Covers(c);
      assert rs[i].Covers(c);
    }
  }

  lemma Together(a: set<nat>, b: set<nat>)
    requires a !! b
    ensures |a + b| == |a| + |b|
  {
  }

  /** Every region is full exactly when there are as many boxes as chunks. */
  lemma FullIffCapacity(rs: seq<Region>)
    requires AllValid(rs) && Separate(rs)
    ensures (forall i | 0 <= i < |rs| :: Full(rs[i])) <==> |Live(rs)| == Capacity(rs)
  {
    hide ExtAlloc.Chunks, Full, Live, Everything;
    EverythingCounts(rs);
    LiveInside(rs);
    if forall i | 0 <= i < |rs| :: Full(rs[i]) {
      FullIsEverything(rs);
    } else if |Live(rs)| == Capacity(rs) {
      SameSize(Live(rs), Everything(rs));
      EverythingIsFull(rs);
    }
  }

  lemma SameSize(a: set<nat>, b: set<nat>)
    requires a <= b && |a| == |b|
    ensures a == b
  {
    assert b == a + (b - a);
    assert |b| == |a| + |b - a|;
  }

  lemma LiveInside(rs: seq<Region>)
    requires AllValid(rs)
    ensures Live(rs) <= Everything(rs)
  {
    hide ExtAlloc.Chunks, Live;
    forall c | c in Live(rs) ensures c in Everything(rs) {
      var j := Home(rs, c);
    }
  }

  lemma FullIsEverything(rs: seq<Region>)
    requires AllValid(rs) && forall i | 0 <= i < |rs| :: Full(rs[i])
    ensures Live(rs) == Everything(rs)
  {
    hide ExtAlloc.Chunks;
    LiveInside(rs);
    forall c | c in Everything(rs) ensures c in Live(rs) {
      var i :| 0 <= i < |rs| && rs[i].Covers(c);
      assert Full(rs[i]) && c in rs[i].alloc.Chunks();
    }
  }

  lemma EverythingIsFull(rs: seq<Region>)
    requires AllValid(rs) && Separate(rs) && Live(rs) == Everything(rs)
    ensures forall i | 0 <= i < |rs| :: Full(rs[i])
  {
    hide ExtAlloc.Chunks, Live;
    forall i | 0 <= i < |rs| ensures Full(rs[i]) {
      forall c: nat | rs[i].Covers(c) ensures c in rs[i].alloc.Chunks() {
        assert c in Everything(rs);
        var j := Home(rs, c);
        OneHome(rs, i, j, c);
      }
    }
  }

  // ----- runs

  /** The boxes in use are the ones the client holds. */
  ghost predicate Tracks(rs: seq<Region>, k: nat, held: set<nat>)
    requires 0 < k
    reads rs, Vectors(rs)
  {
    AllValid(rs) && Separate(rs) && AllAligned(held, k) && Live(rs) == ChunksOf(held, k)
  }

  /** The box at `a` lies inside a region. */
  ghost predicate Inside(rs: seq<Region>, k: nat, a: nat) {
    exists i :: 0 <= i < |rs| && rs[i].alloc.base * k <= a && a + k <= (rs[i].alloc.base + rs[i].alloc.size) * k
  }

  ghost predicate Disjoint(held: set<nat>, k: nat) {
    forall a, b | a in held && b in held && a != b :: a + k <= b || b + k <= a
  }

  lemma BoxInside(rs: seq<Region>, k: nat, held: set<nat>, a: nat)
    requires 0 < k && Tracks(rs, k, held) && a in held
    ensures Inside(rs, k, a)
  {
    hide ExtAlloc.Chunks, Live;
    var c := a / k;
    assert c in ChunksOf(held, k) && a == c * k;
    var j := Home(rs, c);
    Multiples(rs[j].alloc.base, c, k);
    MultipleStep(c, rs[j].alloc.base + rs[j].alloc.size, k);
  }

  lemma BoxesDisjoint(held: set<nat>, k: nat)
    requires 0 < k && AllAligned(held, k)
    ensures Disjoint(held, k)
  {
    forall a, b | a in held && b in held && a != b ensures a + k <= b || b + k <= a {
      assert a == a / k * k && b == b / k * k;
      if a / k < b / k {
        MultipleStep(a / k, b / k, k);
      } else if b / k < a / k {
        MultipleStep(b / k, a / k, k);
      }
    }
  }

  /** The answer to a call: a box is refused exactly when the client holds as many as there are chunks, and a new one is
      none of those it holds. */
  ghost predicate Answered(rs: seq<Region>, held: set<nat>, call: Call, answer: nat) {
    call.Add? ==> (answer == 0 <==> |held| == Capacity(rs)) && answer !in held
  }

  /** All answers of a run were right when they were given. */
  ghost predicate AllAnswered(rs: seq<Region>, calls: seq<Call>, answers: seq<nat>)
    requires |calls| == |answers|
  {
    calls == [] ||
      var n := |calls| - 1;
      AllAnswered(rs, calls[..n], answers[..n]) && Answered(rs, Held(calls[..n], answers[..n]), calls[n], answers[n])
  }

  lemma OneMore(rs: seq<Region>, calls: seq<Call>, answers: seq<nat>, call: Call, answer: nat)
    requires |calls| == |answers|
    ensures var held := Held(calls, answers);
            && AllAnswered(rs, calls + [call], answers + [answer])
               == (AllAnswered(rs, calls, answers) && Answered(rs, held, call, answer))
            && Held(calls + [call], answers + [answer]) == match call
                 case Add => if answer == 0 then held else held + {answer}
                 case Remove(addr) => held - {addr}
  {
    hide Answered;
    assert (calls + [call])[..|calls|] == calls && (answers + [answer])[..|calls|] == answers;
  }

  /** One call. */
  method Serve(rs: seq<Region>, k: nat, call: Call, held: set<nat>) returns (answer: nat)
    requires 0 < k && Tracks(rs, k, held) && 0 !in held
    modifies rs, Vectors(rs)
    ensures Answered(rs, held, call, answer)
    ensures match call
            case Add => Tracks(rs, k, if answer == 0 then held else held + {answer})
            case Remove(addr) => Tracks(rs, k, held - {addr})
  {
    hide ExtAlloc.Chunks, Live, Full;
    answer := 0;
    match call
    case Add =>
      FullIffCapacity(rs);
      ChunksCount(held, k);
      ghost var chunk;
      answer, chunk := AddSpace(rs, k);
      if answer != 0 {
        ChunksPlus(held, chunk, k);
      }
    case Remove(addr) =>
      if addr in held {
        ChunksMinus(held, addr, k);
        assert addr / k in ChunksOf(held, k);
        RmSpace(rs, k, addr);
      } else {
        assert held - {addr} == held;
      }
  }

  /** Any series of calls on an empty allocator.  The boxes held are chunk-aligned, inside a region and pairwise
      disjoint, `boxmap_active` is their number, and every answer on the way was the right one. */
  method ServeAll(rs: seq<Region>, k: nat, calls: seq<Call>) returns (answers: seq<nat>, active: nat)
    requires 0 < k && AllValid(rs) && Separate(rs) && Live(rs) == {}
    modifies rs, Vectors(rs)
    ensures |answers| == |calls|
    ensures AllAnswered(rs, calls, answers)
    ensures var held := Held(calls, answers);
            && (forall a | a in held :: a % k == 0 && Inside(rs, k, a))
            && Disjoint(held, k) && active == |held|
  {
    hide Tracks, Answered, AllAnswered, Held, Live, Capacity, Disjoint, Inside;
    var held: set<nat> := {};
    answers := [];
    NothingHeld(rs, k);
    for i := 0 to |calls|
      invariant |answers| == i && held == Held(calls[..i], answers) && 0 !in held && Tracks(rs, k, held)
      invariant AllAnswered(rs, calls[..i], answers)
    {
      var answer := Serve(rs, k, calls[i], held);
      OneMore(rs, calls[..i], answers, calls[i], answer);
      assert calls[..i] + [calls[i]] == calls[..i + 1];
      answers := answers + [answer];
      match calls[i] {
        case Add => if answer != 0 { held := held + {answer}; }
        case Remove(addr) => held := held - {addr};
      }
    }
    assert calls[..|calls|] == calls;
    active := HeldFacts(rs, k, held);
  }

  lemma NothingHeld(rs: seq<Region>, k: nat)
    requires 0 < k && AllValid(rs) && Separate(rs) && Live(rs) == {}
    ensures Tracks(rs, k, {}) && Held([], []) == {} && AllAnswered(rs, [], [])
  {
  }

  method HeldFacts(rs: seq<Region>, k: nat, ghost held: set<nat>) returns (active: nat)
    requires 0 < k && Tracks(rs, k, held)
    ensures active == |held| && Disjoint(held, k) && forall a | a in held :: a % k == 0 && Inside(rs, k, a)
  {
    hide Live, Inside, ChunksOf;
    BoxesDisjoint(held, k);
    ChunksCount(held, k);
    forall a | a in held ensures Inside(rs, k, a) {
      BoxInside(rs, k, held, a);
    }
    active := Active(rs);
  }
}
