/** Whole runs of the address-space tracker: every request of a series is answered as its page map demands, the
    series leaves the page map that the answers spell out, and nothing but an unmap or a fixed mapping over a page
    disturbs it. */
module AddressSpaceRuns {
  import opened Basics
  import opened PageMap
  import opened AddressSpace

  datatype Request =
    | Unmap(addr: nat, length: nat)
    | MapAt(addr: nat, length: nat, info: Info)
    | MapAny(length: nat, info: Info)

  /** The geometry of a space, in pages. */
  datatype Space = Space(base: nat, end: nat, pagesize: nat)

  /** The requests that make `mm_mapat` abort: a well-placed range of no pages. */
  predicate Aborts(sp: Space, q: Request)
    requires 0 < sp.pagesize
  {
    && q.MapAt? && Aligned(sp.pagesize, q.addr) && MmCeil(sp.pagesize, q.length) == 0
    && sp.base <= MmTrunc(sp.pagesize, q.addr) <= sp.end
  }

  /** What the tracker asks of its callers: 64-bit arguments, no fixed mapping that aborts, no placed mapping of no
      pages. */
  predicate Allowed(sp: Space, q: Request)
    requires 0 < sp.pagesize
  {
    && q.length < WORD && (!q.MapAny? ==> q.addr < WORD)
    && !Aborts(sp, q) && (q.MapAny? ==> 0 < MmCeil(sp.pagesize, q.length))
  }

  /** The first page a request is about; for `MapAny` the answer decides. */
  function Start(sp: Space, q: Request, answer: int): nat
    requires 0 < sp.pagesize
  {
    match q
    case Unmap(addr, _) => MmTrunc(sp.pagesize, addr)
    case MapAt(addr, _, _) => MmTrunc(sp.pagesize, addr)
    case MapAny(_, _) => if answer < 0 then 0 else MmTrunc(sp.pagesize, answer)
  }

  function Stop(sp: Space, q: Request, answer: int): nat
    requires 0 < sp.pagesize
  {
    Start(sp, q, answer) + MmCeil(sp.pagesize, q.length)
  }

  /** The page map after a request, given its answer. */
  function After(sp: Space, m: map<int, Info>, q: Request, answer: int): map<int, Info>
    requires 0 < sp.pagesize
  {
    if answer < 0 then m
    else if q.Unmap? then m - Span(Start(sp, q, answer), Stop(sp, q, answer))
    else m + Uniform(Start(sp, q, answer), Stop(sp, q, answer), q.info)
  }

  /** Where `MapAny` looks: at or above the lowest mapped page, or anywhere while nothing is mapped. */
  ghost predicate Offered(sp: Space, m: map<int, Info>, s: int) {
    sp.base <= s && (m == map[] || exists p :: p in m && p <= s)
  }

  ghost predicate FreeRun(sp: Space, m: map<int, Info>, s: int, n: nat) {
    Offered(sp, m, s) && s + n <= sp.end && Span(s, s + n) !! m.Keys
  }

  /** There is a free run of `n` pages where `MapAny` looks. */
  ghost predicate Room(sp: Space, m: map<int, Info>, n: nat) {
    exists s :: FreeRun(sp, m, s, n)
  }

  /** What a request is answered, given the page map it is made in: errors, and the choice of `MapAny`. */
  ghost predicate Answered(sp: Space, m: map<int, Info>, q: Request, answer: int)
    requires 0 < sp.pagesize
  {
    var n := MmCeil(sp.pagesize, q.length);
    match q
    case Unmap(addr, length) =>
      var a := MmTrunc(sp.pagesize, addr);
      answer == if Aligned(sp.pagesize, addr) && length != 0 && sp.base <= a && a + n <= sp.end then 0 else -EINVAL
    case MapAt(addr, length, _) =>
      var a := MmTrunc(sp.pagesize, addr);
      answer == if !Aligned(sp.pagesize, addr) then -1 else if sp.base <= a && a + n <= sp.end then addr else -EINVAL
    case MapAny(length, _) =>
      && (answer == -1 <==> !Room(sp, m, n))
      && (answer != -1 ==>
            0 <= answer && Aligned(sp.pagesize, answer) && FreeRun(sp, m, MmTrunc(sp.pagesize, answer), n))
  }

  function Replay(sp: Space, m: map<int, Info>, qs: seq<Request>, answers: seq<int>): map<int, Info>
    requires 0 < sp.pagesize && |qs| == |answers|
  {
    if qs == [] then m else
      var k := |qs| - 1;
      After(sp, Replay(sp, m, qs[..k], answers[..k]), qs[k], answers[k])
  }

  /** Every answer of a run is the right one where it was given. */
  ghost predicate AllAnswered(sp: Space, m: map<int, Info>, qs: seq<Request>, answers: seq<int>)
    requires 0 < sp.pagesize && |qs| == |answers|
  {
    qs == [] ||
      var k := |qs| - 1;
      && AllAnswered(sp, m, qs[..k], answers[..k])
      && Answered(sp, Replay(sp, m, qs[..k], answers[..k]), qs[k], answers[k])
  }

  lemma OneMore(sp: Space, m: map<int, Info>, qs: seq<Request>, answers: seq<int>, q: Request, answer: int)
    requires 0 < sp.pagesize && |qs| == |answers|
    ensures var now := Replay(sp, m, qs, answers);
            && Replay(sp, m, qs + [q], answers + [answer]) == After(sp, now, q, answer)
            && AllAnswered(sp, m, qs + [q], answers + [answer])
               == (AllAnswered(sp, m, qs, answers) && Answered(sp, now, q, answer))
  {
    hide After, Answered;
    assert (qs + [q])[..|qs|] == qs && (answers + [answer])[..|qs|] == answers;
  }

  /** The tracker's own view of where there is room is the one of the page map. */
  lemma LowestMapped(rs: seq<Region>, lo: int, hi: int, s: int)
    requires WellFormed(rs, lo, hi)
    ensures (if rs == [] then lo else rs[0].base) <= s
            <==> lo <= s && (Pages(rs) == map[] || exists p :: p in Pages(rs) && p <= s)
  {
    hide Pages;
    if rs == [] {
      NothingMapped();
    } else {
      MappedIffHeld(rs, rs[0].base);
      if p :| p in Pages(rs) && p <= s {
        MappedIffHeld(rs, p);
        var i :| 0 <= i < |rs| && rs[i].base <= p < rs[i].End();
        FirstIsLowest(rs, lo, hi, i);
      }
    }
  }

  lemma NothingMapped()
    ensures Pages([]) == map[]
  {
  }

  lemma RunsAgree(sp: Space, rs: seq<Region>, s: int, n: nat)
    requires WellFormed(rs, sp.base, sp.end) && 0 < n
    ensures (if rs == [] then sp.base else rs[0].base) <= s && s + n <= sp.end && Free(rs, s, n)
            <==> FreeRun(sp, Pages(rs), s, n)
  {
    hide Pages, Free, Span;
    LowestMapped(rs, sp.base, sp.end, s);
    FreeIffUnmapped(rs, s, n);
  }

  lemma RoomAgrees(sp: Space, rs: seq<Region>, n: nat)
    requires WellFormed(rs, sp.base, sp.end) && 0 < n
    ensures (exists s :: (if rs == [] then sp.base else rs[0].base) <= s && s + n <= sp.end && Free(rs, s, n))
            <==> Room(sp, Pages(rs), n)
  {
    hide Pages, Free, FreeRun;
    if s :| (if rs == [] then sp.base else rs[0].base) <= s && s + n <= sp.end && Free(rs, s, n) {
      RunsAgree(sp, rs, s, n);
    }
    if s :| FreeRun(sp, Pages(rs), s, n) {
      RunsAgree(sp, rs, s, n);
    }
  }

  /** `mm_mapany` on the page map. */
  method Place(mm: AddrSpace, sp: Space, length: nat, info: Info) returns (answer: int)
    requires mm.Valid() && sp == Space(mm.base, mm.base + mm.len, mm.pagesize) && 0 < sp.pagesize
    requires Allowed(sp, MapAny(length, info))
    modifies mm, mm.pool
    ensures mm.Valid() && fresh(mm.pool - old(mm.pool))
    ensures Pages(mm.regions) == After(sp, Pages(old(mm.regions)), MapAny(length, info), answer)
    ensures Answered(sp, Pages(old(mm.regions)), MapAny(length, info), answer)
  {
    hide Pages, Free, FreeRun, Room, MmTrunc, MmCeil, Aligned, Span, Uniform;
    hide AddrSpace.Consistent, WellFormed, Addressable;
    ghost var rs, n := mm.regions, MmCeil(sp.pagesize, length);
    answer := mm.MapAny(length, info);
    RoomAgrees(sp, rs, n);
    if answer != -1 {
      PlacedRun(mm, sp, rs, n, info, answer);
    }
  }

  lemma PlacedRun(mm: AddrSpace, sp: Space, rs: seq<Region>, n: nat, info: Info, answer: int)
    requires sp == Space(mm.base, mm.base + mm.len, mm.pagesize) && 0 < sp.pagesize && WellFormed(rs, sp.base, sp.end)
    requires 0 < n && answer != -1
    requires mm.Placed(rs, if rs == [] then sp.base else rs[0].base, mm.regions, n, info, answer)
    ensures 0 <= answer && FreeRun(sp, Pages(rs), MmTrunc(sp.pagesize, answer), n)
  {
    hide Pages, Free, Span, FreeRun, Uniform;
    var a := MmTrunc(sp.pagesize, answer);
    FreeIffUnmapped(rs, a, n);
    RunsAgree(sp, rs, a, n);
  }

  /** One request. */
  method Serve(mm: AddrSpace, sp: Space, q: Request) returns (answer: int)
    requires mm.Valid() && sp == Space(mm.base, mm.base + mm.len, mm.pagesize) && 0 < sp.pagesize && Allowed(sp, q)
    modifies mm, mm.pool
    ensures mm.Valid() && fresh(mm.pool - old(mm.pool))
    ensures Pages(mm.regions) == After(sp, Pages(old(mm.regions)), q, answer)
    ensures Answered(sp, Pages(old(mm.regions)), q, answer)
  {
    hide Pages, HitAll, FreeRun, Room, MmTrunc, MmCeil, Aligned, Span, Uniform, Reported;
    hide AddrSpace.Consistent, WellFormed, Addressable;
    var log, aborted;
    match q
    case Unmap(addr, length) => answer, log := mm.UnmapCb(addr, length);
    case MapAt(addr, length, info) => answer, log, aborted := mm.MapAtCb(addr, length, info);
    case MapAny(length, info) => answer := Place(mm, sp, length, info);
  }

  /** A whole run: the page map is what the requests and their answers spell out. */
  method ServeAll(mm: AddrSpace, sp: Space, qs: seq<Request>) returns (answers: seq<int>)
    requires mm.Valid() && sp == Space(mm.base, mm.base + mm.len, mm.pagesize) && 0 < sp.pagesize
    requires forall k | 0 <= k < |qs| :: Allowed(sp, qs[k])
    modifies mm, mm.pool
    ensures mm.Valid() && |answers| == |qs|
    ensures Pages(mm.regions) == Replay(sp, Pages(old(mm.regions)), qs, answers)
    ensures AllAnswered(sp, Pages(old(mm.regions)), qs, answers)
  {
    hide Pages, AddrSpace.Valid, After, Answered, AllAnswered, Allowed, Replay;
    ghost var m := Pages(mm.regions);
    answers := [];
    NothingYet(sp, m);
    for i := 0 to |qs|
      invariant mm.Valid() && |answers| == i && fresh(mm.pool - old(mm.pool))
      invariant Pages(mm.regions) == Replay(sp, m, qs[..i], answers) && AllAnswered(sp, m, qs[..i], answers)
    {
      var answer := Serve(mm, sp, qs[i]);
      OneMore(sp, m, qs[..i], answers, qs[i], answer);
      assert qs[..i] + [qs[i]] == qs[..i + 1];
      answers := answers + [answer];
    }
    assert qs[..|qs|] == qs;
  }

  lemma NothingYet(sp: Space, m: map<int, Info>)
    requires 0 < sp.pagesize
    ensures Replay(sp, m, [], []) == m && AllAnswered(sp, m, [], [])
  {
  }

  /** A request takes a page away from its mapping only by unmapping it or by a fixed mapping over it. */
  predicate Disturbs(sp: Space, q: Request, answer: int, p: int)
    requires 0 < sp.pagesize
  {
    !q.MapAny? && 0 <= answer && p in Span(Start(sp, q, answer), Stop(sp, q, answer))
  }

  /** Safety over whole runs: a mapped page keeps its information until a request disturbs it. */
  lemma {:induction false} MappingSurvives(sp: Space, m: map<int, Info>, qs: seq<Request>, answers: seq<int>, p: int)
    requires 0 < sp.pagesize && |qs| == |answers| && AllAnswered(sp, m, qs, answers) && p in m
    requires forall k | 0 <= k < |qs| :: !Disturbs(sp, qs[k], answers[k], p)
    ensures p in Replay(sp, m, qs, answers) && Replay(sp, m, qs, answers)[p] == m[p]
    decreases |qs|
  {
    hide After, Answered, Disturbs;
    if qs != [] {
      var k := |qs| - 1;
      var before := Replay(sp, m, qs[..k], answers[..k]);
      MappingSurvives(sp, m, qs[..k], answers[..k], p);
      assert Answered(sp, before, qs[k], answers[k]) && !Disturbs(sp, qs[k], answers[k], p);
      KeepsPage(sp, before, qs[k], answers[k], p);
    }
  }

  lemma KeepsPage(sp: Space, m: map<int, Info>, q: Request, answer: int, p: int)
    requires 0 < sp.pagesize && p in m && Answered(sp, m, q, answer) && !Disturbs(sp, q, answer, p)
    ensures p in After(sp, m, q, answer) && After(sp, m, q, answer)[p] == m[p]
  {
    hide Span, Room, Offered, MmTrunc, MmCeil, Aligned;
  }

  /** The gap below the lowest mapping is not offered, even if nothing else is free. */
  lemma LowGapNotOffered(info: Info)
    ensures var sp, m := Space(0, 10, 4096), Uniform(5, 10, info);
            Span(0, 5) !! m.Keys && !Room(sp, m, 1)
  {
    var sp, m := Space(0, 10, 4096), Uniform(5, 10, info);
    forall s ensures !FreeRun(sp, m, s, 1) {
      if s < 10 {
        assert 5 in m && s in Span(s, s + 1);
      }
    }
  }
}
