/** The simple thing that the address-space tracker of `lps-core/mmap.c` has to agree with: a finite map
    from page numbers to mapping information.  A `Region` is the value of one list node; a sequence of
    regions denotes a page map, and the tracker's operations are specified here on those sequences. */
module PageMap {
  import opened Basics

  /** `struct MMInfo`. */
  datatype Info = Info(prot: int, flags: int, fd: int, offset: int, original: bool)

  /** The value of one `struct MMNode`: pages `base .. base + len`, all with the same information. */
  datatype Region = Region(base: nat, len: nat, info: Info) {
    function End(): nat { base + len }
  }

  predicate Within(p: int, lo: int, hi: int) { lo <= p < hi }

  function Span(lo: int, hi: int): set<int> {
    set p | lo <= p < hi && Within(p, lo, hi)
  }

  function Uniform(lo: int, hi: int, info: Info): map<int, Info> {
    map p | p in Span(lo, hi) :: info
  }

  /** The page map that a list of regions denotes. */
  function Pages(rs: seq<Region>): map<int, Info> {
    if rs == [] then map[] else Uniform(rs[0].base, rs[0].End(), rs[0].info) + Pages(rs[1..])
  }

  /** Every region is non-empty and inside `lo .. hi`; the regions ascend and are pairwise disjoint. */
  ghost predicate WellFormed(rs: seq<Region>, lo: int, hi: int) {
    && (forall i | 0 <= i < |rs| :: lo <= rs[i].base && 0 < rs[i].len && rs[i].End() <= hi)
    && (forall i, j | 0 <= i < j < |rs| :: rs[i].End() <= rs[j].base)
  }

  // ----- what unmapping does to one region and to a list of them

  /** The interval `lo .. hi` as a list of at most one region. */
  function Piece(lo: nat, hi: int, info: Info): seq<Region> {
    if lo < hi then [Region(lo, hi - lo, info)] else []
  }

  /** What is left of `r` once the pages `a .. b` are taken away: no piece, one piece or two. */
  function Carve(r: Region, a: int, b: int): seq<Region> {
    Piece(r.base, Min(a, r.End()), r.info) + Piece(Max(b, r.base), r.End(), r.info)
  }

  /** The piece of `r` inside `a .. b`, if there is one. */
  function Hit(r: Region, a: int, b: int): seq<Region> {
    Piece(Max(a, r.base), Min(b, r.End()), r.info)
  }

  function FlatMap(f: Region -> seq<Region>, rs: seq<Region>): seq<Region> {
    if rs == [] then [] else f(rs[0]) + FlatMap(f, rs[1..])
  }

  /** What is left of a list of regions. */
  function CarveAll(rs: seq<Region>, a: int, b: int): seq<Region> {
    FlatMap(r => Carve(r, a, b), rs)
  }

  /** The pieces of a list of regions inside the range. */
  function HitAll(rs: seq<Region>, a: int, b: int): seq<Region> {
    FlatMap(r => Hit(r, a, b), rs)
  }

  // ----- concatenation

  lemma SumAssociates(m: map<int, Info>, n: map<int, Info>, o: map<int, Info>)
    ensures (m + n) + o == m + (n + o)
  {
  }

  lemma {:induction false} PagesConcat(xs: seq<Region>, ys: seq<Region>)
    ensures Pages(xs + ys) == Pages(xs) + Pages(ys)
  {
    if xs == [] {
      assert xs + ys == ys;
    } else {
      var r, rest := xs[0], xs[1..];
      var u := Uniform(r.base, r.End(), r.info);
      PagesConcat(rest, ys);
      calc {
        Pages(xs + ys);
      ==  { assert (xs + ys)[0] == r && (xs + ys)[1..] == rest + ys; }
        u + Pages(rest + ys);
      ==  { SumAssociates(u, Pages(rest), Pages(ys)); }
        Pages(xs) + Pages(ys);
      }
    }
  }

  lemma ConcatAssociates(x: seq<Region>, y: seq<Region>, z: seq<Region>)
    ensures (x + y) + z == x + (y + z)
  {
  }

  lemma {:induction false} FlatMapConcat(f: Region -> seq<Region>, xs: seq<Region>, ys: seq<Region>)
    ensures FlatMap(f, xs + ys) == FlatMap(f, xs) + FlatMap(f, ys)
  {
    if xs == [] {
      assert xs + ys == ys;
    } else {
      var rest := xs[1..];
      FlatMapConcat(f, rest, ys);
      FlatMapCons(f, xs[0], rest + ys);
      FlatMapCons(f, xs[0], rest);
      assert xs == [xs[0]] + rest && xs + ys == [xs[0]] + (rest + ys);
      ConcatAssociates(f(xs[0]), FlatMap(f, rest), FlatMap(f, ys));
    }
  }

  lemma FlatMapCons(f: Region -> seq<Region>, x: Region, rest: seq<Region>)
    ensures FlatMap(f, [x] + rest) == f(x) + FlatMap(f, rest)
  {
    assert ([x] + rest)[1..] == rest;
  }

  lemma CarveAllSnoc(rs: seq<Region>, j: nat, a: int, b: int)
    requires j < |rs|
    ensures CarveAll(rs[..j + 1], a, b) == CarveAll(rs[..j], a, b) + Carve(rs[j], a, b)
    ensures HitAll(rs[..j + 1], a, b) == HitAll(rs[..j], a, b) + Hit(rs[j], a, b)
  {
    assert rs[..j + 1] == rs[..j] + [rs[j]];
    FlatMapConcat(r => Carve(r, a, b), rs[..j], [rs[j]]);
    FlatMapConcat(r => Hit(r, a, b), rs[..j], [rs[j]]);
  }

  /** Regions that do not meet the range are left alone. */
  lemma {:induction false} CarveAllUntouched(rs: seq<Region>, a: int, b: int)
    requires a <= b
    requires forall i | 0 <= i < |rs| :: 0 < rs[i].len && (rs[i].End() <= a || b <= rs[i].base)
    ensures CarveAll(rs, a, b) == rs
    ensures HitAll(rs, a, b) == []
  {
    if rs != [] {
      CarveAllUntouched(rs[1..], a, b);
      assert Carve(rs[0], a, b) == [rs[0]];
      assert rs == [rs[0]] + rs[1..];
    }
  }

  // ----- the meaning of unmapping

  /** Unmapping refines map subtraction: exactly the pages of the range go, all others keep their information. */
  lemma {:induction false} CarveAllPages(rs: seq<Region>, a: int, b: int)
    requires a <= b
    ensures Pages(CarveAll(rs, a, b)) == Pages(rs) - Span(a, b)
  {
    hide Carve, Uniform, Span;
    if rs != [] {
      CarveAllPages(rs[1..], a, b);
      PagesConcat(Carve(rs[0], a, b), CarveAll(rs[1..], a, b));
      CarvePages(rs[0], a, b);
      SumMinus(Uniform(rs[0].base, rs[0].End(), rs[0].info), Pages(rs[1..]), Span(a, b));
    }
  }

  lemma SumMinus(m: map<int, Info>, n: map<int, Info>, s: set<int>)
    ensures (m - s) + (n - s) == (m + n) - s
  {
  }

  lemma PagesPiece(lo: nat, hi: int, info: Info)
    ensures Pages(Piece(lo, hi, info)) == Uniform(lo, hi, info)
  {
    if lo < hi {
      var r := Region(lo, hi - lo, info);
      assert Pages([r]) == Uniform(r.base, r.End(), r.info) + Pages([]);
    }
  }

  lemma UniformMinus(lo: int, hi: int, info: Info, a: int, b: int)
    requires a <= b
    ensures Uniform(lo, Min(a, hi), info) + Uniform(Max(b, lo), hi, info) == Uniform(lo, hi, info) - Span(a, b)
  {
  }

  lemma CarvePages(r: Region, a: int, b: int)
    requires a <= b
    ensures Pages(Carve(r, a, b)) == Uniform(r.base, r.End(), r.info) - Span(a, b)
  {
    PagesConcat(Piece(r.base, Min(a, r.End()), r.info), Piece(Max(b, r.base), r.End(), r.info));
    PagesPiece(r.base, Min(a, r.End()), r.info);
    PagesPiece(Max(b, r.base), r.End(), r.info);
    UniformMinus(r.base, r.End(), r.info, a, b);
  }

  lemma CarveWellFormed(r: Region, lo: int, hi: int, a: int, b: int)
    requires a <= b
    requires lo <= r.base && r.End() <= hi
    ensures WellFormed(Carve(r, a, b), lo, hi)
    ensures forall i | 0 <= i < |Carve(r, a, b)| :: Carve(r, a, b)[i].End() <= r.End()
  {
  }

  /** Unmapping keeps the list sorted, disjoint, in bounds and free of empty regions. */
  lemma {:induction false} CarveAllWellFormed(rs: seq<Region>, lo: int, hi: int, a: int, b: int)
    requires a <= b
    requires WellFormed(rs, lo, hi)
    ensures WellFormed(CarveAll(rs, a, b), lo, hi)
  {
    if rs != [] {
      CarveAllWellFormed(rs[1..], rs[0].End(), hi, a, b);
      CarveWellFormed(rs[0], lo, hi, a, b);
      WellFormedConcat(Carve(rs[0], a, b), CarveAll(rs[1..], a, b), lo, rs[0].End(), hi);
    }
  }

  lemma WellFormedConcat(xs: seq<Region>, ys: seq<Region>, lo: int, mid: int, hi: int)
    requires lo <= mid
    requires WellFormed(xs, lo, hi) && WellFormed(ys, mid, hi)
    requires forall i | 0 <= i < |xs| :: xs[i].End() <= mid
    ensures WellFormed(xs + ys, lo, hi)
  {
    var zs := xs + ys;
    forall i, j | 0 <= i < j < |zs| ensures zs[i].End() <= zs[j].base {
      if i < |xs| <= j {
        assert zs[i] == xs[i] && zs[j] == ys[j - |xs|];
      }
    }
  }

  function Restrict(m: map<int, Info>, s: set<int>): map<int, Info> {
    map p | p in m && p in s :: m[p]
  }

  lemma RestrictSum(m: map<int, Info>, n: map<int, Info>, s: set<int>)
    ensures Restrict(m + n, s) == Restrict(m, s) + Restrict(n, s)
  {
  }

  /** Callback exactness, the meaning: the reported pieces denote the old page map cut down to the range. */
  lemma {:induction false} HitAllPages(rs: seq<Region>, a: int, b: int)
    ensures Pages(HitAll(rs, a, b)) == Restrict(Pages(rs), Span(a, b))
  {
    if rs != [] {
      var r := rs[0];
      HitAllPages(rs[1..], a, b);
      PagesConcat(Hit(r, a, b), HitAll(rs[1..], a, b));
      PagesPiece(Max(a, r.base), Min(b, r.End()), r.info);
      assert Uniform(Max(a, r.base), Min(b, r.End()), r.info)
          == Restrict(Uniform(r.base, r.End(), r.info), Span(a, b));
      RestrictSum(Uniform(r.base, r.End(), r.info), Pages(rs[1..]), Span(a, b));
    }
  }

  /** Callback exactness, the shape: the reported pieces are non-empty, lie in the range, ascend and are disjoint. */
  lemma {:induction false} HitAllShape(rs: seq<Region>, lo: int, hi: int, a: int, b: int)
    requires WellFormed(rs, lo, hi)
    ensures WellFormed(HitAll(rs, a, b), Max(lo, a), Min(hi, b))
  {
    if rs != [] {
      HitAllShape(rs[1..], rs[0].End(), hi, a, b);
      WellFormedConcat(Hit(rs[0], a, b), HitAll(rs[1..], a, b), Max(lo, a), Max(rs[0].End(), a), Min(hi, b));
    }
  }

  // ----- free runs and insertion

  /** No region meets the run of `n` pages at `s`. */
  ghost predicate Free(rs: seq<Region>, s: int, n: int) {
    forall i | 0 <= i < |rs| :: rs[i].End() <= s || s + n <= rs[i].base
  }

  /** A page is mapped exactly when some region holds it. */
  lemma {:induction false} MappedIffHeld(rs: seq<Region>, p: int)
    ensures p in Pages(rs) <==> exists i :: 0 <= i < |rs| && rs[i].base <= p < rs[i].End()
  {
    if rs != [] {
      MappedIffHeld(rs[1..], p);
      if i :| 0 <= i < |rs| && rs[i].base <= p < rs[i].End() {
        assert i > 0 ==> rs[1..][i - 1] == rs[i];
      }
      if j :| 0 <= j < |rs| - 1 && rs[1..][j].base <= p < rs[1..][j].End() {
        assert rs[j + 1] == rs[1..][j];
      }
    }
  }

  /** ... and then it carries that region's information. */
  lemma {:induction false} MappedInfo(rs: seq<Region>, lo: int, hi: int, i: nat, p: int)
    requires WellFormed(rs, lo, hi) && i < |rs| && rs[i].base <= p < rs[i].End()
    ensures p in Pages(rs) && Pages(rs)[p] == rs[i].info
  {
    MappedIffHeld(rs[1..], p);
    if i > 0 {
      MappedInfo(rs[1..], lo, hi, i - 1, p);
    }
  }

  /** `Free` is what it should be: none of the run's pages is mapped. */
  lemma FreeIffUnmapped(rs: seq<Region>, s: int, n: int)
    requires 0 < n
    requires forall i | 0 <= i < |rs| :: 0 < rs[i].len
    ensures Free(rs, s, n) <==> Pages(rs).Keys !! Span(s, s + n)
  {
    if Free(rs, s, n) {
      forall p | p in Pages(rs) ensures p !in Span(s, s + n) {
        MappedIffHeld(rs, p);
      }
    }
    forall i | 0 <= i < |rs| && !(rs[i].End() <= s || s + n <= rs[i].base)
      ensures !(Pages(rs).Keys !! Span(s, s + n))
    {
      var p := Max(s, rs[i].base);
      MappedIffHeld(rs, p);
      assert p in Span(s, s + n);
    }
  }

  lemma SumMovesLast(x: map<int, Info>, u: map<int, Info>, y: map<int, Info>)
    requires u.Keys !! y.Keys
    ensures x + u + y == x + y + u
  {
  }

  lemma PagesAround(xs: seq<Region>, r: Region, ys: seq<Region>)
    requires 0 < r.len
    ensures Pages(xs + [r] + ys) == Pages(xs) + Uniform(r.base, r.End(), r.info) + Pages(ys)
  {
    PagesConcat(xs + [r], ys);
    PagesConcat(xs, [r]);
    PagesPiece(r.base, r.End(), r.info);
  }

  /** Inserting a region where the run is free adds exactly its pages. */
  lemma InsertPages(rs: seq<Region>, i: nat, r: Region)
    requires i <= |rs| && 0 < r.len
    requires forall i | 0 <= i < |rs| :: 0 < rs[i].len
    requires Free(rs, r.base, r.len)
    ensures Pages(rs[..i] + [r] + rs[i..]) == Pages(rs) + Uniform(r.base, r.End(), r.info)
  {
    hide *;
    var xs, ys, u := rs[..i], rs[i..], Uniform(r.base, r.End(), r.info);
    assert rs == xs + ys;
    RunIsApart(rs, i, r);
    PagesAround(xs, r, ys);
    PagesConcat(xs, ys);
    SumMovesLast(Pages(xs), u, Pages(ys));
  }

  lemma RunIsApart(rs: seq<Region>, i: nat, r: Region)
    requires i <= |rs| && 0 < r.len
    requires forall i | 0 <= i < |rs| :: 0 < rs[i].len
    requires Free(rs, r.base, r.len)
    ensures Uniform(r.base, r.End(), r.info).Keys !! Pages(rs[i..]).Keys
  {
    hide Pages;
    FreeIffUnmapped(rs[i..], r.base, r.len);
  }

  lemma InsertWellFormed(rs: seq<Region>, lo: int, hi: int, i: nat, r: Region)
    requires WellFormed(rs, lo, hi)
    requires i <= |rs| && 0 < r.len && lo <= r.base && r.End() <= hi
    requires forall k | 0 <= k < i :: rs[k].End() <= r.base
    requires forall k | i <= k < |rs| :: r.End() <= rs[k].base
    ensures WellFormed(rs[..i] + [r] + rs[i..], lo, hi)
  {
    WellFormedConcat(rs[..i], [r], lo, r.base, hi);
    assert forall k | 0 <= k < i + 1 :: (rs[..i] + [r])[k].End() <= r.End();
    WellFormedConcat(rs[..i] + [r], rs[i..], lo, r.End(), hi);
  }

  lemma EmptyRegionBreaks(rs: seq<Region>, lo: int, hi: int, i: nat, r: Region)
    requires i <= |rs| && r.len == 0
    ensures !WellFormed(rs[..i] + [r] + rs[i..], lo, hi)
  {
    assert (rs[..i] + [r] + rs[i..])[i] == r;
  }

  // ----- unmapping no pages at all

  /** The boundary `a` lies in the region or at one of its ends. */
  predicate Reaches(r: Region, a: int) { r.base <= a <= r.End() }

  /** The index at which an unmap starts its scan, with the cursor at index `c`, or nowhere when `c` is -1. */
  function ScanFrom(rs: seq<Region>, c: int, a: int): (k: nat)
    requires -1 <= c < |rs|
    ensures k <= |rs|
    decreases c + 1
  {
    if c < 0 then 0 else if rs[c].base <= a then c else ScanFrom(rs, c - 1, a)
  }

  /** What an unmap of no pages at `a` reports, from index `k` on: an empty piece of the first region that reaches
      `a`. */
  function EmptyHit(rs: seq<Region>, k: nat, a: nat): seq<Region>
    requires k <= |rs|
    decreases |rs| - k
  {
    if k == |rs| || a < rs[k].base then []
    else if a <= rs[k].End() then [Region(a, 0, rs[k].info)]
    else EmptyHit(rs, k + 1, a)
  }

  /** Everything the scan skips ends at or below `a`, and if it ends at `a` the scan starts on a region that begins
      there. */
  lemma {:induction false} ScanFromSkips(rs: seq<Region>, lo: int, hi: int, c: int, a: int)
    requires WellFormed(rs, lo, hi) && -1 <= c < |rs|
    ensures var k := ScanFrom(rs, c, a);
            && (forall i | 0 <= i < k :: rs[i].End() <= a)
            && (0 < k ==> k < |rs| && rs[k].base <= a)
    decreases c + 1
  {
    if 0 <= c && a < rs[c].base {
      ScanFromSkips(rs, lo, hi, c - 1, a);
    }
  }

  /** The reported piece is empty and carries the information of a region that reaches `a`. */
  ghost predicate EmptyPieceOf(rs: seq<Region>, i: nat, a: nat, log: seq<Region>) {
    i < |rs| && Reaches(rs[i], a) && log == [Region(a, 0, rs[i].info)]
  }

  lemma {:induction false} EmptyHitFrom(rs: seq<Region>, lo: int, hi: int, k: nat, a: nat)
    requires WellFormed(rs, lo, hi) && k <= |rs|
    ensures EmptyHit(rs, k, a) == [] <==> forall i | k <= i < |rs| :: !Reaches(rs[i], a)
    ensures EmptyHit(rs, k, a) != [] ==> exists i :: k <= i && EmptyPieceOf(rs, i, a, EmptyHit(rs, k, a))
    decreases |rs| - k
  {
    if k < |rs| {
      if Reaches(rs[k], a) {
        assert EmptyPieceOf(rs, k, a, EmptyHit(rs, k, a));
      } else if rs[k].End() < a {
        EmptyHitFrom(rs, lo, hi, k + 1, a);
      } else {
        assert forall i | k < i < |rs| :: rs[k].End() <= rs[i].base;
      }
    }
  }

  /** An unmap of no pages calls back exactly when some region reaches the boundary, wherever the cursor is. */
  lemma EmptyHitIff(rs: seq<Region>, lo: int, hi: int, c: int, a: nat)
    requires WellFormed(rs, lo, hi) && -1 <= c < |rs|
    ensures var log := EmptyHit(rs, ScanFrom(rs, c, a), a);
            && (log == [] <==> forall i | 0 <= i < |rs| :: !Reaches(rs[i], a))
            && (log != [] ==> exists i :: EmptyPieceOf(rs, i, a, log))
  {
    var k := ScanFrom(rs, c, a);
    ScanFromSkips(rs, lo, hi, c, a);
    EmptyHitFrom(rs, lo, hi, k, a);
    forall i | 0 <= i < k && Reaches(rs[i], a) ensures EmptyHit(rs, k, a) != [] {
      assert rs[i].End() == a && Reaches(rs[k], a);
    }
  }

  /** Two regions with different information meet at `a`. */
  ghost predicate Seam(rs: seq<Region>, i: nat, a: nat) {
    0 < i < |rs| && rs[i - 1].End() == a == rs[i].base && rs[i - 1].info != rs[i].info
  }

  /** Where the cursor is makes no difference to that report, unless the boundary is such a seam. */
  ghost predicate CursorIrrelevant(rs: seq<Region>, a: nat) {
    forall c, c' | -1 <= c < |rs| && -1 <= c' < |rs| ::
      EmptyHit(rs, ScanFrom(rs, c, a), a) == EmptyHit(rs, ScanFrom(rs, c', a), a)
  }

  lemma SeamSplits(rs: seq<Region>, lo: int, hi: int, i: nat, a: nat)
    requires WellFormed(rs, lo, hi) && Seam(rs, i, a)
    ensures EmptyHit(rs, ScanFrom(rs, -1, a), a) == [Region(a, 0, rs[i - 1].info)]
    ensures EmptyHit(rs, ScanFrom(rs, i, a), a) == [Region(a, 0, rs[i].info)]
  {
    FirstReach(rs, lo, hi, 0, i - 1, a);
  }

  lemma {:induction false} FirstReach(rs: seq<Region>, lo: int, hi: int, k: nat, i: nat, a: nat)
    requires WellFormed(rs, lo, hi) && k <= i < |rs| && rs[i].End() == a
    ensures EmptyHit(rs, k, a) == [Region(a, 0, rs[i].info)]
    decreases i - k
  {
    if k < i {
      assert rs[k].End() <= rs[i].base;
      FirstReach(rs, lo, hi, k + 1, i, a);
    }
  }

  lemma Spread(rs: seq<Region>, lo: int, hi: int, i: nat, j: nat)
    requires WellFormed(rs, lo, hi) && i + 1 < j < |rs|
    ensures rs[i].End() < rs[j].base
  {
    assert rs[i].End() <= rs[i + 1].base && rs[i + 1].End() <= rs[j].base;
  }

  lemma OneInfo(rs: seq<Region>, lo: int, hi: int, i: nat, j: nat, a: nat)
    requires WellFormed(rs, lo, hi) && i <= j < |rs| && Reaches(rs[i], a) && Reaches(rs[j], a)
    requires forall k :: !Seam(rs, k, a)
    ensures rs[i].info == rs[j].info
  {
    if i < j {
      if i + 1 < j {
        Spread(rs, lo, hi, i, j);
      }
      assert !Seam(rs, j, a);
    }
  }

  lemma CursorIrrelevantIff(rs: seq<Region>, lo: int, hi: int, a: nat)
    requires WellFormed(rs, lo, hi)
    ensures CursorIrrelevant(rs, a) <==> forall i :: !Seam(rs, i, a)
  {
    if i :| Seam(rs, i, a) {
      SeamSplits(rs, lo, hi, i, a);
    } else {
      forall c, c' | -1 <= c < |rs| && -1 <= c' < |rs|
        ensures EmptyHit(rs, ScanFrom(rs, c, a), a) == EmptyHit(rs, ScanFrom(rs, c', a), a)
      {
        EmptyHitIff(rs, lo, hi, c, a);
        EmptyHitIff(rs, lo, hi, c', a);
        var x, y := EmptyHit(rs, ScanFrom(rs, c, a), a), EmptyHit(rs, ScanFrom(rs, c', a), a);
        if x != [] && y != [] {
          var i :| EmptyPieceOf(rs, i, a, x);
          var j :| EmptyPieceOf(rs, j, a, y);
          if i <= j {
            OneInfo(rs, lo, hi, i, j, a);
          } else {
            OneInfo(rs, lo, hi, j, i, a);
          }
        }
      }
    }
  }

  /** At a seam it does make a difference: the head of the list and a cursor on the second region give different
      reports. */
  lemma CursorShows(first: Info, second: Info)
    requires first != second
    ensures var rs := [Region(0, 5, first), Region(5, 5, second)];
            && EmptyHit(rs, ScanFrom(rs, -1, 5), 5) == [Region(5, 0, first)]
            && EmptyHit(rs, ScanFrom(rs, 1, 5), 5) == [Region(5, 0, second)]
  {
    SeamSplits([Region(0, 5, first), Region(5, 5, second)], 0, 10, 1, 5);
  }
}
