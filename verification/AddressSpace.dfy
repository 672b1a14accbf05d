/** The sandbox address-space tracker, `lps-core/mmap.c`: a sorted, doubly linked list of page regions with a
    movable cursor.  Each operation is proved against the page map of module `PageMap`. */
module AddressSpace {
  import opened Basics
  import opened PageMap

  const EINVAL: int := 22

  predicate IsPowerOfTwo(x: nat) {
    x == 1 || (x > 1 && x % 2 == 0 && IsPowerOfTwo(x / 2))
  }

  /** `mmtrunc`: bytes to pages, rounding down. */
  function MmTrunc(pagesize: nat, addr: nat): nat
    requires 0 < pagesize
  {
    addr / pagesize
  }

  /** `mmceil`: bytes to pages, rounding up, in 64-bit arithmetic that wraps. */
  function MmCeil(pagesize: nat, bytes: nat): nat
    requires 0 < pagesize
  {
    (bytes + pagesize - 1) % WORD / pagesize
  }

  /** Pages to bytes, a left shift in C. */
  function PageAddr(pagesize: nat, page: nat): nat { page * pagesize }

  predicate Aligned(pagesize: nat, addr: nat)
    requires 0 < pagesize
  {
    addr % pagesize == 0
  }

  /** The space `base .. end`, in pages, ends at least one page below the top of the 64-bit range. */
  predicate Addressable(end: nat, pagesize: nat) {
    (end + 1) * pagesize <= WORD
  }

  /** An address lies on the page it is truncated to; a length takes the least number of pages that cover it, or none if
      rounding it up wraps. */
  lemma Rounding(p: nat, x: nat)
    requires 0 < p <= WORD && x < 0x1_0000_0000_0000_0000
    ensures MmTrunc(p, x) * p <= x < MmTrunc(p, x) * p + p
    ensures if x <= 0x1_0000_0000_0000_0000 - p then x <= MmCeil(p, x) * p < x + p else MmCeil(p, x) == 0
  {
    hide MmTrunc, MmCeil;
    TruncBounds(p, x);
    CeilBounds(p, x);
  }

  lemma TruncBounds(p: nat, x: nat)
    requires 0 < p
    ensures MmTrunc(p, x) * p <= x < MmTrunc(p, x) * p + p
  {
    DivMod(x, p);
  }

  lemma CeilBounds(p: nat, x: nat)
    requires 0 < p <= WORD && x < WORD
    ensures if x <= WORD - p then x <= MmCeil(p, x) * p < x + p else MmCeil(p, x) == 0
  {
    if x <= WORD - p {
      var y := x + p - 1;
      SmallMod(y, WORD);
      TruncBounds(p, y);
      assert MmCeil(p, x) == MmTrunc(p, y);
    } else {
      var wrapped := x + p - 1 - WORD;
      DivideBack(1, WORD, wrapped);
      SmallMod(wrapped, p);
    }
  }

  /** Converting pages to bytes and back, as `mm_mapat_cb` and `mm_unmap_cb` do, loses nothing. */
  lemma PagesToBytes(q: nat, p: nat, end: nat)
    requires 2 <= p && q <= end && Addressable(end, p)
    ensures var x := PageAddr(p, q);
            Aligned(p, x) && MmTrunc(p, x) == q && MmCeil(p, x) == q && x < WORD && (0 < q <==> 0 < x)
  {
    DivideBack(q, p, 0);
    DivideBack(q, p, p - 1);
    assert q * p + p == (q + 1) * p <= (end + 1) * p;
  }

  lemma DivideHalves(x: nat, p: nat)
    requires 2 <= p
    ensures x / p * 2 <= x && x / p * p <= x
  {
    DivMod(x, p);
    Scaled(x / p, 2, p);
  }

  lemma BytesToPages(addr: nat, p: nat)
    requires 2 <= p && addr < WORD
    ensures MmTrunc(p, addr) < WORD / 2 && MmCeil(p, addr) < WORD / 2
    ensures Aligned(p, addr) ==> PageAddr(p, MmTrunc(p, addr)) == addr
  {
    DivideHalves(addr, p);
    DivideHalves((addr + p - 1) % WORD, p);
    assert addr == addr / p * p + addr % p;
  }

  lemma SpaceFits(start: nat, bytes: nat, p: nat, b: nat, l: nat)
    requires 2 <= p && start + bytes + p <= WORD && b * p <= start && l * p <= bytes && b * 2 <= start && l * 2 <= bytes
    ensures b + l < WORD / 2 && Addressable(b + l, p)
  {
    assert (b + l + 1) * p == b * p + l * p + p;
  }

  lemma SpaceOf(start: nat, bytes: nat, p: nat)
    requires 2 <= p && start + bytes + p <= WORD
    ensures var end := MmTrunc(p, start) + MmTrunc(p, bytes); end < WORD / 2 && Addressable(end, p)
  {
    DivideHalves(start, p);
    DivideHalves(bytes, p);
    SpaceFits(start, bytes, p, MmTrunc(p, start), MmTrunc(p, bytes));
  }

  /** `struct MMNode`. */
  class Node {
    var base: nat
    var len: nat
    var info: Info
    var next: Node?
    var prev: Node?

    constructor (base: nat, len: nat, info: Info)
      ensures View() == Region(base, len, info)
      ensures next == null && prev == null
    {
      this.base, this.len, this.info, next, prev := base, len, info, null, null;
    }

    function View(): Region
      reads this`base, this`len, this`info
    {
      Region(base, len, info)
    }
  }

  ghost predicate Chained(ns: seq<Node>)
    reads ns`next, ns`prev
  {
    && (forall i {:trigger ns[i].next} | 0 <= i < |ns| :: ns[i].next == if i + 1 < |ns| then ns[i + 1] else null)
    && (forall i {:trigger ns[i].prev} | 0 <= i < |ns| :: ns[i].prev == if 0 < i then ns[i - 1] else null)
    && (forall i, j | 0 <= i < j < |ns| :: ns[i] != ns[j])
  }

  ghost function Succ(ns: seq<Node>, j: int): Node? { if 0 <= j + 1 < |ns| then ns[j + 1] else null }

  ghost function Pred(ns: seq<Node>, j: int): Node? { if 0 < j <= |ns| then ns[j - 1] else null }

  /** The index of a node, or -1 for none. */
  ghost function PlaceIn(ns: seq<Node>, x: Node?): (i: int)
    requires x == null || x in ns
    ensures -1 <= i < |ns| && (i < 0 <==> x == null) && (0 <= i ==> ns[i] == x)
  {
    if x == null then -1 else var i :| 0 <= i < |ns| && ns[i] == x; i
  }

  /** The links of a list into whose `i`-th place `x` has been spliced. */
  ghost predicate Spliced(l: seq<Node>, i: nat, x: Node)
    requires i <= |l|
    reads l`next, l`prev, x`next, x`prev
  {
    && x !in l && (forall j, k | 0 <= j < k < |l| :: l[j] != l[k])
    && x.next == Succ(l, i - 1) && x.prev == Pred(l, i)
    && (forall j {:trigger l[j].next} | 0 <= j < |l| :: l[j].next == if j == i - 1 then x else Succ(l, j))
    && (forall j {:trigger l[j].prev} | 0 <= j < |l| :: l[j].prev == if j == i then x else Pred(l, j))
  }

  lemma SplicedIsChained(l: seq<Node>, i: nat, x: Node)
    requires i <= |l| && Spliced(l, i, x)
    ensures Chained(l[..i] + [x] + l[i..])
  {
    InsertedAt(l, i, x);
    var t := l[..i] + [x] + l[i..];
    forall j | 0 <= j < |t| ensures t[j].next == if j + 1 < |t| then t[j + 1] else null {
      if j < i { assert t[j] == l[j]; } else if j > i { assert t[j] == l[j - 1]; }
    }
    forall j | 0 <= j < |t| ensures t[j].prev == if 0 < j then t[j - 1] else null {
      if j < i { assert t[j] == l[j]; } else if j > i { assert t[j] == l[j - 1]; }
    }
  }

  /** The links of a list that the `i`-th node has been taken out of. */
  ghost predicate Bridged(l: seq<Node>, i: nat)
    requires i < |l|
    reads l`next, l`prev
  {
    && (forall j, k | 0 <= j < k < |l| :: l[j] != l[k])
    && (forall j {:trigger l[j].next} | 0 <= j < |l| && j != i ::
          l[j].next == if j == i - 1 then Succ(l, i) else Succ(l, j))
    && (forall j {:trigger l[j].prev} | 0 <= j < |l| && j != i ::
          l[j].prev == if j == i + 1 then Pred(l, i) else Pred(l, j))
  }

  lemma BridgedIsChained(l: seq<Node>, i: nat)
    requires i < |l| && Bridged(l, i)
    ensures Chained(l[..i] + l[i + 1..])
  {
    var t := l[..i] + l[i + 1..];
    assert forall j {:trigger t[j]} | 0 <= j < |t| :: t[j] == if j < i then l[j] else l[j + 1];
    forall j | 0 <= j < |t| ensures t[j].next == if j + 1 < |t| then t[j + 1] else null {
      if j < i { assert t[j] == l[j]; } else { assert t[j] == l[j + 1]; }
    }
    forall j | 0 <= j < |t| ensures t[j].prev == if 0 < j then t[j - 1] else null {
      if j < i { assert t[j] == l[j]; } else { assert t[j] == l[j + 1]; }
    }
  }

  /** The nodes hold exactly these regions, in order. */
  ghost predicate Holds(ns: seq<Node>, rs: seq<Region>)
    requires |ns| == |rs|
    reads ns`base, ns`len, ns`info
  {
    forall i | 0 <= i < |ns| :: ns[i].View() == rs[i]
  }

  /** The element at `k` gives way to a list. */
  function Replace<T>(s: seq<T>, k: nat, mid: seq<T>): seq<T>
    requires k < |s|
  {
    s[..k] + mid + s[k + 1..]
  }

  lemma ReplaceOne<T>(s: seq<T>, k: nat, x: T)
    requires k < |s|
    ensures Replace(s, k, [x]) == s[k := x]
    ensures Replace(s, k, [s[k]]) == s
  {
  }

  lemma HoldsWithout(ns: seq<Node>, rs: seq<Region>, i: nat)
    requires |ns| == |rs| && i < |ns| && Holds(ns, rs)
    ensures |Replace(rs, i, [])| == |ns| - 1 && Holds(ns[..i] + ns[i + 1..], Replace(rs, i, []))
  {
  }

  lemma InsertedAt<T>(s: seq<T>, i: nat, x: T)
    requires i <= |s|
    ensures var t := s[..i] + [x] + s[i..];
            && |t| == |s| + 1
            && forall j {:trigger t[j]} | 0 <= j < |t| ::
                 t[j] == if j < i then s[j] else if j == i then x else s[j - 1]
  {
  }

  lemma UpdateBeforeInsertion<T>(r: seq<T>, k: nat, x: T, mid: seq<T>)
    requires k < |r|
    ensures (r[..k + 1] + mid + r[k + 1..])[k := x] == Replace(r, k, [x] + mid)
  {
  }

  lemma RemoveFirstReplacement<T>(r: seq<T>, k: nat, x: T, mid: seq<T>)
    requires k < |r|
    ensures Replace(Replace(r, k, [x] + mid), k, []) == Replace(r, k, mid)
  {
  }

  /** A region above the range is left alone. */
  lemma CarveAbove(r: Region, a: int, b: int)
    requires a <= b && 0 < r.len
    ensures b <= r.base ==> Carve(r, a, b) == [r]
  {
  }

  /** The regions once the scan has passed the first `j`. */
  ghost function Scanned(rs: seq<Region>, j: nat, a: int, b: int): seq<Region>
    requires j <= |rs|
  {
    CarveAll(rs[..j], a, b) + rs[j..]
  }

  lemma ScanPrefix(rs: seq<Region>, k: nat, a: int, b: int)
    requires k <= |rs| && a <= b
    requires forall i | 0 <= i < k :: 0 < rs[i].len && rs[i].End() <= a
    ensures CarveAll(rs[..k], a, b) == rs[..k] && HitAll(rs[..k], a, b) == []
    ensures Scanned(rs, k, a, b) == rs
  {
    CarveAllUntouched(rs[..k], a, b);
  }

  /** Where a scan starts, everything before is out of its way. */
  lemma ScanReady(rs: seq<Region>, lo: int, hi: int, c: int, a: int, b: int)
    requires WellFormed(rs, lo, hi) && -1 <= c < |rs| && a <= b
    ensures var k := ScanFrom(rs, c, a);
            Scanned(rs, k, a, b) == rs && CarveAll(rs[..k], a, b) == rs[..k] && HitAll(rs[..k], a, b) == []
    ensures forall i | 0 <= i < |rs| :: 0 < rs[i].len
  {
    hide Scanned, CarveAll, HitAll;
    ScanFromSkips(rs, lo, hi, c, a);
    ScanPrefix(rs, ScanFrom(rs, c, a), a, b);
  }

  /** What the callback of an unmap of `n` pages at `a` is told, with the cursor at index `c`: the mapped pages of
      the range with their information, ascending and disjoint; or, for no pages, one empty piece of a region that
      reaches `a` if there is one. */
  ghost predicate Reported(rs: seq<Region>, c: int, a: nat, n: nat, log: seq<Region>)
    requires -1 <= c < |rs|
  {
    if 0 < n then
      && log == HitAll(rs, a, a + n)
      && WellFormed(log, a, a + n) && Pages(log) == Restrict(Pages(rs), Span(a, a + n))
    else
      && log == EmptyHit(rs, ScanFrom(rs, c, a), a)
      && (log == [] <==> forall i | 0 <= i < |rs| :: !Reaches(rs[i], a))
      && (log != [] ==> exists i :: EmptyPieceOf(rs, i, a, log))
  }

  lemma ReportedHits(rs: seq<Region>, c: int, a: nat, n: nat, log: seq<Region>)
    requires -1 <= c < |rs| && Reported(rs, c, a, n, log) && 0 < n
    ensures log == HitAll(rs, a, a + n)
  {
  }

  lemma ReportFacts(rs: seq<Region>, lo: int, hi: int, c: int, a: nat, n: nat, log: seq<Region>)
    requires WellFormed(rs, lo, hi) && -1 <= c < |rs| && lo <= a && a + n <= hi
    requires log == if 0 < n then HitAll(rs, a, a + n) else EmptyHit(rs, ScanFrom(rs, c, a), a)
    ensures Reported(rs, c, a, n, log)
  {
    hide Pages, HitAll, Restrict, Span, EmptyHit, ScanFrom, Reaches, EmptyPieceOf;
    HitAllPages(rs, a, a + n);
    HitAllShape(rs, lo, hi, a, a + n);
    EmptyHitIff(rs, lo, hi, c, a);
  }

  lemma ScannedLength(rs: seq<Region>, j: nat, a: int, b: int)
    requires j <= |rs|
    ensures |Scanned(rs, j, a, b)| == |CarveAll(rs[..j], a, b)| + |rs| - j
  {
  }

  lemma ScanStep(rs: seq<Region>, j: nat, a: int, b: int)
    requires j < |rs|
    ensures var k := |CarveAll(rs[..j], a, b)|;
            && k < |Scanned(rs, j, a, b)| && Scanned(rs, j, a, b)[k] == rs[j]
            && Scanned(rs, j + 1, a, b) == Replace(Scanned(rs, j, a, b), k, Carve(rs[j], a, b))
            && |CarveAll(rs[..j + 1], a, b)| == k + |Carve(rs[j], a, b)|
    ensures HitAll(rs[..j + 1], a, b) == HitAll(rs[..j], a, b) + Hit(rs[j], a, b)
  {
    hide Carve, Hit, CarveAll, HitAll;
    CarveAllSnoc(rs, j, a, b);
  }

  /** Past the end of the range nothing changes any more. */
  lemma ScanDone(rs: seq<Region>, lo: int, hi: int, j: nat, a: int, b: int)
    requires WellFormed(rs, lo, hi) && a <= b && j <= |rs|
    requires j < |rs| ==> 0 < j && b <= rs[j - 1].End()
    ensures Scanned(rs, j, a, b) == CarveAll(rs, a, b) && HitAll(rs[..j], a, b) == HitAll(rs, a, b)
    ensures WellFormed(CarveAll(rs, a, b), lo, hi)
  {
    CarveAllUntouched(rs[j..], a, b);
    assert rs == rs[..j] + rs[j..];
    FlatMapConcat(r => Carve(r, a, b), rs[..j], rs[j..]);
    FlatMapConcat(r => Hit(r, a, b), rs[..j], rs[j..]);
    CarveAllWellFormed(rs, lo, hi, a, b);
  }

  /** No run of `n` free pages starts in `low .. start`. */
  ghost predicate NoneBelow(rs: seq<Region>, low: int, start: int, n: int) {
    forall s | low <= s < start :: !Free(rs, s, n)
  }

  /** `start` lies between the regions below index `k` and the others. */
  ghost predicate AtGap(rs: seq<Region>, k: nat, start: int) {
    && k <= |rs|
    && (forall i | 0 <= i < k :: rs[i].End() <= start)
    && (forall i | k <= i < |rs| :: start <= rs[i].base)
  }

  /** Passing a region in front of which the gap is too small. */
  lemma PassRegion(rs: seq<Region>, lo: int, hi: int, k: nat, low: int, start: int, n: int)
    requires WellFormed(rs, lo, hi) && k < |rs| && AtGap(rs, k, start) && NoneBelow(rs, low, start, n)
    requires rs[k].base - start < n
    ensures AtGap(rs, k + 1, rs[k].End()) && NoneBelow(rs, low, rs[k].End(), n)
    ensures start <= rs[k].End() <= hi
  {
    forall s | low <= s < rs[k].End() ensures !Free(rs, s, n) {
      if start <= s {
        assert !(rs[k].End() <= s || s + n <= rs[k].base);
      }
    }
  }

  /** A search may start at any region, or at the bottom of an empty space. */
  lemma StartsAtGap(rs: seq<Region>, lo: int, hi: int, k: nat, n: int)
    requires WellFormed(rs, lo, hi) && (k < |rs| || (k == 0 && rs == []))
    ensures var start := if k < |rs| then rs[k].base else lo;
            AtGap(rs, k, start) && NoneBelow(rs, start, start, n) && lo <= start
  {
  }

  /** `start` is the lowest free run of `n` pages in `low .. hi`; or there is none. */
  ghost predicate FirstFit(rs: seq<Region>, low: int, hi: int, n: int, found: bool, start: int) {
    if found
    then low <= start && start + n <= hi && Free(rs, start, n) && forall s | low <= s < start :: !Free(rs, s, n)
    else forall s | low <= s && s + n <= hi :: !Free(rs, s, n)
  }

  lemma FirstIsLowest(rs: seq<Region>, lo: int, hi: int, i: nat)
    requires WellFormed(rs, lo, hi) && i < |rs|
    ensures rs[0].base <= rs[i].base
  {
  }

  lemma OverrideSpan(m: map<int, Info>, a: int, b: int, info: Info)
    ensures (m - Span(a, b)) + Uniform(a, b, info) == m + Uniform(a, b, info)
    ensures (m - Span(a, b)).Keys !! Span(a, b)
  {
  }

  /** The search ends at a gap that is large enough, or with no room left. */
  lemma SearchEnds(rs: seq<Region>, lo: int, hi: int, k: nat, low: int, start: int, n: int, found: bool)
    requires WellFormed(rs, lo, hi) && AtGap(rs, k, start) && NoneBelow(rs, low, start, n) && low <= start && 0 < n
    requires found ==> start + n <= if k < |rs| then rs[k].base else hi
    requires !found ==> hi - start < n
    ensures FirstFit(rs, low, hi, n, found, start)
    ensures found ==> forall i | k <= i < |rs| :: start + n <= rs[i].base
    ensures found ==> start + n <= hi && forall i | 0 <= i < k :: rs[i].End() <= start
  {
    if found {
      forall i | k <= i < |rs| ensures start + n <= rs[i].base {
        assert rs[k].base <= rs[i].base;
      }
      assert k < |rs| ==> rs[k].End() <= hi;
    }
  }

  /** `struct MMAddrSpace`. */
  class AddrSpace {
    const base: nat
    const len: nat
    const pagesize: nat
    var nodes: Node?
    var cursor: Node?
    ghost var pool: set<Node>  // every node allocated so far
    ghost var list: seq<Node>
    ghost var regions: seq<Region>

    /** The pointers form the list. */
    ghost predicate Threaded()
      reads this`nodes, this`pool, this`list, list`next, list`prev
    {
      && (forall i | 0 <= i < |list| :: list[i] in pool)
      && Chained(list)
      && nodes == (if list == [] then null else list[0])
    }

    /** ... and the cursor is null or on it. */
    ghost predicate Linked()
      reads this, list`next, list`prev
    {
      Threaded() && (cursor == null || cursor in list)
    }

    ghost predicate Consistent()
      reads this, list
    {
      Linked() && |list| == |regions| && Holds(list, regions)
    }

    /** `mm_init`.  The page size is a power of two that an `int` shift can produce, and the space stops one page
        short of the end of the 64-bit address range. */
    constructor (start: nat, bytes: nat, pagesize: nat)
      requires 2 <= pagesize <= 0x4000_0000 && IsPowerOfTwo(pagesize)
      requires start + bytes + pagesize <= WORD
      ensures Valid() && fresh(pool) && Pages(regions) == map[] && cursor == null
      ensures base == MmTrunc(pagesize, start) && len == MmTrunc(pagesize, bytes) && this.pagesize == pagesize
    {
      hide Addressable, IsPowerOfTwo, MmTrunc;
      SpaceOf(start, bytes, pagesize);
      this.pagesize := pagesize;
      base, len := MmTrunc(pagesize, start), MmTrunc(pagesize, bytes);
      nodes, cursor := null, null;
      pool, list, regions := {}, [], [];
    }

    // ----- list surgery

    /** The pointer updates of `node_insert_before`. */
    method LinkBefore(n: Node, added: Node, ghost i: nat)
      requires Threaded() && i < |list| && list[i] == n && added in pool && added !in list
      modifies this`nodes, this`list, pool`next, pool`prev
      ensures Threaded() && list == old(list)[..i] + [added] + old(list)[i..]
    {
      ghost var l := list;
      assert n.prev == Pred(l, i);
      added.next := n;
      added.prev := n.prev;
      if n.prev != null {
        n.prev.next := added;
      } else {
        nodes := added;
      }
      n.prev := added;
      SplicedIsChained(l, i, added);
      list := l[..i] + [added] + l[i..];
    }

    /** The pointer updates of `node_insert_after`. */
    method LinkAfter(n: Node, added: Node, ghost i: nat)
      requires Threaded() && i < |list| && list[i] == n && added in pool && added !in list
      modifies this`list, pool`next, pool`prev
      ensures Threaded() && list == old(list)[..i + 1] + [added] + old(list)[i + 1..]
    {
      ghost var l := list;
      assert n.next == Succ(l, i);
      added.next := n.next;
      added.prev := n;
      if n.next != null {
        n.next.prev := added;
      }
      n.next := added;
      SplicedIsChained(l, i + 1, added);
      list := l[..i + 1] + [added] + l[i + 1..];
    }

    /** The pointer updates of `node_remove`; the node stays behind unlinked. */
    method Unlink(n: Node, ghost i: nat)
      requires Threaded() && i < |list| && list[i] == n
      modifies this`nodes, this`list, pool`next, pool`prev
      ensures Threaded() && list == old(list)[..i] + old(list)[i + 1..]
    {
      ghost var l := list;
      assert n.next == Succ(l, i) && n.prev == Pred(l, i);
      if n.next != null {
        n.next.prev := n.prev;
      }
      if n.prev != null {
        n.prev.next := n.next;
      } else {
        nodes := n.next;
      }
      n.next := null;
      n.prev := null;
      BridgedIsChained(l, i);
      list := l[..i] + l[i + 1..];
    }

    method InsertBefore(n: Node, added: Node, ghost i: nat)
      requires Consistent() && i < |list| && list[i] == n && added in pool && added !in list
      modifies this`nodes, this`list, this`regions, pool`next, pool`prev
      ensures Consistent() && list == old(list)[..i] + [added] + old(list)[i..]
      ensures regions == old(regions)[..i] + [added.View()] + old(regions)[i..]
    {
      InsertedAt(list, i, added);
      InsertedAt(regions, i, added.View());
      LinkBefore(n, added, i);
      regions := regions[..i] + [added.View()] + regions[i..];
    }

    method InsertAfter(n: Node, added: Node, ghost i: nat)
      requires Consistent() && i < |list| && list[i] == n && added in pool && added !in list
      modifies this`list, this`regions, pool`next, pool`prev
      ensures Consistent() && list == old(list)[..i + 1] + [added] + old(list)[i + 1..]
      ensures regions == old(regions)[..i + 1] + [added.View()] + old(regions)[i + 1..]
    {
      InsertedAt(list, i + 1, added);
      InsertedAt(regions, i + 1, added.View());
      LinkAfter(n, added, i);
      regions := regions[..i + 1] + [added.View()] + regions[i + 1..];
    }

    method Remove(n: Node, ghost i: nat)
      requires Consistent() && i < |list| && list[i] == n && cursor != n
      modifies this`nodes, this`list, this`regions, pool`next, pool`prev
      ensures Consistent() && list == old(list)[..i] + old(list)[i + 1..]
      ensures regions == Replace(old(regions), i, [])
    {
      hide Chained, Holds, Replace;
      HoldsWithout(list, regions, i);
      ghost var l := list[..i] + list[i + 1..];
      Unlink(n, i);
      assert list == l;
      regions := Replace(regions, i, []);
    }

    /** Assigning a node's `base` and `len` in place. */
    method Resize(n: Node, lo: nat, size: nat, ghost i: nat)
      requires Consistent() && i < |list| && list[i] == n
      modifies this`regions, n`base, n`len
      ensures Consistent() && regions == old(regions)[i := Region(lo, size, old(n.info))]
      ensures n.base == lo && n.len == size
    {
      n.base, n.len := lo, size;
      regions := regions[i := Region(lo, size, n.info)];
    }

    // ----- unmapping

    /** The node at index `k`, or null past the end: where a scan stands. */
    ghost function At(k: nat): Node?
      reads this`list
    {
      if k < |list| then list[k] else null
    }

    /** While an unmap runs, the cursor is the one it started with or lies before the scan. */
    ghost predicate CursorBehind(c0: Node?, k: nat)
      reads this`list, this`cursor
    {
      cursor == c0 || cursor == null || (k <= |list| && cursor in list[..k])
    }

    lemma NodeView(k: nat)
      requires Consistent() && k < |list|
      ensures list[k].View() == regions[k] && list[k] in pool
    {
    }

    /** Stepping to the next node. */
    method Advance(node: Node, ghost k: nat) returns (next: Node?)
      requires Consistent() && k < |list| && list[k] == node
      ensures next == At(k + 1)
    {
      next := node.next;
    }

    /** The cursor moves to the node's predecessor, unless this unmap has moved it before. */
    method RetreatCursor(node: Node, c0: Node?, ghost k: nat)
      requires Consistent() && k < |list| && list[k] == node && CursorBehind(c0, k)
      modifies this`cursor
      ensures Consistent() && cursor != node
      ensures cursor == null || cursor in list[..k]
    {
      if cursor == c0 {
        cursor := node.prev;
      }
    }

    /** First case of the loop: nothing of the node is left. */
    method DropNode(node: Node, a: nat, b: nat, c0: Node?, ghost k: nat) returns (next: Node?)
      requires Consistent() && k < |list| && list[k] == node && CursorBehind(c0, k)
      requires a <= node.base && 0 < node.len && node.base + node.len <= b
      modifies this`nodes, this`cursor, this`list, this`regions, pool`next, pool`prev
      ensures Consistent() && list == old(list)[..k] + old(list)[k + 1..]
      ensures regions == Replace(old(regions), k, Carve(old(node.View()), a, b)) && Carve(old(node.View()), a, b) == []
      ensures next == At(k) && CursorBehind(c0, k)
    {
      hide Chained, Holds, Replace;
      assert Carve(node.View(), a, b) == [];
      RetreatCursor(node, c0, k);
      next := Advance(node, k);
      Remove(node, k);
    }

    /** Filling in a node that is not on the list. */
    method Fill(spare: Node, lo: nat, size: nat, info: Info)
      requires Consistent() && spare !in list
      modifies spare`base, spare`len, spare`info
      ensures Consistent() && spare.View() == Region(lo, size, info)
    {
      spare.base, spare.len, spare.info := lo, size, info;
    }

    /** First half of the second case: the spare node takes what lies above the range, and the node
        keeps what lies below it, which may be nothing. */
    method CutAbove(node: Node, spare: Node, a: nat, b: nat, ghost k: nat)
      requires Consistent() && k < |list| && list[k] == node && spare in pool && spare !in list
      requires node.base <= a <= b <= node.base + node.len
      modifies this`list, this`regions, pool
      ensures Consistent() && k < |list| && list[k] == node && list[..k] == old(list)[..k]
      ensures node.len == a - old(node.base)
      ensures regions == Replace(old(regions), k, [Region(old(node.base), a - old(node.base), old(node.info))]
                                                  + Piece(b, old(node.View()).End(), old(node.info)))
    {
      hide Chained, Holds;
      ghost var piece := Piece(b, node.base + node.len, node.info);
      UpdateBeforeInsertion(regions, k, Region(node.base, a - node.base, node.info), piece);
      Fill(spare, b, node.base + node.len - b, node.info);
      if spare.len != 0 {
        InsertAfter(node, spare, k);
      }
      assert regions == old(regions)[..k + 1] + piece + old(regions)[k + 1..];
      Resize(node, node.base, a - node.base, k);
    }

    /** Second case: the range is cut out of the node, which leaves up to two pieces. */
    method SplitNode(node: Node, spare: Node, a: nat, b: nat, c0: Node?, ghost k: nat)
      requires Consistent() && k < |list| && list[k] == node && spare in pool && spare !in list && CursorBehind(c0, k)
      requires node.base <= a <= b <= node.base + node.len && 0 < node.len
      modifies this`nodes, this`cursor, this`list, this`regions, pool
      ensures Consistent()
      ensures regions == Replace(old(regions), k, Carve(old(node.View()), a, b))
    {
      hide Chained, Holds, Replace;
      ghost var keep := Region(node.base, a - node.base, node.info);
      ghost var piece := Piece(b, node.base + node.len, node.info);
      assert Carve(node.View(), a, b) == if keep.len == 0 then piece else [keep] + piece;
      RemoveFirstReplacement(regions, k, keep, piece);
      CutAbove(node, spare, a, b, k);
      RetreatCursor(node, c0, k);
      if node.len == 0 {
        Remove(node, k);
      }
    }

    /** Third case: the node loses its upper part. */
    method TrimAbove(node: Node, a: nat, b: nat, c0: Node?, ghost k: nat) returns (next: Node?)
      requires Consistent() && k < |list| && list[k] == node && CursorBehind(c0, k)
      requires node.base < a < node.base + node.len < b
      modifies this`cursor, this`regions, node`base, node`len
      ensures Consistent() && next == At(k + 1) && CursorBehind(c0, k + 1)
      ensures regions == Replace(old(regions), k, Carve(old(node.View()), a, b)) && |Carve(old(node.View()), a, b)| == 1
    {
      hide Chained, Holds;
      if cursor == c0 {
        cursor := node;
      }
      ReplaceOne(regions, k, Region(node.base, a - node.base, node.info));
      Resize(node, node.base, a - node.base, k);
      next := Advance(node, k);
    }

    /** Fourth case: the node loses its lower part. */
    method TrimBelow(node: Node, a: nat, b: nat, ghost k: nat)
      requires Consistent() && k < |list| && list[k] == node
      requires a <= node.base < b < node.base + node.len
      modifies this`regions, node`base, node`len
      ensures Consistent()
      ensures regions == Replace(old(regions), k, Carve(old(node.View()), a, b))
    {
      hide Chained, Holds;
      ReplaceOne(regions, k, Region(b, node.base + node.len - b, node.info));
      Resize(node, b, node.base + node.len - b, k);
    }

    /** Last case: the node lies below the range and stays as it is. */
    method Pass(node: Node, a: nat, b: nat, c0: Node?, ghost k: nat) returns (next: Node?)
      requires Consistent() && k < |list| && list[k] == node && CursorBehind(c0, k)
      requires a <= b && node.base + node.len <= a && 0 < node.len
      ensures next == At(k + 1) && CursorBehind(c0, k + 1)
      ensures regions == Replace(regions, k, Carve(node.View(), a, b)) && |Carve(node.View(), a, b)| == 1
    {
      hide Chained;
      NodeView(k);
      ReplaceOne(regions, k, node.View());
      assert Carve(node.View(), a, b) == [node.View()];
      next := Advance(node, k);
    }

    /** One turn of the loop of `mm_unmap_cb` over the pages `a .. b`: whichever of the cases applies, the node's
        region is replaced by what the range leaves of it, and the piece inside is reported. */
    method UnmapStep(node: Node, spare: Node, a: nat, b: nat, c0: Node?, ghost k: nat)
      returns (next: Node?, stop: bool, hit: seq<Region>)
      requires Consistent() && k < |list| && list[k] == node && spare in pool && spare !in list && CursorBehind(c0, k)
      requires a <= b && 0 < node.len
      modifies this`nodes, this`cursor, this`list, this`regions, pool
      ensures Consistent()
      ensures regions == Replace(old(regions), k, Carve(old(node.View()), a, b))
      ensures a < b ==> hit == Hit(old(node.View()), a, b)
      ensures a == b ==> hit == if Reaches(old(node.View()), a) then [Region(a, 0, old(node.info))] else []
      ensures stop ==> b <= old(node.View()).End()
      ensures a == b <= old(node.View()).End() ==> stop
      ensures !stop ==> spare !in list && next == At(k + |Carve(old(node.View()), a, b)|)
      ensures !stop ==> CursorBehind(c0, k + |Carve(old(node.View()), a, b)|)
    {
      hide Linked, Chained, Holds, Replace, Carve, CursorBehind;
      NodeView(k);
      ReplaceOne(regions, k, node.View());
      CarveAbove(node.View(), a, b);
      var end := node.base + node.len;
      hit, stop, next := [], false, null;
      if node.base >= a && end <= b {
        hit := [Region(node.base, node.len, node.info)];
        next := DropNode(node, a, b, c0, k);
      } else if a >= node.base && b <= end {
        hit := [Region(a, b - a, node.info)];
        SplitNode(node, spare, a, b, c0, k);
        stop := true;
      } else if node.base < a && end > a {
        hit := [Region(a, end - a, node.info)];
        next := TrimAbove(node, a, b, c0, k);
      } else if node.base < b && end > a {
        hit := [Region(node.base, b - node.base, node.info)];
        TrimBelow(node, a, b, k);
        stop := true;
      } else if node.base >= b {
        stop := true;
      } else {
        next := Pass(node, a, b, c0, k);
      }
    }

    // ----- the whole operations, in pages

    ghost predicate Valid()
      reads this, list
    {
      && Consistent()
      && WellFormed(regions, base, base + len)
      && 2 <= pagesize && base + len < WORD / 2 && Addressable(base + len, pagesize)
    }

    /** The place of the cursor on the list, or -1. */
    ghost function CursorIndex(): int
      requires cursor == null || cursor in list
      reads this`cursor, this`list
    {
      PlaceIn(list, cursor)
    }

    lemma CursorOnList()
      requires Consistent()
      ensures (cursor == null || cursor in list) && |list| == |regions|
    {
    }

    /** Where the unmap scan starts: the last node from the cursor backwards that begins at or below `a`, or the
        head. */
    method ScanStart(a: nat) returns (node: Node?)
      requires Valid()
      ensures node == At(ScanFrom(regions, CursorIndex(), a))
    {
      node := nodes;
      if cursor != null {
        var start := cursor;
        ghost var i := CursorIndex();
        while start != null && start.base > a
          invariant -1 <= i < |list| && start == if i < 0 then null else list[i]
          invariant ScanFrom(regions, i, a) == ScanFrom(regions, CursorIndex(), a)
          decreases i
        {
          NodeView(i);
          start := start.prev;
          i := i - 1;
        }
        if start != null {
          NodeView(i);
          node := start;
        }
      }
    }

    /** `malloc` of one node. */
    method Allocate(lo: nat, size: nat, info: Info) returns (node: Node)
      requires Valid()
      modifies this`pool
      ensures Valid() && fresh(node) && pool == old(pool) + {node} && node !in list
      ensures node.View() == Region(lo, size, info) && node.next == null && node.prev == null
    {
      node := new Node(lo, size, info);
      pool := pool + {node};
    }

    /** The loop of `mm_unmap_cb`, entered at the `k`-th node with everything before it out of the way. */
    method UnmapFrom(first: Node?, spare: Node, a: nat, b: nat, ghost k0: nat) returns (log: seq<Region>, ghost j: nat)
      requires Consistent() && k0 <= |list| && first == At(k0) && spare in pool && spare !in list
      requires a <= b && forall i | 0 <= i < |regions| :: 0 < regions[i].len
      requires regions == Scanned(regions, k0, a, b) && k0 == |CarveAll(regions[..k0], a, b)|
      requires HitAll(regions[..k0], a, b) == []
      modifies this`nodes, this`cursor, this`list, this`regions, pool
      ensures Consistent()
      ensures j <= |old(regions)| && regions == Scanned(old(regions), j, a, b)
      ensures a < b ==> log == HitAll(old(regions)[..j], a, b)
      ensures a == b ==> log == EmptyHit(old(regions), k0, a)
      ensures j < |old(regions)| ==> 0 < j && b <= old(regions)[j - 1].End()
    {
      hide Linked, Chained, Holds, Replace, CarveAll, HitAll, Carve, Hit, Scanned;
      ghost var rs := regions;
      var c0, node := cursor, first;
      ghost var k := k0;
      log, j := [], k0;
      while node != null
        invariant 0 <= j <= |rs| && 0 <= k && regions == Scanned(rs, j, a, b) && k == |CarveAll(rs[..j], a, b)|
        invariant Consistent() && node == At(k) && spare in pool && spare !in list && CursorBehind(c0, k)
        invariant a < b ==> log == HitAll(rs[..j], a, b)
        invariant a == b ==> log == [] && EmptyHit(rs, j, a) == EmptyHit(rs, k0, a)
        decreases |rs| - j
      {
        ScannedLength(rs, j, a, b);
        ScanStep(rs, j, a, b);
        NodeView(k);
        var stop, hit;
        node, stop, hit := UnmapStep(node, spare, a, b, c0, k);
        log := log + hit;
        k, j := k + |Carve(rs[j], a, b)|, j + 1;
        if stop { return; }
      }
      ScannedLength(rs, j, a, b);
    }

    /** `mm_unmap_cb` after its argument checks: take the pages `a .. b` away and report what was there.  What is
        left, and the report of a non-empty range, depend on the regions alone: there the cursor is only a hint. */
    method UnmapPages(a: nat, b: nat) returns (log: seq<Region>)
      requires Valid() && a <= b
      modifies this`nodes, this`cursor, this`pool, this`list, this`regions, pool
      ensures Valid() && fresh(pool - old(pool))
      ensures regions == CarveAll(old(regions), a, b)
      ensures a < b ==> log == HitAll(old(regions), a, b)
      ensures a == b ==> log == EmptyHit(old(regions), ScanFrom(old(regions), old(CursorIndex()), a), a)
    {
      hide Consistent, CarveAll, HitAll, Scanned, WellFormed, ScanFrom, EmptyHit, Addressable;
      CursorOnList();
      ghost var c := CursorIndex();
      var spare := Allocate(0, 0, Info(0, 0, 0, 0, false));
      ghost var rs := regions;
      ghost var k, j := ScanFrom(rs, c, a), 0;
      ScanReady(rs, base, base + len, c, a, b);
      var node := ScanStart(a);
      log, j := UnmapFrom(node, spare, a, b, k);
      ScanDone(rs, base, base + len, j, a, b);
    }

    /** Where a search may start: the lowest mapping, or the whole space when nothing is mapped. */
    ghost function First(): int
      reads this`regions
    {
      if regions == [] then base else regions[0].base
    }

    /** The search loop of `mm_mapany_cursor`: the first gap of `n` pages at or above the given node. */
    method SearchGap(first: Node?, n: nat, ghost k0: nat)
      returns (found: bool, start: nat, node: Node?, end: Node?, ghost k: nat)
      requires Valid() && first == At(k0) && k0 <= |list| && (k0 < |list| || k0 == 0)
      ensures k <= |list| && node == At(k) && (k == |list| > 0 ==> end == list[k - 1]) && (list == [] ==> end == null)
      ensures n == 0 ==> found && k == k0 && start == if first == null then base else first.base
      ensures found ==> base <= start && (0 < n ==> start + n <= base + len)
      ensures found ==> forall i | 0 <= i < k :: regions[i].End() <= start
      ensures found ==> forall i | k <= i < |regions| :: start + n <= regions[i].base
      ensures 0 < n ==> FirstFit(regions, if first == null then base else first.base, base + len, n, found, start)
    {
      hide Addressable, Linked, Chained, Holds, WellFormed, AtGap, NoneBelow, FirstFit;
      if first != null { NodeView(k0); }
      StartsAtGap(regions, base, base + len, k0, n);
      node, end, k := first, first, k0;
      start := if node != null then node.base else base;
      ghost var low := start;
      var gap := 0;
      while start < base + len
        invariant k0 <= k <= |list| && node == At(k) && (node != null ==> node.View() == regions[k])
        invariant base <= low <= start && (if n == 0 then gap == 0 && start == low && k == k0 else gap < n)
        invariant (k == |list| > 0 ==> end == list[k - 1]) && (list == [] ==> end == null)
        invariant AtGap(regions, k, start) && NoneBelow(regions, low, start, n)
        decreases |list| - k
      {
        GapAhead(regions, k, start);
        gap := if node != null then node.base - start else base + len - start;
        if node == null || gap >= n { break; }
        PassRegion(regions, base, base + len, k, low, start, n);
        start := node.base + node.len;
        var next := Advance(node, k);
        if next == null { end := node; }
        node, k := next, k + 1;
        if node != null { NodeView(k); }
      }
      found := gap >= n;
      if 0 < n {
        SearchEnds(regions, base, base + len, k, low, start, n, found);
      } else {
        AroundGap(regions, k, start);
      }
    }

    lemma AroundGap(rs: seq<Region>, k: nat, start: int)
      requires AtGap(rs, k, start)
      ensures forall i | 0 <= i < k :: rs[i].End() <= start
      ensures forall i | k <= i < |rs| :: start <= rs[i].base
    {
    }

    lemma GapAhead(rs: seq<Region>, k: nat, start: int)
      requires AtGap(rs, k, start) && k <= |rs|
      ensures k < |rs| ==> start <= rs[k].base
    {
    }

    /** Putting the first node on an empty list. */
    method InsertOnly(node: Node)
      requires Consistent() && list == [] && node in pool && node.next == null && node.prev == null
      modifies this`nodes, this`list, this`regions
      ensures Consistent() && list == [node] && regions == [node.View()]
    {
      nodes := node;
      list, regions := [node], [node.View()];
    }

    /** Putting a new node at index `k`, as the end of `mm_mapany_cursor` does it. */
    method Place(added: Node, node: Node?, end: Node?, ghost k: nat)
      requires Consistent() && k <= |list| && node == At(k) && (k == |list| > 0 ==> end == list[k - 1])
      requires list == [] ==> end == null
      requires added in pool && added !in list && added.next == null && added.prev == null
      modifies this`nodes, this`list, this`regions, pool`next, pool`prev
      ensures Consistent() && k < |list| && list[k] == added
      ensures regions == old(regions)[..k] + [added.View()] + old(regions)[k..]
    {
      hide Linked, Chained, Holds;
      if node != null {
        InsertBefore(node, added, k);
      } else if end != null {
        InsertAfter(end, added, k - 1);
      } else {
        InsertOnly(added);
      }
    }

    /** The new mapping of `mm_mapany_cursor` goes on the list, and the cursor in front of it.  The list stays valid
        unless the mapping has no pages. */
    method Claim(start: nat, n: nat, info: Info, node: Node?, end: Node?, ghost k: nat)
      requires Valid() && base <= start && (0 < n ==> start + n <= base + len)
      requires k <= |list| && node == At(k) && (k == |list| > 0 ==> end == list[k - 1]) && (list == [] ==> end == null)
      requires forall i | 0 <= i < k :: regions[i].End() <= start
      requires forall i | k <= i < |regions| :: start + n <= regions[i].base
      modifies this`nodes, this`cursor, this`pool, this`list, this`regions, pool`next, pool`prev
      ensures Consistent() && (Valid() <==> 0 < n) && fresh(pool - old(pool))
      ensures regions == old(regions)[..k] + [Region(start, n, info)] + old(regions)[k..]
      ensures k < |list| && cursor == if 0 < k then list[k - 1] else null
    {
      hide Linked, Chained, Holds, WellFormed, Addressable;
      if 0 < n {
        InsertWellFormed(regions, base, base + len, k, Region(start, n, info));
      } else {
        EmptyRegionBreaks(regions, base, base + len, k, Region(start, n, info));
      }
      var added := Allocate(start, n, info);
      Place(added, node, end, k);
      SetCursorBefore(added, k);
    }

    /** `mm->cursor = new->prev` */
    method SetCursorBefore(node: Node, ghost k: nat)
      requires Consistent() && k < |list| && list[k] == node
      modifies this`cursor
      ensures Consistent() && cursor == if 0 < k then list[k - 1] else null
    {
      cursor := node.prev;
    }

    /** `mm_mapany_cursor`, with the length in pages. */
    method MapAnyFrom(first: Node?, n: nat, info: Info, ghost k0: nat) returns (found: bool, start: nat)
      requires Valid() && first == At(k0) && k0 <= |list| && (k0 < |list| || k0 == 0)
      modifies this`nodes, this`cursor, this`pool, this`list, this`regions, pool`next, pool`prev
      ensures Consistent() && (Valid() <==> 0 < n) && fresh(pool - old(pool))
      ensures 0 < n ==>
                FirstFit(old(regions), if first == null then base else old(first.base), base + len, n, found, start)
      ensures n == 0 ==> found && start == if first == null then base else old(first.base)
      ensures n == 0 ==> regions == old(regions)[..k0] + [Region(start, 0, info)] + old(regions)[k0..]
      ensures 0 < n && found ==> Pages(regions) == Pages(old(regions)) + Uniform(start, start + n, info)
      ensures !found ==> unchanged(this) && unchanged(old(pool))
    {
      hide Linked, Chained, Holds, Pages, Uniform, FirstFit, Free, Addressable, WellFormed;
      var node, end;
      ghost var k;
      found, start, node, end, k := SearchGap(first, n, k0);
      if found {
        ghost var rs := regions;
        if 0 < n { FitsThere(regions, base, base + len, k, start, n, info); }
        Claim(start, n, info, node, end, k);
      }
    }

    lemma FitsThere(rs: seq<Region>, lo: nat, hi: nat, k: nat, start: nat, n: nat, info: Info)
      requires WellFormed(rs, lo, hi) && k <= |rs| && 0 < n
      requires forall i | 0 <= i < k :: rs[i].End() <= start
      requires forall i | k <= i < |rs| :: start + n <= rs[i].base
      ensures Pages(rs[..k] + [Region(start, n, info)] + rs[k..]) == Pages(rs) + Uniform(start, start + n, info)
    {
      hide Pages, Uniform;
      assert Free(rs, start, n);
      InsertPages(rs, k, Region(start, n, info));
    }

    /** A free run of `n` pages at `s`, at or above `low`. */
    ghost predicate Fits(rs: seq<Region>, low: int, s: int, n: nat) {
      low <= s && s + n <= base + len && Free(rs, s, n)
    }

    /** `mm_mapany`, with the length in pages: first fit from the cursor, then from the lowest mapping.  For no pages
        at all it always succeeds, at the base of the node at the cursor or else at the head, and leaves an empty
        node there. */
    method MapAnyPages(n: nat, info: Info) returns (found: bool, start: nat)
      requires Valid()
      modifies this`nodes, this`cursor, this`pool, this`list, this`regions, pool`next, pool`prev
      ensures Consistent() && (Valid() <==> 0 < n) && fresh(pool - old(pool))
      ensures 0 < n ==> (found <==> exists s :: old(First()) <= s && s + n <= base + len && Free(old(regions), s, n))
      ensures 0 < n && found ==> old(First()) <= start && start + n <= base + len && Free(old(regions), start, n)
      ensures 0 < n && found ==>
                var low := if old(cursor) != null && old(cursor.base) <= start then old(cursor.base) else old(First());
                forall s | low <= s < start :: !Free(old(regions), s, n)
      ensures 0 < n && old(cursor) != null && (exists s :: Fits(old(regions), old(cursor.base), s, n)) ==>
                found && old(cursor.base) <= start
      ensures 0 < n && found ==> Pages(regions) == Pages(old(regions)) + Uniform(start, start + n, info)
      ensures 0 < n && !found ==> regions == old(regions)
      ensures n == 0 ==> found && var k := Max(0, old(CursorIndex()));
                && start == (if old(regions) == [] then base else old(regions)[k].base)
                && regions == old(regions)[..k] + [Region(start, 0, info)] + old(regions)[k..]
    {
      hide Chained, Holds, Pages, Uniform, WellFormed, Free;
      CursorOnList();
      if cursor != null {
        ghost var i := CursorIndex();
        NodeView(i);
        FirstIsLowest(regions, base, base + len, i);
        found, start := MapAnyFrom(cursor, n, info, i);
        if found { return; }
      }
      if |list| > 0 { NodeView(0); }
      found, start := MapAnyFrom(nodes, n, info, 0);
    }

    /** The insertion search of `mm_mapat_cb`, from the cursor or from the head; the C assertion that it finds a
        place is the loop invariant here. */
    method FindPlace(first: Node, a: nat, n: nat, ghost k0: nat) returns (node: Node, ghost k: nat)
      requires Valid() && 0 < n && a + n <= base + len && Free(regions, a, n)
      requires k0 < |list| && first == list[k0] && first.base + first.len <= a
      ensures k < |list| && node == list[k]
      ensures forall i | 0 <= i <= k :: regions[i].End() <= a
      ensures forall i | k < i < |regions| :: a + n <= regions[i].base
    {
      hide Addressable, Linked, Chained, Holds;
      node, k := first, k0;
      NodeView(k0);
      while true
        invariant k < |list| && node == list[k] && regions[k].End() <= a
        decreases |list| - k
      {
        var succ := Advance(node, k);
        NodeView(k);
        if k + 1 < |list| { NodeView(k + 1); }
        var next := if succ != null then succ.base else base + len;
        if a >= node.base + node.len && a + n <= next { break; }
        node, k := succ, k + 1;
      }
    }

    /** The new mapping of `mm_mapat_cb` goes where it belongs. */
    method PlaceSorted(added: Node, ghost a: nat, ghost n: nat) returns (ghost k: nat)
      requires Valid() && added in pool && added !in list && added.next == null && added.prev == null
      requires added.base == a && added.len == n && 0 < n && base <= a && a + n <= base + len && Free(regions, a, n)
      modifies this`nodes, this`list, this`regions, pool`next, pool`prev
      ensures Consistent() && k <= |old(regions)|
      ensures regions == old(regions)[..k] + [added.View()] + old(regions)[k..]
      ensures forall i | 0 <= i < k :: old(regions)[i].End() <= a
      ensures forall i | k <= i < |old(regions)| :: a + n <= old(regions)[i].base
    {
      var node := nodes;
      ghost var i := 0;
      if cursor != null && cursor.base <= added.base {
        node := cursor;
        i :| 0 <= i < |list| && list[i] == cursor;
      }
      if node == null {
        k := 0;
        InsertOnly(added);
      } else {
        NodeView(i);
        if added.base + added.len <= node.base {
          k := 0;
          InsertBefore(node, added, 0);
        } else {
          node, k := FindPlace(node, added.base, added.len, i);
          InsertAfter(node, added, k);
          k := k + 1;
        }
      }
    }

    /** The second half of `mm_mapat_cb`, with the range already unmapped. */
    method InsertMapping(a: nat, n: nat, info: Info)
      requires Valid() && 0 < n && base <= a && a + n <= base + len && Pages(regions).Keys !! Span(a, a + n)
      modifies this`nodes, this`pool, this`list, this`regions, pool`next, pool`prev
      ensures Valid() && fresh(pool - old(pool))
      ensures Pages(regions) == Pages(old(regions)) + Uniform(a, a + n, info)
    {
      hide Linked, Chained, Holds, Pages, Uniform, Span;
      ghost var rs := regions;
      FreeIffUnmapped(rs, a, n);
      var added := Allocate(a, n, info);
      ghost var k := PlaceSorted(added, a, n);
      InsertPages(rs, k, Region(a, n, info));
      InsertWellFormed(rs, base, base + len, k, Region(a, n, info));
    }

    // ----- the interface, in bytes

    /** `mmvalid`: page numbers, added in 64 bits. */
    predicate MmValid(start: nat, n: nat) {
      start >= base && (start + n) % WORD <= (base + len) % WORD
    }

    /** `mm_unmap_cb` */
    method UnmapCb(addr: nat, length: nat) returns (r: int, log: seq<Region>)
      requires Valid() && addr < WORD && length < WORD
      modifies this`nodes, this`cursor, this`pool, this`list, this`regions, pool
      ensures Valid() && fresh(pool - old(pool))
      ensures var a, n := MmTrunc(pagesize, addr), MmCeil(pagesize, length);
              && r == (if !Aligned(pagesize, addr) || length == 0 || a < base || a + n > base + len then -22 else 0)
              && (r != 0 ==> regions == old(regions) && log == [])
              && (r == 0 ==> Pages(regions) == Pages(old(regions)) - Span(a, a + n))
              && (r == 0 ==> Reported(old(regions), old(CursorIndex()), a, n, log))
    {
      hide Consistent, Pages, HitAll, CarveAll, WellFormed, Span, Reported;
      hide MmTrunc, MmCeil, PageAddr, Aligned, Addressable, EmptyHit, ScanFrom;
      CursorOnList();
      ghost var c := CursorIndex();
      if !Aligned(pagesize, addr) || length == 0 { return -EINVAL, []; }
      var a, n := MmTrunc(pagesize, addr), MmCeil(pagesize, length);
      BytesToPages(addr, pagesize);
      BytesToPages(length, pagesize);
      if !MmValid(a, n) { return -EINVAL, []; }
      CarveAllPages(regions, a, a + n);
      ghost var rs := regions;
      log := UnmapPages(a, a + n);
      ReportFacts(rs, base, base + len, c, a, n, log);
      r := 0;
    }

    /** `mm_mapat_cb`.  On a range of no pages inside the space the inner unmap refuses its length, and the assertion
        on its result aborts. */
    method MapAtCb(addr: nat, length: nat, info: Info) returns (r: int, log: seq<Region>, aborted: bool)
      requires Valid() && addr < WORD && length < WORD
      modifies this`nodes, this`cursor, this`pool, this`list, this`regions, pool
      ensures Valid() && fresh(pool - old(pool))
      ensures var a, n := MmTrunc(pagesize, addr), MmCeil(pagesize, length);
              var legal := Aligned(pagesize, addr) && base <= a && a + n <= base + len;
              && (aborted <==> legal && n == 0)
              && (legal && 0 < n ==>
                    && r == addr && Pages(regions) == Pages(old(regions)) + Uniform(a, a + n, info)
                    && log == HitAll(old(regions), a, a + n))
              && (!legal ==> r == if Aligned(pagesize, addr) then -22 else -1)
              && (!legal || aborted ==> regions == old(regions) && log == [])
    {
      hide Consistent, Pages, HitAll, WellFormed, Uniform, MmTrunc, MmCeil, PageAddr, Aligned, Addressable;
      if !Aligned(pagesize, addr) { return -1, [], false; }
      var a, n := MmTrunc(pagesize, addr), MmCeil(pagesize, length);
      BytesToPages(addr, pagesize);
      BytesToPages(length, pagesize);
      if !MmValid(a, n) { return -EINVAL, [], false; }
      r, log, aborted := MapAtPages(a, n, info);
    }

    /** `mm_mapat_cb` after its argument checks. */
    method MapAtPages(a: nat, n: nat, info: Info) returns (r: int, log: seq<Region>, aborted: bool)
      requires Valid() && base <= a && a + n <= base + len
      modifies this`nodes, this`cursor, this`pool, this`list, this`regions, pool
      ensures Valid() && fresh(pool - old(pool)) && (aborted <==> n == 0)
      ensures 0 < n ==> r == PageAddr(pagesize, a) && Pages(regions) == Pages(old(regions)) + Uniform(a, a + n, info)
      ensures 0 < n ==> log == HitAll(old(regions), a, a + n)
      ensures n == 0 ==> regions == old(regions) && log == []
    {
      hide Consistent, Pages, HitAll, WellFormed, Uniform, Span, Reported;
      hide MmTrunc, MmCeil, PageAddr, Aligned, Addressable;
      CursorOnList();
      ghost var rs, c := regions, CursorIndex();
      PagesToBytes(a, pagesize, base + len);
      PagesToBytes(n, pagesize, base + len);
      r, log := UnmapCb(PageAddr(pagesize, a), PageAddr(pagesize, n));
      aborted := r != 0;
      if !aborted {
        ReportedHits(rs, c, a, n, log);
        OverrideSpan(Pages(rs), a, a + n, info);
        InsertMapping(a, n, info);
        r := PageAddr(pagesize, a);
      }
    }

    /** `mm_mapany`.  A length that rounds to no pages, such as 0 or one within a page of 2^64, leaves an empty node. */
    method MapAny(length: nat, info: Info) returns (r: int)
      requires Valid() && length < WORD
      modifies this`nodes, this`cursor, this`pool, this`list, this`regions, pool`next, pool`prev
      ensures Consistent() && (Valid() <==> 0 < MmCeil(pagesize, length)) && fresh(pool - old(pool))
      ensures 0 < MmCeil(pagesize, length) ==>
                Placed(old(regions), old(First()), regions, MmCeil(pagesize, length), info, r)
      ensures var n := MmCeil(pagesize, length);
              0 < n && old(cursor) != null && (exists s :: Fits(old(regions), old(cursor.base), s, n)) ==>
                r != -1 && old(cursor.base) <= MmTrunc(pagesize, r)
      ensures MmCeil(pagesize, length) == 0 ==> var k := Max(0, old(CursorIndex()));
                var start := if old(regions) == [] then base else old(regions)[k].base;
                && r == PageAddr(pagesize, start)
                && regions == old(regions)[..k] + [Region(start, 0, info)] + old(regions)[k..]
    {
      hide Consistent, Pages, Free, MmTrunc, MmCeil, PageAddr, Aligned, Addressable, Span, Uniform, WellFormed;
      var n := MmCeil(pagesize, length);
      ghost var rs := regions;
      CursorOnList();
      NoEmptyRegions();
      var found, start := MapAnyPages(n, info);
      if !found { return -1; }
      r := PageAddr(pagesize, start);
      if 0 < n {
        FreeIffUnmapped(rs, start, n);
        PagesToBytes(start, pagesize, base + len);
      }
    }

    lemma FirstInSpace()
      requires Valid()
      ensures base <= First()
    {
    }

    lemma NoEmptyRegions()
      requires Valid()
      ensures forall i | 0 <= i < |regions| :: 0 < regions[i].len
    {
    }

    /** A run of `n` pages at or above `low` was found exactly if there is one; it was free, and its pages are the only
        change. */
    ghost predicate Placed(rs: seq<Region>, low: int, rs': seq<Region>, n: nat, info: Info, r: int)
      requires 0 < pagesize
    {
      && (r != -1 <==> exists s :: low <= s && s + n <= base + len && Free(rs, s, n))
      && (r == -1 ==> rs' == rs)
      && (r != -1 ==>
            && 0 <= r && Aligned(pagesize, r)
            && var a := MmTrunc(pagesize, r);
            && low <= a && a + n <= base + len && Span(a, a + n) !! Pages(rs).Keys
            && Pages(rs') == Pages(rs) + Uniform(a, a + n, info))
    }
  }
}
