/** `sys_brk` of `lps-linux/sys/sys_mem.c` as a client of the address-space tracker: the heap of a process is the
    page range from `brkbase` to the current break. */
module ProgramBreak {
  import opened Basics
  import opened PageMap
  import opened AddressSpace

  const PAGE: nat := 4096

  const PROT_READ: int := 1
  const PROT_WRITE: int := 2
  const MAP_PRIVATE: int := 0x02
  const MAP_ANONYMOUS: int := 0x20

  /** Anonymous private memory, readable and writable. */
  const HEAP_INFO: Info := Info(PROT_READ + PROT_WRITE, MAP_PRIVATE + MAP_ANONYMOUS, -1, 0, false)

  /** `ceilp` of `lps-linux/align.h`, in pages. */
  function CeilPage(addr: nat): (page: nat)
    ensures addr <= page * PAGE < addr + PAGE
  {
    (addr + PAGE - 1) / PAGE
  }

  lemma CeilOf(q: nat, r: nat)
    requires r < PAGE
    ensures CeilPage(q * PAGE + r) == if r == 0 then q else q + 1
  {
  }

  /** The part of `struct LPSProc` that the break uses. */
  class Proc {
    const mm: AddrSpace
    const brkbase: nat
    const brkmax: nat
    var brksize: nat

    /** The break region and one page more lie inside the box, as loading a process arranges: the region is mapped at
        load time and the stack occupies the top of the box. */
    ghost predicate Placed()
    {
      && mm.pagesize == PAGE
      && brkbase % PAGE == 0
      && mm.base * PAGE <= brkbase
      && brkbase + brkmax + PAGE <= (mm.base + mm.len) * PAGE
    }

    /** Every page of the heap is mapped readable and writable. */
    ghost predicate HeapMapped(m: map<int, Info>)
      reads this`brksize
    {
      forall p | p in Span(brkbase / PAGE, CeilPage(brkbase + brksize)) :: p in m && m[p] == HEAP_INFO
    }

    ghost predicate Valid()
      reads this, mm, mm.list
    {
      mm.Valid() && Placed() && brksize < brkmax && HeapMapped(Pages(mm.regions))
    }

    /** The state `proc_load` leaves: an empty heap at `brkbase`. */
    constructor (mm: AddrSpace, brkbase: nat, brkmax: nat)
      requires mm.Valid() && mm.pagesize == PAGE && brkbase % PAGE == 0 && 0 < brkmax
      requires mm.base * PAGE <= brkbase && brkbase + brkmax + PAGE <= (mm.base + mm.len) * PAGE
      ensures Valid() && this.mm == mm && brksize == 0
    {
      this.mm, this.brkbase, this.brkmax, brksize := mm, brkbase, brkmax, 0;
    }

    /** `lps_box_ptrvalid` */
    predicate PtrCheck(addr: nat) {
      mm.base * PAGE <= addr < (mm.base + mm.len) * PAGE
    }

    /** `lps_box_mapat`, with the outcome of the host's `mmap` as a parameter. */
    method BoxMapAt(addr: nat, size: nat, hostOk: bool) returns (r: int)
      requires mm.Valid() && Placed() && addr % PAGE == 0 && 0 < size
      requires mm.base * PAGE <= addr && addr + size <= (mm.base + mm.len) * PAGE
      modifies mm, mm.pool
      ensures mm.Valid() && fresh(mm.pool - old(mm.pool))
      ensures r == if hostOk then addr else -1
      ensures var lo, hi := addr / PAGE, CeilPage(addr + size);
              Pages(mm.regions) == if hostOk then Pages(old(mm.regions)) + Uniform(lo, hi, HEAP_INFO)
                                             else Pages(old(mm.regions)) - Span(lo, hi)
    {
      hide Pages, HitAll, AddrSpace.Consistent, WellFormed, Reported, Span, Uniform;
      hide MmTrunc, MmCeil, Aligned, Addressable;
      BytesOfBox(addr, size);
      var log;
      ghost var m := Pages(mm.regions);
      var aborted;
      r, log, aborted := mm.MapAtCb(addr, size, HEAP_INFO);
      if !hostOk {
        r, log := mm.UnmapCb(addr, size);
        r := -1;
        OverrideRemoved(m, addr / PAGE, CeilPage(addr + size), HEAP_INFO);
      }
    }

    /** In-range byte counts convert to pages without wrapping. */
    lemma BytesOfBox(addr: nat, size: nat)
      requires mm.Valid() && Placed() && addr % PAGE == 0
      requires mm.base * PAGE <= addr && addr + size <= (mm.base + mm.len) * PAGE
      ensures addr < WORD && size < WORD && Aligned(PAGE, addr)
      ensures MmTrunc(PAGE, addr) == addr / PAGE && addr / PAGE + MmCeil(PAGE, size) == CeilPage(addr + size)
      ensures mm.base <= addr / PAGE && CeilPage(addr + size) <= mm.base + mm.len
    {
      assert mm.base + mm.len + 1 <= WORD / PAGE;
    }

    /** Moving the break up maps exactly the pages from the old rounded-up break to the new one, and sometimes one page
        more; if the host refuses, those pages end up unmapped. */
    ghost predicate Grown(m0: map<int, Info>, m1: map<int, Info>, oldSize: nat, newSize: nat, hostOk: bool) {
      var lo, hi := CeilPage(brkbase + oldSize), CeilPage(brkbase + newSize) + ExtraPage(oldSize, newSize);
      m1 == if hostOk then m0 + Uniform(lo, hi, HEAP_INFO) else m0 - Span(lo, hi)
    }

    /** Where the source's growth ends: it maps the difference in size from the old rounded-up break on. */
    lemma GrowthEnd(oldSize: nat, newSize: nat)
      requires brkbase % PAGE == 0 && oldSize < newSize
      ensures CeilPage(CeilPage(brkbase + oldSize) * PAGE + newSize - oldSize)
              == CeilPage(brkbase + newSize) + ExtraPage(oldSize, newSize)
    {
      var b, qo, ro := brkbase / PAGE, oldSize / PAGE, oldSize % PAGE;
      var qn, rn := newSize / PAGE, newSize % PAGE;
      CeilOf(b + qo, ro);
      CeilOf(b + qn, rn);
      assert brkbase + oldSize == (b + qo) * PAGE + ro && brkbase + newSize == (b + qn) * PAGE + rn;
      if ro == 0 {
        CeilOf(b + qn, rn);
      } else if ro <= rn {
        CeilOf(b + qn + 1, rn - ro);
      } else {
        CeilOf(b + qn, PAGE + rn - ro);
      }
    }

    /** The mapping half of `sys_brk`. */
    method Grow(newsize: nat, hostOk: bool) returns (mapped: int)
      requires Valid() && brksize < newsize < brkmax
      modifies mm, mm.pool
      ensures mm.Valid() && fresh(mm.pool - old(mm.pool))
      ensures mapped == -1 <==> !hostOk
      ensures Grown(Pages(old(mm.regions)), Pages(mm.regions), brksize, newsize, hostOk)
    {
      hide Pages, Uniform, Span, WellFormed, HeapMapped, ExtraPage;
      GrowthEnd(brksize, newsize);
      if brksize == 0 {
        assert brkbase / PAGE == CeilPage(brkbase + brksize) && CeilPage(brkbase) * PAGE == brkbase;
        mapped := BoxMapAt(brkbase, newsize, hostOk);
      } else {
        var next := CeilPage(brkbase + brksize) * PAGE;
        assert next / PAGE == CeilPage(brkbase + brksize);
        mapped := BoxMapAt(next, newsize - brksize, hostOk);
      }
    }

    /** `sys_brk`.  The clamp at the maximum trips the assertion that follows it, so a request for the maximum or more
        aborts. */
    method SysBrk(addr: nat, hostOk: bool) returns (r: int, aborted: bool)
      requires Valid()
      modifies this, mm, mm.pool
      ensures Valid() && fresh(mm.pool - old(mm.pool))
      ensures aborted <==> addr != 0 && brkbase + brkmax <= addr < (mm.base + mm.len) * PAGE
      ensures addr != 0 && (addr < mm.base * PAGE || addr >= (mm.base + mm.len) * PAGE) ==> r == -1 && !aborted
      ensures addr != 0 && brkbase <= addr < brkbase + brkmax && hostOk ==> r == addr && brksize == addr - brkbase
      ensures addr == 0 ==> r == brkbase + old(brksize) && brksize == old(brksize)
      ensures aborted ==> brksize == old(brksize) && mm.regions == old(mm.regions)
      ensures !aborted ==>
                var want := if addr == 0 then brkbase + old(brksize) else Max(addr, brkbase);
                var legal := addr == 0 || mm.base * PAGE <= addr < (mm.base + mm.len) * PAGE;
                var grows := legal && want > brkbase + old(brksize);
                && r == (if legal && (grows ==> hostOk) then want else -1)
                && brksize == (if r == -1 then old(brksize) else want - brkbase)
                && (!grows ==> mm.regions == old(mm.regions))
                && (grows ==> Grown(Pages(old(mm.regions)), Pages(mm.regions), old(brksize), want - brkbase, hostOk))
    {
      hide Pages, Addressable, WellFormed, AddrSpace.Consistent, Grown;
      aborted := false;
      var brkp := brkbase + brksize;
      if addr != 0 {
        if !PtrCheck(addr) { return -1, false; }
        brkp := addr;
      }
      if brkp < brkbase { brkp := brkbase; }
      if brkp >= brkbase + brkmax { brkp := brkbase + brkmax; }
      var newsize := brkp - brkbase;
      if !(newsize < brkmax) { return -1, true; }
      if newsize == brksize { return brkp, false; }
      ghost var m := Pages(mm.regions);
      if brkp >= brkbase + brksize {
        var mapped := Grow(newsize, hostOk);
        GrownKeepsHeap(m, Pages(mm.regions), newsize, hostOk);
        if mapped == -1 { return -1, false; }
      }
      brksize := newsize;
      r := brkbase + brksize;
    }

    lemma GrownKeepsHeap(m0: map<int, Info>, m1: map<int, Info>, newsize: nat, hostOk: bool)
      requires HeapMapped(m0) && brksize < newsize && brkbase % PAGE == 0
      requires Grown(m0, m1, brksize, newsize, hostOk)
      ensures HeapMapped(m1)
      ensures hostOk ==>
                forall p | p in Span(brkbase / PAGE, CeilPage(brkbase + newsize)) :: p in m1 && m1[p] == HEAP_INFO
    {
    }

    /** Every byte of the heap lies on a page that is mapped readable and writable. */
    lemma HeapBytesMapped(b: nat)
      requires Valid() && brkbase <= b < brkbase + brksize
      ensures b / 4096 in Pages(mm.regions) && Pages(mm.regions)[b / 4096] == Info(3, 0x22, -1, 0, false)
    {
      hide Pages, AddrSpace.Valid;
      assert b / PAGE in Span(brkbase / PAGE, CeilPage(brkbase + brksize));
    }

    /** The page past the maximum break. */
    function PagePast(): nat { CeilPage(brkbase + brkmax) }

    /** Growth below the maximum maps the page past it, over whatever was there, exactly when the new break lies on the
        last page and the growth takes its extra page. */
    lemma GrowthPastMaximum(m0: map<int, Info>, m1: map<int, Info>, oldSize: nat, newSize: nat)
      requires brkbase % PAGE == 0 && oldSize < newSize < brkmax && Grown(m0, m1, oldSize, newSize, true)
      ensures var reaches := CeilPage(brkbase + newSize) == PagePast() && ExtraPage(oldSize, newSize) == 1;
              && (reaches ==> PagePast() in m1 && m1[PagePast()] == HEAP_INFO)
              && (!reaches ==> (PagePast() in m1 <==> PagePast() in m0))
              && (!reaches && PagePast() in m0 ==> m1[PagePast()] == m0[PagePast()])
    {
    }

    /** It happens when the break moves from one byte to one byte below a maximum of whole pages. */
    lemma GrowthPastMaximumHappens()
      requires brkbase % PAGE == 0 && brkmax % PAGE == 0 && 0 < brkmax
      ensures CeilPage(brkbase + (brkmax - 1)) == PagePast() && ExtraPage(1, brkmax - 1) == 1
    {
    }

    /** `lps_box_mapany`, with the outcome of the host's `mmap` as a parameter: the mapping never meets the heap, and it
        is undone if the host refuses. */
    method MapAny(length: nat, info: Info, hostOk: bool) returns (r: int)
      requires Valid() && length < WORD && 0 < MmCeil(PAGE, length)
      modifies mm, mm.pool
      ensures Valid() && fresh(mm.pool - old(mm.pool))
      ensures !hostOk ==> r == -1
      ensures r == -1 ==> Pages(mm.regions) == Pages(old(mm.regions))
      ensures r != -1 ==>
                && 0 <= r && var a, n := MmTrunc(PAGE, r), MmCeil(PAGE, length);
                && Span(brkbase / PAGE, CeilPage(brkbase + brksize)) !! Span(a, a + n)
                && Pages(mm.regions) == Pages(old(mm.regions)) + Uniform(a, a + n, info)
    {
      hide Pages, Free, MmTrunc, MmCeil, Aligned, AddrSpace.Consistent, WellFormed, Addressable;
      hide Span, Uniform, HeapMapped;
      ghost var m, n := Pages(mm.regions), MmCeil(PAGE, length);
      mm.FirstInSpace();
      r := mm.MapAny(length, info);
      if r != -1 {
        HeapApart(m, MmTrunc(PAGE, r), MmTrunc(PAGE, r) + n, info);
        if !hostOk {
          UndoMap(r, length, m, info);
          r := -1;
        }
      }
    }

    /** Mapping unmapped pages leaves the heap alone. */
    lemma HeapApart(m: map<int, Info>, a: int, b: int, info: Info)
      requires HeapMapped(m) && Span(a, b) !! m.Keys
      ensures HeapMapped(m + Uniform(a, b, info)) && Span(brkbase / PAGE, CeilPage(brkbase + brksize)) !! Span(a, b)
    {
      hide Span;
      forall p | p in Span(brkbase / PAGE, CeilPage(brkbase + brksize)) ensures p !in Span(a, b) {
        assert p in m.Keys;
      }
    }

    /** `mm_unmap` of what was just mapped. */
    method UndoMap(r: nat, length: nat, ghost m: map<int, Info>, ghost info: Info)
      requires mm.Valid() && mm.pagesize == PAGE && length < WORD && Aligned(PAGE, r) && 0 < MmCeil(PAGE, length)
      requires mm.base <= MmTrunc(PAGE, r) && MmTrunc(PAGE, r) + MmCeil(PAGE, length) <= mm.base + mm.len
      requires var a, n := MmTrunc(PAGE, r), MmCeil(PAGE, length);
               Span(a, a + n) !! m.Keys && Pages(mm.regions) == m + Uniform(a, a + n, info)
      modifies mm, mm.pool
      ensures mm.Valid() && fresh(mm.pool - old(mm.pool)) && Pages(mm.regions) == m
    {
      hide Pages, AddrSpace.Consistent, WellFormed, Reported, Span, Uniform;
      ghost var a, n := MmTrunc(PAGE, r), MmCeil(PAGE, length);
      MappedAddress(r, n);
      UndoPlaced(m, a, a + n, info);
      var _, _ := mm.UnmapCb(r, length);
    }

    lemma MappedAddress(r: nat, n: nat)
      requires mm.Valid() && mm.pagesize == PAGE && Aligned(PAGE, r) && MmTrunc(PAGE, r) + n <= mm.base + mm.len
      ensures r < WORD
    {
      assert mm.base + mm.len + 1 <= WORD / PAGE;
    }

    /** `lps_box_munmap`.  Its callback has the host map the freed pieces away, which the host refuses for a piece of no
        bytes, and then aborts: so it does for a length within a page of 2^64, which passes the range test by wrapping,
        exactly when some region reaches the address. */
    method BoxUnmap(addr: nat, size: nat) returns (r: int, aborted: bool)
      requires mm.Valid() && mm.pagesize == PAGE && addr < WORD && size < WORD
      modifies mm, mm.pool
      ensures mm.Valid() && fresh(mm.pool - old(mm.pool))
      ensures var a, n := MmTrunc(PAGE, addr), MmCeil(PAGE, size);
              var inBox := mm.base * PAGE <= addr && (addr + size) % WORD <= (mm.base + mm.len) * PAGE;
              && (aborted <==> inBox && Aligned(PAGE, addr) && size > WORD - PAGE
                               && exists i :: 0 <= i < |old(mm.regions)| && Reaches(old(mm.regions)[i], a))
              && (!aborted ==> r == if !inBox then -1
                                    else if Aligned(PAGE, addr) && size != 0 && a + n <= mm.base + mm.len then 0
                                    else -EINVAL)
              && Pages(mm.regions) == if r == 0 then Pages(old(mm.regions)) - Span(a, a + n) else Pages(old(mm.regions))
    {
      hide Pages, AddrSpace.Consistent, Restrict, Span;
      if mm.base * PAGE <= addr && (addr + size) % WORD <= (mm.base + mm.len) * PAGE {
        ghost var rs := mm.regions;
        mm.CursorOnList();
        ghost var c := mm.CursorIndex();
        var log;
        r, log := mm.UnmapCb(addr, size);
        BoxArguments(addr, size);
        aborted := exists i | 0 <= i < |log| :: log[i].len == 0;
        if r == 0 {
          EmptyPieces(rs, c, MmTrunc(PAGE, addr), MmCeil(PAGE, size), log);
        }
      } else {
        r, aborted := -1, false;
      }
    }

    lemma BoxArguments(addr: nat, size: nat)
      requires mm.Valid() && mm.pagesize == PAGE && addr < WORD && size < WORD
      requires mm.base * PAGE <= addr && (addr + size) % WORD <= (mm.base + mm.len) * PAGE
      ensures mm.base <= MmTrunc(PAGE, addr)
      ensures MmCeil(PAGE, size) == 0 <==> size == 0 || size > WORD - PAGE
      ensures Aligned(PAGE, addr) && size > WORD - PAGE ==> MmTrunc(PAGE, addr) <= mm.base + mm.len
    {
      assert mm.base + mm.len + 1 <= WORD / PAGE;
    }

    /** Calls that move the break or map memory elsewhere, in any order, up to the first that aborts: the heap stays
        mapped throughout. */
    method Serve(calls: seq<Call>) returns (aborted: bool)
      requires Valid() && forall i | 0 <= i < |calls| :: Acceptable(calls[i])
      modifies this, mm, mm.pool
      ensures Valid()
      ensures aborted <==> exists i :: 0 <= i < |calls| && AtMaximum(calls[i])
    {
      hide Valid, PtrCheck;
      for i := 0 to |calls|
        invariant Valid() && fresh(mm.pool - old(mm.pool))
        invariant forall j | 0 <= j < i :: !AtMaximum(calls[j])
      {
        assert Acceptable(calls[i]);
        match calls[i]
        case Brk(addr, hostOk) =>
          var _, dead := SysBrk(addr, hostOk);
          if dead {
            assert AtMaximum(calls[i]);
            return true;
          }
        case Map(length, info, hostOk) =>
          var _ := MapAny(length, info, hostOk);
      }
      return false;
    }

    predicate AtMaximum(c: Call) {
      c.Brk? && c.addr != 0 && brkbase + brkmax <= c.addr < (mm.base + mm.len) * PAGE
    }

    predicate Acceptable(c: Call) {
      c.Map? ==> c.length < WORD && 0 < MmCeil(PAGE, c.length)
    }
  }

  datatype Call = Brk(addr: nat, hostOk: bool) | Map(length: nat, info: Info, hostOk: bool)

  /** Growth that does not start at a page boundary takes one page too many when the new size reaches further into its
      page than the old one did into its own. */
  function ExtraPage(oldSize: nat, newSize: nat): nat {
    if oldSize % PAGE != 0 && (newSize % PAGE == 0 || newSize % PAGE > oldSize % PAGE) then 1 else 0
  }

  lemma OverrideRemoved(m: map<int, Info>, a: int, b: int, info: Info)
    ensures (m + Uniform(a, b, info)) - Span(a, b) == m - Span(a, b)
  {
  }

  lemma UndoPlaced(m: map<int, Info>, a: int, b: int, info: Info)
    requires Span(a, b) !! m.Keys
    ensures (m + Uniform(a, b, info)) - Span(a, b) == m
  {
  }

  /** A report holds an empty piece exactly when it is about no pages and not empty. */
  lemma EmptyPieces(rs: seq<Region>, c: int, a: nat, n: nat, log: seq<Region>)
    requires -1 <= c < |rs| && Reported(rs, c, a, n, log)
    ensures (exists i | 0 <= i < |log| :: log[i].len == 0)
            <==> n == 0 && exists i :: 0 <= i < |rs| && Reaches(rs[i], a)
  {
    hide Pages, HitAll, EmptyHit, ScanFrom, Restrict, Span, Reaches;
    if n == 0 && log != [] {
      var i :| EmptyPieceOf(rs, i, a, log);
      assert log[0].len == 0;
    }
  }
}
