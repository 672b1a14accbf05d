/** The box allocator of `lps-core/boxmap.c` for boxes of one chunk, the only size the engine asks for: a bit vector in
    bytes and shifts, refining the set of chunks in use, and the table of regions on top of it. */
module BoxMap {
  import opened Basics

  // ----- bits in bytes

  /** `bit` on one byte: the most significant bit comes first. */
  function BitOf(b: bv8, off: nat): bv8
    requires off < 8
  {
    (b >> (7 - off)) & 1
  }

  /** `bitvec_set` on one byte. */
  function WithBit(b: bv8, off: nat, val: bool): bv8
    requires off < 8
  {
    if val then b | (1 << (7 - off)) else b & !(1 << (7 - off))
  }

  lemma WithBitSets(b: bv8, off: nat, val: bool)
    requires off < 8
    ensures BitOf(WithBit(b, off, val), off) == if val then 1 else 0
  {
    if off == 0 {} else if off == 1 {} else if off == 2 {} else if off == 3 {} else
    if off == 4 {} else if off == 5 {} else if off == 6 {} else {}
  }

  lemma WithBitKeeps(b: bv8, off: nat, val: bool, j: nat)
    requires off < 8 && j < 8 && j != off
    ensures BitOf(WithBit(b, off, val), j) == BitOf(b, j)
  {
    if off == 0 {} else if off == 1 {} else if off == 2 {} else if off == 3 {} else
    if off == 4 {} else if off == 5 {} else if off == 6 {} else {}
  }

  /** `bit` on the whole vector. */
  predicate Bit(bits: seq<bv8>, i: nat)
    requires i / 8 < |bits|
  {
    BitOf(bits[i / 8], i % 8) == 1
  }

  function SetBit(bits: seq<bv8>, i: nat, val: bool): seq<bv8>
    requires i / 8 < |bits|
  {
    bits[i / 8 := WithBit(bits[i / 8], i % 8, val)]
  }

  /** Setting a bit sets that bit and no other. */
  lemma SetBitExact(bits: seq<bv8>, i: nat, val: bool, j: nat)
    requires i / 8 < |bits| && j / 8 < |bits|
    ensures Bit(SetBit(bits, i, val), j) == if i == j then val else Bit(bits, j)
  {
    hide BitOf, WithBit;
    if i == j {
      WithBitSets(bits[i / 8], i % 8, val);
    } else if i / 8 == j / 8 {
      WithBitKeeps(bits[i / 8], i % 8, val, j % 8);
    }
  }

  predicate Taken(bits: seq<bv8>, base: nat, c: nat) {
    base <= c && (c - base) / 8 < |bits| && Bit(bits, c - base)
  }

  /** The chunks in use, out of `size` chunks from `base` on. */
  ghost function InUse(bits: seq<bv8>, base: nat, size: nat): set<nat>
    requires |bits| == size / 8 + 1
  {
    set c: nat | base <= c < base + size && Taken(bits, base, c)
  }

  lemma InUseAfter(bits: seq<bv8>, base: nat, size: nat, i: nat, val: bool)
    requires |bits| == size / 8 + 1 && i < size
    ensures InUse(SetBit(bits, i, val), base, size) ==
              if val then InUse(bits, base, size) + {base + i} else InUse(bits, base, size) - {base + i}
  {
    hide Bit, SetBit;
    var after := SetBitLength(bits, i, val);
    forall c: nat | base <= c < base + size
      ensures c in InUse(after, base, size) <==> if c == base + i then val else c in InUse(bits, base, size)
    {
      SetBitExact(bits, i, val, c - base);
    }
  }

  lemma SetBitLength(bits: seq<bv8>, i: nat, val: bool) returns (after: seq<bv8>)
    requires i / 8 < |bits|
    ensures after == SetBit(bits, i, val) && |after| == |bits|
  {
    after := SetBit(bits, i, val);
  }

  /** `struct ExtAlloc`, counting in chunks. */
  class ExtAlloc {
    const base: nat
    const size: nat
    const bitvec: array<bv8>

    ghost predicate Valid() {
      0 < base && bitvec.Length == size / 8 + 1
    }

    ghost function Chunks(): set<nat>
      requires Valid()
      reads bitvec
    {
      InUse(bitvec[..], base, size)
    }

    /** `extalloc_new` */
    constructor (base: nat, size: nat)
      requires 0 < base
      ensures Valid() && this.base == base && this.size == size && fresh(bitvec) && Chunks() == {}
    {
      this.base, this.size := base, size;
      bitvec := new bv8[size / 8 + 1](_ => 0);
      new;
      forall i: nat | i < size ensures !Bit(bitvec[..], i) {
        ZeroByte(i % 8);
      }
    }

    /** `extalloc_is_full` */
    method IsFull() returns (full: bool)
      requires Valid()
      ensures full <==> forall c: nat | base <= c < base + size :: c in Chunks()
    {
      hide BitOf;
      for i := 0 to size
        invariant forall c: nat | base <= c < base + i :: c in Chunks()
      {
        if !Bit(bitvec[..], i) {
          assert base + i !in Chunks();
          return false;
        }
      }
      return true;
    }

    /** `n` chunks from `c` on, all free. */
    ghost predicate FreeRun(c: nat, n: nat)
      requires Valid()
      reads bitvec
    {
      base <= c && c + n <= base + size && forall x: nat | c <= x < c + n :: x !in Chunks()
    }

    /** `n` bits from `lo` on, all clear. */
    ghost predicate Clear(lo: nat, n: nat)
      requires Valid()
      reads bitvec
    {
      lo + n <= size && forall j: nat | lo <= j < lo + n :: !Bit(bitvec[..], j)
    }

    lemma ClearIsFree(lo: nat, n: nat)
      requires Valid()
      ensures Clear(lo, n) <==> FreeRun(base + lo, n)
    {
      hide Bit;
      if Clear(lo, n) {
        forall x: nat | base + lo <= x < base + lo + n ensures x !in Chunks() {
          assert !Bit(bitvec[..], x - base);
        }
      }
      if FreeRun(base + lo, n) {
        forall j: nat | lo <= j < lo + n ensures !Bit(bitvec[..], j) {
          assert base + j !in Chunks();
        }
      }
    }

    lemma NotClear(t: nat, n: nat, j: nat)
      requires Valid() && t <= j < t + n && j < size && Bit(bitvec[..], j)
      ensures !Clear(t, n)
    {
    }

    /** `bitvec_find_zeroes`: the start of the lowest run of `n` clear bits.  The scan would leave the vector if
        there were none, because it is given a number of chunks where it expects bytes; so there must be one. */
    method FindZeroes(n: nat, ghost s: nat) returns (start: nat)
      requires Valid() && 0 < n && Clear(s, n)
      ensures Clear(start, n) && forall t: nat | t < start :: !Clear(t, n)
    {
      hide Bit;
      var count, i := 0, 0;
      while true
        invariant i < s + n && count < n && count <= i && Clear(i - count, count)
        invariant count < i ==> Bit(bitvec[..], i - count - 1)
        invariant forall t: nat | t + n <= i :: !Clear(t, n)
        decreases size - i
      {
        if !Bit(bitvec[..], i) {
          count := count + 1;
          if count == n { return i + 1 - n; }
        } else {
          count := 0;
        }
        i := i + 1;
        if n <= i {
          NotClear(i - n, n, i - count - 1);
        }
      }
    }

    /** `extalloc_alloc` of `n` chunks, of which there must be a free run: the lowest one is taken.  A request for no
        chunks gets none. */
    method Alloc(n: nat) returns (chunk: Option<nat>)
      requires Valid() && (n == 0 || exists c: nat :: FreeRun(c, n))
      modifies bitvec
      ensures n == 0 ==> chunk.None? && Chunks() == old(Chunks())
      ensures 0 < n ==> chunk.Some? && old(FreeRun(chunk.value, n))
      ensures 0 < n ==> forall c: nat | c < chunk.value :: !old(FreeRun(c, n))
      ensures 0 < n ==> Chunks() == old(Chunks()) + Run(chunk.value, n)
    {
      hide Bit, BitOf, WithBit, FreeRun, Clear, Run;
      if n == 0 { return None; }
      ghost var c: nat :| FreeRun(c, n);
      FreeIsInside(c, n);
      ClearIsFree(c - base, n);
      var start := FindZeroes(n, c - base);
      ClearIsFree(start, n);
      FreeIsInside(base + start, n);
      forall t: nat | t < base + start ensures !FreeRun(t, n) {
        if FreeRun(t, n) {
          FreeIsInside(t, n);
          ClearIsFree(t - base, n);
        }
      }
      Put(start, n, true);
      chunk := Some(base + start);
    }

    lemma FreeIsInside(c: nat, n: nat)
      requires Valid() && FreeRun(c, n)
      ensures base <= c && c + n <= base + size
    {
    }

    /** `bitvec_set` */
    method Put(start: nat, n: nat, val: bool)
      requires Valid() && start + n <= size
      modifies bitvec
      ensures Chunks() == if val then old(Chunks()) + Run(base + start, n) else old(Chunks()) - Run(base + start, n)
    {
      hide InUse;
      for i := 0 to n
        invariant Chunks() == if val then old(Chunks()) + Run(base + start, i) else old(Chunks()) - Run(base + start, i)
      {
        PutOne(start + i, val);
      }
    }

    /** One turn of its loop. */
    method PutOne(i: nat, val: bool)
      requires Valid() && i < size
      modifies bitvec
      ensures Chunks() == if val then old(Chunks()) + {base + i} else old(Chunks()) - {base + i}
    {
      hide InUse, WithBit;
      InUseAfter(bitvec[..], base, size, i, val);
      ghost var bits := bitvec[..];
      bitvec[i / 8] := WithBit(bitvec[i / 8], i % 8, val);
      assert bitvec[..] == SetBit(bits, i, val);
    }

    /** `extalloc_free` */
    method Free(chunk: nat, n: nat)
      requires Valid() && base <= chunk && chunk + n <= base + size
      modifies bitvec
      ensures Chunks() == old(Chunks()) - Run(chunk, n)
    {
      Put(chunk - base, n, false);
    }
  }

  /** `n` chunks from `c` on. */
  ghost function Run(c: nat, n: nat): (cs: set<nat>)
    ensures forall x :: x in cs <==> c <= x < c + n
  {
    if n == 0 then {} else Run(c, n - 1) + {c + n - 1}
  }

  lemma RunOne(c: nat)
    ensures Run(c, 1) == {c}
  {
  }

  lemma ZeroByte(off: nat)
    requires off < 8
    ensures BitOf(0, off) == 0
  {
    if off == 0 {} else if off == 1 {} else if off == 2 {} else if off == 3 {} else
    if off == 4 {} else if off == 5 {} else if off == 6 {} else {}
  }

  // ----- regions

  /** `struct AddrRegion` */
  class Region {
    const alloc: ExtAlloc
    var active: nat

    constructor (alloc: ExtAlloc)
      requires alloc.Valid() && alloc.Chunks() == {}
      ensures Valid() && this.alloc == alloc
    {
      this.alloc, active := alloc, 0;
    }

    ghost predicate Valid()
      reads this, alloc.bitvec
    {
      alloc.Valid() && active == |alloc.Chunks()|
    }

    predicate Covers(chunk: nat) {
      alloc.base <= chunk < alloc.base + alloc.size
    }
  }

  /** All chunks in use. */
  ghost function Live(rs: seq<Region>): set<nat>
    requires forall i | 0 <= i < |rs| :: rs[i].alloc.Valid()
    reads set i | 0 <= i < |rs| :: rs[i].alloc.bitvec
  {
    set i, c | 0 <= i < |rs| && c in rs[i].alloc.Chunks() :: c
  }

  ghost predicate Separate(rs: seq<Region>) {
    forall i, j | 0 <= i < j < |rs| ::
      && rs[i] != rs[j] && rs[i].alloc.bitvec != rs[j].alloc.bitvec
      && (|| rs[i].alloc.base + rs[i].alloc.size <= rs[j].alloc.base
          || rs[j].alloc.base + rs[j].alloc.size <= rs[i].alloc.base)
  }

  ghost predicate AllValid(rs: seq<Region>)
    reads rs, set i | 0 <= i < |rs| :: rs[i].alloc.bitvec
  {
    forall i | 0 <= i < |rs| :: rs[i].Valid()
  }

  function Sum(rs: seq<Region>): nat
    reads rs
  {
    if rs == [] then 0 else Sum(rs[..|rs| - 1]) + rs[|rs| - 1].active
  }

  lemma ChunkInRegion(a: ExtAlloc, c: nat)
    requires a.Valid() && c in a.Chunks()
    ensures a.base <= c < a.base + a.size
  {
  }

  lemma LiveSnoc(rs: seq<Region>)
    requires rs != [] && forall i | 0 <= i < |rs| :: rs[i].alloc.Valid()
    ensures Live(rs) == Live(rs[..|rs| - 1]) + rs[|rs| - 1].alloc.Chunks()
  {
    hide ExtAlloc.Chunks;
    var init, last := rs[..|rs| - 1], rs[|rs| - 1];
    forall c | c in Live(rs) ensures c in Live(init) || c in last.alloc.Chunks() {
      var i :| 0 <= i < |rs| && c in rs[i].alloc.Chunks();
      assert i < |init| ==> init[i] == rs[i];
    }
    forall c | c in Live(init) ensures c in Live(rs) {
      var i :| 0 <= i < |init| && c in init[i].alloc.Chunks();
      assert rs[i] == init[i];
    }
  }

  lemma LiveApart(rs: seq<Region>, last: Region)
    requires AllValid(rs) && last.alloc.Valid() && Separate(rs + [last])
    ensures Live(rs) !! last.alloc.Chunks()
  {
    hide ExtAlloc.Chunks;
    forall c | c in Live(rs) ensures c !in last.alloc.Chunks() {
      var i :| 0 <= i < |rs| && c in rs[i].alloc.Chunks();
      ChunkInRegion(rs[i].alloc, c);
      assert (rs + [last])[i] == rs[i] && (rs + [last])[|rs|] == last;
      if c in last.alloc.Chunks() {
        ChunkInRegion(last.alloc, c);
      }
    }
  }

  /** `boxmap_active` counts the boxes in use. */
  lemma {:induction false} SumIsLive(rs: seq<Region>)
    requires AllValid(rs) && Separate(rs)
    ensures Sum(rs) == |Live(rs)|
  {
    hide ExtAlloc.Chunks;
    if rs == [] {
      assert Live(rs) == {};
    } else {
      var init, last := rs[..|rs| - 1], rs[|rs| - 1];
      assert init + [last] == rs;
      SumIsLive(init);
      LiveSnoc(rs);
      LiveApart(init, last);
    }
  }

  /** `boxmap_active` */
  method Active(rs: seq<Region>) returns (total: nat)
    requires AllValid(rs) && Separate(rs)
    ensures total == |Live(rs)|
  {
    total := 0;
    for i := 0 to |rs|
      invariant total == Sum(rs[..i])
    {
      assert rs[..i + 1][..i] == rs[..i];
      total := total + rs[i].active;
    }
    assert rs[..|rs|] == rs;
    SumIsLive(rs);
  }

  /** The storage of the allocator: the regions and their bit vectors. */
  ghost function Vectors(rs: seq<Region>): set<array<bv8>> {
    set i | 0 <= i < |rs| :: rs[i].alloc.bitvec
  }

  /** No region has a free chunk. */
  ghost predicate Full(r: Region)
    requires r.alloc.Valid()
    reads r.alloc.bitvec
  {
    forall c: nat | r.Covers(c) :: c in r.alloc.Chunks()
  }

  /** The chunks in use, region by region. */
  ghost function ChunkSets(rs: seq<Region>): (ss: seq<set<nat>>)
    requires forall i | 0 <= i < |rs| :: rs[i].alloc.Valid()
    reads set i | 0 <= i < |rs| :: rs[i].alloc.bitvec
    ensures |ss| == |rs| && forall i | 0 <= i < |rs| :: ss[i] == rs[i].alloc.Chunks()
  {
    if rs == [] then [] else ChunkSets(rs[..|rs| - 1]) + [rs[|rs| - 1].alloc.Chunks()]
  }

  ghost function Union(ss: seq<set<nat>>): set<nat> {
    set i, c | 0 <= i < |ss| && c in ss[i] :: c
  }

  lemma LiveIsUnion(rs: seq<Region>)
    requires forall i | 0 <= i < |rs| :: rs[i].alloc.Valid()
    ensures Live(rs) == Union(ChunkSets(rs))
  {
    hide ExtAlloc.Chunks, ChunkSets;
    var ss := ChunkSets(rs);
    forall c | c in Live(rs) ensures c in Union(ss) {
      var i :| 0 <= i < |rs| && c in rs[i].alloc.Chunks();
      assert c in ss[i];
    }
    forall c | c in Union(ss) ensures c in Live(rs) {
      var i :| 0 <= i < |ss| && c in ss[i];
      assert c in rs[i].alloc.Chunks();
    }
  }

  lemma UnionChanges(ss: seq<set<nat>>, tt: seq<set<nat>>, j: nat, added: set<nat>, removed: set<nat>)
    requires |ss| == |tt| && j < |ss| && tt[j] == ss[j] + added - removed
    requires forall i | 0 <= i < |ss| && i != j :: tt[i] == ss[i] && ss[i] !! removed
    ensures Union(tt) == Union(ss) + added - removed
  {
    forall c | c in Union(tt) ensures c in Union(ss) + added - removed {
      var i :| 0 <= i < |tt| && c in tt[i];
      assert i != j ==> c in ss[i];
      assert c in ss[i] || c in added;
    }
    forall c | c in Union(ss) + added - removed ensures c in Union(tt) {
      if c in added {
        assert c in tt[j];
      } else {
        var i :| 0 <= i < |ss| && c in ss[i];
        assert c in tt[i];
      }
    }
  }

  lemma SetsCovered(rs: seq<Region>)
    requires forall i | 0 <= i < |rs| :: rs[i].alloc.Valid()
    ensures forall i, c | 0 <= i < |rs| && c in ChunkSets(rs)[i] :: rs[i].Covers(c)
  {
    hide ExtAlloc.Chunks, ChunkSets;
    forall i, c | 0 <= i < |rs| && c in ChunkSets(rs)[i] ensures rs[i].Covers(c) {
      ChunkInRegion(rs[i].alloc, c);
    }
  }

  /** `allocslot` on the region found to have room. */
  method Take(rs: seq<Region>, ghost j: nat, r: Region) returns (chunk: nat)
    requires AllValid(rs) && Separate(rs) && j < |rs| && rs[j] == r && !Full(r)
    modifies r, r.alloc.bitvec
    ensures AllValid(rs) && r.Covers(chunk)
    ensures chunk !in old(Live(rs)) && Live(rs) == old(Live(rs)) + {chunk}
  {
    hide ExtAlloc.Chunks, ChunkSets, Union, Live, Run;
    ghost var ss := ChunkSets(rs);
    LiveIsUnion(rs);
    SetsCovered(rs);
    ghost var free: nat :| r.Covers(free) && free !in r.alloc.Chunks();
    r.active := r.active + 1;
    assert free !in r.alloc.Chunks();
    assert r.alloc.FreeRun(free, 1);
    var taken := r.alloc.Alloc(1);
    chunk := taken.value;
    RunOne(chunk);
    assert ss[j] == old(r.alloc.Chunks());
    NotInUnion(rs, ss, j, chunk);
    forall i | 0 <= i < |rs| && i != j ensures rs[i].alloc.Chunks() == ss[i] && rs[i].Valid() {
      assert rs[i] != r && rs[i].alloc.bitvec != r.alloc.bitvec;
    }
    LiveIsUnion(rs);
    UnionChanges(ss, ChunkSets(rs), j, {chunk}, {});
  }

  lemma NotInUnion(rs: seq<Region>, ss: seq<set<nat>>, j: nat, chunk: nat)
    requires |ss| == |rs| && Separate(rs) && j < |rs| && rs[j].Covers(chunk) && chunk !in ss[j]
    requires forall i, c | 0 <= i < |ss| && c in ss[i] :: rs[i].Covers(c)
    ensures chunk !in Union(ss)
  {
  }

  /** The scan of `isfull` and `allocslot`: the first region with room. */
  method FindRoom(rs: seq<Region>) returns (i: nat)
    requires AllValid(rs)
    ensures i <= |rs| && (forall j | 0 <= j < i :: Full(rs[j])) && (i < |rs| ==> !Full(rs[i]))
  {
    hide ExtAlloc.Chunks;
    i := 0;
    while i < |rs|
      invariant i <= |rs| && forall j | 0 <= j < i :: Full(rs[j])
    {
      var full := rs[i].alloc.IsFull();
      assert full == Full(rs[i]);
      if !full { return; }
      i := i + 1;
    }
  }

  lemma MultipleStep(a: nat, b: nat, k: nat)
    requires a < b
    ensures a * k + k <= b * k
  {
    var d := b - a - 1;
    assert d * k >= 0;
    assert b * k == (a + 1 + d) * k == a * k + k + d * k;
  }

  lemma Multiples(a: nat, b: nat, k: nat)
    requires 0 < k
    ensures a * k <= b * k <==> a <= b
    ensures a * k < b * k <==> a < b
    ensures 0 < a ==> 0 < a * k
  {
    if a < b {
      MultipleStep(a, b, k);
    } else if b < a {
      MultipleStep(b, a, k);
    }
    if 0 < a {
      MultipleStep(0, a, k);
    }
  }

  /** `boxmap_addspace` for one chunk: 0 exactly when every region is full, and otherwise the address of a chunk that
      was not in use, lies in one of the regions, and now is in use. */
  method AddSpace(rs: seq<Region>, chunksize: nat) returns (addr: nat, ghost chunk: nat)
    requires AllValid(rs) && Separate(rs) && 0 < chunksize
    modifies rs, Vectors(rs)
    ensures AllValid(rs)
    ensures addr == 0 <==> old(forall i | 0 <= i < |rs| :: Full(rs[i]))
    ensures addr == 0 ==> Live(rs) == old(Live(rs))
    ensures addr != 0 ==>
              && addr == chunk * chunksize && (exists i :: 0 <= i < |rs| && rs[i].Covers(chunk))
              && chunk !in old(Live(rs)) && Live(rs) == old(Live(rs)) + {chunk}
  {
    hide ExtAlloc.Chunks, Live, Full;
    addr, chunk := 0, 0;
    var i := FindRoom(rs);
    if i < |rs| {
      var c := Take(rs, i, rs[i]);
      Multiples(c, c, chunksize);
      chunk := c;
      addr := c * chunksize;
    }
  }

  /** The range test of `deleteslot`, in bytes. */
  predicate CoversAddress(r: Region, chunksize: nat, addr: nat) {
    r.alloc.base * chunksize <= addr < r.alloc.base * chunksize + r.alloc.size * chunksize
  }

  lemma CoversSame(r: Region, chunksize: nat, chunk: nat)
    requires 0 < chunksize
    ensures CoversAddress(r, chunksize, chunk * chunksize) == r.Covers(chunk)
  {
    Multiples(r.alloc.base, chunk, chunksize);
    Multiples(chunk, r.alloc.base + r.alloc.size, chunksize);
    assert (r.alloc.base + r.alloc.size) * chunksize == r.alloc.base * chunksize + r.alloc.size * chunksize;
  }

  /** `boxmap_rmspace` of a box in use. */
  method RmSpace(rs: seq<Region>, chunksize: nat, addr: nat)
    requires AllValid(rs) && Separate(rs) && 0 < chunksize && addr % chunksize == 0 && addr / chunksize in Live(rs)
    modifies rs, Vectors(rs)
    ensures AllValid(rs) && Live(rs) == old(Live(rs)) - {addr / chunksize}
  {
    hide ExtAlloc.Chunks, Live, CoversAddress;
    var chunk := addr / chunksize;
    assert addr == chunk * chunksize;
    ghost var j := Home(rs, chunk);
    var i := 0;
    while i < |rs|
      invariant i <= |rs| && AllValid(rs) && (i <= j ==> unchanged(rs) && unchanged(Vectors(rs)))
      invariant j < i ==> Live(rs) == old(Live(rs)) - {chunk}
    {
      CoversSame(rs[i], chunksize, chunk);
      if CoversAddress(rs[i], chunksize, addr) {
        OneHome(rs, i, j, chunk);
        Release(rs, i, rs[i], chunk);
      }
      i := i + 1;
    }
  }

  /** The region that holds a chunk in use. */
  lemma Home(rs: seq<Region>, chunk: nat) returns (j: nat)
    requires AllValid(rs) && chunk in Live(rs)
    ensures j < |rs| && chunk in rs[j].alloc.Chunks() && rs[j].Covers(chunk)
  {
    j :| 0 <= j < |rs| && chunk in rs[j].alloc.Chunks();
    ChunkInRegion(rs[j].alloc, chunk);
  }

  lemma OneHome(rs: seq<Region>, i: nat, j: nat, chunk: nat)
    requires Separate(rs) && i < |rs| && j < |rs| && rs[i].Covers(chunk) && rs[j].Covers(chunk)
    ensures i == j
  {
  }

  lemma NotInOther(rs: seq<Region>, ss: seq<set<nat>>, i: nat, j: nat, chunk: nat)
    requires |ss| == |rs| && Separate(rs) && i < |rs| && j < |rs| && i != j && rs[j].Covers(chunk)
    requires forall c | c in ss[i] :: rs[i].Covers(c)
    ensures chunk !in ss[i]
  {
  }

  /** One region of `deleteslot`. */
  method Release(rs: seq<Region>, ghost j: nat, r: Region, chunk: nat)
    requires AllValid(rs) && Separate(rs) && j < |rs| && rs[j] == r && r.Covers(chunk) && chunk in r.alloc.Chunks()
    modifies r, r.alloc.bitvec
    ensures AllValid(rs) && Live(rs) == old(Live(rs)) - {chunk}
  {
    hide ExtAlloc.Chunks, ChunkSets, Union, Live, Run;
    ghost var ss := ChunkSets(rs);
    LiveIsUnion(rs);
    SetsCovered(rs);
    assert ss[j] == r.alloc.Chunks();
    forall i | 0 <= i < |rs| && i != j ensures ss[i] !! {chunk} {
      NotInOther(rs, ss, i, j, chunk);
    }
    RunOne(chunk);
    r.alloc.Free(chunk, 1);
    r.active := r.active - 1;
    forall i | 0 <= i < |rs| && i != j ensures rs[i].alloc.Chunks() == ss[i] && rs[i].Valid() {
      assert rs[i] != r && rs[i].alloc.bitvec != r.alloc.bitvec;
    }
    LiveIsUnion(rs);
    UnionChanges(ss, ChunkSets(rs), j, {}, {chunk});
  }
}
