/** The ring queue of `lps-linux/queue.c`, run sequentially, as a bounded deque, and the hand-off from the global to a
    local queue in `mcsched_loop` of `lps-linux/sched.c`. */
module RingQueue {

  import opened Basics

  /** `struct RingQueue`, without its locks. */
  class Ring<T(0)> {
    const buf: array<T>
    var head: nat
    var tail: nat
    var count: nat

    ghost predicate Valid()
      reads this
    {
      && 0 < buf.Length
      && head < buf.Length && count <= buf.Length
      && tail == Ahead(buf.Length, head, count)
    }

    ghost function Contents(): seq<T>
      requires Valid()
      reads this, buf
    {
      Around(buf[..], head, count)
    }

    lemma Length()
      requires Valid()
      ensures |Contents()| == count
    {
    }

    /** `ring_create` */
    constructor (cap: nat)
      requires 0 < cap
      ensures Valid() && fresh(buf) && buf.Length == cap && Contents() == []
    {
      buf := new T[cap];
      head, tail, count := 0, 0, 0;
    }

    /** A cell written behind `n` elements. */
    method PutCell(val: T, ghost n: nat)
      requires 0 < buf.Length && head < buf.Length && n < buf.Length && tail == Ahead(buf.Length, head, n)
      modifies this`tail, buf
      ensures tail == Ahead(buf.Length, head, n + 1)
      ensures Around(buf[..], head, n + 1) == old(Around(buf[..], head, n)) + [val]
    {
      hide Around;
      ghost var b := buf[..];
      AroundPush(b, head, n, val);
      WrapOnce(buf.Length, tail, 1);
      buf[tail] := val;
      assert buf[..] == b[tail := val];
      tail := (tail + 1) % buf.Length;
    }

    /** A cell read in front of `n - 1` elements. */
    method TakeCell(ghost n: nat) returns (val: T)
      requires 0 < buf.Length && head < buf.Length && 0 < n <= buf.Length
      modifies this`head
      ensures head == Ahead(buf.Length, old(head), 1)
      ensures old(Around(buf[..], head, n)) == [val] + Around(buf[..], head, n - 1)
    {
      hide Around;
      AroundTake(buf[..], head, n, 1);
      WrapOnce(buf.Length, head, 1);
      val := buf[head];
      assert buf[..][head..head + 1] == [val];
      head := (head + 1) % buf.Length;
    }

    /** `ring_push_one` */
    method PushOne(val: T) returns (pushed: nat)
      requires Valid()
      modifies this`tail, this`count, buf
      ensures Valid()
      ensures pushed == (if |old(Contents())| < buf.Length then 1 else 0)
      ensures Contents() == old(Contents()) + if pushed == 1 then [val] else []
    {
      Length();
      if count >= buf.Length { return 0; }
      PutCell(val, count);
      count := count + 1;
      pushed := 1;
    }

    /** `ring_pop_one` */
    method PopOne() returns (val: Option<T>)
      requires Valid()
      modifies this`head, this`count
      ensures Valid()
      ensures if old(Contents()) == [] then val.None? && Contents() == []
              else val == Some(old(Contents())[0]) && Contents() == old(Contents())[1..]
    {
      Length();
      if count <= 0 { return None; }
      var front := TakeCell(count);
      val := Some(front);
      count := count - 1;
    }

    /** `ring_pop_back` */
    method PopBack() returns (val: Option<T>)
      requires Valid()
      modifies this`tail, this`count
      ensures Valid()
      ensures if old(Contents()) == [] then val.None? && Contents() == []
              else var n := |old(Contents())| - 1; val == Some(old(Contents())[n]) && Contents() == old(Contents())[..n]
    {
      Length();
      if count <= 0 { return None; }
      AroundPopBack(buf[..], head, count);
      WrapOnce(buf.Length, tail, buf.Length - 1);
      tail := (tail - 1 + buf.Length) % buf.Length;
      val := Some(buf[tail]);
      count := count - 1;
    }

    /** A batch written from offset `o` on, over what was there: until it ends or meets the head. */
    method WriteBatch(elems: seq<T>, ghost o: nat) returns (i: nat)
      requires 0 < buf.Length && head < buf.Length && elems != []
      requires o < buf.Length && tail == Ahead(buf.Length, head, o)
      modifies this`tail, buf
      ensures i == Min(|elems|, buf.Length - o) && tail == Ahead(buf.Length, head, o + i)
      ensures var cs := old(Around(buf[..], head, buf.Length));
              |cs| == buf.Length && Around(buf[..], head, buf.Length) == cs[..o] + elems[..i] + cs[o + i..]
    {
      hide Around;
      AroundAll(buf[..], head, buf.Length);
      ghost var cs := Around(buf[..], head, buf.Length);
      i := 0;
      while true
        invariant i < |elems| && o + i < buf.Length && tail == Ahead(buf.Length, head, o + i)
        invariant Around(buf[..], head, buf.Length) == cs[..o] + elems[..i] + cs[o + i..]
        decreases |elems| - i
      {
        ghost var b := buf[..];
        AroundSet(b, head, o + i, elems[i]);
        WrapOnce(buf.Length, tail, 1);
        buf[tail] := elems[i];
        assert buf[..] == b[tail := elems[i]];
        BatchGrows(cs, o, elems, i);
        tail := (tail + 1) % buf.Length;
        i := i + 1;
        if !(i < |elems| && tail != head) { break; }
      }
    }

    lemma BatchGrows(cs: seq<T>, o: nat, elems: seq<T>, i: nat)
      requires o + i < |cs| && i < |elems|
      ensures (cs[..o] + elems[..i] + cs[o + i..])[o + i := elems[i]] == cs[..o] + elems[..i + 1] + cs[o + i + 1..]
    {
    }

    /** `ring_push`: a batch goes in as far as it fits.  On a full ring it overwrites the oldest elements and counts
        them on top, so that the ring is no longer valid. */
    method Push(elems: seq<T>) returns (i: nat)
      requires Valid()
      modifies this`tail, this`count, buf
      ensures var n := |old(Contents())|;
              if elems == [] || n < buf.Length then
                Valid() && i == Min(|elems|, buf.Length - n) && Contents() == old(Contents()) + elems[..i]
              else
                && i == Min(|elems|, buf.Length) && count == buf.Length + i && !Valid()
                && Around(buf[..], head, buf.Length) == elems[..i] + old(Contents())[i..]
    {
      hide Around;
      Length();
      if elems == [] { return 0; }
      AroundAll(buf[..], head, count);
      ghost var o := if count < buf.Length then count else 0;
      i := WriteBatch(elems, o);
      count := count + i;
      if count <= buf.Length {
        AroundAll(buf[..], head, count);
      }
    }

    /** `ring_pop`: up to `n` elements from the front, and none at all when the ring is full, because then head and tail
        meet. */
    method Pop(n: nat) returns (elems: seq<T>)
      requires Valid()
      modifies this`head, this`count
      ensures Valid()
      ensures elems == old(Contents())[..if |old(Contents())| == buf.Length then 0 else Min(n, |old(Contents())|)]
      ensures Contents() == old(Contents())[|elems|..]
    {
      hide Around;
      Length();
      ghost var before := Contents();
      elems := [];
      var i := 0;
      while i < n && head != tail
        invariant count == |before| && i <= n && i <= count && i == |elems| && head < buf.Length
        invariant 0 < i ==> count < buf.Length
        invariant tail == Ahead(buf.Length, head, count - i)
        invariant elems == before[..i] && Around(buf[..], head, count - i) == before[i..]
      {
        var front := TakeCell(count - i);
        assert before[i..][0] == before[i] && before[i..][1..] == before[i + 1..];
        elems := elems + [front];
        i := i + 1;
      }
      count := count - i;
    }
  }

  /** A worker's share of the global queue, and at least one task. */
  function Share(count: nat, ncore: nat): (n: nat)
    requires 0 < ncore
    ensures 0 < n
  {
    count / ncore + 1
  }

  /** One part in `ncore`, rounded down, and one task more; or all there is. */
  lemma ShareIsFair(count: nat, ncore: nat)
    requires 0 < ncore && 0 < count
    ensures var taken := Min(Share(count, ncore), count);
            0 < taken && (taken - 1) * ncore <= count && (taken == count || count < taken * ncore)
  {
    var q := count / ncore;
    DivMod(count, ncore);
    assert (q + 1) * ncore == q * ncore + ncore;
    Scaled(ncore, Min(Share(count, ncore), count) - 1, q);
  }

  /** The global-to-local hand-off of `mcsched_loop`, entered with the worker's own queue found empty.  No task is lost,
      duplicated or reordered, and the assertion on the push holds. */
  method HandOff<T(0)>(global: Ring<T>, local: Ring<T>, ncore: nat) returns (e: Option<T>)
    requires global.Valid() && local.Valid() && global != local && global.buf != local.buf
    requires local.Contents() == [] && global.buf.Length <= local.buf.Length && 0 < ncore
    modifies global`head, global`count, local, local.buf
    ensures global.Valid() && local.Valid()
    ensures (if e.Some? then [e.value] else []) + local.Contents() + global.Contents() == old(global.Contents())
    ensures e.Some? <==> 0 < |old(global.Contents())| < global.buf.Length
    ensures var n := |old(global.Contents())|;
            0 < n < global.buf.Length ==>
              var taken := n - |global.Contents()|;
              0 < taken && (taken - 1) * ncore <= n && (taken == n || n < taken * ncore)
  {
    hide Around, Ring.Contents;
    ghost var all := global.Contents();
    global.Length();
    var want := Share(global.count, ncore);
    if 0 < global.count {
      ShareIsFair(global.count, ncore);
    }
    var batch := global.Pop(want);
    assert batch + global.Contents() == all;
    e := None;
    if batch != [] {
      var pushed := local.Push(batch);
      assert pushed == |batch|;
      assert local.Contents() == batch;
      e := local.PopOne();
      assert [batch[0]] + batch[1..] == batch;
    }
  }
}
