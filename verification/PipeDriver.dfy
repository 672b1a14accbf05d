/** The code of `lps-linux/sys/sys_pipe.c` and of the round-robin part of `lps-linux/sched.c` between two context
    switches: ring buffer, wrapping 64-bit counters, copy loops and wake loops, proved against the steps of module
    `PipeSteps`. */
module PipeDriver {
  import opened Basics
  import opened PipeSteps
  import opened PipeMachine
  import opened IntrusiveQueue

  // ----- the counters

  /** How far apart two wrapping counters are. */
  function Used(nread: nat, nwrite: nat): nat
    requires nread < WORD && nwrite < WORD
  {
    (nwrite - nread + WORD) % WORD
  }

  lemma UsedPlain(nread: nat, nwrite: nat)
    requires nread < WORD && nwrite < WORD
    ensures Used(nread, nwrite) == if nread <= nwrite then nwrite - nread else nwrite - nread + WORD
  {
  }

  /** Advancing a counter that wraps at 2^64 advances its ring position, because the ring size divides 2^64. */
  lemma CounterPosition(n: nat, c: nat)
    requires n < WORD && c <= PIPESZ
    ensures (n + c) % WORD == if n + c < WORD then n + c else n + c - WORD
    ensures (n + c) % WORD % PIPESZ == Ahead(PIPESZ, n % PIPESZ, c)
  {
    var q, r := n / PIPESZ, n % PIPESZ;
    assert n == q * PIPESZ + r;
    assert (n + c) % PIPESZ == Ahead(PIPESZ, r, c);
    assert WORD == PIPESZ * 0x1_0000_0000_0000;
  }

  lemma CountersMove(nread: nat, nwrite: nat, c: nat)
    requires nread < WORD && nwrite < WORD && Used(nread, nwrite) <= PIPESZ && c <= PIPESZ
    ensures c <= Used(nread, nwrite) ==> Used((nread + c) % WORD, nwrite) == Used(nread, nwrite) - c
    ensures Used(nread, nwrite) + c <= PIPESZ ==> Used(nread, (nwrite + c) % WORD) == Used(nread, nwrite) + c
    ensures nwrite % PIPESZ == Ahead(PIPESZ, nread % PIPESZ, Used(nread, nwrite))
  {
    hide Used;
    UsedPlain(nread, nwrite);
    CounterPosition(nread, c);
    CounterPosition(nwrite, c);
    CounterPosition(nread, Used(nread, nwrite));
    UsedPlain((nread + c) % WORD, nwrite);
    UsedPlain(nread, (nwrite + c) % WORD);
  }

  // ----- the scheduler

  function WakeStates(state: map<Tid, ThreadState>, woken: seq<Tid>): map<Tid, ThreadState> {
    map t | t in state.Keys + (set u | u in woken) :: if t in woken then Runnable else state[t]
  }

  lemma WokenNone(state: map<Tid, ThreadState>)
    ensures WakeStates(state, Owners([])) == state
  {
  }

  lemma WokenAll(state: map<Tid, ThreadState>, all: seq<Link>)
    ensures var after := WakeStates(state, Owners(all));
            && (forall e | e in all :: e.owner in after && after[e.owner].Runnable?)
            && (forall t | t in state && t !in Owners(all) :: t in after && after[t] == state[t])
  {
    forall e | e in all ensures e.owner in Owners(all) {
      var i :| 0 <= i < |all| && all[i] == e;
      assert Owners(all)[i] == e.owner;
    }
  }

  lemma WokenMore(state: map<Tid, ThreadState>, all: seq<Link>, n: nat)
    requires n < |all|
    ensures all[..n + 1] == all[..n] + [all[n]]
    ensures WakeStates(state, Owners(all[..n + 1])) == WakeStates(state, Owners(all[..n]))[all[n].owner := Runnable]
  {
    OwnersConcat(all[..n], [all[n]]);
  }

  /** The run queue and the `state` fields. */
  class Scheduler {
    const runq: Queue
    var state: map<Tid, ThreadState>

    constructor ()
      ensures runq.Valid() && runq.elems == [] && state == map[] && fresh(runq) && fresh(runq.dummy)
    {
      runq := new Queue();
      state := map[];
    }

    /** `rrschedblock`, up to the switch away. */
    method Block(elem: Link, q: Queue, ghost other: Queue, ghost links: set<Link>)
      requires Wired(runq, q, other, links) && OffQueue(runq, q, other, elem) && elem in links
      modifies this, q, links
      ensures Wired(runq, q, other, links)
      ensures q.elems == old(q.elems) + [elem] && runq.elems == old(runq.elems) && other.elems == old(other.elems)
      ensures state == old(state)[elem.owner := Blocked]
    {
      hide Wired;
      state := state[elem.owner := Blocked];
      WiredTurns(runq, q, other, links);
      PutOn(q, runq, other, elem, links);
      WiredTurns(q, runq, other, links);
    }

    /** `rrschedwake` */
    method Wake(q: Queue, ghost other: Queue, ghost links: set<Link>)
      requires Wired(runq, q, other, links)
      modifies this, runq, q, links
      ensures Wired(runq, q, other, links)
      ensures q.elems == [] && runq.elems == old(runq.elems) + old(q.elems) && other.elems == old(other.elems)
      ensures state == WakeStates(old(state), Owners(old(q.elems)))
      ensures forall e | e in old(q.elems) :: e.owner in state && state[e.owner].Runnable?
      ensures forall t | t in old(state) && t !in Owners(old(q.elems)) :: t in state && state[t] == old(state)[t]
    {
      hide Wired, WakeStates, OffQueue;
      ghost var all, n := q.elems, 0;
      WokenNone(state);
      var e := TakeFrom(runq, q, other, links);
      while e != null
        invariant Wired(runq, q, other, links) && other.elems == old(other.elems)
        invariant e != null ==> OffQueue(runq, q, other, e) && e in links
        invariant n <= |all| && if e == null then n == |all| && q.elems == []
                                else n < |all| && e == all[n] && q.elems == all[n + 1..]
        invariant runq.elems == old(runq.elems) + all[..n] && state == WakeStates(old(state), Owners(all[..n]))
        decreases |all| - n
      {
        WokenMore(old(state), all, n);
        state := state[e.owner := Runnable];
        PutOn(runq, q, other, e, links);
        n := n + 1;
        e := TakeFrom(runq, q, other, links);
      }
      assert all[..n] == all;
      WokenAll(old(state), all);
    }
  }

  // ----- pipes

  /** `struct Pipe` */
  class Pipe {
    const data: array<byte>
    const readq: Queue
    const writeq: Queue
    var inUse: bool
    var readopen: bool
    var writeopen: bool
    var nread: nat
    var nwrite: nat

    ghost predicate Valid()
      reads this
    {
      && data.Length == PIPESZ
      && nread < WORD && nwrite < WORD
      && Used(nread, nwrite) <= PIPESZ
    }

    ghost function Contents(): seq<byte>
      requires Valid()
      reads this, data
    {
      Around(data[..], nread % PIPESZ, Used(nread, nwrite))
    }

    ghost function View(): PipeView
      requires Valid()
      reads this, data, readq, writeq
    {
      PipeView(inUse, readopen, writeopen, Contents(), Owners(readq.elems), Owners(writeq.elems))
    }

    /** The wait queues and the run queue are in order, and made of these links. */
    ghost predicate Tied(sched: Scheduler, links: set<Link>)
      reads sched.runq, sched.runq.dummy, sched.runq.elems
      reads readq, readq.dummy, readq.elems, writeq, writeq.dummy, writeq.elems
    {
      Wired(sched.runq, readq, writeq, links)
    }

    /** `pipe_new` on the chosen slot, with allocation succeeding. */
    constructor ()
      ensures Valid() && fresh(data) && View() == FreshPipe()
      ensures fresh(readq) && fresh(readq.dummy) && fresh(writeq) && fresh(writeq.dummy)
      ensures readq.Valid() && writeq.Valid() && readq != writeq && Apart(readq, writeq)
    {
      data := new byte[PIPESZ](_ => 0);
      inUse, readopen, writeopen := true, true, true;
      nread, nwrite := 0, 0;
      readq := new Queue();
      writeq := new Queue();
    }

    /** The copy loop of `pipe_read`: at most two chunks, the second from the start of the ring. */
    method CopyOut(toRead: nat) returns (buf: seq<byte>)
      requires Valid() && toRead <= |Contents()|
      modifies this`nread
      ensures Valid() && buf == old(Contents())[..toRead] && Contents() == old(Contents())[toRead..]
    {
      hide Around, Used;
      buf := [];
      var copied := 0;
      ghost var all := Contents();
      ContentsLength();
      while copied < toRead
        invariant copied <= toRead && Valid()
        invariant buf == all[..copied] && Contents() == all[copied..]
      {
        var readPos := nread % PIPESZ;
        var chunk := toRead - copied;
        if readPos + chunk > PIPESZ {
          chunk := PIPESZ - readPos;
        }
        ContentsLength();
        TakeChunk(chunk);
        buf := buf + data[readPos..readPos + chunk];
        nread := (nread + chunk) % WORD;
        copied := copied + chunk;
      }
    }

    lemma ContentsLength()
      requires Valid()
      ensures |Contents()| == Used(nread, nwrite)
    {
    }

    /** Taking a chunk that does not cross the end of the ring. */
    lemma TakeChunk(c: nat)
      requires Valid() && c <= |Contents()| && nread % PIPESZ + c <= PIPESZ
      ensures Used((nread + c) % WORD, nwrite) == Used(nread, nwrite) - c <= PIPESZ
      ensures var pos := nread % PIPESZ;
              && data[pos..pos + c] == Contents()[..c]
              && Around(data[..], (nread + c) % WORD % PIPESZ, Used(nread, nwrite) - c) == Contents()[c..]
    {
      hide Around, Used, Ahead;
      var pos := nread % PIPESZ;
      ContentsLength();
      CountersMove(nread, nwrite, c);
      CounterPosition(nread, c);
      AroundTake(data[..], pos, Used(nread, nwrite), c);
      assert data[..][pos..pos + c] == data[pos..pos + c];
    }

    /** One `memcpy` of `pipe_write`, which does not cross the end of the ring either. */
    method PutChunk(x: seq<byte>)
      requires Valid() && |Contents()| + |x| <= PIPESZ && nwrite % PIPESZ + |x| <= PIPESZ
      modifies this`nwrite, data
      ensures Valid() && Contents() == old(Contents()) + x
    {
      hide Around, Used, Ahead;
      ContentsLength();
      var writePos := nwrite % PIPESZ;
      ghost var d := data[..];
      CountersMove(nread, nwrite, |x|);
      forall i | 0 <= i < |x| {
        data[writePos + i] := x[i];
      }
      nwrite := (nwrite + |x|) % WORD;
      assert data[..] == d[..writePos] + x + d[writePos + |x|..];
      AroundPut(d, data[..], nread % PIPESZ, |old(Contents())|, x);
    }

    /** `pipe_read` from its loop head to its return or its block, by the thread that `elem` is embedded in. */
    method Read(elem: Link, n: nat, sched: Scheduler, ghost links: set<Link>) returns (outcome: Outcome<seq<byte>>)
      requires Valid() && Tied(sched, links) && OffQueue(sched.runq, readq, writeq, elem) && elem in links
      modifies this`nread, readq, writeq, sched, sched.runq, links
      ensures Valid() && Tied(sched, links)
      ensures var (v, woken, result) := ReadStep(old(View()), elem.owner, n);
              && View() == v && outcome == result && Owners(sched.runq.elems) == Owners(old(sched.runq.elems)) + woken
              && sched.state == (if result.Blocks? then old(sched.state)[elem.owner := Blocked]
                                                   else WakeStates(old(sched.state), woken))
      ensures !outcome.Fails? && (outcome.Blocks? <==> old(Contents()) == [] && writeopen)
      ensures outcome.Returns? ==>
                && outcome.result == old(Contents())[..Min(n, |old(Contents())|)]
                && Contents() == old(Contents())[|outcome.result|..]
    {
      hide Around, Used, Wired, OffQueue, Owners, WakeStates;
      ContentsLength();
      UsedZero(nread, nwrite);
      if nread == nwrite && writeopen {
        OwnersConcat(readq.elems, [elem]);
        sched.Block(elem, readq, writeq, links);
        return Blocks([]);
      }
      var buf := TakeUpTo(n);
      WakeWriters(sched, links);
      return Returns(buf);
    }

    /** The part of `pipe_read` behind its waiting loop. */
    method TakeUpTo(n: nat) returns (buf: seq<byte>)
      requires Valid()
      modifies this`nread
      ensures Valid() && |buf| == Min(n, |old(Contents())|)
      ensures buf == old(Contents())[..Min(n, |old(Contents())|)]
      ensures Contents() == old(Contents())[Min(n, |old(Contents())|)..]
    {
      hide Around, Used;
      ContentsLength();
      var avail := Used(nread, nwrite);
      var toRead := if n < avail then n else avail;
      buf := CopyOut(toRead);
    }

    /** `rrschedwake(&pipe->writeq)` */
    method WakeWriters(sched: Scheduler, ghost links: set<Link>)
      requires Tied(sched, links)
      modifies writeq, sched, sched.runq, links
      ensures Tied(sched, links) && Owners(writeq.elems) == [] && readq.elems == old(readq.elems)
      ensures Owners(sched.runq.elems) == Owners(old(sched.runq.elems)) + Owners(old(writeq.elems))
      ensures sched.state == WakeStates(old(sched.state), Owners(old(writeq.elems)))
    {
      hide Wired, WakeStates;
      OwnersConcat(sched.runq.elems, writeq.elems);
      WiredTurns(sched.runq, readq, writeq, links);
      sched.Wake(writeq, readq, links);
      WiredTurns(sched.runq, writeq, readq, links);
    }

    /** `rrschedwake(&pipe->readq)` */
    method WakeReaders(sched: Scheduler, ghost links: set<Link>)
      requires Tied(sched, links)
      modifies readq, sched, sched.runq, links
      ensures Tied(sched, links) && readq.elems == [] && Owners(readq.elems) == [] && writeq.elems == old(writeq.elems)
      ensures sched.runq.elems == old(sched.runq.elems) + old(readq.elems)
      ensures Owners(sched.runq.elems) == Owners(old(sched.runq.elems)) + Owners(old(readq.elems))
      ensures sched.state == WakeStates(old(sched.state), Owners(old(readq.elems)))
    {
      hide Wired, WakeStates;
      OwnersConcat(sched.runq.elems, readq.elems);
      sched.Wake(readq, writeq, links);
    }

    /** A full pipe: `pipe_write` wakes the readers and blocks. */
    method BlockFull(elem: Link, sched: Scheduler, ghost links: set<Link>)
      requires Tied(sched, links) && OffQueue(sched.runq, readq, writeq, elem) && elem in links
      modifies readq, writeq, sched, sched.runq, links
      ensures Tied(sched, links) && Owners(readq.elems) == []
      ensures Owners(writeq.elems) == Owners(old(writeq.elems)) + [elem.owner]
      ensures Owners(sched.runq.elems) == Owners(old(sched.runq.elems)) + Owners(old(readq.elems))
      ensures sched.state == WakeStates(old(sched.state), Owners(old(readq.elems)))[elem.owner := Blocked]
    {
      hide Wired, WakeStates;
      WakeReaders(sched, links);
      OwnersConcat(writeq.elems, [elem]);
      WiredTurns(sched.runq, readq, writeq, links);
      sched.Block(elem, writeq, readq, links);
      WiredTurns(sched.runq, writeq, readq, links);
    }

    /** `pipe_write` from its loop head to its return or its block. */
    method Write(elem: Link, bytes: seq<byte>, written0: nat, sched: Scheduler, ghost links: set<Link>)
      returns (outcome: Outcome<nat>)
      requires Valid() && written0 <= |bytes|
      requires Tied(sched, links) && OffQueue(sched.runq, readq, writeq, elem) && elem in links
      modifies this`nwrite, data, readq, writeq, sched, sched.runq, links
      ensures Valid() && Tied(sched, links)
      ensures |old(View()).buf| <= PIPESZ && |old(Contents())| <= PIPESZ
      ensures var (v, woken, result) := WriteStep(old(View()), elem.owner, bytes, written0);
              && View() == v && outcome == result && Owners(sched.runq.elems) == Owners(old(sched.runq.elems)) + woken
              && sched.state == (match result
                                 case Blocks(_) => WakeStates(old(sched.state), woken)[elem.owner := Blocked]
                                 case Returns(_) => WakeStates(old(sched.state), woken)
                                 case Fails => old(sched.state))
      ensures outcome.Fails? <==> written0 < |bytes| && !readopen
      ensures outcome.Blocks? <==> readopen && PIPESZ - |old(Contents())| < |bytes| - written0
      ensures outcome.Returns? ==> outcome.result == |bytes|
      ensures !outcome.Fails? ==>
                Contents() == old(Contents())
                              + bytes[written0..written0 + Min(|bytes| - written0, PIPESZ - |old(Contents())|)]
    {
      hide Around, Used, Wired, OffQueue, Owners, WakeStates;
      ContentsLength();
      var written := Fill(bytes, written0);
      ContentsLength();
      if written < |bytes| {
        if !readopen { return Fails; }
        BlockFull(elem, sched, links);
        return Blocks(written);
      }
      WakeReaders(sched, links);
      return Returns(written);
    }

    /** The turns of the loop of `pipe_write` that copy: on leaving, everything is written, or the read end is
        closed, or the pipe is full. */
    method Fill(bytes: seq<byte>, written0: nat) returns (written: nat)
      requires Valid() && written0 <= |bytes|
      modifies this`nwrite, data
      ensures Valid() && written0 <= written <= |bytes| && Contents() == old(Contents()) + bytes[written0..written]
      ensures written == if readopen then written0 + Min(|bytes| - written0, PIPESZ - |old(Contents())|) else written0
    {
      hide Around, Used;
      ContentsLength();
      written := written0;
      ghost var before := Contents();
      while written < |bytes|
        invariant Valid() && written0 <= written <= |bytes| && Contents() == before + bytes[written0..written]
        invariant |Contents()| <= PIPESZ && (!readopen ==> written == written0)
      {
        if !readopen { break; }
        ContentsLength();
        var space := PIPESZ - Used(nread, nwrite);
        if space == 0 { break; }
        var chunk := |bytes| - written;
        if chunk > space {
          chunk := space;
        }
        var writePos := nwrite % PIPESZ;
        if writePos + chunk > PIPESZ {
          chunk := PIPESZ - writePos;
        }
        PutChunk(bytes[written..written + chunk]);
        assert bytes[written0..written] + bytes[written..written + chunk] == bytes[written0..written + chunk];
        written := written + chunk;
        ContentsLength();
      }
    }

    /** `pipe_close` */
    method Close(isRead: bool, sched: Scheduler, ghost links: set<Link>)
      requires Valid() && Tied(sched, links)
      modifies this`inUse, this`readopen, this`writeopen, readq, writeq, sched, sched.runq, links
      ensures Valid() && Tied(sched, links)
      ensures var (v, woken) := CloseStep(old(View()), isRead);
              && View() == v && Owners(sched.runq.elems) == Owners(old(sched.runq.elems)) + woken
              && sched.state == WakeStates(old(sched.state), woken)
      ensures readopen == (old(readopen) && !isRead) && writeopen == (old(writeopen) && isRead)
      ensures inUse == (old(inUse) && (readopen || writeopen)) && Contents() == old(Contents())
    {
      hide Around, Used, Wired, Owners, WakeStates;
      if isRead {
        readopen := false;
        WakeWriters(sched, links);
      } else {
        writeopen := false;
        WakeReaders(sched, links);
      }
      if !readopen && !writeopen {
        inUse := false;
      }
    }
  }

  lemma UsedZero(nread: nat, nwrite: nat)
    requires nread < WORD && nwrite < WORD
    ensures Used(nread, nwrite) == 0 <==> nread == nwrite
  {
  }

  /** The slot search of `pipe_new`: the first slot that is not in use. */
  method FindSlot(slots: seq<PipeView>) returns (slot: Option<nat>)
    ensures slot.None? <==> forall p | 0 <= p < |slots| :: slots[p].inUse
    ensures slot.Some? ==>
              slot.value < |slots| && !slots[slot.value].inUse && forall p | 0 <= p < slot.value :: slots[p].inUse
  {
    for i := 0 to |slots|
      invariant forall p | 0 <= p < i :: slots[p].inUse
    {
      if !slots[i].inUse { return Some(i); }
    }
    return None;
  }
}
