/** The intrusive queue of `lps-linux/queue.h`: list links inside the queued objects, closed into a ring through a dummy
    head.  It refines a FIFO sequence; the run queue and the wait queues of `PipeDriver` are such queues. */
module IntrusiveQueue {

  /** `struct List`, with the number of the object it is embedded in, which `LIST_CONTAINER` recovers. */
  class Link {
    const owner: nat
    var next: Link?
    var prev: Link?

    constructor (owner: nat)
      ensures this.owner == owner
    {
      this.owner, next, prev := owner, null, null;
    }
  }

  /** `struct Queue` */
  class Queue {
    const dummy: Link
    var tail: Link
    ghost var elems: seq<Link>

    ghost predicate Valid()
      reads this, dummy, elems
    {
      && dummy !in elems
      && (forall i, j | 0 <= i < j < |elems| :: elems[i] != elems[j])
      && tail == (if elems == [] then dummy else elems[|elems| - 1])
      && (elems != [] ==> dummy.next == elems[0] && dummy.prev == elems[|elems| - 1])
      && (forall i {:trigger elems[i].next} | 0 <= i < |elems| ::
            elems[i].next == if i + 1 < |elems| then elems[i + 1] else dummy)
      && (forall i {:trigger elems[i].prev} | 0 <= i < |elems| ::
            elems[i].prev == if 0 < i then elems[i - 1] else dummy)
    }

    /** `queue_init` */
    constructor ()
      ensures Valid() && elems == [] && fresh(dummy)
    {
      var d := new Link(0);
      d.next, d.prev := d, d;
      dummy, tail, elems := d, d, [];
    }

    /** `queue_enqueue` of an object that is on no queue. */
    method Enqueue(elem: Link)
      requires Valid() && elem != dummy && elem !in elems
      modifies this, dummy, elems, elem
      ensures Valid() && elems == old(elems) + [elem]
    {
      tail.next := elem;
      elem.prev := tail;
      elem.next := dummy;
      dummy.prev := elem;
      tail := elem;
      elems := elems + [elem];
    }

    /** `queue_is_empty` */
    method IsEmpty() returns (empty: bool)
      requires Valid()
      ensures empty <==> elems == []
    {
      empty := tail == dummy;
    }

    /** `queue_dequeue` */
    method Dequeue() returns (elem: Link?)
      requires Valid()
      modifies this, dummy, elems
      ensures Valid()
      ensures if old(elems) == [] then elem == null && elems == []
              else elem == old(elems)[0] && elems == old(elems)[1..]
    {
      var empty := IsEmpty();
      if empty { return null; }
      elem := dummy.next;
      dummy.next := elem.next;
      elem.next.prev := dummy;
      if tail == elem {
        tail := dummy;
      }
      elems := elems[1..];
    }
  }

  /** Two queues share no link. */
  ghost predicate Apart(q: Queue, r: Queue)
    reads q, r
  {
    && q.dummy != r.dummy && q.dummy !in r.elems && r.dummy !in q.elems
    && (forall i, j | 0 <= i < |q.elems| && 0 <= j < |r.elems| :: q.elems[i] != r.elems[j])
  }

  /** The objects on a queue, in order. */
  function Owners(elems: seq<Link>): (ts: seq<nat>)
    ensures |ts| == |elems| && forall i | 0 <= i < |ts| :: ts[i] == elems[i].owner
  {
    if elems == [] then [] else Owners(elems[..|elems| - 1]) + [elems[|elems| - 1].owner]
  }

  lemma OwnersConcat(a: seq<Link>, b: seq<Link>)
    ensures Owners(a + b) == Owners(a) + Owners(b)
  {
    assert forall i | 0 <= i < |a + b| :: (a + b)[i] == if i < |a| then a[i] else b[i - |a|];
  }

  /** A set that holds all links of a queue. */
  ghost predicate Within(q: Queue, links: set<Link>)
    reads q
  {
    q.dummy in links && forall i | 0 <= i < |q.elems| :: q.elems[i] in links
  }

  /** Three queues made of these links, with none in common. */
  ghost predicate Wired(q: Queue, r: Queue, s: Queue, links: set<Link>)
    reads q, q.dummy, q.elems, r, r.dummy, r.elems, s, s.dummy, s.elems
  {
    && q != r && q != s && r != s && Apart(q, r) && Apart(q, s) && Apart(r, s)
    && q.Valid() && r.Valid() && s.Valid() && Within(q, links) && Within(r, links) && Within(s, links)
  }

  /** An object on none of the three. */
  ghost predicate OffQueue(q: Queue, r: Queue, s: Queue, elem: Link)
    reads q, r, s
  {
    && elem != q.dummy && elem != r.dummy && elem != s.dummy
    && elem !in q.elems && elem !in r.elems && elem !in s.elems
  }

  /** `queue_dequeue` on one of three queues: the other two are not disturbed, and the object is then on none. */
  method TakeFrom(ghost q: Queue, r: Queue, ghost s: Queue, ghost links: set<Link>) returns (elem: Link?)
    requires Wired(q, r, s, links)
    modifies r, links
    ensures Wired(q, r, s, links) && q.elems == old(q.elems) && s.elems == old(s.elems)
    ensures if old(r.elems) == [] then elem == null && r.elems == []
            else elem == old(r.elems)[0] && r.elems == old(r.elems)[1..] && OffQueue(q, r, s, elem) && elem in links
  {
    elem := r.Dequeue();
  }

  /** `queue_enqueue` on one of three queues. */
  method PutOn(q: Queue, ghost r: Queue, ghost s: Queue, elem: Link, ghost links: set<Link>)
    requires Wired(q, r, s, links) && OffQueue(q, r, s, elem) && elem in links
    modifies q, links
    ensures Wired(q, r, s, links)
    ensures q.elems == old(q.elems) + [elem] && r.elems == old(r.elems) && s.elems == old(s.elems)
  {
    q.Enqueue(elem);
  }

  lemma WiredTurns(q: Queue, r: Queue, s: Queue, links: set<Link>)
    requires Wired(q, r, s, links)
    ensures Wired(r, q, s, links) && Wired(q, s, r, links)
  {
  }
}
