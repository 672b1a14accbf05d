/** What one uninterrupted stretch of `lps-linux/sys/sys_pipe.c` does to a pipe.  Runtime code runs to the next context
    switch without interleaving, so a read or a write is a series of such stretches, each ending in a return or in a
    block on one of the pipe's wait queues. */
module PipeSteps {
  import opened Basics

  type Tid = nat
  type byte = x: int | 0 <= x < 256

  const PIPESZ: nat := 65536

  /** `struct Pipe`, with the ring buffer and its counters as the bytes they hold. */
  datatype PipeView = PipeView(
    inUse: bool, readopen: bool, writeopen: bool,
    buf: seq<byte>, readq: seq<Tid>, writeq: seq<Tid>)

  datatype Outcome<T> = Blocks(pending: T) | Returns(result: T) | Fails

  /** `pipe_read` from its loop head: block on an empty pipe whose write end is open; otherwise take what is there and
      wake the writers. */
  function ReadStep(v: PipeView, t: Tid, n: nat): (PipeView, seq<Tid>, Outcome<seq<byte>>) {
    if v.buf == [] && v.writeopen then
      (v.(readq := v.readq + [t]), [], Blocks([]))
    else
      var k := Min(n, |v.buf|);
      (v.(buf := v.buf[k..], writeq := []), v.writeq, Returns(v.buf[..k]))
  }

  /** `pipe_write` from its loop head with `written` bytes done: fail if the read end is closed and there is more to
      write; otherwise fill the pipe, wake the readers, and block if there still is more. */
  function WriteStep(v: PipeView, t: Tid, bytes: seq<byte>, written: nat): (PipeView, seq<Tid>, Outcome<nat>)
    requires written <= |bytes| && |v.buf| <= PIPESZ
  {
    if written < |bytes| && !v.readopen then
      (v, [], Fails)
    else
      var k := Min(|bytes| - written, PIPESZ - |v.buf|);
      var v' := v.(buf := v.buf + bytes[written..written + k], readq := []);
      if written + k < |bytes| then
        (v'.(writeq := v.writeq + [t]), v.readq, Blocks(written + k))
      else
        (v', v.readq, Returns(written + k))
  }

  /** `pipe_close`: the other side wakes up, and the slot is free once both ends are closed. */
  function CloseStep(v: PipeView, isRead: bool): (PipeView, seq<Tid>) {
    if isRead then
      (v.(readopen := false, writeq := [], inUse := v.inUse && v.writeopen), v.writeq)
    else
      (v.(writeopen := false, readq := [], inUse := v.inUse && v.readopen), v.readq)
  }

  /** `pipe_new` on a free slot. */
  function FreshPipe(): PipeView { PipeView(true, true, true, [], [], []) }
}
