/** What reads and writes give their callers, along every run: what one stretch of a call does, and what a whole call
    has done when it returns, however often it blocked and whatever ran in between. */
module PipeCalls {
  import opened Basics
  import opened PipeSteps
  import opened PipeMachine
  import opened PipeInvariant
  import opened PipeRuns

  /** The byte stream, along every run: what was received, followed by what is buffered, is what was sent. */
  lemma StreamIsFifo(es: seq<Event>, p: nat)
    requires IsRun(Initial(), es) && p < |Final(Initial(), es).slots|
    ensures var slot := Final(Initial(), es).slots[p];
            slot.sent == slot.received + slot.view.buf && |slot.view.buf| <= 65536
  {
    hide IsRun, Final, Conserved, StatesAgree, OpsOk, OwnersAlive;
    InitialInv();
    RunKeepsInv(Initial(), es);
    var s := Final(Initial(), es);
    assert SlotOk(s.threads, p, s.slots[p]);
  }

  // ----- one stretch of a call

  /** A read blocks exactly on an empty pipe with its write end open.  Otherwise it returns as many bytes as it asked
      for and there are, so that it returns nothing only at the end of the stream; and the waiting writers can run
      again. */
  lemma ReadStretch(s: State)
    requires Enabled(s, Resume) && s.threads[s.running.value].op.Reading?
    ensures var r, t, op := Step(s, Resume), s.running.value, s.threads[s.running.value].op;
            var before, after, v := s.slots[op.pipe], r.slots[op.pipe], s.slots[op.pipe].view;
            && t in r.threads && |r.slots| == |s.slots|
            && (r.running != s.running <==> v.buf == [] && v.writeopen)
            && (r.running != s.running ==>
                  && r.threads[t] == Thread(Blocked, op) && after.received == before.received
                  && after.view.readq == v.readq + [t] && r.runq == s.runq)
            && (r.running == s.running ==>
                  && r.threads[t].op.User? && r.threads[t].op.last.Got?
                  && var got := r.threads[t].op.last.bytes;
                  && after.received == before.received + got && |got| == Min(op.n, |v.buf|)
                  && (0 < op.n ==> (got == [] <==> v.buf == [] && !v.writeopen))
                  && after.view.writeq == [] && r.runq == s.runq + v.writeq)
  {
    hide Wake;
  }

  /** A write fails exactly when bytes remain and the read end is closed, and blocks exactly when it is open and they do
      not fit; whatever fits is sent, the waiting readers can run again, and a count returned is that of all bytes. */
  lemma WriteStretch(s: State)
    requires Enabled(s, Resume) && s.threads[s.running.value].op.Writing?
    ensures var r, t, op := Step(s, Resume), s.running.value, s.threads[s.running.value].op;
            var before, after, v := s.slots[op.pipe], r.slots[op.pipe], s.slots[op.pipe].view;
            var left, space := |op.bytes| - op.written, 65536 - |v.buf|;
            && t in r.threads && |r.slots| == |s.slots|
            && (r.threads[t].op == User(Failed) <==> 0 < left && !v.readopen)
            && (r.running != s.running <==> v.readopen && space < left)
            && (r.running == s.running ==>
                  r.threads[t].op == User(if 0 < left && !v.readopen then Failed else Wrote(|op.bytes|)))
            && (r.running != s.running ==>
                  && r.threads[t] == Thread(Blocked, op.(written := op.written + space))
                  && after.view.writeq == v.writeq + [t])
            && (if 0 < left && !v.readopen then r.slots == s.slots && r.runq == s.runq
                else && after.sent == before.sent + op.bytes[op.written..op.written + Min(left, space)]
                     && after.view.readq == [] && r.runq == s.runq + v.readq)
  {
    hide Wake;
  }

  // ----- a whole call

  ghost predicate InCall(s: State, t: Tid) {
    t in s.threads && (s.threads[t].op.Reading? || s.threads[t].op.Writing?)
  }

  /** Thread `t` is in its call until the last of these steps at least. */
  ghost predicate DuringCall(s: State, es: seq<Event>, t: Tid)
    requires IsRun(s, es)
    decreases |es|
  {
    es == [] || (InCall(s, t) && DuringCall(Step(s, es[0]), es[1..], t))
  }

  /** How far a write of `bytes` has come, on a pipe that had been sent `sent0` before. */
  ghost predicate WriteProgress(s: State, t: Tid, p: nat, bytes: seq<byte>, sent0: seq<byte>) {
    && t in s.threads && p < |s.slots|
    && var sent := s.slots[p].sent;
       match s.threads[t].op
       case Writing(q, all, w) => q == p && all == bytes && w <= |bytes| && sent == sent0 + bytes[..w]
       case User(Wrote(n)) => n == |bytes| && sent == sent0 + bytes
       case User(Failed) => !s.slots[p].view.readopen && exists w :: 0 <= w < |bytes| && sent == sent0 + bytes[..w]
       case _ => false
  }

  /** Two threads never write to the same pipe, nor read from it. */
  lemma OneUser(s: State, t: Tid, u: Tid)
    requires Inv(s) && InCall(s, t) && InCall(s, u) && s.threads[t].op.pipe == s.threads[u].op.pipe
    requires s.threads[t].op.Reading? == s.threads[u].op.Reading?
    ensures t == u
  {
    assert OpOk(s, t) && OpOk(s, u);
  }

  lemma BytesGrow(sent0: seq<byte>, bytes: seq<byte>, w: nat, k: nat)
    requires w + k <= |bytes|
    ensures sent0 + bytes[..w] + bytes[w..w + k] == sent0 + bytes[..w + k]
    ensures bytes[..|bytes|] == bytes
  {
  }

  /** The thread's own step. */
  lemma OwnWriteStep(s: State, t: Tid, p: nat, bytes: seq<byte>, sent0: seq<byte>)
    requires Enabled(s, Resume) && s.running.value == t && s.threads[t].op.Writing?
    requires WriteProgress(s, t, p, bytes, sent0)
    ensures WriteProgress(Step(s, Resume), t, p, bytes, sent0)
  {
    hide Step;
    WriteStretch(s);
    var w, space := s.threads[t].op.written, PIPESZ - |s.slots[p].view.buf|;
    BytesGrow(sent0, bytes, w, Min(|bytes| - w, space));
    assert s.slots[p].sent == sent0 + bytes[..w];
  }

  /** Nobody else gets in between. */
  lemma OtherStep(s: State, e: Event, t: Tid)
    requires Inv(s) && Enabled(s, e) && InCall(s, t) && !(e.Resume? && s.running == Some(t))
    ensures var r, p := Step(s, e), s.threads[t].op.pipe;
            && t in r.threads && r.threads[t].op == s.threads[t].op && p < |s.slots| == |r.slots|
            && (s.threads[t].op.Writing? ==> r.slots[p].sent == s.slots[p].sent)
            && (s.threads[t].op.Reading? ==> r.slots[p].received == s.slots[p].received)
  {
    hide Conserved, OwnersAlive;
    assert OpOk(s, t);
    var p := s.threads[t].op.pipe;
    assert SlotOk(s.threads, p, s.slots[p]);
    if e.Resume? && InCall(s, s.running.value) && s.threads[s.running.value].op.pipe == p
       && s.threads[s.running.value].op.Reading? == s.threads[t].op.Reading? {
      OneUser(s, t, s.running.value);
    }
  }

  lemma {:induction false} WriteCall(s: State, es: seq<Event>, t: Tid, p: nat, bytes: seq<byte>, sent0: seq<byte>)
    requires Inv(s) && IsRun(s, es) && DuringCall(s, es, t) && WriteProgress(s, t, p, bytes, sent0)
    ensures WriteProgress(Final(s, es), t, p, bytes, sent0)
    decreases |es|
  {
    hide Inv, Enabled, Step;
    if es != [] {
      var e := es[0];
      if e.Resume? && s.running == Some(t) {
        ResumeEnabled(s);
        OwnWriteStep(s, t, p, bytes, sent0);
      } else {
        OtherStep(s, e, t);
      }
      StepKeepsInv(s, e);
      WriteCall(Step(s, e), es[1..], t, p, bytes, sent0);
    }
  }

  lemma ResumeEnabled(s: State)
    requires Enabled(s, Resume)
    ensures Runs(s)
  {
  }

  /** A whole write, along every run: as long as it lasts, and when it is over, the pipe has been sent what it had been
      sent before followed by bytes of this write alone, from the first on.  If it returned a count, it is the number of
      its bytes and all of them were sent; if it failed, the read end is closed and some were not. */
  lemma WholeWrite(pre: seq<Event>, p: nat, bytes: seq<byte>, post: seq<Event>)
    requires IsRun(Initial(), pre) && Enabled(Final(Initial(), pre), StartWrite(p, bytes))
    requires var s := Final(Initial(), pre);
             var s' := Step(s, StartWrite(p, bytes));
             IsRun(s', post) && DuringCall(s', post, s.running.value)
    ensures var s := Final(Initial(), pre);
            WriteProgress(Final(Step(s, StartWrite(p, bytes)), post), s.running.value, p, bytes, s.slots[p].sent)
  {
    hide Inv, IsRun, Final, DuringCall;
    InitialInv();
    RunKeepsInv(Initial(), pre);
    var s := Final(Initial(), pre);
    StepKeepsInv(s, StartWrite(p, bytes));
    assert bytes[..0] == [] && s.slots[p].sent + [] == s.slots[p].sent;
    WriteCall(Step(s, StartWrite(p, bytes)), post, s.running.value, p, bytes, s.slots[p].sent);
  }

  /** How far a read of up to `n` bytes has come, on a pipe from which `received0` had been received before. */
  ghost predicate ReadProgress(s: State, t: Tid, p: nat, n: nat, received0: seq<byte>) {
    && t in s.threads && p < |s.slots|
    && var slot := s.slots[p];
       match s.threads[t].op
       case Reading(q, m) => q == p && m == n && slot.received == received0
       case User(Got(got)) =>
         && |got| <= n && slot.received == received0 + got
         && (|got| < n ==> slot.view.buf == [])
         && (got == [] && 0 < n ==> !slot.view.writeopen)
       case _ => false
  }

  lemma OwnReadStep(s: State, t: Tid, p: nat, n: nat, received0: seq<byte>)
    requires Inv(s) && Enabled(s, Resume) && s.running.value == t && s.threads[t].op.Reading?
    requires ReadProgress(s, t, p, n, received0)
    ensures ReadProgress(Step(s, Resume), t, p, n, received0)
  {
    hide Step, Conserved, OpsOk, OwnersAlive, StatesAgree;
    ReadStretch(s);
    StepKeepsInv(s, Resume);
    assert SlotOk(s.threads, p, s.slots[p]);
    assert SlotOk(Step(s, Resume).threads, p, Step(s, Resume).slots[p]);
    ReadLeaves(s);
  }

  /** A read opens and closes nothing and adds nothing to the pipe. */
  lemma ReadLeaves(s: State)
    requires Enabled(s, Resume) && s.threads[s.running.value].op.Reading?
    ensures var p := s.threads[s.running.value].op.pipe;
            var before, after := s.slots[p], Step(s, Resume).slots[p];
            after.sent == before.sent && after.view.writeopen == before.view.writeopen
  {
  }

  lemma {:induction false} ReadCall(s: State, es: seq<Event>, t: Tid, p: nat, n: nat, received0: seq<byte>)
    requires Inv(s) && IsRun(s, es) && DuringCall(s, es, t) && ReadProgress(s, t, p, n, received0)
    ensures ReadProgress(Final(s, es), t, p, n, received0)
    decreases |es|
  {
    hide Inv, Enabled, Step;
    if es != [] {
      var e := es[0];
      if e.Resume? && s.running == Some(t) {
        ResumeEnabled(s);
        OwnReadStep(s, t, p, n, received0);
      } else {
        OtherStep(s, e, t);
      }
      StepKeepsInv(s, e);
      ReadCall(Step(s, e), es[1..], t, p, n, received0);
    }
  }

  /** A whole read, along every run: nothing is received on the pipe until it returns, and then exactly what it returns.
      It returns at most what was asked for, less only if that empties the pipe, and nothing only if moreover the write
      end is closed. */
  lemma WholeRead(pre: seq<Event>, p: nat, n: nat, post: seq<Event>)
    requires IsRun(Initial(), pre) && Enabled(Final(Initial(), pre), StartRead(p, n))
    requires var s := Final(Initial(), pre);
             var s' := Step(s, StartRead(p, n));
             IsRun(s', post) && DuringCall(s', post, s.running.value)
    ensures var s := Final(Initial(), pre);
            ReadProgress(Final(Step(s, StartRead(p, n)), post), s.running.value, p, n, s.slots[p].received)
  {
    hide Inv, IsRun, Final, DuringCall;
    InitialInv();
    RunKeepsInv(Initial(), pre);
    var s := Final(Initial(), pre);
    StepKeepsInv(s, StartRead(p, n));
    ReadCall(Step(s, StartRead(p, n)), post, s.running.value, p, n, s.slots[p].received);
  }
}
