/** The joined iterators of `lps-linux/cwalk.c`: several paths walked as if they were one. */
module PathWalkJoined {
  import opened PathText
  import opened PathWalk

  /** `struct cwk_segment_joined`; the index equals the number of paths once the walk has run out. */
  datatype JoinedSegment = JoinedSegment(segment: Segment, index: nat)

  /** How many segments the first `i` paths have. */
  function Before(paths: seq<string>, i: nat): nat
    requires i <= |paths|
  {
    if i == 0 then 0 else Before(paths, i - 1) + |Split(paths[i - 1])|
  }

  /** The walk of one path starts at its beginning, or behind the root. */
  predicate StartsAt(p: string, segments: nat) {
    segments == 0 || (segments == 1 && IsAbsolute(p))
  }

  lemma SpansFromStart(p: string, segments: nat)
    requires StartsAt(p, segments)
    ensures segments <= |p| && |Spans(p, segments)| == |Split(p)|
    ensures forall k | 0 <= k < |Split(p)| ::
              var s := Spans(p, segments)[k]; s.begin <= s.end <= |p| && Text(p, s) == Split(p)[k]
  {
    SpansSplit(p, 0);
    assert p[0..] == p;
    assert segments == 1 ==> Spans(p, 0) == Spans(p, 1);
  }

  /** The iterator stands on the `n`-th segment of all paths together. */
  ghost predicate OnJoined(paths: seq<string>, sj: JoinedSegment, n: int) {
    && sj.index < |paths|
    && StartsAt(paths[sj.index], sj.segment.segments)
    && On(paths[sj.index], sj.segment, n - Before(paths, sj.index))
  }

  /** The iterator has nothing: there was no segment, or the walk is over. */
  predicate Exhausted(paths: seq<string>, sj: JoinedSegment) {
    sj.index == |paths|
  }

  lemma {:induction false} SplitAllAt(paths: seq<string>, i: nat, k: nat)
    requires i < |paths| && k < |Split(paths[i])|
    ensures Before(paths, i) + k < |SplitAll(paths)|
    ensures SplitAll(paths)[Before(paths, i) + k] == Split(paths[i])[k]
    decreases |paths|
  {
    hide Split;
    BeforeTail(paths, i);
    if i > 0 {
      SplitAllAt(paths[1..], i - 1, k);
    }
  }

  lemma {:induction false} BeforeTail(paths: seq<string>, i: nat)
    requires i <= |paths|
    ensures i > 0 ==> Before(paths, i) == |Split(paths[0])| + Before(paths[1..], i - 1)
    decreases i
  {
    hide Split;
    if i > 1 {
      BeforeTail(paths, i - 1);
    }
  }

  lemma {:induction false} BeforeAll(paths: seq<string>)
    ensures Before(paths, |paths|) == |SplitAll(paths)|
  {
    hide Split;
    if paths != [] {
      BeforeTail(paths, |paths|);
      BeforeAll(paths[1..]);
    }
  }

  /** The segment under the iterator. */
  function TextOf(paths: seq<string>, sj: JoinedSegment): string
    requires sj.index < |paths| && sj.segment.begin + sj.segment.size <= |paths[sj.index]|
  {
    paths[sj.index][sj.segment.begin..sj.segment.begin + sj.segment.size]
  }

  lemma OnJoinedText(paths: seq<string>, sj: JoinedSegment, n: int)
    requires OnJoined(paths, sj, n)
    ensures 0 <= n < |SplitAll(paths)| && sj.index < |paths| && sj.segment.begin + sj.segment.size <= |paths[sj.index]|
    ensures TextOf(paths, sj) == SplitAll(paths)[n]
    ensures Before(paths, sj.index) <= n < Before(paths, sj.index + 1)
  {
    hide Split, Spans;
    var k := n - Before(paths, sj.index);
    SpansFromStart(paths[sj.index], sj.segment.segments);
    SplitAllAt(paths, sj.index, k);
  }

  /** `cwk_path_get_first_segment`: behind the root. */
  method GetFirstSegment(p: string) returns (ok: bool, seg: Segment)
    ensures StartsAt(p, seg.segments) && (ok <==> Split(p) != [])
    ensures if ok then On(p, seg, 0) else seg.size == 0
  {
    var length := if IsAbsolute(p) then 1 else 0;
    SpansFromStart(p, length);
    ok, seg := GetFirstSegmentWithoutRoot(p, length);
  }

  /** `cwk_path_get_last_segment` and its rootless twin, from wherever the first segment was found. */
  method RunToLast(p: string, first: Segment) returns (seg: Segment)
    requires On(p, first, 0)
    ensures seg.segments == first.segments && On(p, seg, |Spans(p, first.segments)| - 1)
  {
    seg := first;
    ghost var k := 0;
    var more := true;
    while more
      invariant 0 <= k && seg.segments == first.segments && On(p, seg, k)
      invariant !more ==> k == |Spans(p, first.segments)| - 1
      decreases |Spans(p, first.segments)| - k, more
    {
      more, seg := GetNextSegment(p, seg, k);
      if more { k := k + 1; }
    }
  }

  /** `cwk_path_get_first_segment_joined` */
  method GetFirstSegmentJoined(paths: seq<string>) returns (ok: bool, sj: JoinedSegment)
    requires paths != []
    ensures ok <==> SplitAll(paths) != []
    ensures if ok then OnJoined(paths, sj, 0) else Exhausted(paths, sj) && sj.segment.size == 0
  {
    hide Split, On;
    ok := false;
    var i, seg := 0, Segment(0, 0, 0);
    while i < |paths|
      invariant i <= |paths| && Before(paths, i) == 0 && !ok && seg.size == 0
    {
      ok, seg := GetFirstSegment(paths[i]);
      if ok {
        sj := JoinedSegment(seg, i);
        OnJoinedText(paths, sj, 0);
        return;
      }
      i := i + 1;
    }
    BeforeAll(paths);
    sj := JoinedSegment(seg, i);
  }

  /** `cwk_path_get_next_segment_joined` */
  method GetNextSegmentJoined(paths: seq<string>, sj: JoinedSegment, ghost n: nat)
    returns (ok: bool, next: JoinedSegment)
    requires Exhausted(paths, sj) || OnJoined(paths, sj, n)
    ensures ok <==> !Exhausted(paths, sj) && n + 1 < |SplitAll(paths)|
    ensures if ok then OnJoined(paths, next, n + 1) else Exhausted(paths, next)
  {
    hide Split, On;
    if sj.index == |paths| { return false, sj; }
    SpansFromStart(paths[sj.index], sj.segment.segments);
    OnJoinedText(paths, sj, n);
    var seg;
    ok, seg := GetNextSegment(paths[sj.index], sj.segment, n - Before(paths, sj.index));
    if ok {
      next := JoinedSegment(seg, sj.index);
      OnJoinedText(paths, next, n + 1);
      return;
    }
    var i := sj.index + 1;
    while i < |paths|
      invariant sj.index < i <= |paths| && Before(paths, i) == n + 1
    {
      SpansFromStart(paths[i], 0);
      ok, seg := GetFirstSegmentWithoutRoot(paths[i], 0);
      if ok {
        next := JoinedSegment(seg, i);
        OnJoinedText(paths, next, n + 1);
        return;
      }
      i := i + 1;
    }
    BeforeAll(paths);
    return false, JoinedSegment(seg, i);
  }

  /** `cwk_path_get_previous_segment_joined` */
  method GetPreviousSegmentJoined(paths: seq<string>, sj: JoinedSegment, ghost n: nat)
    returns (ok: bool, prev: JoinedSegment)
    requires OnJoined(paths, sj, n)
    ensures ok <==> 0 < n
    ensures ok ==> OnJoined(paths, prev, n - 1)
  {
    hide Split, On;
    OnJoinedText(paths, sj, n);
    var seg;
    ok, seg := GetPreviousSegment(paths[sj.index], sj.segment, n - Before(paths, sj.index));
    if ok {
      return true, JoinedSegment(seg, sj.index);
    }
    var i := sj.index;
    while i > 0
      invariant 0 <= i <= sj.index && Before(paths, i) == n
    {
      i := i - 1;
      if i == 0 {
        ok, seg := GetFirstSegment(paths[i]);
      } else {
        SpansFromStart(paths[i], 0);
        ok, seg := GetFirstSegmentWithoutRoot(paths[i], 0);
      }
      if ok {
        SpansFromStart(paths[i], seg.segments);
        seg := RunToLast(paths[i], seg);
        return true, JoinedSegment(seg, i);
      }
    }
    return false, JoinedSegment(seg, i);
  }
}
