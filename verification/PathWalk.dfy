/** The segment iterators of `lps-linux/cwalk.c`, as loops over character positions.  A C string is a `string` here, and
    its terminating NUL is the position `|p|`. */
module PathWalk {
  import opened PathText

  datatype Span = Span(begin: nat, end: nat)

  /** The first separator at or after `i`, or the end. */
  function StopFrom(p: string, i: nat): (e: nat)
    requires i <= |p|
    ensures i <= e <= |p| && (e < |p| ==> p[e] == '/') && forall c | i <= c < e :: p[c] != '/'
    decreases |p| - i
  {
    if i == |p| || p[i] == '/' then i else StopFrom(p, i + 1)
  }

  /** Where the segments of `p` lie, from position `i` on. */
  function Spans(p: string, i: nat): seq<Span>
    requires i <= |p|
    decreases |p| - i
  {
    if i == |p| then []
    else if p[i] == '/' then Spans(p, i + 1)
    else [Span(i, StopFrom(p, i))] + Spans(p, StopFrom(p, i))
  }

  function Text(p: string, s: Span): string
    requires s.begin <= s.end <= |p|
  {
    p[s.begin..s.end]
  }

  ghost predicate Separators(p: string, a: int, b: int) {
    forall c | a <= c < b && 0 <= c < |p| :: p[c] == '/'
  }

  ghost predicate Plain(p: string, a: int, b: int) {
    forall c | a <= c < b && 0 <= c < |p| :: p[c] != '/'
  }

  /** Where the separators in front of the `k`-th span start. */
  ghost function GapStart(i: nat, ss: seq<Span>, k: nat): nat
    requires k <= |ss|
  {
    if k == 0 then i else ss[k - 1].end
  }

  /** A run without a separator that starts after nothing but separators. */
  ghost predicate ShapeAt(p: string, gap: nat, s: Span, first: bool) {
    && gap <= s.begin < s.end <= |p|
    && (!first ==> gap < s.begin)
    && Plain(p, s.begin, s.end)
    && Separators(p, gap, s.begin)
  }

  ghost predicate Shape(p: string, i: nat, ss: seq<Span>) {
    forall k {:trigger GapStart(i, ss, k)} | 0 <= k < |ss| ::
      i <= GapStart(i, ss, k) && ShapeAt(p, GapStart(i, ss, k), ss[k], k == 0)
  }

  lemma {:induction false} SpansShape(p: string, i: nat)
    requires i <= |p|
    ensures Shape(p, i, Spans(p, i))
    decreases |p| - i
  {
    var ss := Spans(p, i);
    if i == |p| {
    } else if p[i] == '/' {
      SpansShape(p, i + 1);
      forall k | 0 <= k < |ss| ensures i <= GapStart(i, ss, k) && ShapeAt(p, GapStart(i, ss, k), ss[k], k == 0) {
        assert ShapeAt(p, GapStart(i + 1, ss, k), ss[k], k == 0);
      }
    } else {
      var e := StopFrom(p, i);
      SpansShape(p, e);
      var rest := Spans(p, e);
      forall k | 0 < k < |ss| ensures i <= GapStart(i, ss, k) && ShapeAt(p, GapStart(i, ss, k), ss[k], false) {
        assert ss[k] == rest[k - 1] && GapStart(i, ss, k) == GapStart(e, rest, k - 1);
        assert ShapeAt(p, GapStart(e, rest, k - 1), rest[k - 1], k == 1);
      }
    }
  }

  /** What follows a span is what the text after it holds. */
  lemma {:induction false} SpansAfter(p: string, i: nat, k: nat)
    requires i <= |p| && k < |Spans(p, i)|
    ensures var e := Spans(p, i)[k].end; e <= |p| && (e < |p| ==> p[e] == '/')
    ensures Spans(p, i)[k + 1..] == Spans(p, Spans(p, i)[k].end)
    decreases |p| - i
  {
    if p[i] == '/' {
      SpansAfter(p, i + 1, k);
    } else {
      var e := StopFrom(p, i);
      if k > 0 {
        SpansAfter(p, e, k - 1);
        assert Spans(p, i)[k + 1..] == Spans(p, e)[k..];
      } else {
        assert Spans(p, i)[1..] == Spans(p, e);
      }
    }
  }

  /** The spans hold the segments. */
  lemma {:induction false} SpansSplit(p: string, i: nat)
    requires i <= |p|
    ensures |Spans(p, i)| == |Split(p[i..])|
    ensures forall k | 0 <= k < |Spans(p, i)| ::
              var s := Spans(p, i)[k]; s.begin <= s.end <= |p| && Text(p, s) == Split(p[i..])[k]
    decreases |p| - i
  {
    hide Text;
    if i == |p| {
    } else if p[i] == '/' {
      SpansSplit(p, i + 1);
      assert p[i..][1..] == p[i + 1..];
    } else {
      var e := StopFrom(p, i);
      SpansSplit(p, e);
      StopIsStopFrom(p, i);
      SpansSplitCons(p, i, e, Spans(p, e), Split(p[e..]));
      assert p[i..][..e - i] == p[i..e] && p[i..][e - i..] == p[e..];
    }
  }

  lemma SpansSplitCons(p: string, i: nat, e: nat, ss: seq<Span>, ts: seq<string>)
    requires i <= e <= |p| && |ss| == |ts|
    requires forall k | 0 <= k < |ss| :: ss[k].begin <= ss[k].end <= |p| && Text(p, ss[k]) == ts[k]
    ensures var ss', ts' := [Span(i, e)] + ss, [p[i..e]] + ts;
            && |ss'| == |ts'|
            && forall k | 0 <= k < |ss'| :: ss'[k].begin <= ss'[k].end <= |p| && Text(p, ss'[k]) == ts'[k]
  {
    hide Text;
    assert Text(p, Span(i, e)) == p[i..e] by { TextIs(p, i, e); }
  }

  lemma TextIs(p: string, i: nat, e: nat)
    requires i <= e <= |p|
    ensures Text(p, Span(i, e)) == p[i..e]
  {
  }

  lemma StopIsStopFrom(p: string, i: nat)
    requires i < |p|
    ensures Stop(p[i..]) == StopFrom(p, i) - i
  {
    var a, b := Stop(p[i..]), StopFrom(p, i) - i;
    if a < |p| - i { assert p[i..][a] == p[i + a]; }
    if b < |p| - i { assert p[i..][b] == p[i + b]; }
  }

  // ----- one path

  /** `struct cwk_segment`: where the segments of the path start, and the current segment. */
  datatype Segment = Segment(segments: nat, begin: nat, size: nat)

  /** The iterator stands on the `k`-th segment. */
  ghost predicate On(p: string, seg: Segment, k: int) {
    && seg.segments <= |p|
    && 0 <= k < |Spans(p, seg.segments)|
    && Spans(p, seg.segments)[k] == Span(seg.begin, seg.begin + seg.size)
  }

  predicate IsSeparator(p: string, c: int) {
    0 <= c < |p| && p[c] == '/'
  }

  /** `cwk_path_find_next_stop` */
  method FindNextStop(p: string, i: nat) returns (c: nat)
    requires i <= |p|
    ensures c == StopFrom(p, i)
  {
    c := i;
    while c < |p| && !IsSeparator(p, c)
      invariant i <= c <= |p| && StopFrom(p, c) == StopFrom(p, i)
    {
      c := c + 1;
    }
  }

  /** `cwk_path_find_previous_stop` */
  method FindPreviousStop(p: string, begin: nat, last: nat) returns (c: nat)
    requires begin <= last < |p| && p[last] != '/'
    ensures begin <= c <= last && (forall i | c <= i <= last :: p[i] != '/')
    ensures c == begin || p[c - 1] == '/'
  {
    c := last;
    while c > begin && !IsSeparator(p, c)
      invariant begin <= c <= last && forall i | c < i <= last :: p[i] != '/'
    {
      c := c - 1;
    }
    if IsSeparator(p, c) {
      c := c + 1;
    }
  }

  /** `cwk_path_get_first_segment_without_root` */
  method GetFirstSegmentWithoutRoot(p: string, segments: nat) returns (ok: bool, seg: Segment)
    requires segments <= |p|
    ensures ok <==> Spans(p, segments) != []
    ensures seg.segments == segments && (if ok then On(p, seg, 0) else seg.size == 0 && seg.begin == segments)
  {
    seg := Segment(segments, segments, 0);
    if segments == |p| { return false, seg; }
    var c := segments;
    while IsSeparator(p, c)
      invariant segments <= c < |p| && Spans(p, c) == Spans(p, segments)
      decreases |p| - c
    {
      c := c + 1;
      if c == |p| { return false, seg; }
    }
    var e := FindNextStop(p, c);
    return true, Segment(segments, c, e - c);
  }

  /** `cwk_path_get_next_segment`: the next segment, or the same one when there is none. */
  method GetNextSegment(p: string, seg: Segment, ghost k: nat) returns (ok: bool, next: Segment)
    requires On(p, seg, k)
    ensures next.segments == seg.segments
    ensures ok <==> k + 1 < |Spans(p, seg.segments)|
    ensures if ok then On(p, next, k + 1) else next == seg
  {
    SpansAfter(p, seg.segments, k);
    ghost var rest := Spans(p, seg.begin + seg.size);
    assert |rest| == |Spans(p, seg.segments)| - (k + 1);
    var c := seg.begin + seg.size;
    if c == |p| { return false, seg; }
    assert IsSeparator(p, c);
    while IsSeparator(p, c)
      invariant c <= |p| && Spans(p, c) == rest
      decreases |p| - c
    {
      c := c + 1;
    }
    if c == |p| { return false, seg; }
    var e := FindNextStop(p, c);
    assert rest[0] == Spans(p, seg.segments)[k + 1];
    return true, Segment(seg.segments, c, e - c);
  }

  /** `cwk_path_get_previous_segment` */
  method GetPreviousSegment(p: string, seg: Segment, ghost k: nat) returns (ok: bool, prev: Segment)
    requires On(p, seg, k)
    ensures prev.segments == seg.segments
    ensures ok <==> 0 < k
    ensures if ok then On(p, prev, k - 1) else prev == seg
  {
    ghost var ss := Spans(p, seg.segments);
    SpansShape(p, seg.segments);
    ghost var low := GapStart(seg.segments, ss, k);
    assert ShapeAt(p, low, ss[k], k == 0);
    assert 0 < k ==> ShapeAt(p, GapStart(seg.segments, ss, k - 1), ss[k - 1], k == 1);
    var c: int := seg.begin;
    if c <= seg.segments { return false, seg; }
    c := c - 1;
    while c >= seg.segments && IsSeparator(p, c)
      invariant low - 1 <= c < seg.begin
    {
      c := c - 1;
    }
    if c < seg.segments { return false, seg; }
    var b := FindPreviousStop(p, seg.segments, c);
    PreviousIsSpan(p, seg.segments, k, b, c);
    return true, Segment(seg.segments, b, c + 1 - b);
  }

  lemma PreviousIsSpan(p: string, i: nat, k: nat, b: nat, c: nat)
    requires i <= |p| && 0 < k < |Spans(p, i)| && i <= b <= c < |p|
    requires c == Spans(p, i)[k - 1].end - 1
    requires forall d | b <= d <= c :: p[d] != '/'
    requires b == i || p[b - 1] == '/'
    ensures Spans(p, i)[k - 1] == Span(b, c + 1)
  {
    SpansShape(p, i);
    var s := Spans(p, i)[k - 1];
    assert ShapeAt(p, GapStart(i, Spans(p, i), k - 1), s, k == 1);
    if s.begin > i {
      assert p[s.begin - 1] == '/';
    }
  }
}
