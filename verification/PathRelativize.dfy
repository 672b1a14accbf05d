/** `cwk_path_get_relative` of `lps-linux/cwalk.c`: two walks side by side until the visible segments diverge, then the
    way up and the way down. */
module PathRelativize {
  import opened PathMeaning
  import opened PathCounters
  import opened PathText
  import opened PathRelative
  import opened PathWalk
  import opened PathWalkJoined
  import opened PathNormalize

  // ----- how far a walk has come, in visible segments

  /** The number of visible segments before position `n`. */
  ghost function Seen(segs: seq<string>, n: nat, absolute: bool): nat
    requires n <= |segs|
  {
    |Survivors(segs, n, absolute)|
  }

  lemma SeenFacts(segs: seq<string>, n: nat, absolute: bool)
    requires n <= |segs|
    ensures Seen(segs, 0, absolute) == 0 && Seen(segs, |segs|, absolute) == |Norm(segs, absolute)|
    ensures n < |segs| && n !in Stack(segs, |segs|, absolute) ==> Seen(segs, n + 1, absolute) == Seen(segs, n, absolute)
    ensures n < |segs| && n in Stack(segs, |segs|, absolute) ==>
              && Seen(segs, n + 1, absolute) == Seen(segs, n, absolute) + 1
              && Seen(segs, n, absolute) < |Norm(segs, absolute)|
              && Norm(segs, absolute)[Seen(segs, n, absolute)] == segs[n]
    ensures Seen(segs, n, absolute) <= |Norm(segs, absolute)|
  {
    hide Stack, Survivors, Norm;
    SurvivorsBegin(segs, absolute);
    SurvivorsAreNorm(segs, absolute);
    SurvivorsPrefix(segs, n, absolute);
    if n < |segs| {
      SurvivorsStep(segs, n, absolute);
      SurvivorsPrefix(segs, n + 1, absolute);
    }
  }

  /** What has survived so far is the beginning of the normal form. */
  lemma {:induction false} SurvivorsPrefix(segs: seq<string>, n: nat, absolute: bool)
    requires n <= |segs|
    ensures Survivors(segs, n, absolute) <= Norm(segs, absolute)
    decreases |segs| - n
  {
    hide Stack, Survivors, Norm;
    if n == |segs| {
      SurvivorsAreNorm(segs, absolute);
    } else {
      SurvivorsPrefix(segs, n + 1, absolute);
      SurvivorsStep(segs, n, absolute);
    }
  }

  /** A walk stands on a segment, or is over. */
  ghost predicate Standing(paths: seq<string>, sj: JoinedSegment, available: bool, n: nat) {
    if available then n < |SplitAll(paths)| && OnJoined(paths, sj, n) else n == |SplitAll(paths)|
  }

  /** Before the first look, a walk without any segment is not yet known to be over. */
  ghost predicate Starting(paths: seq<string>, sj: JoinedSegment, n: nat) {
    if SplitAll(paths) == [] then Exhausted(paths, sj) && sj.segment.size == 0 && n == 0
    else n < |SplitAll(paths)| && OnJoined(paths, sj, n)
  }

  /** `cwk_path_segment_joined_skip_invisible` */
  method SkipInvisible(paths: seq<string>, start: JoinedSegment, absolute: bool, ghost n0: nat)
    returns (ok: bool, sj: JoinedSegment, ghost n: nat)
    requires Starting(paths, start, n0)
    ensures Standing(paths, sj, ok, n) && Seen(SplitAll(paths), n, absolute) == Seen(SplitAll(paths), n0, absolute)
    ensures ok ==> n in Stack(SplitAll(paths), |SplitAll(paths)|, absolute)
  {
    hide OnJoined, SplitAll, Stack, Seen;
    sj, n := start, n0;
    ghost var segs := SplitAll(paths);
    var removed := WillBeRemoved(paths, sj, absolute, n);
    if OnJoined(paths, sj, n) { NotExhausted(paths, sj, n); }
    while removed
      invariant Starting(paths, sj, n) && Seen(segs, n, absolute) == Seen(segs, n0, absolute)
      invariant segs != [] ==> !Exhausted(paths, sj)
      invariant if Exhausted(paths, sj) then removed else removed == (n !in Stack(segs, |segs|, absolute))
      decreases |segs| - n, removed
    {
      SeenFacts(segs, n, absolute);
      var more;
      more, sj := GetNextSegmentJoined(paths, sj, n);
      if !more {
        n := |segs|;
        return false, sj, n;
      }
      n := n + 1;
      NotExhausted(paths, sj, n);
      removed := WillBeRemoved(paths, sj, absolute, n);
    }
    ok := true;
  }

  // ----- until the walks diverge

  lemma CommonIs(xs: seq<string>, ys: seq<string>, c: nat)
    requires c <= |xs| && c <= |ys| && forall i | 0 <= i < c :: xs[i] == ys[i]
    requires c == |xs| || c == |ys| || xs[c] != ys[c]
    ensures Common(xs, ys) == c
  {
    hide Common;
  }

  /** `cwk_path_skip_segments_until_diverge`: both walks end up past their common visible prefix and nothing more. */
  method SkipUntilDiverge(base: seq<string>, other: seq<string>, b0: JoinedSegment, o0: JoinedSegment, absolute: bool)
    returns (baseAvailable: bool, otherAvailable: bool, bsj: JoinedSegment, osj: JoinedSegment,
             ghost nb: nat, ghost no: nat)
    requires Starting(base, b0, 0) && Starting(other, o0, 0)
    ensures Standing(base, bsj, baseAvailable, nb) && Standing(other, osj, otherAvailable, no)
    ensures var c := Common(Norm(SplitAll(base), absolute), Norm(SplitAll(other), absolute));
            Seen(SplitAll(base), nb, absolute) == c == Seen(SplitAll(other), no, absolute)
  {
    hide OnJoined, SplitAll, Stack, Seen, Norm, Common, TextOf;
    bsj, osj, nb, no := b0, o0, 0, 0;
    ghost var bs, os := SplitAll(base), SplitAll(other);
    ghost var bn, on := Norm(bs, absolute), Norm(os, absolute);
    SeenFacts(bs, 0, absolute);
    SeenFacts(os, 0, absolute);
    ghost var c := 0;
    while true
      invariant Starting(base, bsj, nb) && Starting(other, osj, no)
      invariant 0 <= c <= |bn| && c <= |on| && forall i | 0 <= i < c :: bn[i] == on[i]
      invariant Seen(bs, nb, absolute) == c == Seen(os, no, absolute)
      decreases |bn| - c
    {
      baseAvailable, bsj, nb := SkipInvisible(base, bsj, absolute, nb);
      otherAvailable, osj, no := SkipInvisible(other, osj, absolute, no);
      SeenFacts(bs, nb, absolute);
      SeenFacts(os, no, absolute);
      if !baseAvailable || !otherAvailable { break; }
      OnJoinedText(base, bsj, nb);
      OnJoinedText(other, osj, no);
      if TextOf(base, bsj) != TextOf(other, osj) { break; }
      NotExhausted(base, bsj, nb);
      NotExhausted(other, osj, no);
      baseAvailable, bsj := GetNextSegmentJoined(base, bsj, nb);
      otherAvailable, osj := GetNextSegmentJoined(other, osj, no);
      nb, no, c := nb + 1, no + 1, c + 1;
      if !baseAvailable || !otherAvailable { break; }
    }
    SeenFacts(bs, |bs|, absolute);
    SeenFacts(os, |os|, absolute);
    CommonIs(bn, on, c);
  }

  // ----- output

  /** Every segment followed by a separator. */
  function Trailing(ts: seq<string>): string {
    if ts == [] then "" else Trailing(ts[..|ts| - 1]) + ts[|ts| - 1] + "/"
  }

  lemma {:induction false} TrailingIsJoined(ts: seq<string>)
    requires ts != []
    ensures Trailing(ts) == Joined(ts) + "/"
  {
    var init, s := ts[..|ts| - 1], ts[|ts| - 1];
    assert ts == init + [s];
    JoinedSnoc(init, s);
    if init == [] {
      assert Trailing(init) == "";
    } else {
      TrailingIsJoined(init);
    }
  }

  lemma TrailingSnoc(ts: seq<string>, s: string)
    ensures Trailing(ts + [s]) == Trailing(ts) + s + "/"
  {
    assert (ts + [s])[..|ts|] == ts;
  }

  /** A segment and a separator. */
  method OutputWithSeparator(buffer: array<char>, size: nat, position: nat, s: string, ghost ts: seq<string>)
    returns (pos: nat)
    requires size <= buffer.Length && position == |Trailing(ts)| && Holds(buffer, size, Trailing(ts))
    modifies buffer
    ensures pos == |Trailing(ts + [s])| && Holds(buffer, size, Trailing(ts + [s])) && OnlyWithin(buffer, size)
  {
    hide Trailing;
    TrailingSnoc(ts, s);
    var length := OutputSized(buffer, size, position, s, Trailing(ts));
    pos := position + length;
    var separator := OutputSized(buffer, size, pos, "/", Trailing(ts) + s);
    pos := pos + separator;
  }

  /** The loop that climbs out of what is left of the base. */
  method OutputUps(paths: seq<string>, start: JoinedSegment, absolute: bool, buffer: array<char>, size: nat,
                   ghost n0: nat)
    returns (pos: nat, hasOutput: bool)
    requires Standing(paths, start, true, n0) && size <= buffer.Length
    modifies buffer
    ensures Seen(SplitAll(paths), n0, absolute) <= |Norm(SplitAll(paths), absolute)|
    ensures var ups := Ups(|Norm(SplitAll(paths), absolute)| - Seen(SplitAll(paths), n0, absolute));
            && pos == |Trailing(ups)| && Holds(buffer, size, Trailing(ups)) && OnlyWithin(buffer, size)
            && hasOutput == (ups != [])
  {
    hide OnJoined, SplitAll, Stack, Seen, Norm, Trailing, Holds;
    ghost var segs, c := SplitAll(paths), Seen(SplitAll(paths), n0, absolute);
    var sj, more := start, true;
    ghost var n := n0;
    SeenFacts(segs, n, absolute);
    UpsFacts();
    HoldsNothing(buffer, size);
    pos, hasOutput := 0, false;
    while more
      invariant Standing(paths, sj, more, n) && c <= Seen(segs, n, absolute) <= |Norm(segs, absolute)|
      invariant var ups := Ups(Seen(segs, n, absolute) - c);
                pos == |Trailing(ups)| && Holds(buffer, size, Trailing(ups)) && hasOutput == (ups != [])
      invariant OnlyWithin(buffer, size)
      invariant !more ==> Seen(segs, n, absolute) == |Norm(segs, absolute)|
      decreases |Norm(segs, absolute)| - Seen(segs, n, absolute), more
    {
      more, sj, n := SkipInvisible(paths, sj, absolute, n);
      SeenFacts(segs, n, absolute);
      if !more { break; }
      pos := OutputWithSeparator(buffer, size, pos, "..", Ups(Seen(segs, n, absolute) - c));
      assert Ups(Seen(segs, n, absolute) - c) + [".."] == Ups(Seen(segs, n, absolute) + 1 - c);
      hasOutput := true;
      NotExhausted(paths, sj, n);
      more, sj := GetNextSegmentJoined(paths, sj, n);
      n := n + 1;
      SeenFacts(segs, n, absolute);
    }
  }

  lemma UpsFacts()
    ensures Ups(0) == [] && Trailing([]) == ""
  {
  }

  lemma HoldsNothing(buffer: array<char>, size: nat)
    requires size <= buffer.Length
    ensures Holds(buffer, size, "")
  {
  }

  /** The loop that walks down into what is left of the target. */
  method OutputDowns(paths: seq<string>, start: JoinedSegment, absolute: bool, buffer: array<char>, size: nat,
                     position: nat, ghost n0: nat, ghost ts: seq<string>)
    returns (pos: nat, hasOutput: bool)
    requires Standing(paths, start, true, n0) && size <= buffer.Length
    requires position == |Trailing(ts)| && Holds(buffer, size, Trailing(ts))
    modifies buffer
    ensures Seen(SplitAll(paths), n0, absolute) <= |Norm(SplitAll(paths), absolute)|
    ensures var downs := Norm(SplitAll(paths), absolute)[Seen(SplitAll(paths), n0, absolute)..];
            && pos == |Trailing(ts + downs)| && Holds(buffer, size, Trailing(ts + downs)) && OnlyWithin(buffer, size)
            && hasOutput == (downs != [])
  {
    hide OnJoined, SplitAll, Stack, Seen, Norm, Trailing, Holds, TextOf;
    ghost var segs, c := SplitAll(paths), Seen(SplitAll(paths), n0, absolute);
    ghost var on := Norm(segs, absolute);
    var sj, more := start, true;
    ghost var n := n0;
    SeenFacts(segs, n, absolute);
    assert ts + on[c..c] == ts;
    pos, hasOutput := position, false;
    while more
      invariant Standing(paths, sj, more, n) && c <= Seen(segs, n, absolute) <= |on|
      invariant var out := Trailing(ts + on[c..Seen(segs, n, absolute)]); pos == |out| && Holds(buffer, size, out)
      invariant hasOutput == (Seen(segs, n, absolute) > c)
      invariant OnlyWithin(buffer, size)
      invariant !more ==> Seen(segs, n, absolute) == |on|
      decreases |on| - Seen(segs, n, absolute), more
    {
      more, sj, n := SkipInvisible(paths, sj, absolute, n);
      SeenFacts(segs, n, absolute);
      if !more { break; }
      OnJoinedText(paths, sj, n);
      ghost var d := Seen(segs, n, absolute);
      pos := OutputWithSeparator(buffer, size, pos, TextOf(paths, sj), ts + on[c..d]);
      assert ts + on[c..d] + [on[d]] == ts + on[c..d + 1];
      hasOutput := true;
      NotExhausted(paths, sj, n);
      more, sj := GetNextSegmentJoined(paths, sj, n);
      n := n + 1;
      SeenFacts(segs, n, absolute);
    }
    assert on[c..|on|] == on[c..];
  }

  /** The walks and both output loops of `cwk_path_get_relative`, for paths with the same root. */
  method OutputRelative(base: string, path: string, absolute: bool, buffer: array<char>, size: nat)
    returns (pos: nat, hasOutput: bool, ghost out: seq<string>)
    requires size <= buffer.Length
    modifies buffer
    ensures out == RelativeSegments(Norm(Split(base), absolute), Norm(Split(path), absolute))
    ensures pos == |Trailing(out)| && Holds(buffer, size, Trailing(out)) && OnlyWithin(buffer, size)
    ensures hasOutput == (out != [])
  {
    hide OnJoined, SplitAll, Split, Stack, Seen, Norm, Trailing, Common, Holds;
    HoldsNothing(buffer, size);
    SplitAllOne(base);
    SplitAllOne(path);
    var _, b0 := GetFirstSegmentJoined([base]);
    var _, o0 := GetFirstSegmentJoined([path]);
    var baseAvailable, otherAvailable, bsj, osj, nb, no := SkipUntilDiverge([base], [path], b0, o0, absolute);
    ghost var bn, on := Norm(Split(base), absolute), Norm(Split(path), absolute);
    ghost var c := Common(bn, on);
    SeenFacts(Split(base), nb, absolute);
    SeenFacts(Split(path), no, absolute);
    var up, down := false, false;
    pos := 0;
    UpsFacts();
    if baseAvailable {
      pos, up := OutputUps([base], bsj, absolute, buffer, size, nb);
    }
    ghost var ups := Ups(|bn| - c);
    if otherAvailable {
      pos, down := OutputDowns([path], osj, absolute, buffer, size, pos, no, ups);
    } else {
      assert ups + on[c..] == ups;
    }
    out := ups + on[c..];
    hasOutput := up || down;
  }

  /** `cwk_path_get_relative` */
  method GetRelative(base: string, path: string, buffer: array<char>, size: nat) returns (pos: nat)
    requires size <= buffer.Length
    modifies buffer
    ensures pos == |RelativeText(base, path)| && Terminated(buffer, size, RelativeText(base, path))
    ensures pos == 0 <==> (base != "" && base[0] == '/') != (path != "" && path[0] == '/')
    ensures OnlyWithin(buffer, size)
  {
    hide Split, Norm, Trailing, RelativeSegments, Joined, Holds;
    RelativeEmptyIff(base, path);
    if IsAbsolute(base) != IsAbsolute(path) {
      pos := 0;
      HoldsNothing(buffer, size);
      TerminateOutput(buffer, size, pos, "");
      return;
    }
    var hasOutput;
    ghost var out;
    pos, hasOutput, out := OutputRelative(base, path, IsAbsolute(base), buffer, size);
    FinishRelative(pos, out);
    if hasOutput {
      pos := pos - 1;
      TerminateOutput(buffer, size, pos, Trailing(out));
    } else {
      var length := OutputSized(buffer, size, pos, ".", "");
      pos := pos + length;
      TerminateOutput(buffer, size, pos, ".");
    }
  }

  /** Dropping the last separator leaves the joined text. */
  lemma FinishRelative(pos: nat, out: seq<string>)
    requires pos == |Trailing(out)|
    ensures out != [] ==> 0 < pos && Trailing(out)[..pos - 1] == Joined(out)
    ensures out == [] ==> Trailing(out) == "" && "" + "." == "." && "."[..1] == "."
  {
    if out != [] {
      TrailingIsJoined(out);
    }
  }
}
