/** The normaliser of `lps-linux/cwalk.c`: the removal tests over the joined iterators, the output functions that
    respect the buffer size, and `cwk_path_join_and_normalize_multiple`. */
module PathNormalize {
  import opened PathMeaning
  import opened PathCounters
  import opened PathText
  import opened PathWalk
  import opened PathWalkJoined

  // ----- which segments survive

  /** `strncmp` of a segment with a literal, over the size of the segment.  A segment holds no NUL, so it differs from
      the end of the literal. */
  method Strncmp(s: string, literal: string) returns (equal: bool)
    ensures equal <==> s <= literal
  {
    for i := 0 to |s|
      invariant i <= |literal| && s[..i] == literal[..i]
    {
      if i == |literal| || s[i] != literal[i] { return false; }
    }
    return true;
  }

  /** `cwk_path_get_segment_type`; an iterator without a segment has size zero, which compares equal to ".". */
  method SegmentType(s: string) returns (kind: Kind)
    ensures kind.Current? <==> s == "" || s == "."
    ensures kind.Back? <==> s == ".."
    ensures kind == KindOf(s)
  {
    var same := Strncmp(s, ".");
    if same { return Current; }
    same := Strncmp(s, "..");
    if same { return Back; }
    return Normal;
  }

  /** `cwk_path_segment_back_will_be_removed` */
  method BackWillBeRemoved(paths: seq<string>, start: JoinedSegment, ghost n: nat) returns (removed: bool)
    requires OnJoined(paths, start, n)
    ensures n < |SplitAll(paths)| && (removed <==> BackwardRemoves(SplitAll(paths), n, 0))
  {
    hide OnJoined, SplitAll, KindOf, TextOf;
    OnJoinedText(paths, start, n);
    var sj, counter, more := start, 0, true;
    ghost var m := n;
    while true
      invariant 0 <= m < |SplitAll(paths)| && OnJoined(paths, sj, m)
      invariant BackwardRemoves(SplitAll(paths), m, counter) == BackwardRemoves(SplitAll(paths), n, 0)
      decreases m
    {
      more, sj := GetPreviousSegmentJoined(paths, sj, m);
      if !more { return false; }
      m := m - 1;
      OnJoinedText(paths, sj, m);
      var kind := SegmentType(TextOf(paths, sj));
      match kind
      case Normal =>
        counter := counter + 1;
        if counter > 0 { return true; }
      case Back =>
        counter := counter - 1;
      case Current =>
    }
  }

  /** `cwk_path_segment_normal_will_be_removed` */
  method NormalWillBeRemoved(paths: seq<string>, start: JoinedSegment, ghost n: nat) returns (removed: bool)
    requires OnJoined(paths, start, n)
    ensures removed <==> ForwardRemoves(SplitAll(paths), n + 1, 0)
  {
    hide OnJoined, SplitAll, KindOf, TextOf;
    OnJoinedText(paths, start, n);
    var sj, counter, more := start, 0, true;
    ghost var m := n;
    while true
      invariant 0 <= m < |SplitAll(paths)| && OnJoined(paths, sj, m)
      invariant ForwardRemoves(SplitAll(paths), m + 1, counter) == ForwardRemoves(SplitAll(paths), n + 1, 0)
      decreases |SplitAll(paths)| - m
    {
      NotExhausted(paths, sj, m);
      more, sj := GetNextSegmentJoined(paths, sj, m);
      if !more { return false; }
      m := m + 1;
      OnJoinedText(paths, sj, m);
      var kind := SegmentType(TextOf(paths, sj));
      match kind
      case Normal =>
        counter := counter + 1;
      case Back =>
        counter := counter - 1;
        if counter < 0 { return true; }
      case Current =>
    }
  }

  lemma NotExhausted(paths: seq<string>, sj: JoinedSegment, n: int)
    requires OnJoined(paths, sj, n)
    ensures !Exhausted(paths, sj)
  {
  }

  /** `cwk_path_segment_will_be_removed`: a segment goes exactly when its position is not on the final stack. */
  method WillBeRemoved(paths: seq<string>, sj: JoinedSegment, absolute: bool, ghost n: nat) returns (removed: bool)
    requires OnJoined(paths, sj, n) || (Exhausted(paths, sj) && sj.segment.size == 0)
    ensures Exhausted(paths, sj) ==> removed
    ensures !Exhausted(paths, sj) ==>
              n < |SplitAll(paths)| && (removed <==> n !in Stack(SplitAll(paths), |SplitAll(paths)|, absolute))
  {
    hide OnJoined, SplitAll, KindOf, Stack, ForwardRemoves, BackwardRemoves;
    if OnJoined(paths, sj, n) {
      NotExhausted(paths, sj, n);
      OnJoinedText(paths, sj, n);
      RemovedIffNotOnStack(SplitAll(paths), n, absolute);
      EmptyIsCurrent();
    }
    var kind := SegmentType(if sj.segment.size == 0 then "" else TextOf(paths, sj));
    if kind.Current? || (kind.Back? && absolute) {
      removed := true;
    } else if kind.Back? {
      removed := BackWillBeRemoved(paths, sj, n);
    } else {
      removed := NormalWillBeRemoved(paths, sj, n);
    }
  }

  lemma EmptyIsCurrent()
    ensures KindOf("").Current?
  {
  }

  // ----- output

  /** The buffer holds as much of `out` as fits. */
  ghost predicate Holds(buffer: array<char>, size: nat, out: string)
    requires size <= buffer.Length
    reads buffer
  {
    forall i | 0 <= i < size && i < |out| :: buffer[i] == out[i]
  }

  /** Nothing at or past the buffer size changes. */
  twostate predicate OnlyWithin(buffer: array<char>, size: nat)
    requires size <= buffer.Length
    reads buffer
  {
    forall i | size <= i < buffer.Length :: buffer[i] == old(buffer[i])
  }

  /** `cwk_path_output_sized`, appending to what is there already. */
  method OutputSized(buffer: array<char>, size: nat, position: nat, str: string, ghost out: string)
    returns (length: nat)
    requires size <= buffer.Length && position == |out| && Holds(buffer, size, out)
    modifies buffer
    ensures length == |str| && Holds(buffer, size, out + str) && OnlyWithin(buffer, size)
  {
    var amount :=
      if size > position + |str| then |str|
      else if size > position then size - position
      else 0;
    forall i | 0 <= i < amount {
      buffer[position + i] := str[i];
    }
    length := |str|;
  }

  /** `cwk_path_terminate_output`: the longest prefix that fits in front of a NUL, and the NUL. */
  method TerminateOutput(buffer: array<char>, size: nat, pos: nat, ghost out: string)
    requires size <= buffer.Length && pos <= |out| && Holds(buffer, size, out)
    modifies buffer
    ensures Terminated(buffer, size, out[..pos]) && OnlyWithin(buffer, size)
  {
    if size > 0 {
      if pos >= size {
        buffer[size - 1] := '\0';
      } else {
        buffer[pos] := '\0';
      }
    }
  }

  /** The buffer is the C string made of the longest prefix of `full` that leaves room for the NUL. */
  ghost predicate Terminated(buffer: array<char>, size: nat, full: string)
    requires size <= buffer.Length
    reads buffer
  {
    0 < size ==>
      var fits := if |full| < size then |full| else size - 1;
      buffer[..fits] == full[..fits] && buffer[fits] == '\0'
  }

  // ----- normalising

  lemma {:induction false} JoinedSnoc(ts: seq<string>, s: string)
    ensures Joined(ts + [s]) == Joined(ts) + (if ts == [] then "" else "/") + s
  {
    if ts == [] {
      assert ts + [s] == [s];
    } else {
      assert (ts + [s])[1..] == ts[1..] + [s];
      JoinedSnoc(ts[1..], s);
      if |ts| > 1 {
        assert Joined(ts) == ts[0] + "/" + Joined(ts[1..]);
      } else {
        assert ts[1..] == [];
      }
    }
  }

  /** A separator if there was output before, then the segment. */
  method OutputSegment(buffer: array<char>, size: nat, position: nat, hasOutput: bool, s: string,
                       ghost root: string, ghost ts: seq<string>)
    returns (pos: nat)
    requires size <= buffer.Length && hasOutput == (ts != [])
    requires position == |root + Joined(ts)| && Holds(buffer, size, root + Joined(ts))
    modifies buffer
    ensures pos == |root + Joined(ts + [s])| && Holds(buffer, size, root + Joined(ts + [s])) && OnlyWithin(buffer, size)
  {
    hide Joined;
    JoinedSnoc(ts, s);
    pos := position;
    ghost var out := root + Joined(ts);
    if hasOutput {
      var separator := OutputSized(buffer, size, pos, "/", out);
      pos, out := pos + separator, out + "/";
    }
    var length := OutputSized(buffer, size, pos, s, out);
    assert root + Joined(ts + [s]) == out + s;
    pos := pos + length;
  }

  /** The segments that survive among the first `n`. */
  ghost function Survivors(segs: seq<string>, n: nat, absolute: bool): seq<string>
    requires n <= |segs|
  {
    KeptInRange(segs, n, absolute);
    Texts(segs, Kept(segs, n, absolute))
  }

  lemma {:induction false} KeptInRange(segs: seq<string>, n: nat, absolute: bool)
    requires n <= |segs|
    ensures forall i | 0 <= i < |Kept(segs, n, absolute)| :: Kept(segs, n, absolute)[i] < n
  {
    hide Removed;
    if n > 0 {
      KeptInRange(segs, n - 1, absolute);
    }
  }

  lemma SurvivorsStep(segs: seq<string>, n: nat, absolute: bool)
    requires n < |segs|
    ensures Survivors(segs, 0, absolute) == []
    ensures Survivors(segs, n + 1, absolute) ==
              if n in Stack(segs, |segs|, absolute) then Survivors(segs, n, absolute) + [segs[n]]
              else Survivors(segs, n, absolute)
  {
    hide Removed, Stack;
    RemovedIffNotOnStack(segs, n, absolute);
    KeptInRange(segs, n, absolute);
  }

  lemma SurvivorsBegin(segs: seq<string>, absolute: bool)
    ensures Survivors(segs, 0, absolute) == []
  {
  }

  /** All survivors together are the normal form. */
  lemma SurvivorsAreNorm(segs: seq<string>, absolute: bool)
    ensures Survivors(segs, |segs|, absolute) == Norm(segs, absolute)
  {
    KeptIsStack(segs, absolute);
  }

  /** The output loop of the normaliser: with the root written, every surviving segment follows. */
  method OutputSurvivors(paths: seq<string>, first: JoinedSegment, absolute: bool, buffer: array<char>, size: nat,
                         start: nat, ghost root: string)
    returns (pos: nat, hasOutput: bool)
    requires OnJoined(paths, first, 0) && size <= buffer.Length && start == |root| && Holds(buffer, size, root)
    modifies buffer
    ensures var out := root + Joined(Norm(SplitAll(paths), absolute));
            pos == |out| && Holds(buffer, size, out) && OnlyWithin(buffer, size)
    ensures hasOutput == (Norm(SplitAll(paths), absolute) != [])
  {
    hide OnJoined, SplitAll, Norm, Survivors, Stack, Joined, Holds, TextOf;
    ghost var segs := SplitAll(paths);
    OnJoinedText(paths, first, 0);
    SurvivorsStep(segs, 0, absolute);
    JoinedOfNothing();
    assert root + "" == root;
    pos, hasOutput := start, false;
    var sj, more := first, true;
    ghost var n: nat := 0;
    while more
      invariant n <= |segs| && (if more then n < |segs| && OnJoined(paths, sj, n) else n == |segs|)
      invariant hasOutput == (Survivors(segs, n, absolute) != [])
      invariant var out := root + Joined(Survivors(segs, n, absolute)); pos == |out| && Holds(buffer, size, out)
      invariant OnlyWithin(buffer, size)
      decreases |segs| - n, more
    {
      NotExhausted(paths, sj, n);
      OnJoinedText(paths, sj, n);
      SurvivorsStep(segs, n, absolute);
      var removed := WillBeRemoved(paths, sj, absolute, n);
      if !removed {
        pos := OutputSegment(buffer, size, pos, hasOutput, TextOf(paths, sj), root, Survivors(segs, n, absolute));
        hasOutput := true;
      }
      more, sj := GetNextSegmentJoined(paths, sj, n);
      n := n + 1;
    }
    SurvivorsAreNorm(segs, absolute);
  }

  lemma JoinedOfNothing()
    ensures Joined([]) == ""
  {
  }

  /** `cwk_path_join_and_normalize_multiple`: the returned length is that of the full result whatever the buffer size,
      and the buffer gets as much of the result as fits. */
  method JoinAndNormalizeMultiple(paths: seq<string>, buffer: array<char>, size: nat) returns (pos: nat)
    requires paths != [] && size <= buffer.Length
    modifies buffer
    ensures pos == |Normalized(paths)| && Terminated(buffer, size, Normalized(paths)) && OnlyWithin(buffer, size)
  {
    hide SplitAll, Norm, Joined, OnJoined;
    pos := if IsAbsolute(paths[0]) then 1 else 0;
    var absolute := IsAbsolute(paths[0]);
    var root := paths[0][..pos];
    assert "" + root == root;
    var _ := OutputSized(buffer, size, 0, root, "");
    NormOfNothing(absolute);
    JoinedOfNothing();
    ghost var out := root;
    var ok, sj := GetFirstSegmentJoined(paths);
    if ok {
      var hasOutput;
      pos, hasOutput := OutputSurvivors(paths, sj, absolute, buffer, size, pos, root);
      out := root + Joined(Norm(SplitAll(paths), absolute));
      if !hasOutput && pos == 0 {
        assert !absolute;
        var length := OutputSized(buffer, size, pos, ".", out);
        pos, out := pos + length, out + ".";
      }
    }
    assert out == Normalized(paths);
    TerminateOutput(buffer, size, pos, out);
    assert out[..pos] == out;
  }

  /** `cwk_path_normalize` */
  method Normalize(path: string, buffer: array<char>, size: nat) returns (pos: nat)
    requires size <= buffer.Length
    modifies buffer
    ensures pos == |Normalized([path])| && Terminated(buffer, size, Normalized([path])) && OnlyWithin(buffer, size)
  {
    pos := JoinAndNormalizeMultiple([path], buffer, size);
  }

  /** `cwk_path_join` */
  method Join(a: string, b: string, buffer: array<char>, size: nat) returns (pos: nat)
    requires size <= buffer.Length
    modifies buffer
    ensures pos == |Normalized([a, b])| && Terminated(buffer, size, Normalized([a, b])) && OnlyWithin(buffer, size)
  {
    pos := JoinAndNormalizeMultiple([a, b], buffer, size);
  }
}
