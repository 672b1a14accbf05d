/** Relative paths (`cwk_path_get_relative` of `lps-linux/cwalk.c`) and the law that joining one to its base gives the
    target back. */
module PathRelative {
  import opened PathMeaning
  import opened PathText

  /** Length of the longest common prefix. */
  function Common(xs: seq<string>, ys: seq<string>): (c: nat)
    ensures c <= |xs| && c <= |ys| && xs[..c] == ys[..c]
    ensures forall i | 0 <= i < c :: xs[i] == ys[i]
    ensures c < |xs| && c < |ys| ==> xs[c] != ys[c]
  {
    if xs == [] || ys == [] || xs[0] != ys[0] then 0 else
      var c := Common(xs[1..], ys[1..]);
      assert xs[..c + 1] == [xs[0]] + xs[1..][..c] && ys[..c + 1] == [ys[0]] + ys[1..][..c];
      c + 1
  }

  function Ups(n: nat): seq<string> { seq(n, _ => "..") }

  /** Up from what only the base has, down into what only the target has. */
  function RelativeSegments(base: seq<string>, target: seq<string>): seq<string> {
    var c := Common(base, target);
    Ups(|base| - c) + target[c..]
  }

  /** What `cwk_path_get_relative` produces: nothing when the roots differ, "." when there is no way to go. */
  function RelativeText(base: string, path: string): string {
    if IsAbsolute(base) != IsAbsolute(path) then "" else
      var absolute := IsAbsolute(base);
      var segs := RelativeSegments(Norm(Split(base), absolute), Norm(Split(path), absolute));
      if segs == [] then "." else Joined(segs)
  }

  // ----- continuing from a normal form

  function PushAll(ts: seq<string>, ys: seq<string>, absolute: bool): seq<string>
    decreases |ys|
  {
    if ys == [] then ts else PushAll(PushText(ts, ys[0], absolute), ys[1..], absolute)
  }

  lemma {:induction false} PushAllConcat(ts: seq<string>, xs: seq<string>, ys: seq<string>, absolute: bool)
    ensures PushAll(ts, xs + ys, absolute) == PushAll(PushAll(ts, xs, absolute), ys, absolute)
    decreases |xs|
  {
    hide PushText;
    if xs == [] {
      assert xs + ys == ys;
    } else {
      assert (xs + ys)[1..] == xs[1..] + ys;
      PushAllConcat(PushText(ts, xs[0], absolute), xs[1..], ys, absolute);
    }
  }

  lemma {:induction false} NormIsPushAll(segs: seq<string>, n: nat, absolute: bool)
    requires n <= |segs|
    ensures Texts(segs, Stack(segs, n, absolute)) == PushAll([], segs[..n], absolute)
  {
    hide PushText, Push, Texts;
    if n == 0 {
      assert Texts(segs, []) == [];
    } else {
      NormIsPushAll(segs, n - 1, absolute);
      TextsOfPush(segs, Stack(segs, n - 1, absolute), n - 1, absolute);
      assert segs[..n] == segs[..n - 1] + [segs[n - 1]];
      PushAllConcat([], segs[..n - 1], [segs[n - 1]], absolute);
      PushAllOne(PushAll([], segs[..n - 1], absolute), segs[n - 1], absolute);
    }
  }

  lemma PushAllOne(ts: seq<string>, s: string, absolute: bool)
    ensures PushAll(ts, [s], absolute) == PushText(ts, s, absolute)
  {
    assert [s][1..] == [];
  }

  /** Normalising a concatenation continues from the normal form of its first part. */
  lemma NormConcat(xs: seq<string>, ys: seq<string>, absolute: bool)
    ensures Norm(xs + ys, absolute) == PushAll(Norm(xs, absolute), ys, absolute)
  {
    hide PushAll, Texts, Stack;
    NormIsPushAll(xs + ys, |xs + ys|, absolute);
    NormIsPushAll(xs, |xs|, absolute);
    assert (xs + ys)[..|xs + ys|] == xs + ys && xs[..|xs|] == xs;
    PushAllConcat([], xs, ys, absolute);
  }

  lemma {:induction false} PushAllUps(ts: seq<string>, n: nat, absolute: bool)
    requires n <= |ts| && forall i | |ts| - n <= i < |ts| :: KindOf(ts[i]).Normal?
    ensures PushAll(ts, Ups(n), absolute) == ts[..|ts| - n]
  {
    if n > 0 {
      assert Ups(n)[0] == ".." && Ups(n)[1..] == Ups(n - 1);
      PushAllUps(ts[..|ts| - 1], n - 1, absolute);
      assert ts[..|ts| - 1][..|ts| - n] == ts[..|ts| - n];
    }
  }

  /** On a relative path with no name left on the stack, every further ".." is kept. */
  lemma {:induction false} PushAllUpsKept(ts: seq<string>, n: nat)
    requires ts != [] ==> KindOf(ts[|ts| - 1]).Back?
    ensures PushAll(ts, Ups(n), false) == ts + Ups(n)
    decreases n
  {
    if n > 0 {
      assert Ups(n)[0] == ".." && Ups(n)[1..] == Ups(n - 1);
      PushAllUpsKept(ts + [".."], n - 1);
      assert ts + Ups(n) == ts + [".."] + Ups(n - 1);
    }
  }

  /** Feeding a normal form to its own prefix rebuilds it. */
  lemma {:induction false} PushAllRest(ts: seq<string>, c: nat, absolute: bool)
    requires Canonical(ts, absolute) && c <= |ts|
    ensures PushAll(ts[..c], ts[c..], absolute) == ts
    decreases |ts| - c
  {
    hide KindOf;
    if c == |ts| {
      assert ts[..c] == ts && ts[c..] == [];
    } else {
      assert ts[c..][0] == ts[c] && ts[c..][1..] == ts[c + 1..];
      assert PushText(ts[..c], ts[c], absolute) == ts[..c] + [ts[c]] == ts[..c + 1];
      PushAllRest(ts, c + 1, absolute);
    }
  }

  // ----- the round trip

  /** When going up cancels names only, the relative segments lead from the base to the target. */
  lemma ReachesTarget(base: seq<string>, target: seq<string>, absolute: bool)
    requires Canonical(base, absolute) && Canonical(target, absolute)
    requires forall i | Common(base, target) <= i < |base| :: KindOf(base[i]).Normal?
    ensures PushAll(base, RelativeSegments(base, target), absolute) == target
  {
    hide PushAll, Canonical, KindOf, Common, Ups;
    var c := Common(base, target);
    var n := |base| - c;
    calc {
      PushAll(base, Ups(n) + target[c..], absolute);
    ==  { PushAllConcat(base, Ups(n), target[c..], absolute); }
      PushAll(PushAll(base, Ups(n), absolute), target[c..], absolute);
    ==  { PushAllUps(base, n, absolute); assert base[..|base| - n] == target[..c]; }
      PushAll(target[..c], target[c..], absolute);
    ==  { PushAllRest(target, c, absolute); }
      target;
    }
  }

  /** A base with more leading ".." than the target cannot be left again. */
  lemma MissesTarget(base: seq<string>, target: seq<string>)
    requires Canonical(base, false) && Canonical(target, false) && Backs(base) > Backs(target)
    ensures PushAll(base, RelativeSegments(base, target), false) != target
  {
    hide PushAll, KindOf, Backs, Canonical, Common;
    var i, j := Backs(base), Backs(target);
    CanonicalSplit(base);
    CanonicalSplit(target);
    CommonBacks(base, target);
    var m := |base| - i;
    var high := base[..i] + Ups(i - j);
    assert Ups(|base| - j) == Ups(m) + Ups(i - j);
    PushAllConcat(base, Ups(m) + Ups(i - j), target[j..], false);
    PushAllConcat(base, Ups(m), Ups(i - j), false);
    PushAllUps(base, m, false);
    PushAllUpsKept(base[..i], i - j);
    PushAllNames(high, target[j..]);
    assert PushAll(base, RelativeSegments(base, target), false) == high + target[j..];
    assert (high + target[j..])[j] == base[j];
    assert j < |target| ==> KindOf(target[j]).Normal?;
  }

  lemma {:induction false} PushAllNames(ts: seq<string>, ys: seq<string>)
    requires forall i | 0 <= i < |ys| :: KindOf(ys[i]).Normal?
    ensures PushAll(ts, ys, false) == ts + ys
    decreases |ys|
  {
    hide KindOf;
    if ys != [] {
      PushAllNames(ts + [ys[0]], ys[1..]);
      assert ts + ys == ts + [ys[0]] + ys[1..];
    }
  }

  /** Normal forms agree on as many ".." as both have. */
  lemma CommonBacks(xs: seq<string>, ys: seq<string>)
    requires Canonical(xs, false) && Canonical(ys, false)
    ensures Backs(xs) <= Backs(ys) ==> Backs(xs) <= Common(xs, ys)
    ensures Backs(xs) > Backs(ys) ==> Common(xs, ys) == Backs(ys)
  {
    hide Backs, Common, KindOf, Canonical;
    CanonicalSplit(xs);
    CanonicalSplit(ys);
    var c := Common(xs, ys);
    if c < |xs| && c < |ys| {
      BackIsDotDot(xs[c]);
      BackIsDotDot(ys[c]);
    }
    var j := Backs(ys);
    if j < |xs| && j < |ys| {
      assert xs[j] == ys[j] ==> KindOf(xs[j]) == KindOf(ys[j]);
    }
  }

  lemma BackIsDotDot(s: string)
    ensures KindOf(s).Back? <==> s == ".."
  {
  }

  /** When the relative segments reach the target. */
  lemma ReachesWhen(base: seq<string>, target: seq<string>, absolute: bool)
    requires Canonical(base, absolute) && Canonical(target, absolute)
    ensures PushAll(base, RelativeSegments(base, target), absolute) == target
            <==> absolute || Backs(base) <= Backs(target)
  {
    hide PushAll, KindOf, Backs, RelativeSegments, Common;
    if absolute {
      ReachesTarget(base, target, absolute);
    } else {
      CanonicalSplit(base);
      CommonBacks(base, target);
      if Backs(base) <= Backs(target) {
        ReachesTarget(base, target, absolute);
      } else {
        MissesTarget(base, target);
      }
    }
  }

  /** Reading the text of a relative path back. */
  lemma SplitRelative(base: seq<string>, target: seq<string>)
    requires AreSegments(base) && AreSegments(target)
    ensures var segs := RelativeSegments(base, target);
            && Split(if segs == [] then "." else Joined(segs)) == if segs == [] then ["."] else segs
  {
    hide Common;
    var segs := RelativeSegments(base, target);
    if segs == [] {
      SplitFirst(".", "");
      assert "." + "" == ".";
    } else {
      SplitJoined(segs);
    }
  }

  lemma SplitAllTwo(p: string, q: string)
    ensures SplitAll([p, q]) == Split(p) + Split(q)
  {
    assert [p, q][1..] == [q];
    SplitAllOne(q);
  }

  /** The same law on normal forms. */
  lemma JoinedNorm(base: string, path: string, absolute: bool)
    requires IsAbsolute(base) == IsAbsolute(path) == absolute
    ensures Norm(Split(base) + Split(RelativeText(base, path)), absolute) == Norm(Split(path), absolute) <==>
              absolute || Backs(Norm(Split(base), false)) <= Backs(Norm(Split(path), false))
    ensures Split(RelativeText(base, path)) != []
  {
    hide Split, Norm, KindOf, Canonical, Backs, RelativeSegments, PushAll, Joined;
    var b, o := Norm(Split(base), absolute), Norm(Split(path), absolute);
    SplitGivesSegments(base);
    SplitGivesSegments(path);
    NormKeepsSegments(Split(base), absolute);
    NormKeepsSegments(Split(path), absolute);
    SplitRelative(b, o);
    NormIsCanonical(Split(base), absolute);
    NormIsCanonical(Split(path), absolute);
    ReachesWhen(b, o, absolute);
    NormConcat(Split(base), Split(RelativeText(base, path)), absolute);
    DotChangesNothing(b, o, absolute);
  }

  /** There is always something to write when the roots agree, and nothing otherwise. */
  lemma RelativeEmptyIff(base: string, path: string)
    ensures RelativeText(base, path) == "" <==> (base != "" && base[0] == '/') != (path != "" && path[0] == '/')
  {
    hide Norm, RelativeSegments, Joined;
    if IsAbsolute(base) == IsAbsolute(path) {
      JoinedNorm(base, path, IsAbsolute(base));
    }
  }

  /** Joining the base with the relative path gives the normalised target: always for absolute paths; for relative
      ones exactly when the base's normal form has no more leading ".." than the target's, and the target is not empty
      text. */
  lemma RoundTrip(base: string, path: string)
    requires IsAbsolute(base) == IsAbsolute(path)
    ensures Normalized([base, RelativeText(base, path)]) == Normalized([path]) <==>
              || IsAbsolute(base)
              || (path != "" && Backs(Norm(Split(base), false)) <= Backs(Norm(Split(path), false)))
  {
    hide Split, Norm, KindOf, Backs, SplitAll, RelativeText, Render;
    var absolute, text := IsAbsolute(base), RelativeText(base, path);
    SplitGivesSegments(base);
    SplitGivesSegments(path);
    SplitGivesSegments(text);
    SplitAllTwo(base, text);
    SplitAllOne(path);
    JoinedNorm(base, path, absolute);
    if absolute {
      RenderInjective(Split(base) + Split(text), Split(path), absolute);
    } else if path != "" {
      NonEmptyHasSegment(path);
      RenderInjective(Split(base) + Split(text), Split(path), absolute);
    } else {
      RenderNonEmpty(Split(base) + Split(text));
      RenderNothing();
    }
  }

  /** With nothing to do, the base is the target, and "." keeps it. */
  lemma DotChangesNothing(b: seq<string>, o: seq<string>, absolute: bool)
    ensures RelativeSegments(b, o) == [] ==> PushAll(b, ["."], absolute) == PushAll(b, [], absolute)
  {
    PushAllOne(b, ".", absolute);
  }

  lemma NonEmptyHasSegment(p: string)
    requires p != "" && !IsAbsolute(p)
    ensures Split(p) != []
  {
  }

  lemma RenderNonEmpty(segs: seq<string>)
    requires segs != [] && AreSegments(segs)
    ensures Render(segs, false) != ""
  {
    SplitRender(segs, false);
  }

  lemma RenderNothing()
    ensures Split("") == [] && Render([], false) == ""
  {
  }

  lemma OneSegment(s: string)
    requires IsSegment(s) && !KindOf(s).Current?
    ensures Norm(Split(s), false) == [s]
  {
    SplitSegment(s);
    CanonicalIsFixed([s], 1, false);
  }

  /** Where the condition fails, so does the law: from ".." there is no way by name back to "a", and the relative
      path to the empty text is not empty. */
  lemma RoundTripFails()
    ensures Normalized(["..", RelativeText("..", "a")]) != Normalized(["a"])
    ensures Normalized(["a", RelativeText("a", "")]) != Normalized([""])
  {
    hide Normalized, Norm, Split, RelativeText;
    OneSegment("..");
    OneSegment("a");
    assert [".."][1..] == [];
    RoundTrip("..", "a");
    RoundTrip("a", "");
  }

  // ----- no shorter way

  /** How many steps apart two directories are. */
  ghost function Distance(xs: seq<string>, ys: seq<string>): nat {
    |xs| - Common(xs, ys) + |ys| - Common(xs, ys)
  }

  lemma CommonIs(xs: seq<string>, ys: seq<string>, c: nat)
    requires c <= |xs| && c <= |ys| && xs[..c] == ys[..c]
    ensures c <= Common(xs, ys)
  {
    forall i | 0 <= i < c ensures xs[i] == ys[i] {
      assert xs[..c][i] == ys[..c][i];
    }
  }

  /** A step down, or back up, brings them closer by at most one. */
  lemma DownOne(ts: seq<string>, s: string, target: seq<string>)
    ensures Distance(ts, target) <= Distance(ts + [s], target) + 1
    ensures Distance(ts + [s], target) <= Distance(ts, target) + 1
  {
    hide Common;
    var more := ts + [s];
    var c, d := Common(ts, target), Common(more, target);
    assert more[..c] == ts[..c];
    CommonIs(more, target, c);
    var e := if d <= |ts| then d else |ts|;
    assert ts[..e] == more[..e] == target[..e];
    CommonIs(ts, target, e);
    if c < d {
      assert e == c == |ts| && d == |ts| + 1;
    }
  }

  lemma OneStepNearer(ts: seq<string>, s: string, target: seq<string>, absolute: bool)
    ensures Distance(ts, target) <= Distance(PushText(ts, s, absolute), target) + 1
  {
    hide Distance, KindOf;
    DownOne(ts, s, target);
    if ts != [] {
      DownOne(ts[..|ts| - 1], ts[|ts| - 1], target);
      assert ts[..|ts| - 1] + [ts[|ts| - 1]] == ts;
    }
  }

  lemma {:induction false} StepsCover(ts: seq<string>, ys: seq<string>, target: seq<string>, absolute: bool)
    requires PushAll(ts, ys, absolute) == target
    ensures Distance(ts, target) <= |ys|
    decreases |ys|
  {
    hide Distance, PushText;
    if ys == [] {
      NoDistance(ts);
    } else {
      OneStepNearer(ts, ys[0], target, absolute);
      StepsCover(PushText(ts, ys[0], absolute), ys[1..], target, absolute);
    }
  }

  lemma NoDistance(ts: seq<string>)
    ensures Distance(ts, ts) == 0
  {
    CommonIs(ts, ts, |ts|);
  }

  /** The relative path is the shortest: no text with fewer segments leads from the base to the target. */
  lemma NoShorterWay(base: string, path: string, other: string)
    requires IsAbsolute(base) == IsAbsolute(path)
    requires Norm(Split(base) + Split(other), IsAbsolute(base)) == Norm(Split(path), IsAbsolute(path))
    ensures var segs := Split(RelativeText(base, path));
            segs == ["."] || |segs| <= |Split(other)|
  {
    hide Split, Norm, KindOf, Joined, PushAll, Common;
    var absolute := IsAbsolute(base);
    var b, o := Norm(Split(base), absolute), Norm(Split(path), absolute);
    NormConcat(Split(base), Split(other), absolute);
    StepsCover(b, Split(other), o, absolute);
    SplitGivesSegments(base);
    SplitGivesSegments(path);
    NormKeepsSegments(Split(base), absolute);
    NormKeepsSegments(Split(path), absolute);
    SplitRelative(b, o);
  }
}
