/** What a path means, segment by segment, with no reference to how `lps-linux/cwalk.c` computes it: the lexical part
    of pathname resolution (section 4.13 of XBD in POSIX.1-2017, without symbolic links), and the stack evaluator that
    the stack-free normaliser has to agree with. */
module PathMeaning {

  // ----- resolution from a directory

  /** A directory is the list of names below the root.  An empty segment and "." stay, ".." goes up, except at the root,
      and every other segment goes down. */
  function Enter(dir: seq<string>, s: string): seq<string> {
    if s == "" || s == "." then dir
    else if s == ".." then (if dir == [] then [] else dir[..|dir| - 1])
    else dir + [s]
  }

  function Resolve(dir: seq<string>, segs: seq<string>): seq<string> {
    if segs == [] then dir else Enter(Resolve(dir, segs[..|segs| - 1]), segs[|segs| - 1])
  }

  lemma {:induction false} ResolveConcat(dir: seq<string>, xs: seq<string>, ys: seq<string>)
    ensures Resolve(dir, xs + ys) == Resolve(Resolve(dir, xs), ys)
  {
    if ys == [] {
      assert xs + ys == xs;
    } else {
      var init := ys[..|ys| - 1];
      assert (xs + ys)[..|xs + ys| - 1] == xs + init;
      ResolveConcat(dir, xs, init);
    }
  }

  // ----- normalisation with a stack

  datatype Kind = Normal | Current | Back

  /** What the normaliser distinguishes; `cwk_path_get_segment_type` computes it. */
  function KindOf(s: string): Kind {
    if s == "" || s == "." then Current else if s == ".." then Back else Normal
  }

  /** The kinds are what they mean for a directory. */
  lemma EnterByKind(dir: seq<string>, s: string)
    ensures Enter(dir, s) == match KindOf(s)
                             case Current => dir
                             case Normal => dir + [s]
                             case Back => if dir == [] then [] else dir[..|dir| - 1]
  {
  }

  /** One step of the evaluator.  The stack holds segment positions; ".." cancels a name on top, is dropped at the root
      of an absolute path, and is kept otherwise. */
  function Push(stack: seq<nat>, segs: seq<string>, k: nat, absolute: bool): seq<nat>
    requires k < |segs| && forall i | 0 <= i < |stack| :: stack[i] < |segs|
  {
    match KindOf(segs[k])
    case Current => stack
    case Normal => stack + [k]
    case Back =>
      if stack != [] && KindOf(segs[stack[|stack| - 1]]).Normal? then stack[..|stack| - 1]
      else if absolute then stack
      else stack + [k]
  }

  /** The stack after the first `n` segments. */
  function Stack(segs: seq<string>, n: nat, absolute: bool): (stack: seq<nat>)
    requires n <= |segs|
    ensures forall i | 0 <= i < |stack| :: stack[i] < n
    ensures forall i, j | 0 <= i < j < |stack| :: stack[i] < stack[j]
  {
    if n == 0 then [] else Push(Stack(segs, n - 1, absolute), segs, n - 1, absolute)
  }

  function Texts(segs: seq<string>, stack: seq<nat>): (ts: seq<string>)
    requires forall i | 0 <= i < |stack| :: stack[i] < |segs|
    ensures |ts| == |stack| && forall i | 0 <= i < |ts| :: ts[i] == segs[stack[i]]
  {
    seq(|stack|, i requires 0 <= i < |stack| => segs[stack[i]])
  }

  /** The normal form of a list of segments. */
  function Norm(segs: seq<string>, absolute: bool): seq<string> {
    Texts(segs, Stack(segs, |segs|, absolute))
  }

  /** The same step on a stack of segments instead of positions. */
  function PushText(ts: seq<string>, s: string, absolute: bool): seq<string> {
    match KindOf(s)
    case Current => ts
    case Normal => ts + [s]
    case Back =>
      if ts != [] && KindOf(ts[|ts| - 1]).Normal? then ts[..|ts| - 1]
      else if absolute then ts
      else ts + [s]
  }

  lemma TextsOfPush(segs: seq<string>, stack: seq<nat>, k: nat, absolute: bool)
    requires k < |segs| && forall i | 0 <= i < |stack| :: stack[i] < |segs|
    ensures Texts(segs, Push(stack, segs, k, absolute)) == PushText(Texts(segs, stack), segs[k], absolute)
  {
    hide KindOf;
    assert Texts(segs, stack + [k]) == Texts(segs, stack) + [segs[k]];
    assert stack != [] ==> Texts(segs, stack[..|stack| - 1]) == Texts(segs, stack)[..|stack| - 1];
  }

  /** Meaning is preserved: a relative path and its normal form lead to the same place from every directory. */
  lemma {:induction false} RelativeMeaning(dir: seq<string>, segs: seq<string>, n: nat)
    requires n <= |segs|
    ensures Resolve(dir, Texts(segs, Stack(segs, n, false))) == Resolve(dir, segs[..n])
  {
    hide Push, PushText, Texts, Enter;
    if n > 0 {
      RelativeMeaning(dir, segs, n - 1);
      TextsOfPush(segs, Stack(segs, n - 1, false), n - 1, false);
      PushMeaning(dir, Texts(segs, Stack(segs, n - 1, false)), segs[n - 1]);
      assert segs[..n][..n - 1] == segs[..n - 1];
    }
  }

  lemma PushMeaning(dir: seq<string>, ts: seq<string>, s: string)
    ensures Resolve(dir, PushText(ts, s, false)) == Enter(Resolve(dir, ts), s)
  {
    hide KindOf, Enter;
    assert (ts + [s])[..|ts|] == ts;
    EnterByKind(Resolve(dir, ts), s);
    if ts != [] {
      EnterByKind(Resolve(dir, ts[..|ts| - 1]), ts[|ts| - 1]);
    }
  }

  /** An absolute path's normal form is the place it names. */
  lemma {:induction false} AbsoluteMeaning(segs: seq<string>, n: nat)
    requires n <= |segs|
    ensures Texts(segs, Stack(segs, n, true)) == Resolve([], segs[..n])
  {
    hide Push, Texts, KindOf, Enter;
    if n > 0 {
      AbsoluteMeaning(segs, n - 1);
      EnterByKind(Resolve([], segs[..n - 1]), segs[n - 1]);
      StackIsCanonical(segs, n - 1, true);
      TextsOfPush(segs, Stack(segs, n - 1, true), n - 1, true);
      assert segs[..n][..n - 1] == segs[..n - 1];
    }
  }

  // ----- normal forms

  /** Normal forms: leading "..", only when relative, then names. */
  predicate Canonical(ts: seq<string>, absolute: bool) {
    && (forall i | 0 <= i < |ts| :: KindOf(ts[i]).Normal? || (KindOf(ts[i]).Back? && !absolute))
    && (forall i, j | 0 <= i < j < |ts| :: KindOf(ts[j]).Back? ==> KindOf(ts[i]).Back?)
  }

  lemma {:induction false} StackIsCanonical(segs: seq<string>, n: nat, absolute: bool)
    requires n <= |segs|
    ensures Canonical(Texts(segs, Stack(segs, n, absolute)), absolute)
  {
    hide KindOf, Push, Texts;
    if n > 0 {
      StackIsCanonical(segs, n - 1, absolute);
      TextsOfPush(segs, Stack(segs, n - 1, absolute), n - 1, absolute);
    }
  }

  lemma NormIsCanonical(segs: seq<string>, absolute: bool)
    ensures Canonical(Norm(segs, absolute), absolute)
  {
    StackIsCanonical(segs, |segs|, absolute);
  }

  function UpTo(n: nat): (ks: seq<nat>)
    ensures |ks| == n && forall i | 0 <= i < n :: ks[i] == i
  {
    seq(n, i requires 0 <= i < n => i)
  }

  /** A segment of a normal form is pushed, whatever it is. */
  lemma PushNext(ts: seq<string>, n: nat, absolute: bool)
    requires Canonical(ts, absolute) && n < |ts|
    ensures Push(UpTo(n), ts, n, absolute) == UpTo(n + 1)
  {
    hide KindOf;
    assert UpTo(n) + [n] == UpTo(n + 1);
    if KindOf(ts[n]).Back? && 0 < n {
      assert KindOf(ts[n - 1]).Back?;
    }
  }

  /** Normalising a normal form changes nothing. */
  lemma {:induction false} CanonicalIsFixed(ts: seq<string>, n: nat, absolute: bool)
    requires Canonical(ts, absolute) && n <= |ts|
    ensures Stack(ts, n, absolute) == UpTo(n)
  {
    hide Canonical, Push, KindOf;
    if n > 0 {
      CanonicalIsFixed(ts, n - 1, absolute);
      PushNext(ts, n - 1, absolute);
    }
  }

  lemma NormIdempotent(segs: seq<string>, absolute: bool)
    ensures Norm(Norm(segs, absolute), absolute) == Norm(segs, absolute)
  {
    var ts := Norm(segs, absolute);
    StackIsCanonical(segs, |segs|, absolute);
    CanonicalIsFixed(ts, |ts|, absolute);
  }

  /** How many ".." a normal form starts with. */
  function Backs(ts: seq<string>): nat {
    if ts == [] || !KindOf(ts[0]).Back? then 0 else 1 + Backs(ts[1..])
  }

  lemma {:induction false} CanonicalSplit(ts: seq<string>)
    requires Canonical(ts, false)
    ensures Backs(ts) <= |ts|
    ensures forall i | 0 <= i < |ts| :: KindOf(ts[i]) == if i < Backs(ts) then Back else Normal
  {
    if ts == [] {
    } else if KindOf(ts[0]).Back? {
      CanonicalSplit(ts[1..]);
      forall i | 0 <= i < |ts| ensures KindOf(ts[i]) == if i < Backs(ts) then Back else Normal {
        if i > 0 { assert ts[i] == ts[1..][i - 1]; }
      }
    }
  }

  lemma {:induction false} ResolveBacks(dir: seq<string>, ts: seq<string>)
    requires forall i | 0 <= i < |ts| :: KindOf(ts[i]).Back?
    ensures Resolve(dir, ts) == if |ts| <= |dir| then dir[..|dir| - |ts|] else []
  {
    hide KindOf, Enter;
    if ts != [] {
      ResolveBacks(dir, ts[..|ts| - 1]);
      EnterByKind(Resolve(dir, ts[..|ts| - 1]), ts[|ts| - 1]);
    }
  }

  lemma {:induction false} ResolveNames(dir: seq<string>, ts: seq<string>)
    requires forall i | 0 <= i < |ts| :: KindOf(ts[i]).Normal?
    ensures Resolve(dir, ts) == dir + ts
  {
    hide KindOf, Enter;
    if ts != [] {
      var init := ts[..|ts| - 1];
      ResolveNames(dir, init);
      EnterByKind(Resolve(dir, init), ts[|ts| - 1]);
      assert dir + ts == dir + init + [ts[|ts| - 1]];
    }
  }

  /** Where a normal form leads: up as many levels as it has "..", then down its names. */
  lemma CanonicalResolve(dir: seq<string>, ts: seq<string>)
    requires Canonical(ts, false)
    ensures Backs(ts) <= |ts|
    ensures Resolve(dir, ts) == (if Backs(ts) <= |dir| then dir[..|dir| - Backs(ts)] else []) + ts[Backs(ts)..]
  {
    hide KindOf, Resolve, Backs, Canonical, Enter;
    CanonicalSplit(ts);
    var b := Backs(ts);
    assert ts == ts[..b] + ts[b..];
    ResolveConcat(dir, ts[..b], ts[b..]);
    ResolveBacks(dir, ts[..b]);
    ResolveNames(Resolve(dir, ts[..b]), ts[b..]);
  }

  /** Two different normal forms part ways from some directory. */
  lemma CanonicalDistinct(xs: seq<string>, ys: seq<string>) returns (dir: seq<string>)
    requires Canonical(xs, false) && Canonical(ys, false) && xs != ys
    requires Backs(xs) <= Backs(ys)
    ensures Resolve(dir, xs) != Resolve(dir, ys)
  {
    hide KindOf, Resolve, Backs;
    var i, j := Backs(xs), Backs(ys);
    CanonicalSplit(xs);
    CanonicalSplit(ys);
    var other := if j < |ys| && ys[j] == "a" then "b" else "a";
    dir := seq(j, _ => other);
    CanonicalResolve(dir, xs);
    CanonicalResolve(dir, ys);
    assert Resolve(dir, ys) == ys[j..];
    if i == j {
      assert Resolve(dir, xs) == xs[i..];
      if xs[i..] == ys[j..] {
        SameBacks(xs, ys);
      }
    } else {
      assert Resolve(dir, xs)[0] == other;
    }
  }

  lemma SameBacks(xs: seq<string>, ys: seq<string>)
    requires Canonical(xs, false) && Canonical(ys, false) && Backs(xs) == Backs(ys) <= |xs|
    requires Backs(ys) <= |ys| && xs[Backs(xs)..] == ys[Backs(ys)..]
    ensures xs == ys
  {
    CanonicalSplit(xs);
    CanonicalSplit(ys);
    var b := Backs(xs);
    assert |xs| == |ys|;
    forall i | 0 <= i < |xs| ensures xs[i] == ys[i] {
      if i < b {
        assert xs[i] == ".." == ys[i];
      } else {
        assert xs[i] == xs[b..][i - b] && ys[i] == ys[b..][i - b];
      }
    }
  }

  ghost predicate SameMeaning(xs: seq<string>, ys: seq<string>) {
    forall dir :: Resolve(dir, xs) == Resolve(dir, ys)
  }

  /** The normal form decides meaning: two relative paths lead to the same place from every directory exactly when
      they have the same normal form. */
  lemma NormDecidesMeaning(xs: seq<string>, ys: seq<string>)
    ensures SameMeaning(xs, ys) <==> Norm(xs, false) == Norm(ys, false)
  {
    hide KindOf, Resolve, Backs, Canonical;
    var cx, cy := Norm(xs, false), Norm(ys, false);
    forall dir ensures Resolve(dir, cx) == Resolve(dir, xs) && Resolve(dir, cy) == Resolve(dir, ys) {
      RelativeMeaning(dir, xs, |xs|);
      RelativeMeaning(dir, ys, |ys|);
      assert xs[..|xs|] == xs && ys[..|ys|] == ys;
    }
    StackIsCanonical(xs, |xs|, false);
    StackIsCanonical(ys, |ys|, false);
    if cx != cy {
      var dir;
      if Backs(cx) <= Backs(cy) {
        dir := CanonicalDistinct(cx, cy);
      } else {
        dir := CanonicalDistinct(cy, cx);
      }
      assert Resolve(dir, xs) != Resolve(dir, ys);
    }
  }
}
