/** The stack-free tests of `lps-linux/cwalk.c` that decide whether a segment survives normalisation, and the proof that
    they select exactly what the stack evaluator of module `PathMeaning` keeps. */
module PathCounters {
  import opened PathMeaning

  /** The loop of `cwk_path_segment_normal_will_be_removed`: walk forward from `j`; names push, ".." pops, and the
      segment goes when the counter drops below zero. */
  predicate ForwardRemoves(segs: seq<string>, j: nat, counter: int)
    decreases |segs| - j
  {
    if j >= |segs| then false else
      match KindOf(segs[j])
      case Current => ForwardRemoves(segs, j + 1, counter)
      case Normal => ForwardRemoves(segs, j + 1, counter + 1)
      case Back => counter - 1 < 0 || ForwardRemoves(segs, j + 1, counter - 1)
  }

  /** The loop of `cwk_path_segment_back_will_be_removed`: walk backward from `j`; the segment goes when the names met
      outnumber the "..". */
  predicate BackwardRemoves(segs: seq<string>, j: nat, counter: int)
    requires j <= |segs|
  {
    if j == 0 then false else
      match KindOf(segs[j - 1])
      case Current => BackwardRemoves(segs, j - 1, counter)
      case Normal => counter + 1 > 0 || BackwardRemoves(segs, j - 1, counter + 1)
      case Back => BackwardRemoves(segs, j - 1, counter - 1)
  }

  /** `cwk_path_segment_will_be_removed` */
  predicate Removed(segs: seq<string>, k: nat, absolute: bool)
    requires k < |segs|
  {
    match KindOf(segs[k])
    case Current => true
    case Back => absolute || BackwardRemoves(segs, k, 0)
    case Normal => ForwardRemoves(segs, k + 1, 0)
  }

  // ----- names

  /** A position below `j` that is not on the stack stays off it. */
  lemma {:induction false} GoneForGood(segs: seq<string>, k: nat, j: nat, m: nat, absolute: bool)
    requires k < j <= m <= |segs| && k !in Stack(segs, j, absolute)
    ensures k !in Stack(segs, m, absolute)
  {
    hide KindOf;
    if j < m {
      GoneForGood(segs, k, j, m - 1, absolute);
    }
  }

  /** While a name is on the stack with only names above it, the counter is their number. */
  lemma {:induction false} ForwardFollowsStack(segs: seq<string>, k: nat, j: nat, above: seq<nat>, absolute: bool)
    requires k < j <= |segs| && KindOf(segs[k]).Normal?
    requires forall i | 0 <= i < |above| :: above[i] < |segs| && KindOf(segs[above[i]]).Normal?
    requires Stack(segs, j, absolute) == Stack(segs, k, absolute) + [k] + above
    ensures ForwardRemoves(segs, j, |above|) <==> k !in Stack(segs, |segs|, absolute)
    decreases |segs| - j
  {
    hide KindOf, Stack, Push;
    var low := Stack(segs, k, absolute) + [k];
    if j == |segs| {
      assert (low + above)[|low| - 1] == k;
    } else {
      assert low[..|low| - 1] == Stack(segs, k, absolute);
      StackStep(segs, j, low, above, absolute);
      match KindOf(segs[j])
      case Current =>
        ForwardFollowsStack(segs, k, j + 1, above, absolute);
      case Normal =>
        ForwardFollowsStack(segs, k, j + 1, above + [j], absolute);
      case Back =>
        if above == [] {
          GoneForGood(segs, k, j + 1, |segs|, absolute);
        } else {
          ForwardFollowsStack(segs, k, j + 1, above[..|above| - 1], absolute);
        }
    }
  }

  /** One step with names on top: they are what a ".." takes away. */
  lemma StackStep(segs: seq<string>, j: nat, low: seq<nat>, above: seq<nat>, absolute: bool)
    requires j < |segs| && Stack(segs, j, absolute) == low + above
    requires low != [] && low[|low| - 1] < |segs| && KindOf(segs[low[|low| - 1]]).Normal?
    requires forall i | 0 <= i < |above| :: above[i] < |segs| && KindOf(segs[above[i]]).Normal?
    ensures Stack(segs, j + 1, absolute) ==
              match KindOf(segs[j])
              case Current => low + above
              case Normal => low + (above + [j])
              case Back => if above == [] then low[..|low| - 1] else low + above[..|above| - 1]
  {
    hide KindOf;
    if above == [] {
      assert low + above == low;
    } else {
      assert (low + above)[..|low + above| - 1] == low + above[..|above| - 1];
    }
  }

  // ----- ".." in a relative path

  /** How many names are on the stack of a relative path. */
  function Names(segs: seq<string>, n: nat): nat
    requires n <= |segs|
  {
    if n == 0 then 0 else
      match KindOf(segs[n - 1])
      case Current => Names(segs, n - 1)
      case Normal => Names(segs, n - 1) + 1
      case Back => if Names(segs, n - 1) > 0 then Names(segs, n - 1) - 1 else 0
  }

  /** The topmost `m` positions of a stack are names, and the others are not. */
  ghost predicate TopNames(segs: seq<string>, stack: seq<nat>, m: nat)
    requires forall i | 0 <= i < |stack| :: stack[i] < |segs|
  {
    m <= |stack| && forall i | 0 <= i < |stack| :: KindOf(segs[stack[i]]).Normal? <==> |stack| - m <= i
  }

  lemma PushNames(segs: seq<string>, stack: seq<nat>, k: nat, m: nat)
    requires k < |segs| && (forall i | 0 <= i < |stack| :: stack[i] < |segs|) && TopNames(segs, stack, m)
    ensures var after := Push(stack, segs, k, false);
            && (forall i | 0 <= i < |after| :: after[i] < |segs|)
            && TopNames(segs, after, match KindOf(segs[k])
                                     case Current => m
                                     case Normal => m + 1
                                     case Back => if m > 0 then m - 1 else 0)
  {
    hide KindOf;
  }

  lemma {:induction false} NamesOnTop(segs: seq<string>, n: nat)
    requires n <= |segs|
    ensures TopNames(segs, Stack(segs, n, false), Names(segs, n))
  {
    hide KindOf, Push, TopNames;
    if n == 0 {
      NoNames(segs);
    } else {
      NamesOnTop(segs, n - 1);
      PushNames(segs, Stack(segs, n - 1, false), n - 1, Names(segs, n - 1));
    }
  }

  lemma NoNames(segs: seq<string>)
    ensures TopNames(segs, [], 0)
  {
  }

  lemma {:induction false} BackwardCountsNames(segs: seq<string>, j: nat, counter: int)
    requires j <= |segs| && counter <= 0
    ensures BackwardRemoves(segs, j, counter) <==> Names(segs, j) + counter > 0
  {
    hide KindOf;
    if j > 0 {
      match KindOf(segs[j - 1])
      case Current => BackwardCountsNames(segs, j - 1, counter);
      case Normal => if counter < 0 { BackwardCountsNames(segs, j - 1, counter + 1); }
      case Back => BackwardCountsNames(segs, j - 1, counter - 1);
    }
  }

  /** A ".." that got on the stack is never popped. */
  lemma {:induction false} BackStays(segs: seq<string>, k: nat, m: nat)
    requires k < m <= |segs| && KindOf(segs[k]).Back? && k in Stack(segs, k + 1, false)
    ensures k in Stack(segs, m, false)
  {
    hide Push;
    if k + 1 < m {
      BackStays(segs, k, m - 1);
      PushKeepsBack(segs, Stack(segs, m - 1, false), k, m - 1);
    }
  }

  lemma PushKeepsBack(segs: seq<string>, stack: seq<nat>, k: nat, j: nat)
    requires j < |segs| && (forall i | 0 <= i < |stack| :: stack[i] < |segs|)
    requires k in stack && KindOf(segs[k]).Back?
    ensures k in Push(stack, segs, j, false)
  {
    hide KindOf;
    var i :| 0 <= i < |stack| && stack[i] == k;
    assert i < |stack| - 1 ==> stack[..|stack| - 1][i] == k;
    assert (stack + [j])[i] == k;
  }

  // ----- the equivalence

  /** Which segments get on the stack at all. */
  lemma PushedWhen(segs: seq<string>, k: nat, absolute: bool)
    requires k < |segs|
    ensures match KindOf(segs[k])
            case Current => k !in Stack(segs, k + 1, absolute)
            case Normal => Stack(segs, k + 1, absolute) == Stack(segs, k, absolute) + [k] + []
            case Back => k in Stack(segs, k + 1, absolute) <==> !absolute && Names(segs, k) == 0
  {
    hide KindOf;
    var before := Stack(segs, k, absolute);
    assert (before + [k])[|before|] == k;
    if !absolute {
      NamesOnTop(segs, k);
    }
  }

  /** A segment is removed exactly when its position is not on the final stack. */
  lemma RemovedIffNotOnStack(segs: seq<string>, k: nat, absolute: bool)
    requires k < |segs|
    ensures Removed(segs, k, absolute) <==> k !in Stack(segs, |segs|, absolute)
  {
    hide KindOf, ForwardRemoves, BackwardRemoves, Stack;
    PushedWhen(segs, k, absolute);
    if k !in Stack(segs, k + 1, absolute) {
      GoneForGood(segs, k, k + 1, |segs|, absolute);
    }
    match KindOf(segs[k])
    case Current =>
    case Normal =>
      ForwardFollowsStack(segs, k, k + 1, [], absolute);
    case Back =>
      BackwardCountsNames(segs, k, 0);
      if k in Stack(segs, k + 1, absolute) {
        BackStays(segs, k, |segs|);
      }
  }

  /** The surviving positions among the first `n`, in order. */
  function Kept(segs: seq<string>, n: nat, absolute: bool): seq<nat>
    requires n <= |segs|
  {
    if n == 0 then [] else
      Kept(segs, n - 1, absolute) + if Removed(segs, n - 1, absolute) then [] else [n - 1]
  }

  /** Stack-free normalisation is stack normalisation: what survives, in order, is the final stack. */
  lemma KeptIsStack(segs: seq<string>, absolute: bool)
    ensures Kept(segs, |segs|, absolute) == Stack(segs, |segs|, absolute)
  {
    hide Stack, Kept;
    var stack := Stack(segs, |segs|, absolute);
    KeptIsPrefix(segs, |segs|, absolute);
    assert stack != [] ==> stack[|stack| - 1] < |segs|;
  }

  /** Exactly the first `k` positions of the stack lie below `n`. */
  ghost predicate CutAt(stack: seq<nat>, k: nat, n: nat) {
    k <= |stack| && forall i | 0 <= i < |stack| :: if i < k then stack[i] < n else n <= stack[i]
  }

  lemma CutMoves(stack: seq<nat>, k: nat, n: nat)
    requires CutAt(stack, k, n) && forall i, j | 0 <= i < j < |stack| :: stack[i] < stack[j]
    ensures n !in stack ==> CutAt(stack, k, n + 1)
    ensures n in stack ==> CutAt(stack, k + 1, n + 1) && stack[k] == n && stack[..k + 1] == stack[..k] + [n]
  {
    if n in stack {
      var i :| 0 <= i < |stack| && stack[i] == n;
      assert k <= i && n <= stack[k];
    }
  }

  lemma {:induction false} KeptIsPrefix(segs: seq<string>, n: nat, absolute: bool)
    requires n <= |segs|
    ensures var stack, kept := Stack(segs, |segs|, absolute), Kept(segs, n, absolute);
            CutAt(stack, |kept|, n) && kept == stack[..|kept|]
  {
    hide Stack, Removed, CutAt;
    var stack := Stack(segs, |segs|, absolute);
    if n == 0 {
      NoCut(stack);
    } else {
      KeptIsPrefix(segs, n - 1, absolute);
      RemovedIffNotOnStack(segs, n - 1, absolute);
      CutMoves(stack, |Kept(segs, n - 1, absolute)|, n - 1);
    }
  }

  lemma NoCut(stack: seq<nat>)
    ensures CutAt(stack, 0, 0)
  {
  }
}
