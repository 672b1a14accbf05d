/** Paths as text: splitting into segments, and the strings that normalising, joining and relativising produce
    (`lps-linux/cwalk.c`, UNIX style), with the laws that relate them. */
module PathText {
  import opened PathMeaning

  predicate IsAbsolute(p: string) { p != "" && p[0] == '/' }

  /** The first separator, or the end. */
  function Stop(p: string): (e: nat)
    ensures e <= |p| && (e < |p| ==> p[e] == '/') && forall i | 0 <= i < e :: p[i] != '/'
  {
    if p == "" || p[0] == '/' then 0 else 1 + Stop(p[1..])
  }

  /** The segments of a path: its maximal runs without a separator. */
  function Split(p: string): seq<string>
    decreases |p|
  {
    if p == "" then []
    else if p[0] == '/' then Split(p[1..])
    else [p[..Stop(p)]] + Split(p[Stop(p)..])
  }

  function SplitAll(paths: seq<string>): seq<string> {
    if paths == [] then [] else Split(paths[0]) + SplitAll(paths[1..])
  }

  predicate IsSegment(s: string) { s != "" && '/' !in s }

  predicate AreSegments(ts: seq<string>) {
    forall i | 0 <= i < |ts| :: IsSegment(ts[i])
  }

  function Joined(ts: seq<string>): string {
    if ts == [] then "" else if |ts| == 1 then ts[0] else ts[0] + "/" + Joined(ts[1..])
  }

  lemma {:induction false} SplitGivesSegments(p: string)
    ensures AreSegments(Split(p))
    decreases |p|
  {
    if p == "" {
    } else if p[0] == '/' {
      SplitGivesSegments(p[1..]);
    } else {
      SplitGivesSegments(p[Stop(p)..]);
    }
  }

  lemma {:induction false} SplitAllGivesSegments(paths: seq<string>)
    ensures AreSegments(SplitAll(paths))
  {
    if paths != [] {
      SplitGivesSegments(paths[0]);
      SplitAllGivesSegments(paths[1..]);
    }
  }

  lemma SplitFirst(s: string, rest: string)
    requires IsSegment(s) && (rest == "" || rest[0] == '/')
    ensures Split(s + rest) == [s] + Split(rest)
  {
    var p := s + rest;
    assert p[0] == s[0];
    assert p[..|s|] == s && p[|s|..] == rest;
  }

  /** Splitting undoes joining. */
  lemma {:induction false} SplitJoined(ts: seq<string>)
    requires AreSegments(ts)
    ensures Split(Joined(ts)) == ts
    ensures ts != [] ==> Joined(ts) != "" && Joined(ts)[0] == ts[0][0]
  {
    if ts == [] {
    } else if |ts| == 1 {
      SplitFirst(ts[0], "");
      assert ts[0] + "" == ts[0];
    } else {
      var rest := "/" + Joined(ts[1..]);
      SplitJoined(ts[1..]);
      SplitFirst(ts[0], rest);
      assert rest[1..] == Joined(ts[1..]);
      assert Joined(ts) == ts[0] + rest;
    }
  }

  /** Splitting is cutting at the slashes: together with `SplitSegment` this fixes it on every text. */
  lemma {:induction false} SplitSlash(p: string, q: string)
    ensures Split(p + "/" + q) == Split(p) + Split(q)
    decreases |p|
  {
    var all := p + "/" + q;
    if p == "" {
      assert all == "/" + q && all[1..] == q;
    } else if p[0] == '/' {
      assert all[1..] == p[1..] + "/" + q;
      SplitSlash(p[1..], q);
    } else {
      var s, rest := p[..Stop(p)], p[Stop(p)..];
      assert p == s + rest && all == s + (rest + "/" + q);
      SplitFirst(s, rest);
      SplitFirst(s, rest + "/" + q);
      if rest == "" {
        assert rest + "/" + q == "/" + q && ("/" + q)[1..] == q;
      } else {
        SplitSlash(rest, q);
      }
    }
  }

  lemma SplitSegment(s: string)
    requires IsSegment(s)
    ensures Split(s) == [s] && Split("") == []
  {
    SplitFirst(s, "");
    assert s + "" == s;
  }

  // ----- normalising and joining

  /** The text of a normal form.  A relative path that cancels out is "."; a path without any segment stays empty. */
  function Render(segs: seq<string>, absolute: bool): string {
    var ts := Norm(segs, absolute);
    if absolute then "/" + Joined(ts) else if ts == [] && segs != [] then "." else Joined(ts)
  }

  /** What `cwk_path_join_and_normalize_multiple` produces; the first path decides whether the result is absolute. */
  function Normalized(paths: seq<string>): string
    requires paths != []
  {
    Render(SplitAll(paths), IsAbsolute(paths[0]))
  }

  lemma SplitAllOne(p: string)
    ensures SplitAll([p]) == Split(p)
  {
    assert SplitAll([p][1..]) == [];
  }

  lemma NormKeepsSegments(segs: seq<string>, absolute: bool)
    requires AreSegments(segs)
    ensures AreSegments(Norm(segs, absolute))
  {
  }

  /** Reading a rendered path back gives its normal form, or the single segment ".". */
  lemma SplitRender(segs: seq<string>, absolute: bool)
    requires AreSegments(segs)
    ensures IsAbsolute(Render(segs, absolute)) == absolute
    ensures var ts := Norm(segs, absolute);
            Split(Render(segs, absolute)) == if !absolute && ts == [] && segs != [] then ["."] else ts
  {
    var ts := Norm(segs, absolute);
    NormKeepsSegments(segs, absolute);
    SplitJoined(ts);
    if absolute {
      assert ("/" + Joined(ts))[1..] == Joined(ts);
    } else if ts == [] && segs != [] {
      SplitFirst(".", "");
      assert "." + "" == ".";
    } else if ts != [] {
      assert ts[0][0] in ts[0];
    }
  }

  /** Normalising is idempotent, on every list of paths and so also on "", "." and "/". */
  lemma NormalizedIdempotent(paths: seq<string>)
    requires paths != []
    ensures Normalized([Normalized(paths)]) == Normalized(paths)
  {
    hide Split, Norm, KindOf;
    var segs, absolute := SplitAll(paths), IsAbsolute(paths[0]);
    SplitAllGivesSegments(paths);
    SplitRender(segs, absolute);
    SplitAllOne(Normalized(paths));
    NormIdempotent(segs, absolute);
    NormOfDot();
    NormOfNothing(absolute);
  }

  lemma NormOfDot()
    ensures Norm(["."], false) == []
  {
    assert Stack(["."], 1, false) == Push(Stack(["."], 0, false), ["."], 0, false);
  }

  lemma NormOfNothing(absolute: bool)
    ensures Norm([], absolute) == []
  {
  }

  /** Where a list of paths leads from a directory: from the root if the first one begins with a slash. */
  function Place(dir: seq<string>, paths: seq<string>): seq<string>
    requires paths != []
  {
    Resolve(if paths[0] != "" && paths[0][0] == '/' then [] else dir, SplitAll(paths))
  }

  lemma NormMeaning(dir: seq<string>, segs: seq<string>, absolute: bool)
    ensures var start := if absolute then [] else dir;
            Resolve(start, Norm(segs, absolute)) == Resolve(start, segs)
  {
    hide Resolve, Texts, Stack, KindOf;
    assert segs[..|segs|] == segs;
    if absolute {
      AbsoluteMeaning(segs, |segs|);
      StackIsCanonical(segs, |segs|, true);
      ResolveNames([], Norm(segs, true));
    } else {
      RelativeMeaning(dir, segs, |segs|);
    }
  }

  /** Normalising preserves meaning: the result leads to the same place from every directory. */
  lemma NormalizedMeaning(dir: seq<string>, paths: seq<string>)
    requires paths != []
    ensures Place(dir, [Normalized(paths)]) == Place(dir, paths)
  {
    hide Split, Norm, KindOf, SplitAll, Resolve;
    var segs, absolute := SplitAll(paths), IsAbsolute(paths[0]);
    SplitAllGivesSegments(paths);
    SplitRender(segs, absolute);
    SplitAllOne(Normalized(paths));
    NormMeaning(dir, segs, absolute);
    ResolveDot(dir);
  }

  lemma ResolveDot(dir: seq<string>)
    ensures Resolve(dir, ["."]) == dir && Resolve(dir, []) == dir
  {
    assert Resolve(dir, ["."]) == Enter(Resolve(dir, []), ".");
  }

  /** Texts of normal forms are equal exactly when the normal forms are, apart from the empty path. */
  lemma RenderInjective(xs: seq<string>, ys: seq<string>, absolute: bool)
    requires AreSegments(xs) && AreSegments(ys)
    requires absolute || (xs != [] && ys != [])
    ensures Render(xs, absolute) == Render(ys, absolute) <==> Norm(xs, absolute) == Norm(ys, absolute)
  {
    hide Split, KindOf, Canonical, Norm;
    SplitRender(xs, absolute);
    SplitRender(ys, absolute);
    NotJustDot(xs, absolute);
    NotJustDot(ys, absolute);
  }

  lemma NotJustDot(segs: seq<string>, absolute: bool)
    ensures Norm(segs, absolute) != ["."]
  {
    NormIsCanonical(segs, absolute);
    assert KindOf(["."][0]).Current?;
  }

  /** A relative path moves with the directory, so it never means what an absolute path means. */
  lemma RelativeIsNotAbsolute(xs: seq<string>, place: seq<string>) returns (dir: seq<string>)
    ensures Resolve(dir, xs) != place
  {
    hide Norm, KindOf, Resolve;
    var ts := Norm(xs, false);
    NormIsCanonical(xs, false);
    CanonicalSplit(ts);
    dir := seq(Backs(ts) + |place| + 1, _ => "a");
    CanonicalResolve(dir, ts);
    NormMeaning(dir, xs, false);
  }

  /** The normalised text decides meaning: two non-empty paths lead to the same place from every directory exactly when
      they normalise to the same text. */
  lemma NormalizedDecidesMeaning(ps: seq<string>, qs: seq<string>)
    requires ps != [] && qs != []
    requires (IsAbsolute(ps[0]) || SplitAll(ps) != []) && (IsAbsolute(qs[0]) || SplitAll(qs) != [])
    ensures (forall dir :: Place(dir, ps) == Place(dir, qs)) <==> Normalized(ps) == Normalized(qs)
  {
    hide Norm, KindOf, Resolve, SplitAll, Render;
    var xs, ys := SplitAll(ps), SplitAll(qs);
    SplitAllGivesSegments(ps);
    SplitAllGivesSegments(qs);
    if IsAbsolute(ps[0]) == IsAbsolute(qs[0]) {
      RenderInjective(xs, ys, IsAbsolute(ps[0]));
      if IsAbsolute(ps[0]) {
        NormIsPlace(xs);
        NormIsPlace(ys);
        assert Place([], ps) == Resolve([], xs) && Place([], qs) == Resolve([], ys);
      } else {
        NormDecidesMeaning(xs, ys);
        assert SameMeaning(xs, ys) <==> forall dir :: Place(dir, ps) == Place(dir, qs) by {
          assert forall dir :: Place(dir, ps) == Resolve(dir, xs) && Place(dir, qs) == Resolve(dir, ys);
        }
      }
    } else {
      SplitRender(xs, IsAbsolute(ps[0]));
      SplitRender(ys, IsAbsolute(qs[0]));
      var dir;
      if IsAbsolute(ps[0]) {
        dir := RelativeIsNotAbsolute(ys, Resolve([], xs));
      } else {
        dir := RelativeIsNotAbsolute(xs, Resolve([], ys));
      }
      assert Place(dir, ps) != Place(dir, qs);
    }
  }

  lemma NormIsPlace(segs: seq<string>)
    ensures Norm(segs, true) == Resolve([], segs)
  {
    AbsoluteMeaning(segs, |segs|);
    assert segs[..|segs|] == segs;
  }

  // ----- what the text looks like

  /** Names: segments other than "." and "..". */
  predicate AreNames(ts: seq<string>) {
    forall i | 0 <= i < |ts| :: IsSegment(ts[i]) && ts[i] != "." && ts[i] != ".."
  }

  lemma NamesAreFixed(ts: seq<string>, absolute: bool)
    requires AreNames(ts)
    ensures Norm(ts, absolute) == ts
  {
    assert Canonical(ts, absolute);
    CanonicalIsFixed(ts, |ts|, absolute);
  }

  /** Paths made of names are joined by putting their names behind each other; no name is lost or changed. */
  lemma NamesJoin(ts: seq<string>, us: seq<string>)
    requires AreNames(ts) && AreNames(us) && us != []
    ensures Normalized(["/" + Joined(ts), Joined(us)]) == "/" + Joined(ts + us)
    ensures Normalized(["/" + Joined(us)]) == "/" + Joined(us)
    ensures Normalized([Joined(us)]) == Joined(us)
  {
    hide Norm, Split, Joined, KindOf;
    SplitJoined(ts);
    SplitJoined(us);
    NamesAreFixed(ts + us, true);
    NamesAreFixed(us, true);
    NamesAreFixed(us, false);
    RootedSplit(Joined(ts));
    RootedSplit(Joined(us));
    SplitAllOne(Joined(us));
    SplitAllOne("/" + Joined(us));
    assert SplitAll(["/" + Joined(ts), Joined(us)]) == Split("/" + Joined(ts)) + SplitAll([Joined(us)]) by {
      assert ["/" + Joined(ts), Joined(us)][1..] == [Joined(us)];
    }
    assert us[0][0] in us[0];
  }

  lemma RootedSplit(p: string)
    ensures Split("/" + p) == Split(p)
  {
    assert ("/" + p)[1..] == p;
  }

  /** No two slashes in a row, and none at the end. */
  ghost predicate Tidy(p: string) {
    && (forall i | 0 <= i < |p| - 1 :: !(p[i] == '/' && p[i + 1] == '/'))
    && (p != "" ==> p[|p| - 1] != '/')
  }

  lemma {:induction false} JoinedIsTidy(ts: seq<string>)
    requires AreSegments(ts)
    ensures Tidy(Joined(ts)) && (ts != [] ==> Joined(ts) != "" && Joined(ts)[0] != '/')
  {
    if ts != [] {
      SegmentIsTidy(ts[0]);
      if |ts| > 1 {
        JoinedIsTidy(ts[1..]);
        TidyJoin(ts[0], Joined(ts[1..]));
      }
    }
  }

  lemma SegmentIsTidy(s: string)
    requires IsSegment(s)
    ensures Tidy(s) && s[0] != '/'
  {
    assert forall i | 0 <= i < |s| :: s[i] in s;
  }

  lemma TidyJoin(p: string, q: string)
    requires Tidy(p) && Tidy(q) && p != "" && q != "" && p[0] != '/' && q[0] != '/'
    ensures var t := p + "/" + q; Tidy(t) && t != "" && t[0] != '/'
  {
    var t := p + "/" + q;
    forall i | 0 <= i < |t| - 1 ensures !(t[i] == '/' && t[i + 1] == '/') {
      if i + 1 < |p| {
        assert t[i] == p[i] && t[i + 1] == p[i + 1];
      } else if i < |p| {
        assert t[i] == p[|p| - 1];
      } else if i == |p| {
        assert t[i + 1] == q[0];
      } else {
        var j := i - |p| - 1;
        assert t[i] == q[j] && t[i + 1] == q[j + 1];
      }
    }
    assert t[|t| - 1] == q[|q| - 1];
  }

  /** A normalised path has no empty segments: apart from a leading slash it is tidy. */
  lemma NormalizedIsTidy(paths: seq<string>)
    requires paths != []
    ensures var t := Normalized(paths);
            if paths[0] != "" && paths[0][0] == '/' then
              t != "" && t[0] == '/' && Tidy(t[1..]) && (|t| > 1 ==> t[1] != '/')
            else Tidy(t) && (t != "" ==> t[0] != '/')
  {
    hide Norm, Split, Joined, KindOf, SplitAll;
    var segs, absolute := SplitAll(paths), IsAbsolute(paths[0]);
    SplitAllGivesSegments(paths);
    NormKeepsSegments(segs, absolute);
    JoinedIsTidy(Norm(segs, absolute));
    assert absolute ==> ("/" + Joined(Norm(segs, absolute)))[1..] == Joined(Norm(segs, absolute));
    JoinedNothing();
  }

  lemma JoinedNothing()
    ensures Joined([]) == ""
  {
  }

  /** The corner cases. */
  lemma NormalizedCorners()
    ensures Normalized([""]) == "" && Normalized(["."]) == "." && Normalized(["/"]) == "/"
    ensures Normalized([".."]) == ".." && Normalized(["/.."]) == "/"
  {
    hide Norm, Split, KindOf;
    SplitAllOne("");
    SplitAllOne(".");
    SplitAllOne("..");
    SplitAllOne("/");
    SplitAllOne("/..");
    SplitSegment(".");
    SplitSegment("..");
    RootedSplit("");
    RootedSplit("..");
    assert "/" + "" == "/" && "/" + ".." == "/..";
    NormOfNothing(false);
    NormOfNothing(true);
    NormOfDot();
    NormOfBack();
  }

  lemma NormOfBack()
    ensures Norm([".."], false) == [".."] && Norm([".."], true) == []
  {
    assert Stack([".."], 1, false) == Push(Stack([".."], 0, false), [".."], 0, false);
    assert Stack([".."], 1, true) == Push(Stack([".."], 0, true), [".."], 0, true);
  }
}
