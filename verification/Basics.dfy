/** What several parts of the runtime share: machine words, optional values, and the contents of a ring buffer. */
module Basics {

  datatype Option<T> = None | Some(value: T)

  /** The number of values of a 64-bit word. */
  const WORD: nat := 0x1_0000_0000_0000_0000

  function Min(x: int, y: int): int { if x <= y then x else y }

  function Max(x: int, y: int): int { if x <= y then y else x }

  // ----- division

  lemma SmallMultiple(k: int, p: int)
    requires 0 < p && -p < k * p < p
    ensures k == 0
  {
  }

  lemma DivideBack(q: nat, p: nat, r: nat)
    requires r < p
    ensures (q * p + r) / p == q && (q * p + r) % p == r
  {
    var x := q * p + r;
    var d, m := x / p, x % p;
    assert x == d * p + m;
    assert (d - q) * p == r - m;
    SmallMultiple(d - q, p);
  }

  lemma Scaled(d: nat, a: nat, b: nat)
    requires a <= b
    ensures d * a <= d * b
  {
    var e := b - a;
    assert d * (a + e) == d * a + d * e;
  }

  lemma DivMod(x: nat, p: nat)
    requires 0 < p
    ensures x == x / p * p + x % p
  {
  }

  lemma SmallMod(x: nat, p: nat)
    requires x < p
    ensures x % p == x && x / p == 0
  {
    DivideBack(0, p, x);
  }

  // ----- rings

  /** The elements of a ring that starts at `head`. */
  function Around<T>(b: seq<T>, head: nat, n: nat): seq<T>
    requires head < |b| && n <= |b|
  {
    if head + n <= |b| then b[head..head + n] else b[head..] + b[..head + n - |b|]
  }

  /** A position moved on by `c` in a ring of `cap` cells. */
  function Ahead(cap: nat, pos: nat, c: nat): (r: nat)
    requires pos < cap && c <= cap
    ensures r < cap
  {
    if pos + c < cap then pos + c else pos + c - cap
  }

  lemma WrapOnce(cap: nat, pos: nat, c: nat)
    requires pos < cap && c <= cap
    ensures (pos + c) % cap == Ahead(cap, pos, c)
  {
    DivideBack(0, cap, Ahead(cap, pos, c));
    DivideBack(1, cap, Ahead(cap, pos, c));
  }

  /** A chunk up to the end of the ring is the front of its contents. */
  lemma AroundTake<T>(b: seq<T>, head: nat, n: nat, c: nat)
    requires head < |b| && n <= |b| && c <= n && head + c <= |b|
    ensures Around(b, head, n) == b[head..head + c] + Around(b, Ahead(|b|, head, c), n - c)
  {
    var x, next := b[head..head + c], Ahead(|b|, head, c);
    if head + n <= |b| {
      assert Around(b, head, n) == b[head..head + n];
      if head + c < |b| {
        assert Around(b, next, n - c) == b[head + c..head + n];
      } else {
        assert Around(b, next, n - c) == [];
      }
    } else {
      var z := b[..head + n - |b|];
      assert b[head..] == x + b[head + c..];
      if head + c < |b| {
        assert Around(b, next, n - c) == b[head + c..] + z;
        assert (x + b[head + c..]) + z == x + (b[head + c..] + z);
      } else {
        assert Around(b, next, n - c) == z;
      }
    }
  }

  /** A chunk written behind the contents, up to the end of the ring, extends them. */
  lemma AroundPut<T>(b: seq<T>, b': seq<T>, head: nat, n: nat, x: seq<T>)
    requires |b| == |b'| && head < |b| && n + |x| <= |b|
    requires var w := Ahead(|b|, head, n); w + |x| <= |b| && b' == b[..w] + x + b[w + |x|..]
    ensures Around(b', head, n + |x|) == Around(b, head, n) + x
  {
    var w := Ahead(|b|, head, n);
    if head + n < |b| {
      assert b'[head..w + |x|] == b[head..w] + x;
    } else {
      assert b'[..w + |x|] == b[..w] + x;
      assert b'[head..] == b[head..];
    }
  }

  lemma AroundPush<T>(b: seq<T>, head: nat, n: nat, x: T)
    requires head < |b| && n < |b|
    ensures Around(b[Ahead(|b|, head, n) := x], head, n + 1) == Around(b, head, n) + [x]
  {
    var w := Ahead(|b|, head, n);
    assert b[w := x] == b[..w] + [x] + b[w + 1..];
    AroundPut(b, b[w := x], head, n, [x]);
  }

  /** The elements of a ring are the first of all its cells. */
  lemma AroundAll<T>(b: seq<T>, head: nat, n: nat)
    requires head < |b| && n <= |b|
    ensures |Around(b, head, |b|)| == |b| && Around(b, head, n) == Around(b, head, |b|)[..n]
  {
    assert Around(b, head, |b|) == b[head..] + b[..head];
  }

  /** Writing the cell at offset `j` changes that element. */
  lemma AroundSet<T>(b: seq<T>, head: nat, j: nat, x: T)
    requires head < |b| && j < |b|
    ensures |Around(b, head, |b|)| == |b|
    ensures Around(b[Ahead(|b|, head, j) := x], head, |b|) == Around(b, head, |b|)[j := x]
  {
    var w := Ahead(|b|, head, j);
    var c := b[w := x];
    assert Around(b, head, |b|) == b[head..] + b[..head] && Around(c, head, |b|) == c[head..] + c[..head];
  }

  lemma AroundPopBack<T>(b: seq<T>, head: nat, n: nat)
    requires head < |b| && 0 < n <= |b|
    ensures Around(b, head, n) == Around(b, head, n - 1) + [b[Ahead(|b|, head, n - 1)]]
  {
    var w := Ahead(|b|, head, n - 1);
    assert b[w := b[w]] == b;
    AroundPush(b, head, n - 1, b[w]);
  }
}
