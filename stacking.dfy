// Stacking order of the pages: a sequence of page indices, bottom first.
// Raising a page moves it to the end (top), lowering moves it to the front.

module Stacking {

  /** The pages 0 .. n-1 in index order. */
  function Pages(n: nat): (r: seq<int>)
    ensures |r| == n
    ensures forall i :: 0 <= i < n ==> r[i] == i
  {
    seq(n, i => i)
  }

  /** `z` is a stacking order of n pages: every page exactly once. */
  ghost predicate IsOrder(z: seq<int>, n: nat)
  {
    |z| == n && multiset(z) == multiset(Pages(n))
  }

  /** `z` with every occurrence of page p taken out. */
  function Without(z: seq<int>, p: int): seq<int>
  {
    if z == [] then []
    else (if z[0] == p then [] else [z[0]]) + Without(z[1..], p)
  }

  function Raise(z: seq<int>, p: int): seq<int> { Without(z, p) + [p] }

  function Lower(z: seq<int>, p: int): seq<int> { [p] + Without(z, p) }

  /** Raise the lower-numbered page of the pair, then the higher-numbered one,
      which is what a loop over the pages in index order does. */
  function RaisePair(z: seq<int>, a: int, b: int): seq<int>
  {
    if a <= b then Raise(Raise(z, a), b) else Raise(Raise(z, b), a)
  }

  /** The stacking after a transition starts: the pair raised, and a third
      page t, when there is one, lowered to the bottom. */
  function RaisePairOver(z: seq<int>, a: int, b: int, t: int): seq<int>
  {
    if t != a && t != b then RaisePair(Lower(z, t), a, b) else RaisePair(z, a, b)
  }

  lemma {:induction false} WithoutMultiset(z: seq<int>, p: int)
    ensures multiset(Without(z, p)) == multiset(z)[p := 0]
  {
    if z != [] {
      WithoutMultiset(z[1..], p);
      assert z == [z[0]] + z[1..];
      assert multiset(z) == multiset([z[0]]) + multiset(z[1..]);
    }
  }

  lemma {:induction false} WithoutLength(z: seq<int>, p: int)
    ensures |Without(z, p)| == |z| - multiset(z)[p]
  {
    if z != [] {
      WithoutLength(z[1..], p);
      assert z == [z[0]] + z[1..];
      assert multiset(z) == multiset([z[0]]) + multiset(z[1..]);
    }
  }

  lemma {:induction false} WithoutConcat(a: seq<int>, b: seq<int>, p: int)
    ensures Without(a + b, p) == Without(a, p) + Without(b, p)
  {
    if a != [] {
      assert (a + b)[1..] == a[1..] + b;
      WithoutConcat(a[1..], b, p);
    } else {
      assert a + b == b;
    }
  }

  lemma {:induction false} WithoutCommutes(z: seq<int>, p: int, q: int)
    ensures Without(Without(z, p), q) == Without(Without(z, q), p)
  {
    if z != [] {
      WithoutCommutes(z[1..], p, q);
      var h := if z[0] == p then [] else [z[0]];
      WithoutConcat(h, Without(z[1..], p), q);
      var k := if z[0] == q then [] else [z[0]];
      WithoutConcat(k, Without(z[1..], q), p);
    }
  }

  lemma {:induction false} WithoutIdempotent(z: seq<int>, p: int)
    ensures Without(Without(z, p), p) == Without(z, p)
  {
    if z != [] {
      WithoutIdempotent(z[1..], p);
      var h := if z[0] == p then [] else [z[0]];
      WithoutConcat(h, Without(z[1..], p), p);
    }
  }

  lemma PagesOnce(n: nat, p: int)
    ensures multiset(Pages(n))[p] == if 0 <= p < n then 1 else 0
  {
    var s := Pages(n);
    if 0 <= p < n {
      assert s == s[..p] + [p] + s[p+1..];
      assert p !in s[..p] && p !in s[p+1..];
      assert multiset(s) == multiset(s[..p]) + multiset{p} + multiset(s[p+1..]);
    } else {
      assert p !in s;
    }
  }

  /** Raising a page of the stack keeps it a stacking order of the same pages. */
  lemma RaiseIsOrder(z: seq<int>, n: nat, p: int)
    requires IsOrder(z, n) && 0 <= p < n
    ensures IsOrder(Raise(z, p), n)
  {
    WithoutMultiset(z, p);
    WithoutLength(z, p);
    PagesOnce(n, p);
    assert multiset(Raise(z, p)) == multiset(z)[p := 0] + multiset{p};
  }

  /** Lowering a page of the stack keeps it a stacking order of the same pages. */
  lemma LowerIsOrder(z: seq<int>, n: nat, p: int)
    requires IsOrder(z, n) && 0 <= p < n
    ensures IsOrder(Lower(z, p), n)
  {
    WithoutMultiset(z, p);
    WithoutLength(z, p);
    PagesOnce(n, p);
    assert multiset(Lower(z, p)) == multiset{p} + multiset(z)[p := 0];
  }

  lemma RaisePairIsOrder(z: seq<int>, n: nat, a: int, b: int)
    requires IsOrder(z, n) && 0 <= a < n && 0 <= b < n
    ensures IsOrder(RaisePair(z, a, b), n)
  {
    if a <= b {
      RaiseIsOrder(z, n, a);
      RaiseIsOrder(Raise(z, a), n, b);
    } else {
      RaiseIsOrder(z, n, b);
      RaiseIsOrder(Raise(z, b), n, a);
    }
  }

  lemma RaisePairOverIsOrder(z: seq<int>, n: nat, a: int, b: int, t: int)
    requires IsOrder(z, n) && 0 <= a < n && 0 <= b < n && 0 <= t < n
    ensures IsOrder(RaisePairOver(z, a, b, t), n)
  {
    if t != a && t != b {
      LowerIsOrder(z, n, t);
      RaisePairIsOrder(Lower(z, t), n, a, b);
    } else {
      RaisePairIsOrder(z, n, a, b);
    }
  }

  /** The stacking of a starting slide: a permutation with the pair on top in
      index order and, when t is a third page, t at the bottom. */
  lemma RaisePairOverShape(z: seq<int>, n: nat, a: int, b: int, t: int)
    requires IsOrder(z, n) && 0 <= a < n && 0 <= b < n && 0 <= t < n
    ensures var r := RaisePairOver(z, a, b, t);
      IsOrder(r, n)
      && r[n - 1] == (if a <= b then b else a)
      && (a != b ==> r[n - 2] == (if a <= b then a else b))
      && (t != a && t != b ==> r[0] == t)
  {
    var w := if t != a && t != b then Lower(z, t) else z;
    var r := RaisePair(w, a, b);
    assert RaisePairOver(z, a, b, t) == r;
    RaisePairOverIsOrder(z, n, a, b, t);
    assert |r| == n;
    RaisePairTop(w, a, b);
    if t != a && t != b {
      RaisePairKeepsBottom(w, a, b, t);
    }
  }

  /** Raising the same page twice is raising it once. */
  lemma {:induction false} RaiseIdempotent(z: seq<int>, p: int)
    ensures Raise(Raise(z, p), p) == Raise(z, p)
  {
    WithoutConcat(Without(z, p), [p], p);
    WithoutIdempotent(z, p);
  }

  /** Lowering the same page twice is lowering it once. */
  lemma {:induction false} LowerIdempotent(z: seq<int>, p: int)
    ensures Lower(Lower(z, p), p) == Lower(z, p)
  {
    var w := Without(z, p);
    assert [p][1..] == [];
    assert Without([p], p) == [];
    WithoutConcat([p], w, p);
    WithoutIdempotent(z, p);
    assert Without([p] + w, p) == w;
  }

  /** Raising one page and lowering another can be done in either order. */
  lemma RaiseLowerCommute(z: seq<int>, p: int, t: int)
    requires p != t
    ensures Lower(Raise(z, p), t) == Raise(Lower(z, t), p)
  {
    WithoutConcat(Without(z, p), [p], t);
    WithoutConcat([t], Without(z, t), p);
    WithoutCommutes(z, p, t);
  }

  /** The page raised last is on top, and the page that was on top before,
      if it is another page, is right below it. */
  lemma RaiseTop(z: seq<int>, p: int)
    ensures |Raise(z, p)| >= 1 && Raise(z, p)[|Raise(z, p)| - 1] == p
    ensures |z| >= 1 && z[|z| - 1] != p ==>
      |Raise(z, p)| >= 2 && Raise(z, p)[|Raise(z, p)| - 2] == z[|z| - 1]
  {
    if |z| >= 1 && z[|z| - 1] != p {
      assert z == z[..|z| - 1] + [z[|z| - 1]];
      WithoutConcat(z[..|z| - 1], [z[|z| - 1]], p);
    }
  }

  /** After raising a pair of pages the higher-numbered one is on top and, when
      they differ, the lower-numbered one is directly below it. */
  lemma RaisePairTop(z: seq<int>, a: int, b: int)
    ensures var r := RaisePair(z, a, b);
      |r| >= 1 && r[|r| - 1] == (if a <= b then b else a)
      && (a != b ==> |r| >= 2 && r[|r| - 2] == (if a <= b then a else b))
  {
    var lo, hi := if a <= b then a else b, if a <= b then b else a;
    RaiseTop(z, lo);
    RaiseTop(Raise(z, lo), hi);
  }

  /** Raising a different page leaves a lowered page at the bottom. */
  lemma RaiseKeepsBottom(z: seq<int>, p: int, t: int)
    requires |z| >= 1 && z[0] == t && t != p
    ensures Raise(z, p)[0] == t
  {
    assert z == [t] + z[1..];
    WithoutConcat([t], z[1..], p);
  }

  lemma RaisePairKeepsBottom(z: seq<int>, a: int, b: int, t: int)
    requires |z| >= 1 && z[0] == t && t != a && t != b
    ensures |RaisePair(z, a, b)| >= 1 && RaisePair(z, a, b)[0] == t
  {
    var lo, hi := if a <= b then a else b, if a <= b then b else a;
    RaiseKeepsBottom(z, lo, t);
    RaiseKeepsBottom(Raise(z, lo), hi, t);
  }

  /** What a loop over the pages below i that raises page p has done so far. */
  function RaiseIfBelow(z: seq<int>, p: int, i: int): seq<int>
  {
    if p < i then Raise(z, p) else z
  }

  /** What a loop over the pages below i that lowers page t has done so far. */
  function LowerIfBelow(z: seq<int>, t: int, i: int): seq<int>
  {
    if t < i then Lower(z, t) else z
  }

  lemma LowerPastRaiseIfBelow(x: seq<int>, p: int, i: int, t: int)
    requires p != t
    ensures Lower(RaiseIfBelow(x, p, i), t) == RaiseIfBelow(Lower(x, t), p, i)
  {
    if p < i {
      RaiseLowerCommute(x, p, t);
    }
  }

  /** Lowering t again after the pair was raised over a stack with t already
      at the bottom changes nothing. */
  lemma LowerAfterPair(z: seq<int>, a: int, b: int, t: int)
    requires t != a && t != b
    ensures Lower(RaisePair(Lower(z, t), a, b), t) == RaisePair(Lower(z, t), a, b)
  {
    var lo, hi := if a <= b then a else b, if a <= b then b else a;
    var y := Lower(z, t);
    RaiseLowerCommute(Raise(y, lo), hi, t);
    RaiseLowerCommute(y, lo, t);
    LowerIdempotent(z, t);
  }

  /** One step of a loop over the pages in index order that raises pages lo and hi. */
  lemma RaisePairStep(z: seq<int>, lo: int, hi: int, i: int)
    requires lo <= hi
    ensures var x := RaiseIfBelow(RaiseIfBelow(z, lo, i), hi, i);
      var y := RaiseIfBelow(RaiseIfBelow(z, lo, i + 1), hi, i + 1);
      (i == lo || i == hi ==> Raise(x, i) == y) && (i != lo && i != hi ==> x == y)
  {
    if i == lo && lo == hi {
      RaiseIdempotent(z, i);
    }
  }

  /** The step of such a loop that lowers page t, another page than lo and hi. */
  lemma LowerStep(z: seq<int>, lo: int, hi: int, t: int)
    requires t != lo && t != hi
    ensures Lower(RaiseIfBelow(RaiseIfBelow(z, lo, t), hi, t), t)
      == RaiseIfBelow(RaiseIfBelow(Lower(z, t), lo, t + 1), hi, t + 1)
  {
    LowerPastRaiseIfBelow(RaiseIfBelow(z, lo, t), hi, t, t);
    LowerPastRaiseIfBelow(z, lo, t, t);
  }
}
