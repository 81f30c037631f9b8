/** Generic facts about sequences: selection by key, filtering, sums and
    flattening. These stand for JavaScript's `Array.prototype.filter`,
    `push(...xs)` concatenation and numeric reductions. */
module Seqs {

  function Min(a: int, b: int): int {
    if a <= b then a else b
  }

  function Max(a: int, b: int): int {
    if a <= b then b else a
  }

  /** The elements of `xs` satisfying `p`, in their original order. */
  function Filter<T>(xs: seq<T>, p: T -> bool): (r: seq<T>)
    ensures |r| <= |xs|
    ensures forall x :: x in r ==> x in xs && p(x)
    ensures forall x :: x in xs && p(x) ==> x in r
  {
    if xs == [] then []
    else if p(xs[0]) then [xs[0]] + Filter(xs[1..], p)
    else Filter(xs[1..], p)
  }

  lemma {:induction false} FilterAppend<T>(xs: seq<T>, ys: seq<T>, p: T -> bool)
    ensures Filter(xs + ys, p) == Filter(xs, p) + Filter(ys, p)
  {
    if xs == [] {
      assert xs + ys == ys;
    } else {
      assert (xs + ys)[1..] == xs[1..] + ys;
      FilterAppend(xs[1..], ys, p);
    }
  }

  /** A filter that keeps everything is the identity. */
  lemma {:induction false} FilterAll<T>(xs: seq<T>, p: T -> bool)
    requires forall x :: x in xs ==> p(x)
    ensures Filter(xs, p) == xs
  {
    if xs != [] {
      FilterAll(xs[1..], p);
    }
  }

  /** `a` is an order-preserving subsequence of `b`. */
  predicate IsSubsequence<T(==)>(a: seq<T>, b: seq<T>)
    decreases |b|
  {
    if a == [] then true
    else if b == [] then false
    else if a[0] == b[0] then IsSubsequence(a[1..], b[1..])
    else IsSubsequence(a, b[1..])
  }

  lemma {:induction false} FilterIsSubsequence<T>(xs: seq<T>, p: T -> bool)
    ensures IsSubsequence(Filter(xs, p), xs)
  {
    if xs != [] {
      FilterIsSubsequence(xs[1..], p);
    }
  }

  lemma {:induction false} SubsequenceDropHead<T>(a: seq<T>, b: seq<T>)
    requires a != [] && IsSubsequence(a, b)
    ensures IsSubsequence(a[1..], b)
    decreases |b|, 1
  {
    if a[0] == b[0] {
      SubsequenceWeaken(a[1..], b[1..], b[0]);
    } else {
      SubsequenceDropHead(a, b[1..]);
      SubsequenceWeaken(a[1..], b[1..], b[0]);
    }
  }

  lemma {:induction false} SubsequenceWeaken<T>(a: seq<T>, b: seq<T>, x: T)
    requires IsSubsequence(a, b)
    ensures IsSubsequence(a, [x] + b)
    decreases |b|, 2
  {
    assert ([x] + b)[1..] == b;
    if a != [] && a[0] == x {
      SubsequenceDropHead(a, b);
    }
  }

  lemma {:induction false} SubsequenceTransitive<T>(a: seq<T>, b: seq<T>, c: seq<T>)
    requires IsSubsequence(a, b) && IsSubsequence(b, c)
    ensures IsSubsequence(a, c)
    decreases |c|
  {
    if a == [] {
    } else if b[0] == c[0] {
      if a[0] == b[0] {
        SubsequenceTransitive(a[1..], b[1..], c[1..]);
      } else {
        SubsequenceTransitive(a, b[1..], c[1..]);
      }
    } else {
      SubsequenceTransitive(a, b, c[1..]);
      assert c == [c[0]] + c[1..];
      SubsequenceWeaken(a, c[1..], c[0]);
    }
  }

  lemma {:induction false} SubsequenceReflexive<T>(a: seq<T>)
    ensures IsSubsequence(a, a)
  {
    if a != [] {
      SubsequenceReflexive(a[1..]);
    }
  }

  /** The elements of `xs` whose key is `k`, in their original order. */
  function Select<T, K(==)>(xs: seq<T>, key: T -> K, k: K): (r: seq<T>)
    ensures |r| <= |xs|
  {
    if xs == [] then []
    else Select(xs[..|xs| - 1], key, k) + (if key(xs[|xs| - 1]) == k then [xs[|xs| - 1]] else [])
  }

  lemma SelectSnoc<T, K>(xs: seq<T>, x: T, key: T -> K, k: K)
    ensures Select(xs + [x], key, k) == Select(xs, key, k) + (if key(x) == k then [x] else [])
  {
    assert (xs + [x])[..|xs|] == xs;
  }

  lemma {:induction false} SelectAppend<T, K>(xs: seq<T>, ys: seq<T>, key: T -> K, k: K)
    ensures Select(xs + ys, key, k) == Select(xs, key, k) + Select(ys, key, k)
    decreases |ys|
  {
    if ys == [] {
      assert xs + ys == xs;
    } else {
      var n := |ys| - 1;
      assert xs + ys == (xs + ys[..n]) + [ys[n]];
      SelectSnoc(xs + ys[..n], ys[n], key, k);
      SelectAppend(xs, ys[..n], key, k);
      assert ys == ys[..n] + [ys[n]];
      SelectSnoc(ys[..n], ys[n], key, k);
    }
  }

  lemma SelectSingle<T, K>(x: T, key: T -> K, k: K)
    ensures Select([x], key, k) == (if key(x) == k then [x] else [])
  {
    assert [x][..0] == [];
  }

  lemma SelectCons<T, K>(x: T, xs: seq<T>, key: T -> K, k: K)
    ensures Select([x] + xs, key, k) == (if key(x) == k then [x] else []) + Select(xs, key, k)
  {
    SelectAppend([x], xs, key, k);
    SelectSingle(x, key, k);
  }

  /** Everything selected carries the key and comes from the sequence. */
  lemma {:induction false} SelectMembers<T, K>(xs: seq<T>, key: T -> K, k: K)
    ensures forall x :: x in Select(xs, key, k) ==> x in xs && key(x) == k
  {
    if xs != [] {
      var n := |xs| - 1;
      SelectMembers(xs[..n], key, k);
      assert xs == xs[..n] + [xs[n]];
    }
  }

  /** A key that no element carries selects nothing. */
  lemma {:induction false} SelectAbsent<T, K>(xs: seq<T>, key: T -> K, k: K)
    requires forall i :: 0 <= i < |xs| ==> key(xs[i]) != k
    ensures Select(xs, key, k) == []
  {
    if xs != [] {
      SelectAbsent(xs[..|xs| - 1], key, k);
    }
  }

  lemma {:induction false} SelectPresent<T, K>(xs: seq<T>, key: T -> K, i: nat)
    requires i < |xs|
    ensures xs[i] in Select(xs, key, key(xs[i]))
  {
    var n := |xs| - 1;
    if i < n {
      SelectPresent(xs[..n], key, i);
    }
  }

  function Sum(xs: seq<nat>): nat {
    if xs == [] then 0 else Sum(xs[..|xs| - 1]) + xs[|xs| - 1]
  }

  lemma {:induction false} SumAppend(xs: seq<nat>, ys: seq<nat>)
    ensures Sum(xs + ys) == Sum(xs) + Sum(ys)
    decreases |ys|
  {
    if ys == [] {
      assert xs + ys == xs;
    } else {
      var n := |ys| - 1;
      assert (xs + ys)[..|xs + ys| - 1] == xs + ys[..n];
      SumAppend(xs, ys[..n]);
    }
  }

  function Flatten<T>(xss: seq<seq<T>>): seq<T> {
    if xss == [] then [] else xss[0] + Flatten(xss[1..])
  }

  lemma {:induction false} FlattenAppend<T>(xss: seq<seq<T>>, yss: seq<seq<T>>)
    ensures Flatten(xss + yss) == Flatten(xss) + Flatten(yss)
  {
    if xss == [] {
      assert xss + yss == yss;
    } else {
      assert (xss + yss)[1..] == xss[1..] + yss;
      FlattenAppend(xss[1..], yss);
    }
  }

  /** No value occurs twice. */
  predicate Distinct<T(==)>(xs: seq<T>) {
    forall i, j :: 0 <= i < j < |xs| ==> xs[i] != xs[j]
  }

  /** The largest element of a non-empty sequence. */
  function MaxOf(xs: seq<nat>): (m: nat)
    requires |xs| > 0
    ensures m in xs
    ensures forall i :: 0 <= i < |xs| ==> xs[i] <= m
  {
    if |xs| == 1 then xs[0] else Max(xs[0], MaxOf(xs[1..]))
  }
}
