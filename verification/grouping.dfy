/** Grouping by key in first-appearance order: the pattern
    `if (!m.has(k)) m.set(k, []); m.get(k).push(x)` over a JavaScript `Map`
    (or a plain object whose keys are not integer-like). */
module Grouping {
  import opened Seqs

  datatype Group<K, T> = Group(key: K, members: seq<T>)

  function Keys<K, T>(gs: seq<Group<K, T>>): (ks: seq<K>)
    ensures |ks| == |gs|
    ensures forall i :: 0 <= i < |gs| ==> ks[i] == gs[i].key
  {
    seq(|gs|, i requires 0 <= i < |gs| => gs[i].key)
  }

  function Sizes<K, T>(gs: seq<Group<K, T>>): (ns: seq<nat>)
    ensures |ns| == |gs|
    ensures forall i :: 0 <= i < |gs| ==> ns[i] == |gs[i].members|
  {
    seq(|gs|, i requires 0 <= i < |gs| => |gs[i].members|)
  }

  /** The distinct values of `ks`, each at its first occurrence. */
  function FirstOccurrences<K(==)>(ks: seq<K>): (r: seq<K>)
    ensures Distinct(r)
    ensures forall i :: 0 <= i < |ks| ==> ks[i] in r
    ensures forall i :: 0 <= i < |r| ==> r[i] in ks
  {
    if ks == [] then []
    else
      var n := |ks| - 1;
      var r := FirstOccurrences(ks[..n]);
      assert ks == ks[..n] + [ks[n]];
      if ks[n] in r then r else r + [ks[n]]
  }

  function KeysOf<T, K>(xs: seq<T>, key: T -> K): (ks: seq<K>)
    ensures |ks| == |xs|
    ensures forall i :: 0 <= i < |xs| ==> ks[i] == key(xs[i])
  {
    seq(|xs|, i requires 0 <= i < |xs| => key(xs[i]))
  }

  predicate HasKey<K(==), T>(gs: seq<Group<K, T>>, k: K) {
    exists i :: 0 <= i < |gs| && gs[i].key == k
  }

  /** Appends `x` to the group keyed `k`, or opens that group at the end. */
  function AddTo<K(==), T>(gs: seq<Group<K, T>>, k: K, x: T): (r: seq<Group<K, T>>)
    ensures |r| == if HasKey(gs, k) then |gs| else |gs| + 1
  {
    if gs == [] then [Group(k, [x])]
    else if gs[0].key == k then [Group(k, gs[0].members + [x])] + gs[1..]
    else
      assert HasKey(gs, k) ==> HasKey(gs[1..], k) by {
        if HasKey(gs, k) {
          var i :| 0 <= i < |gs| && gs[i].key == k;
          assert gs[1..][i - 1].key == k;
        }
      }
      assert HasKey(gs[1..], k) ==> HasKey(gs, k) by {
        if HasKey(gs[1..], k) {
          var i :| 0 <= i < |gs| - 1 && gs[1..][i].key == k;
          assert gs[i + 1].key == k;
        }
      }
      [gs[0]] + AddTo(gs[1..], k, x)
  }

  /** What `AddTo` does to each group: only the group keyed `k` grows,
      and a new key opens a group at the end. */
  ghost predicate AddedTo<K, T>(gs: seq<Group<K, T>>, k: K, x: T, r: seq<Group<K, T>>) {
    && |r| == (if HasKey(gs, k) then |gs| else |gs| + 1)
    && (forall i :: 0 <= i < |gs| ==>
         r[i] == Group(gs[i].key, gs[i].members + (if gs[i].key == k then [x] else [])))
    && (!HasKey(gs, k) ==> r[|gs|] == Group(k, [x]))
  }

  lemma {:induction false} AddToShape<K, T>(gs: seq<Group<K, T>>, k: K, x: T)
    requires Distinct(Keys(gs))
    ensures var r := AddTo(gs, k, x);
      && (forall i :: 0 <= i < |gs| ==>
           r[i] == Group(gs[i].key, gs[i].members + (if gs[i].key == k then [x] else [])))
      && (!HasKey(gs, k) ==> r[|gs|] == Group(k, [x]))
  {
    assert AddedTo(gs, k, x, AddTo(gs, k, x)) by {
      if gs == [] {
        assert AddTo(gs, k, x) == [Group(k, [x])];
      } else if gs[0].key == k {
        AddToFirst(gs, k, x);
      } else {
        var g1 := gs[1..];
        assert Distinct(Keys(g1)) by {
          forall i, j | 0 <= i < j < |g1| ensures Keys(g1)[i] != Keys(g1)[j] {
            assert Keys(gs)[i + 1] != Keys(gs)[j + 1];
          }
        }
        assert AddedTo(g1, k, x, AddTo(g1, k, x)) by {
          AddToShape(g1, k, x);
        }
        assert AddTo(gs, k, x) == [gs[0]] + AddTo(g1, k, x);
        AddToLater(gs, k, x, AddTo(g1, k, x), AddTo(gs, k, x));
      }
    }
  }

  lemma AddToFirst<K, T>(gs: seq<Group<K, T>>, k: K, x: T)
    requires Distinct(Keys(gs)) && gs != [] && gs[0].key == k
    ensures AddedTo(gs, k, x, AddTo(gs, k, x))
  {
    var r := AddTo(gs, k, x);
    assert r == [Group(k, gs[0].members + [x])] + gs[1..];
    assert HasKey(gs, k) by {
      assert gs[0].key == k;
    }
    forall i | 0 <= i < |gs| ensures r[i] == Group(gs[i].key, gs[i].members + (if gs[i].key == k then [x] else [])) {
      if i > 0 {
        assert Keys(gs)[0] != Keys(gs)[i];
        assert r[i] == gs[1..][i - 1] == gs[i];
      }
    }
  }

  lemma AddToLater<K, T>(gs: seq<Group<K, T>>, k: K, x: T, t: seq<Group<K, T>>, r: seq<Group<K, T>>)
    requires gs != [] && gs[0].key != k
    requires AddedTo(gs[1..], k, x, t) && r == [gs[0]] + t
    ensures AddedTo(gs, k, x, r)
  {
    var g1 := gs[1..];
    HasKeyTail(gs, k);
    forall i | 0 <= i < |gs| ensures r[i] == Group(gs[i].key, gs[i].members + (if gs[i].key == k then [x] else [])) {
      if i > 0 {
        assert r[i] == t[i - 1] && g1[i - 1] == gs[i];
      }
    }
    if !HasKey(gs, k) {
      assert r[|gs|] == t[|g1|];
    }
  }

  /** A key other than the first one's is in the groups iff it is in the rest. */
  lemma HasKeyTail<K, T>(gs: seq<Group<K, T>>, k: K)
    requires gs != [] && gs[0].key != k
    ensures HasKey(gs[1..], k) <==> HasKey(gs, k)
  {
    var g1 := gs[1..];
    if HasKey(g1, k) {
      var i :| 0 <= i < |g1| && g1[i].key == k;
      assert gs[i + 1].key == k;
    }
    if HasKey(gs, k) {
      var i :| 0 <= i < |gs| && gs[i].key == k;
      assert g1[i - 1].key == k;
    }
  }

  lemma {:induction false} AddToSum<K, T>(gs: seq<Group<K, T>>, k: K, x: T)
    ensures Sum(Sizes(AddTo(gs, k, x))) == Sum(Sizes(gs)) + 1
  {
    var r := AddTo(gs, k, x);
    if gs == [] {
      assert Sizes(r) == [1];
    } else if gs[0].key == k {
      assert Sizes(r) == [|gs[0].members| + 1] + Sizes(gs[1..]);
      assert Sizes(gs) == [|gs[0].members|] + Sizes(gs[1..]);
      SumAppend([|gs[0].members| + 1], Sizes(gs[1..]));
      SumAppend([|gs[0].members|], Sizes(gs[1..]));
    } else {
      var t := AddTo(gs[1..], k, x);
      AddToSum(gs[1..], k, x);
      assert Sizes(r) == [|gs[0].members|] + Sizes(t);
      assert Sizes(gs) == [|gs[0].members|] + Sizes(gs[1..]);
      SumAppend([|gs[0].members|], Sizes(t));
      SumAppend([|gs[0].members|], Sizes(gs[1..]));
    }
  }

  lemma KeysMembership<K, T>(gs: seq<Group<K, T>>, k: K)
    ensures HasKey(gs, k) <==> k in Keys(gs)
  {
    if k in Keys(gs) {
      var i :| 0 <= i < |gs| && Keys(gs)[i] == k;
      assert gs[i].key == k;
    }
  }

  /** Grouping invariant: `gs` is the grouping of `xs` by `key`. */
  ghost predicate IsGrouping<T, K>(xs: seq<T>, key: T -> K, gs: seq<Group<K, T>>) {
    && Distinct(Keys(gs))
    && Keys(gs) == FirstOccurrences(KeysOf(xs, key))
    && (forall i :: 0 <= i < |gs| ==> gs[i].members == Select(xs, key, gs[i].key))
    && (forall i :: 0 <= i < |gs| ==> gs[i].members != [])
    && Sum(Sizes(gs)) == |xs|
  }

  lemma StepKeys<T, K>(xs: seq<T>, x: T, key: T -> K, g: seq<Group<K, T>>)
    requires IsGrouping(xs, key, g)
    ensures var r := AddTo(g, key(x), x);
      Distinct(Keys(r)) && Keys(r) == FirstOccurrences(KeysOf(xs + [x], key))
  {
    var r := AddTo(g, key(x), x);
    var ks := KeysOf(xs + [x], key);
    var f := Keys(g);
    assert FirstOccurrences(ks) == if key(x) in f then f else f + [key(x)] by {
      assert ks[..|xs|] == KeysOf(xs, key);
      FirstOccurrencesSnoc(ks);
    }
    assert Keys(r) == if key(x) in f then f else f + [key(x)] by {
      assert AddedTo(g, key(x), x, r) by {
        AddToShape(g, key(x), x);
      }
      AddedToKeys(g, key(x), x, r);
      KeysMembership(g, key(x));
    }
  }

  /** Adding to the groups keeps their keys, or appends the new key. */
  lemma AddedToKeys<K, T>(gs: seq<Group<K, T>>, k: K, x: T, r: seq<Group<K, T>>)
    requires AddedTo(gs, k, x, r)
    ensures Keys(r) == if HasKey(gs, k) then Keys(gs) else Keys(gs) + [k]
  {
    var expected := if HasKey(gs, k) then Keys(gs) else Keys(gs) + [k];
    forall i | 0 <= i < |expected| ensures Keys(r)[i] == expected[i] {
      if i < |gs| {
        assert r[i].key == gs[i].key;
      }
    }
  }

  lemma FirstOccurrencesSnoc<K>(ks: seq<K>)
    requires ks != []
    ensures var n := |ks| - 1; var f := FirstOccurrences(ks[..n]);
      FirstOccurrences(ks) == if ks[n] in f then f else f + [ks[n]]
  {
  }

  lemma StepMembers<T, K>(xs: seq<T>, x: T, key: T -> K, g: seq<Group<K, T>>, i: nat)
    requires IsGrouping(xs, key, g)
    requires i < |AddTo(g, key(x), x)|
    ensures var r := AddTo(g, key(x), x);
      r[i].members == Select(xs + [x], key, r[i].key) && r[i].members != []
  {
    var r := AddTo(g, key(x), x);
    AddToShape(g, key(x), x);
    SelectSnoc(xs, x, key, r[i].key);
    if i == |g| {
      KeysMembership(g, key(x));
      forall j | 0 <= j < |xs| ensures key(xs[j]) != key(x) {
        assert KeysOf(xs, key)[j] == key(xs[j]);
      }
      SelectAbsent(xs, key, key(x));
    }
  }

  lemma GroupingStep<T, K>(xs: seq<T>, x: T, key: T -> K, g: seq<Group<K, T>>)
    requires IsGrouping(xs, key, g)
    ensures IsGrouping(xs + [x], key, AddTo(g, key(x), x))
  {
    var r := AddTo(g, key(x), x);
    StepKeys(xs, x, key, g);
    AddToSum(g, key(x), x);
    forall i | 0 <= i < |r| ensures r[i].members == Select(xs + [x], key, r[i].key) && r[i].members != [] {
      StepMembers(xs, x, key, g, i);
    }
  }

  lemma GroupingLast<T, K>(xs: seq<T>, key: T -> K, g: seq<Group<K, T>>)
    requires xs != [] && IsGrouping(xs[..|xs| - 1], key, g)
    ensures IsGrouping(xs, key, AddTo(g, key(xs[|xs| - 1]), xs[|xs| - 1]))
  {
    var n := |xs| - 1;
    assert xs[..n] + [xs[n]] == xs;
    GroupingStep(xs[..n], xs[n], key, g);
  }

  /** Groups `xs` by `key`: one group per distinct key, in order of first
      appearance, each holding exactly the elements with that key in input
      order. */
  function GroupBy<T, K(==)>(xs: seq<T>, key: T -> K): (gs: seq<Group<K, T>>)
    ensures IsGrouping(xs, key, gs)
  {
    if xs == [] then []
    else
      var n := |xs| - 1;
      var g := GroupBy(xs[..n], key);
      GroupingLast(xs, key, g);
      AddTo(g, key(xs[n]), xs[n])
  }

  /** Every element lands in the group of its key. */
  lemma GroupByCovers<T, K>(xs: seq<T>, key: T -> K, j: nat)
    requires j < |xs|
    ensures key(xs[j]) in Keys(GroupBy(xs, key))
  {
    assert KeysOf(xs, key)[j] == key(xs[j]);
  }
}
