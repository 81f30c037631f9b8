/** Stable sorting by an integer key, the behaviour ECMAScript 2019 and
    later guarantee for `Array.prototype.sort` with a comparator
    `(a, b) => key(a) - key(b)`. Stability is stated as: for every key,
    the elements carrying that key keep their relative order. */
module StableSort {
  import opened Seqs

  predicate Sorted<T>(xs: seq<T>, key: T -> int) {
    forall i, j :: 0 <= i < j < |xs| ==> key(xs[i]) <= key(xs[j])
  }

  /** Places `x` after every leading element whose key is at most key(x). */
  function Insert<T>(x: T, s: seq<T>, key: T -> int): (r: seq<T>)
    ensures multiset(r) == multiset(s) + multiset{x}
  {
    if s == [] then [x]
    else if key(s[0]) <= key(x) then
      assert s == [s[0]] + s[1..];
      [s[0]] + Insert(x, s[1..], key)
    else [x] + s
  }

  lemma {:induction false} InsertSorted<T>(x: T, s: seq<T>, key: T -> int)
    requires Sorted(s, key)
    ensures Sorted(Insert(x, s, key), key)
  {
    if s != [] && key(s[0]) <= key(x) {
      var r' := Insert(x, s[1..], key);
      InsertSorted(x, s[1..], key);
      forall y | y in r' ensures key(s[0]) <= key(y) {
        assert y in multiset(r');
        assert y in multiset(s[1..]) || y == x;
      }
    }
  }

  lemma {:induction false} InsertSelect<T>(x: T, s: seq<T>, key: T -> int, k: int)
    requires Sorted(s, key)
    ensures Select(Insert(x, s, key), key, k) == Select(s, key, k) + (if key(x) == k then [x] else [])
  {
    var tail := if key(x) == k then [x] else [];
    if s == [] {
      SelectSingle(x, key, k);
      assert Select(s, key, k) + tail == tail;
    } else if key(s[0]) <= key(x) {
      var r' := Insert(x, s[1..], key);
      var head := if key(s[0]) == k then [s[0]] else [];
      var rest := Select(s[1..], key, k);
      assert Select(r', key, k) == rest + tail by {
        InsertSelect(x, s[1..], key, k);
      }
      assert Select(Insert(x, s, key), key, k) == head + Select(r', key, k) by {
        SelectCons(s[0], r', key, k);
      }
      assert Select(s, key, k) == head + rest by {
        assert s == [s[0]] + s[1..];
        SelectCons(s[0], s[1..], key, k);
      }
      ConcatAssoc(head, rest, tail);
    } else {
      assert Select(Insert(x, s, key), key, k) == tail + Select(s, key, k) by {
        SelectCons(x, s, key, k);
      }
      if key(x) == k {
        assert Select(s, key, k) == [] by {
          SelectAbsent(s, key, k);
        }
        assert tail + [] == [] + tail;
      } else {
        assert [] + Select(s, key, k) == Select(s, key, k) + [];
      }
    }
  }

  lemma ConcatAssoc<T>(a: seq<T>, b: seq<T>, c: seq<T>)
    ensures a + (b + c) == (a + b) + c
  {
  }

  /** Insertion sort: each element is inserted, in input order, after the
      earlier elements with an equal or smaller key. */
  function Sort<T>(xs: seq<T>, key: T -> int): (r: seq<T>)
    ensures multiset(r) == multiset(xs)
    ensures |r| == |xs|
    ensures Sorted(r, key)
    ensures forall k :: Select(r, key, k) == Select(xs, key, k)
  {
    if xs == [] then []
    else
      var n := |xs| - 1;
      var s := Sort(xs[..n], key);
      var r := Insert(xs[n], s, key);
      assert xs == xs[..n] + [xs[n]];
      assert |r| == |multiset(r)|;
      InsertSorted(xs[n], s, key);
      assert forall k :: Select(r, key, k) == Select(xs, key, k) by {
        forall k ensures Select(r, key, k) == Select(xs, key, k) {
          InsertSelect(xs[n], s, key, k);
          SelectSnoc(xs[..n], xs[n], key, k);
        }
      }
      r
  }

  /** The smallest key of a sorted sequence is that of its head. */
  lemma SortedHeadAbsent<T>(a: seq<T>, key: T -> int, k: int)
    requires Sorted(a, key) && a != [] && k < key(a[0])
    ensures Select(a, key, k) == []
  {
    SelectAbsent(a, key, k);
  }

  lemma SameHeads<T>(a: seq<T>, b: seq<T>, key: T -> int)
    requires Sorted(a, key) && Sorted(b, key) && a != [] && b != []
    requires forall k :: Select(a, key, k) == Select(b, key, k)
    ensures a[0] == b[0]
  {
    var ka, kb := key(a[0]), key(b[0]);
    assert a == [a[0]] + a[1..] && b == [b[0]] + b[1..];
    SelectCons(a[0], a[1..], key, ka);
    SelectCons(b[0], b[1..], key, kb);
    if ka < kb {
      SortedHeadAbsent(b, key, ka);
      assert false;
    } else if kb < ka {
      SortedHeadAbsent(a, key, kb);
      assert false;
    } else {
      assert Select(a, key, ka)[0] == a[0];
      assert Select(b, key, ka)[0] == b[0];
    }
  }

  lemma TailSelect<T>(a: seq<T>, b: seq<T>, key: T -> int, k: int)
    requires a != [] && b != [] && a[0] == b[0]
    requires Select(a, key, k) == Select(b, key, k)
    ensures Select(a[1..], key, k) == Select(b[1..], key, k)
  {
    assert a == [a[0]] + a[1..] && b == [b[0]] + b[1..];
    SelectCons(a[0], a[1..], key, k);
    SelectCons(b[0], b[1..], key, k);
    var h := if key(a[0]) == k then [a[0]] else [];
    assert Select(a[1..], key, k) == Select(a, key, k)[|h|..];
    assert Select(b[1..], key, k) == Select(b, key, k)[|h|..];
  }

  lemma SameTails<T>(a: seq<T>, b: seq<T>, key: T -> int)
    requires a != [] && b != [] && a[0] == b[0]
    requires forall k :: Select(a, key, k) == Select(b, key, k)
    ensures forall k :: Select(a[1..], key, k) == Select(b[1..], key, k)
  {
    forall k ensures Select(a[1..], key, k) == Select(b[1..], key, k) {
      TailSelect(a, b, key, k);
    }
  }

  lemma SortedTail<T>(a: seq<T>, key: T -> int)
    requires Sorted(a, key) && a != []
    ensures Sorted(a[1..], key)
  {
    forall i, j | 0 <= i < j < |a| - 1 ensures key(a[1..][i]) <= key(a[1..][j]) {
      assert a[1..][i] == a[i + 1] && a[1..][j] == a[j + 1];
    }
  }

  lemma NonEmptySelects<T>(a: seq<T>, key: T -> int)
    ensures a != [] ==> Select(a, key, key(a[0])) != []
    ensures a == [] ==> forall k :: Select(a, key, k) == []
  {
    if a != [] {
      SelectPresent(a, key, 0);
    }
  }

  /** The contract of `Sort` determines its result: two sequences that are
      both sorted and agree on the order of every key class are equal. */
  lemma {:induction false} StableSortUnique<T>(a: seq<T>, b: seq<T>, key: T -> int)
    requires Sorted(a, key) && Sorted(b, key)
    requires forall k :: Select(a, key, k) == Select(b, key, k)
    ensures a == b
    decreases |a| + |b|
  {
    if a == [] || b == [] {
      NonEmptySelects(a, key);
      NonEmptySelects(b, key);
    } else {
      SameHeads(a, b, key);
      SameTails(a, b, key);
      SortedTail(a, key);
      SortedTail(b, key);
      StableSortUnique(a[1..], b[1..], key);
      assert a == [a[0]] + a[1..] && b == [b[0]] + b[1..];
    }
  }
}
