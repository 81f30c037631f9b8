/** Counting with a plain object used as a map, the pattern
    `counts[w] = (counts[w] || 0) + 1`, and ranking its `Object.entries`
    by descending count with a stable sort, as `getTopWords` in
    src/components/LoadGraph.jsx and the `topModels` of
    `getConversationStats` in src/utils/ChatParser.js do. The entries are
    kept in insertion order; JavaScript lists integer-like keys first,
    which this model does not reproduce. */
module Tally {
  import opened Seqs
  import opened Grouping
  import opened StableSort

  datatype Entry = Entry(key: string, count: nat)

  function Id(s: string): string {
    s
  }

  /** How often `k` occurs in `xs`. */
  function Occurrences(xs: seq<string>, k: string): nat {
    |Select(xs, Id, k)|
  }

  function EntryKeys(es: seq<Entry>): (ks: seq<string>)
    ensures |ks| == |es|
    ensures forall i :: 0 <= i < |es| ==> ks[i] == es[i].key
  {
    if es == [] then [] else [es[0].key] + EntryKeys(es[1..])
  }

  /** One more occurrence of `w`: the entry keyed `w` goes up by one, or
      a new entry with count 1 is appended. Keys that `Object.prototype`
      already defines, such as `constructor`, are counted like any other. */
  function Bump(es: seq<Entry>, w: string): (r: seq<Entry>)
    ensures |es| <= |r| <= |es| + 1
  {
    if es == [] then [Entry(w, 1)]
    else if es[0].key == w then [Entry(w, es[0].count + 1)] + es[1..]
    else [es[0]] + Bump(es[1..], w)
  }

  /** A key seen before keeps the keys as they are; a new one is appended
      with count 1. */
  lemma {:induction false} BumpKeys(es: seq<Entry>, w: string)
    ensures EntryKeys(Bump(es, w)) == if w in EntryKeys(es) then EntryKeys(es) else EntryKeys(es) + [w]
    ensures w !in EntryKeys(es) ==> Bump(es, w)[|es|] == Entry(w, 1)
  {
    if es != [] {
      var ks := EntryKeys(es);
      if es[0].key == w {
        assert EntryKeys(Bump(es, w)) == ks;
      } else {
        BumpKeys(es[1..], w);
        var rest := Bump(es[1..], w);
        assert EntryKeys(Bump(es, w)) == [es[0].key] + EntryKeys(rest);
        assert (w in ks) == (w in EntryKeys(es[1..]));
      }
    }
  }

  /** Only a new key makes the entries longer. */
  lemma BumpLength(es: seq<Entry>, w: string)
    ensures |Bump(es, w)| == if w in EntryKeys(es) then |es| else |es| + 1
  {
    BumpKeys(es, w);
    assert |EntryKeys(Bump(es, w))| == |Bump(es, w)|;
  }

  /** With distinct keys, exactly the entry keyed `w` changes. */
  lemma {:induction false} BumpCounts(es: seq<Entry>, w: string)
    requires Distinct(EntryKeys(es))
    ensures forall i :: 0 <= i < |es| ==>
      Bump(es, w)[i] == Entry(es[i].key, es[i].count + if es[i].key == w then 1 else 0)
  {
    if es != [] {
      assert EntryKeys(es) == [es[0].key] + EntryKeys(es[1..]);
      if es[0].key == w {
        forall i | 0 < i < |es| ensures es[i].key != w {
          assert EntryKeys(es)[0] != EntryKeys(es)[i];
        }
      } else {
        BumpCounts(es[1..], w);
      }
    }
  }

  /** The entries of the counting object after counting `xs` in order. */
  function Count(xs: seq<string>): seq<Entry> {
    if xs == [] then [] else Bump(Count(xs[..|xs| - 1]), xs[|xs| - 1])
  }

  /** The keys are the distinct values in order of first occurrence. */
  lemma {:induction false} CountKeys(xs: seq<string>)
    ensures EntryKeys(Count(xs)) == FirstOccurrences(xs)
  {
    if xs != [] {
      var n := |xs| - 1;
      CountKeys(xs[..n]);
      BumpKeys(Count(xs[..n]), xs[n]);
      FirstOccurrencesOfSnoc(xs);
    }
  }

  /** Each count is the number of occurrences of its key. */
  lemma CountCounts(xs: seq<string>)
    ensures forall i :: 0 <= i < |Count(xs)| ==>
      Count(xs)[i].count == Occurrences(xs, Count(xs)[i].key) >= 1
  {
    forall i | 0 <= i < |Count(xs)| ensures Count(xs)[i].count == Occurrences(xs, Count(xs)[i].key) >= 1 {
      CountAt(xs, i);
    }
  }

  lemma {:induction false} CountAt(xs: seq<string>, i: nat)
    requires i < |Count(xs)|
    ensures Count(xs)[i].count == Occurrences(xs, Count(xs)[i].key) >= 1
  {
    var n := |xs| - 1;
    var pre, w := xs[..n], xs[n];
    assert xs == pre + [w];
    if i < |Count(pre)| {
      CountAt(pre, i);
      OldEntry(pre, w, i);
    } else {
      NewEntry(pre, w, i);
    }
  }

  /** Counting one more value adds one to its own entry only. */
  lemma OldEntry(pre: seq<string>, w: string, i: nat)
    requires i < |Count(pre)|
    requires Count(pre)[i].count == Occurrences(pre, Count(pre)[i].key) >= 1
    ensures Count(pre + [w])[i].count == Occurrences(pre + [w], Count(pre + [w])[i].key) >= 1
  {
    var es := Count(pre);
    assert Count(pre + [w]) == Bump(es, w) by {
      assert (pre + [w])[..|pre|] == pre;
    }
    assert Bump(es, w)[i] == Entry(es[i].key, es[i].count + if es[i].key == w then 1 else 0) by {
      CountKeys(pre);
      BumpCounts(es, w);
    }
    OccurrencesSnoc(pre, w, es[i].key);
  }

  /** A value counted for the first time gets an entry with count 1. */
  lemma NewEntry(pre: seq<string>, w: string, i: nat)
    requires |Count(pre)| <= i < |Count(pre + [w])|
    ensures Count(pre + [w])[i].count == Occurrences(pre + [w], Count(pre + [w])[i].key) >= 1
  {
    var es := Count(pre);
    assert Count(pre + [w]) == Bump(es, w) by {
      assert (pre + [w])[..|pre|] == pre;
    }
    assert w !in FirstOccurrences(pre) && Bump(es, w)[i] == Entry(w, 1) by {
      BumpLength(es, w);
      BumpKeys(es, w);
      CountKeys(pre);
    }
    assert Occurrences(pre + [w], w) == 1 by {
      NotCounted(pre, w);
      OccurrencesSnoc(pre, w, w);
    }
  }

  /** One more value adds one occurrence of it and none of anything else. */
  lemma OccurrencesSnoc(xs: seq<string>, w: string, k: string)
    ensures Occurrences(xs + [w], k) == Occurrences(xs, k) + if k == w then 1 else 0
  {
    SelectSnoc(xs, w, Id, k);
  }

  /** A value that is not among the keys does not occur. */
  lemma NotCounted(xs: seq<string>, w: string)
    requires w !in FirstOccurrences(xs)
    ensures Occurrences(xs, w) == 0
  {
    forall j | 0 <= j < |xs| ensures Id(xs[j]) != w {
      assert xs[j] in FirstOccurrences(xs);
    }
    SelectAbsent(xs, Id, w);
  }

  lemma FirstOccurrencesOfSnoc(xs: seq<string>)
    requires xs != []
    ensures var n := |xs| - 1; var f := FirstOccurrences(xs[..n]);
      FirstOccurrences(xs) == if xs[n] in f then f else f + [xs[n]]
  {
  }

  /** Counting is independent of order in the multiset sense: every value
      of `xs` has an entry. */
  lemma CountCovers(xs: seq<string>, j: nat)
    requires j < |xs|
    ensures xs[j] in EntryKeys(Count(xs))
  {
    CountKeys(xs);
  }

  function NegCount(e: Entry): int {
    0 - e.count
  }

  /** `Object.entries(counts).sort(([, a], [, b]) => b - a).slice(0, n)`. */
  function Top(es: seq<Entry>, n: nat): seq<Entry> {
    var sorted := Sort(es, NegCount);
    sorted[..Min(n, |sorted|)]
  }

  predicate IsPrefix<T(==)>(a: seq<T>, b: seq<T>) {
    |a| <= |b| && b[..|a|] == a
  }

  /** The first `m` elements select a prefix of what the whole selects. */
  lemma {:induction false} SelectOfPrefix<T, K>(s: seq<T>, m: nat, key: T -> K, k: K)
    requires m <= |s|
    ensures IsPrefix(Select(s[..m], key, k), Select(s, key, k))
    decreases |s| - m
  {
    if m == |s| {
      assert s[..m] == s;
    } else {
      SelectOfPrefix(s, m + 1, key, k);
      assert s[..m + 1][..m] == s[..m];
      assert s[..m + 1] == s[..m] + [s[m]];
      SelectSnoc(s[..m], s[m], key, k);
    }
  }

  /** The ranking keeps `min(n, |es|)` entries of `es`, in non-increasing
      count order; no entry left out counts more than an entry kept; and
      entries of equal count keep their order in `es`. */
  lemma TopMeaning(es: seq<Entry>, n: nat)
    ensures var r := Top(es, n);
      && |r| == Min(n, |es|)
      && (forall i :: 0 <= i < |r| ==> r[i] in es)
      && (forall i, j :: 0 <= i < j < |r| ==> r[i].count >= r[j].count)
      && (forall c :: IsPrefix(Select(r, NegCount, c), Select(es, NegCount, c)))
  {
    var sorted := Sort(es, NegCount);
    var r := Top(es, n);
    forall i | 0 <= i < |r| ensures r[i] in es {
      assert r[i] == sorted[i];
      assert sorted[i] in multiset(sorted);
    }
    forall i, j | 0 <= i < j < |r| ensures r[i].count >= r[j].count {
      assert NegCount(sorted[i]) <= NegCount(sorted[j]);
    }
    forall c ensures IsPrefix(Select(r, NegCount, c), Select(es, NegCount, c)) {
      SelectOfPrefix(sorted, |r|, NegCount, c);
    }
  }

  /** Nothing outside the ranking outranks what is in it. */
  lemma {:induction false} TopIsTop(es: seq<Entry>, n: nat, e: Entry)
    requires e in es && e !in Top(es, n)
    ensures forall j :: 0 <= j < |Top(es, n)| ==> Top(es, n)[j].count >= e.count
  {
    var sorted := Sort(es, NegCount);
    var r := Top(es, n);
    assert e in multiset(es);
    assert e in sorted;
    var p :| 0 <= p < |sorted| && sorted[p] == e;
    forall j | 0 <= j < |r| ensures r[j].count >= e.count {
      assert NegCount(sorted[j]) <= NegCount(sorted[p]);
    }
  }

  /** Distinct keys stay distinct in the ranking. */
  lemma TopDistinct(es: seq<Entry>, n: nat)
    requires Distinct(EntryKeys(es))
    ensures Distinct(EntryKeys(Top(es, n)))
  {
    var sorted := Sort(es, NegCount);
    var r := Top(es, n);
    forall i, j | 0 <= i < j < |r| ensures r[i].key != r[j].key {
      SortedKeysDistinct(es, sorted, i, j);
    }
  }

  lemma SortedKeysDistinct(es: seq<Entry>, sorted: seq<Entry>, i: nat, j: nat)
    requires Distinct(EntryKeys(es)) && multiset(sorted) == multiset(es)
    requires i < j < |sorted|
    ensures sorted[i].key != sorted[j].key
  {
    assert sorted[i] in multiset(es) && sorted[j] in multiset(es);
    var a :| 0 <= a < |es| && es[a] == sorted[i];
    var b :| 0 <= b < |es| && es[b] == sorted[j];
    if a == b {
      Twice(sorted, i, j);
      DistinctOnce(es, a);
    } else {
      assert EntryKeys(es)[a] != EntryKeys(es)[b];
    }
  }

  lemma Twice<T>(s: seq<T>, i: nat, j: nat)
    requires i < j < |s| && s[i] == s[j]
    ensures multiset(s)[s[j]] >= 2
  {
    assert s == s[..j] + [s[j]] + s[j + 1..];
    assert s[..j][i] == s[j];
    assert multiset(s) == multiset(s[..j]) + multiset{s[j]} + multiset(s[j + 1..]);
  }

  /** An entry of a sequence with distinct keys occurs in it once. */
  lemma {:induction false} DistinctOnce(es: seq<Entry>, a: nat)
    requires Distinct(EntryKeys(es)) && a < |es|
    ensures multiset(es)[es[a]] == 1
  {
    var x := es[a];
    assert es == es[..a] + [x] + es[a + 1..];
    forall i | 0 <= i < |es| && i != a ensures es[i] != x {
      assert EntryKeys(es)[i] != EntryKeys(es)[a];
    }
    assert x !in es[..a];
    assert x !in es[a + 1..];
  }

  /** Ranking the count of `xs`: `min(n, #distinct values)` distinct
      values of `xs`, each with its number of occurrences. */
  lemma TopOfCount(xs: seq<string>, n: nat)
    ensures var r := Top(Count(xs), n);
      && |r| == Min(n, |FirstOccurrences(xs)|)
      && Distinct(EntryKeys(r))
      && (forall i :: 0 <= i < |r| ==> r[i].key in xs && r[i].count == Occurrences(xs, r[i].key))
      && (forall i, j :: 0 <= i < j < |r| ==> r[i].count >= r[j].count)
  {
    var es := Count(xs);
    var r := Top(es, n);
    assert |r| == Min(n, |FirstOccurrences(xs)|) by {
      CountKeys(xs);
      TopMeaning(es, n);
      assert |EntryKeys(es)| == |es|;
    }
    assert Distinct(EntryKeys(r)) by {
      CountKeys(xs);
      TopDistinct(es, n);
    }
    forall i | 0 <= i < |r| ensures r[i].key in xs && r[i].count == Occurrences(xs, r[i].key) {
      TopMeaning(es, n);
      var p :| 0 <= p < |es| && es[p] == r[i];
      CountAt(xs, p);
      CountKeys(xs);
      assert EntryKeys(es)[p] == r[i].key;
    }
    TopMeaning(es, n);
  }

  /** A value of `xs` left out of the ranking occurs no more often than any
      value kept. */
  lemma TopOfCountIsTop(xs: seq<string>, n: nat, w: string)
    requires w in xs && w !in EntryKeys(Top(Count(xs), n))
    ensures forall i :: 0 <= i < |Top(Count(xs), n)| ==>
      Occurrences(xs, Top(Count(xs), n)[i].key) >= Occurrences(xs, w)
  {
    var es := Count(xs);
    var r := Top(es, n);
    var p: nat :| p < |es| && es[p].key == w && es[p].count == Occurrences(xs, w) by {
      CountKeys(xs);
      assert w in EntryKeys(es);
      var p :| 0 <= p < |es| && EntryKeys(es)[p] == w;
      CountAt(xs, p);
    }
    assert es[p] !in r;
    TopIsTop(es, n, es[p]);
    TopOfCount(xs, n);
  }
}
