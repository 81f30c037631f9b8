/** The first pass of the graph effect in src/components/LoadGraph.jsx:
    `firstMsgByConvo` keeps, per conversation, the message with the smallest
    timestamp, in the order the conversations first appear. A later message
    replaces the kept one only when its timestamp is strictly smaller, with
    `null` compared as 0. */
module FirstMessages {
  import opened Seqs
  import opened Grouping
  import opened Messages

  function Conv(m: ClusteredMessage): string {
    m.message.conversationId
  }

  function Time(m: ClusteredMessage): int {
    TimeKey(m.message.timestamp)
  }

  /** The keys of the map, in insertion order. */
  function Convs(fs: seq<ClusteredMessage>): (ks: seq<string>)
    ensures |ks| == |fs|
    ensures forall i :: 0 <= i < |fs| ==> ks[i] == Conv(fs[i])
  {
    if fs == [] then [] else [Conv(fs[0])] + Convs(fs[1..])
  }

  /** One turn of the loop: `if (!has(key) || m.timestamp < get(key).timestamp) set(key, m)`.
      Setting an existing key keeps its place in the insertion order. */
  function Pick(fs: seq<ClusteredMessage>, m: ClusteredMessage): (r: seq<ClusteredMessage>)
    ensures |fs| <= |r| <= |fs| + 1
    ensures forall x :: x in r ==> x in fs || x == m
  {
    if fs == [] then [m]
    else if Conv(fs[0]) == Conv(m) then (if Time(m) < Time(fs[0]) then [m] + fs[1..] else fs)
    else [fs[0]] + Pick(fs[1..], m)
  }

  /** `Array.from(firstMsgByConvo.values())` after the loop. */
  function Firsts(msgs: seq<ClusteredMessage>): (r: seq<ClusteredMessage>)
    ensures |r| <= |msgs|
    ensures forall x :: x in r ==> x in msgs
  {
    if msgs == [] then [] else Pick(Firsts(msgs[..|msgs| - 1]), msgs[|msgs| - 1])
  }

  /** A new conversation is appended; a known one keeps the keys as they are. */
  lemma {:induction false} PickKeys(fs: seq<ClusteredMessage>, m: ClusteredMessage)
    ensures Convs(Pick(fs, m)) == if Conv(m) in Convs(fs) then Convs(fs) else Convs(fs) + [Conv(m)]
    ensures Conv(m) !in Convs(fs) ==> Pick(fs, m)[|fs|] == m
  {
    if fs != [] {
      var ks := Convs(fs);
      if Conv(fs[0]) != Conv(m) {
        PickKeys(fs[1..], m);
        assert Convs(Pick(fs, m)) == [Conv(fs[0])] + Convs(Pick(fs[1..], m));
        assert (Conv(m) in ks) == (Conv(m) in Convs(fs[1..]));
      } else if Time(m) < Time(fs[0]) {
        assert Convs(Pick(fs, m)) == ks;
      }
    }
  }

  /** With distinct keys only the entry of `m`'s conversation can change,
      and it changes to `m` exactly when `m` is strictly earlier. */
  lemma {:induction false} PickAt(fs: seq<ClusteredMessage>, m: ClusteredMessage, i: nat)
    requires Distinct(Convs(fs)) && i < |fs|
    ensures Pick(fs, m)[i] == if Conv(fs[i]) == Conv(m) && Time(m) < Time(fs[i]) then m else fs[i]
  {
    if i > 0 && Conv(fs[0]) != Conv(m) {
      assert Distinct(Convs(fs[1..])) by {
        forall a, b | 0 <= a < b < |fs| - 1 ensures Convs(fs[1..])[a] != Convs(fs[1..])[b] {
          assert Convs(fs)[a + 1] != Convs(fs)[b + 1];
        }
      }
      PickAt(fs[1..], m, i - 1);
    } else if i > 0 {
      assert Convs(fs)[0] != Convs(fs)[i];
    }
  }

  /** Each conversation is kept once, in order of first appearance. */
  lemma {:induction false} FirstsKeys(msgs: seq<ClusteredMessage>)
    ensures Convs(Firsts(msgs)) == FirstOccurrences(KeysOf(msgs, Conv))
  {
    if msgs != [] {
      var n := |msgs| - 1;
      var ks := KeysOf(msgs, Conv);
      var f := FirstOccurrences(KeysOf(msgs[..n], Conv));
      assert FirstOccurrences(ks) == if Conv(msgs[n]) in f then f else f + [Conv(msgs[n])] by {
        assert ks[..n] == KeysOf(msgs[..n], Conv);
        FirstOccurrencesSnoc(ks);
      }
      assert Convs(Firsts(msgs[..n])) == f by {
        FirstsKeys(msgs[..n]);
      }
      PickKeys(Firsts(msgs[..n]), msgs[n]);
    }
  }

  /** `msgs[p]` is the message the loop keeps for its conversation: every
      earlier message of the conversation is strictly later in time and no
      later one is strictly earlier. */
  ghost predicate Chosen(msgs: seq<ClusteredMessage>, p: nat) {
    && p < |msgs|
    && (forall q :: 0 <= q < p && Conv(msgs[q]) == Conv(msgs[p]) ==> Time(msgs[q]) > Time(msgs[p]))
    && (forall q :: p <= q < |msgs| && Conv(msgs[q]) == Conv(msgs[p]) ==> Time(msgs[q]) >= Time(msgs[p]))
  }

  /** The kept message is the earliest of its conversation, the first one
      among equally early messages; so at most one index is chosen per
      conversation. */
  lemma ChosenUnique(msgs: seq<ClusteredMessage>, p: nat, p': nat)
    requires Chosen(msgs, p) && Chosen(msgs, p') && Conv(msgs[p]) == Conv(msgs[p'])
    ensures p == p'
  {
  }

  /** Every kept message is the chosen message of its conversation. */
  lemma {:induction false} FirstsChosen(msgs: seq<ClusteredMessage>, i: nat)
    requires i < |Firsts(msgs)|
    ensures exists p: nat :: Chosen(msgs, p) && Firsts(msgs)[i] == msgs[p]
  {
    var n := |msgs| - 1;
    var xs, m := msgs[..n], msgs[n];
    var fs := Firsts(xs);
    assert msgs == xs + [m];
    assert Firsts(msgs) == Pick(fs, m);
    if i < |fs| {
      FirstsChosen(xs, i);
      KeptStep(xs, m, i);
    } else {
      NewStep(xs, m, i);
      assert Chosen(msgs, n) && Firsts(msgs)[i] == msgs[n];
    }
  }

  lemma KeptStep(xs: seq<ClusteredMessage>, m: ClusteredMessage, i: nat)
    requires i < |Firsts(xs)|
    requires exists p: nat :: Chosen(xs, p) && Firsts(xs)[i] == xs[p]
    ensures exists p: nat :: Chosen(xs + [m], p) && Pick(Firsts(xs), m)[i] == (xs + [m])[p]
  {
    var fs := Firsts(xs);
    var msgs := xs + [m];
    var p: nat :| Chosen(xs, p) && fs[i] == xs[p];
    assert Pick(fs, m)[i] == if Conv(fs[i]) == Conv(m) && Time(m) < Time(fs[i]) then m else fs[i] by {
      FirstsKeys(xs);
      PickAt(fs, m, i);
    }
    if Conv(fs[i]) == Conv(m) && Time(m) < Time(fs[i]) {
      StillChosenReplaced(xs, m, p);
      assert Chosen(msgs, |xs|) && Pick(fs, m)[i] == msgs[|xs|];
    } else {
      StillChosenKept(xs, m, p);
      assert Chosen(msgs, p) && Pick(fs, m)[i] == msgs[p];
    }
  }

  lemma NewStep(xs: seq<ClusteredMessage>, m: ClusteredMessage, i: nat)
    requires |Firsts(xs)| <= i < |Pick(Firsts(xs), m)|
    ensures Chosen(xs + [m], |xs|) && Pick(Firsts(xs), m)[i] == m
  {
    var fs := Firsts(xs);
    assert i == |fs|;
    assert Conv(m) !in Convs(fs) && Pick(fs, m)[|fs|] == m by {
      PickKeys(fs, m);
      assert |Convs(Pick(fs, m))| == |Pick(fs, m)| > |fs|;
    }
    assert forall q :: 0 <= q < |xs| ==> Conv(xs[q]) != Conv(m) by {
      FirstsKeys(xs);
      forall q | 0 <= q < |xs| ensures Conv(xs[q]) != Conv(m) {
        assert KeysOf(xs, Conv)[q] == Conv(xs[q]);
      }
    }
    NewChosen(xs, m);
  }

  lemma StillChosenKept(xs: seq<ClusteredMessage>, m: ClusteredMessage, p: nat)
    requires Chosen(xs, p)
    requires Conv(xs[p]) == Conv(m) ==> Time(m) >= Time(xs[p])
    ensures Chosen(xs + [m], p)
  {
    var msgs := xs + [m];
    assert forall q :: 0 <= q < |xs| ==> msgs[q] == xs[q];
  }

  lemma StillChosenReplaced(xs: seq<ClusteredMessage>, m: ClusteredMessage, p: nat)
    requires Chosen(xs, p)
    requires Conv(xs[p]) == Conv(m) && Time(m) < Time(xs[p])
    ensures Chosen(xs + [m], |xs|)
  {
    var msgs := xs + [m];
    forall q | 0 <= q < |xs| && Conv(msgs[q]) == Conv(m) ensures Time(msgs[q]) > Time(m) {
      assert msgs[q] == xs[q];
    }
  }

  lemma NewChosen(xs: seq<ClusteredMessage>, m: ClusteredMessage)
    requires forall q :: 0 <= q < |xs| ==> Conv(xs[q]) != Conv(m)
    ensures Chosen(xs + [m], |xs|)
  {
    var msgs := xs + [m];
    assert forall q :: 0 <= q < |xs| ==> msgs[q] == xs[q];
  }
}
