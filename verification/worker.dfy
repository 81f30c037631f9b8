/** `processMessages` and `clusterMessages` of public/ProcessingWorker.js:
    the guards, the number of clusters, and the trace of events a
    `PROCESS_MESSAGES` request ends with. A thrown error reaches the page
    as an error event carrying its message. */
module Worker {
  import opened Wrappers
  import opened Seqs
  import opened Text
  import opened Messages
  import opened Protocol
  import opened Normalizer
  import opened Embedding
  import opened KMeans

  const MinClusters: nat := 3
  const MaxClusters: nat := 20

  /** Squaring keeps the order of natural numbers, both ways. */
  lemma SquareOrder(a: nat, b: nat)
    ensures a <= b <==> a * a <= b * b
    ensures a < b <==> a * a < b * b
  {
    if a < b {
      assert a * a <= a * b < b * b;
    } else if b < a {
      assert b * b <= b * a < a * a;
    }
  }

  /** `Math.floor(Math.sqrt(n / 2))`, searched upward from `m`. */
  function RootFrom(n: nat, m: nat): (r: nat)
    requires 2 * (m * m) <= n
    ensures m <= r
    ensures 2 * (r * r) <= n < 2 * ((r + 1) * (r + 1))
    decreases n - m
  {
    if n < 2 * ((m + 1) * (m + 1)) then m
    else
      SquareOrder(1, m + 1);
      RootFrom(n, m + 1)
  }

  /** The largest `m` with `2 * m * m <= n`, which is the floor of the
      square root of `n / 2`. */
  function FloorSqrtHalf(n: nat): (m: nat)
    ensures 2 * (m * m) <= n < 2 * ((m + 1) * (m + 1))
  {
    RootFrom(n, 0)
  }

  /** Only one number sits between those squares, so the bracket above
      defines the root. */
  lemma FloorSqrtHalfUnique(n: nat, m: nat)
    requires 2 * (m * m) <= n < 2 * ((m + 1) * (m + 1))
    ensures FloorSqrtHalf(n) == m
  {
    var r := FloorSqrtHalf(n);
    SquareOrder(m, r + 1);
    SquareOrder(r, m + 1);
  }

  /** `numClusters`: three clusters below 32 messages, twenty from 800 on,
      and in between the floor of the square root of half the count. It is
      not capped by the number of messages. */
  function NumClusters(n: nat): (k: nat)
    ensures MinClusters <= k <= MaxClusters
    ensures n < 32 ==> k == MinClusters
    ensures n >= 800 ==> k == MaxClusters
    ensures 32 <= n < 800 ==> 2 * (k * k) <= n < 2 * ((k + 1) * (k + 1))
  {
    var m := FloorSqrtHalf(n);
    SquareOrder(m + 1, 4);
    SquareOrder(20, m);
    SquareOrder(4, m);
    SquareOrder(m + 1, 20);
    if m < 4 then MinClusters
    else if m >= 20 then MaxClusters
    else m
  }

  /** More messages never give fewer clusters. */
  lemma {:induction false} NumClustersMonotone(n: nat, n': nat)
    requires n <= n'
    ensures NumClusters(n) <= NumClusters(n')
  {
    var k, k' := NumClusters(n), NumClusters(n');
    SquareOrder(k' + 1, k);
  }

  /** The texts sent to the model: every message's text, cleaned. */
  function CleanTexts(msgs: seq<Message>): (texts: seq<string>)
    ensures |texts| == |msgs|
    ensures forall i :: 0 <= i < |msgs| ==> texts[i] == CleanText(Some(msgs[i].text))
  {
    seq(|msgs|, i requires 0 <= i < |msgs| => CleanText(Some(msgs[i].text)))
  }

  /** `{...message, clusterId, embedding}` for every index. */
  function Attach(msgs: seq<Message>, ids: seq<nat>, embs: seq<Vector>): (out: seq<ClusteredMessage>)
    requires |ids| == |msgs| == |embs|
    ensures |out| == |msgs|
    ensures forall i :: 0 <= i < |msgs| ==> out[i] == ClusteredMessage(msgs[i], ids[i], embs[i])
  {
    seq(|msgs|, i requires 0 <= i < |msgs| => ClusteredMessage(msgs[i], ids[i], embs[i]))
  }

  /** `clusterMessages`: the length check, then k-means over the
      embeddings with the heuristic number of clusters. */
  function ClusterMessages(msgs: seq<Message>, embs: seq<Vector>, draw: nat -> nat): (run: Outcome<seq<ClusteredMessage>>)
    requires |msgs| >= 1
    ensures run.result.Ok? <==> |embs| == |msgs| && Uniform(embs, |embs[0]|)
    ensures |embs| != |msgs| ==> run == Outcome([], Err(LengthMismatch))
    ensures |embs| == |msgs| && run.result.Err? ==> run.result.error == DimensionMismatch
    ensures run.result.Ok? ==>
      && |run.result.value| == |msgs|
      && forall i :: 0 <= i < |msgs| ==>
           && run.result.value[i].message == msgs[i]
           && run.result.value[i].embedding == embs[i]
           && run.result.value[i].clusterId < NumClusters(|msgs|)
  {
    if |embs| != |msgs| then Outcome([], Err(LengthMismatch))
    else
      var k := NumClusters(|msgs|);
      var status := Status("Running K-means clustering (" + NatToString(k) + " clusters)...");
      var km := KMeansClustering(embs, k, draw);
      Outcome([status] + km.events,
        if km.result.Err? then Err(km.result.error) else Ok(Attach(msgs, km.result.value, embs)))
  }

  /** The cluster ids of the output, in order. */
  function ClusterIds(out: seq<ClusteredMessage>): (ids: seq<nat>)
    ensures |ids| == |out|
    ensures forall i :: 0 <= i < |out| ==> ids[i] == out[i].clusterId
  {
    seq(|out|, i requires 0 <= i < |out| => out[i].clusterId)
  }

  /** The `stats` of the completion payload. */
  function CompletionStats(out: seq<ClusteredMessage>): (s: Stats)
    requires |out| >= 1
    ensures s.totalMessages == |out|
    ensures s.totalClusters >= 1
    ensures forall i :: 0 <= i < |out| ==> out[i].clusterId < s.totalClusters
    ensures exists i :: 0 <= i < |out| && out[i].clusterId == s.totalClusters - 1
    ensures s.embeddingDimensions == |out[0].embedding|
  {
    var ids := ClusterIds(out);
    var top := MaxOf(ids);
    assert exists i :: 0 <= i < |out| && ids[i] == top;
    Stats(|out|, top + 1, |out[0].embedding|)
  }

  /** No completion or error among the events. */
  predicate Quiet(evs: seq<Event>) {
    forall e :: 0 <= e < |evs| ==> !IsTerminal(evs[e])
  }

  lemma QuietConcat(a: seq<Event>, b: seq<Event>)
    requires Quiet(a) && Quiet(b)
    ensures Quiet(a + b)
  {
    forall e | 0 <= e < |a + b| ensures !IsTerminal((a + b)[e]) {
      if e >= |a| {
        assert (a + b)[e] == b[e - |a|];
      }
    }
  }

  /** The events of one `PROCESS_MESSAGES` request, ending with the
      completion payload or the error the request threw. `None` stands for
      a payload that is not an array. */
  function ProcessMessages(loaded: bool, input: Option<seq<Message>>, model: Model, draw: nat -> nat): (trace: seq<Event>)
    ensures |trace| >= 1 && IsTerminal(trace[|trace| - 1])
    ensures Quiet(trace[..|trace| - 1])
    ensures !loaded ==> trace == [Error(ErrorText(ModelNotLoaded))]
    ensures loaded && (input.None? || input.value == []) ==> trace == [Error(ErrorText(InvalidMessages))]
    ensures loaded && input.Some? && input.value != [] ==>
      trace[|trace| - 1] == Finale(input.value, model, draw)
  {
    if !loaded then [Error(ErrorText(ModelNotLoaded))]
    else if input.None? || input.value == [] then [Error(ErrorText(InvalidMessages))]
    else Ended(Preamble(input.value, model, draw), Finale(input.value, model, draw))
  }

  /** The status and progress events of a request that passed the guards. */
  function Preamble(msgs: seq<Message>, model: Model, draw: nat -> nat): (body: seq<Event>)
    requires |msgs| >= 1
    ensures Quiet(body)
  {
    var start := Status("Generating embeddings for " + NatToString(|msgs|) + " messages...");
    var emb := EmbedFrom(CleanTexts(msgs), 0, model);
    EmbedEventsQuiet(CleanTexts(msgs), model);
    QuietConcat([start], emb.events);
    if emb.result.Err? then [start] + emb.events
    else
      var clustering := Status("Clustering messages by similarity...");
      var cl := ClusterMessages(msgs, emb.result.value, draw);
      ClusterEventsQuiet(msgs, emb.result.value, draw);
      QuietConcat([start] + emb.events, [clustering]);
      QuietConcat([start] + emb.events + [clustering], cl.events);
      [start] + emb.events + [clustering] + cl.events
  }

  /** The event that ends a request that passed the guards. */
  function Finale(msgs: seq<Message>, model: Model, draw: nat -> nat): (last: Event)
    requires |msgs| >= 1
    ensures IsTerminal(last)
  {
    var emb := EmbedFrom(CleanTexts(msgs), 0, model);
    if emb.result.Err? then Error(ErrorText(emb.result.error))
    else
      var cl := ClusterMessages(msgs, emb.result.value, draw);
      if cl.result.Err? then Error(ErrorText(cl.result.error))
      else Complete(cl.result.value, CompletionStats(cl.result.value))
  }

  /** A quiet trace closed by a terminal event. */
  function Ended(body: seq<Event>, last: Event): (trace: seq<Event>)
    requires Quiet(body) && IsTerminal(last)
    ensures |trace| >= 1 && IsTerminal(trace[|trace| - 1])
    ensures Quiet(trace[..|trace| - 1])
    ensures trace[..|trace| - 1] == body && trace[|trace| - 1] == last
  {
    assert (body + [last])[..|body|] == body;
    body + [last]
  }

  lemma EmbedEventsQuiet(texts: seq<string>, model: Model)
    ensures Quiet(EmbedFrom(texts, 0, model).events)
  {
  }

  lemma ClusterEventsQuiet(msgs: seq<Message>, embs: seq<Vector>, draw: nat -> nat)
    requires |msgs| >= 1
    ensures Quiet(ClusterMessages(msgs, embs, draw).events)
  {
    if |embs| == |msgs| {
      var km := KMeansClustering(embs, NumClusters(|msgs|), draw);
      var status := Status("Running K-means clustering (" + NatToString(NumClusters(|msgs|)) + " clusters)...");
      QuietConcat([status], km.events);
    }
  }

  /** The request completes exactly when the model accepts every batch,
      returns one vector per message, and all vectors have one length;
      the completion then carries every message in input order, each with
      its own vector and a cluster below `numClusters`, and the stats
      describe that output. */
  lemma ProcessCompletes(msgs: seq<Message>, model: Model, draw: nat -> nat)
    requires |msgs| >= 1
    ensures var trace := ProcessMessages(true, Some(msgs), model, draw);
      var last := trace[|trace| - 1];
      var bs := Batches(CleanTexts(msgs), 0);
      && (last.Complete? <==>
            && (forall q :: 0 <= q < |bs| ==> model(bs[q]).Ok?)
            && |Embedded(model, bs)| == |msgs|
            && Uniform(Embedded(model, bs), |Embedded(model, bs)[0]|))
      && (last.Complete? ==>
            && |last.messages| == |msgs|
            && (forall i :: 0 <= i < |msgs| ==>
                  && last.messages[i].message == msgs[i]
                  && last.messages[i].embedding == Embedded(model, bs)[i]
                  && last.messages[i].clusterId < last.stats.totalClusters <= NumClusters(|msgs|))
            && last.stats.totalMessages == |msgs|
            && last.stats.embeddingDimensions == |Embedded(model, bs)[0]|)
  {
    FinaleCompletes(msgs, model, draw);
    FinaleContent(msgs, model, draw);
  }

  lemma {:induction false} FinaleCompletes(msgs: seq<Message>, model: Model, draw: nat -> nat)
    requires |msgs| >= 1
    ensures var bs := Batches(CleanTexts(msgs), 0);
      Finale(msgs, model, draw).Complete? <==>
        && (forall q :: 0 <= q < |bs| ==> model(bs[q]).Ok?)
        && |Embedded(model, bs)| == |msgs|
        && Uniform(Embedded(model, bs), |Embedded(model, bs)[0]|)
  {
    var texts := CleanTexts(msgs);
    EmbedSucceedsIff(texts, 0, model);
    if EmbedFrom(texts, 0, model).result.Ok? {
      EmbedSucceeds(texts, 0, model);
    }
  }

  lemma {:induction false} FinaleContent(msgs: seq<Message>, model: Model, draw: nat -> nat)
    requires |msgs| >= 1
    ensures var last := Finale(msgs, model, draw);
      var bs := Batches(CleanTexts(msgs), 0);
      last.Complete? ==>
        && (forall q :: 0 <= q < |bs| ==> model(bs[q]).Ok?)
        && |Embedded(model, bs)| == |msgs|
        && |last.messages| == |msgs|
        && (forall i :: 0 <= i < |msgs| ==>
              && last.messages[i].message == msgs[i]
              && last.messages[i].embedding == Embedded(model, bs)[i]
              && last.messages[i].clusterId < last.stats.totalClusters <= NumClusters(|msgs|))
        && last.stats.totalMessages == |msgs|
        && last.stats.embeddingDimensions == |Embedded(model, bs)[0]|
  {
    var texts := CleanTexts(msgs);
    var emb := EmbedFrom(texts, 0, model);
    if emb.result.Ok? {
      EmbedSucceedsIff(texts, 0, model);
      EmbedSucceeds(texts, 0, model);
      var cl := ClusterMessages(msgs, emb.result.value, draw);
      if cl.result.Ok? {
        var out := cl.result.value;
        var stats := CompletionStats(out);
        var i :| 0 <= i < |out| && out[i].clusterId == stats.totalClusters - 1;
        assert stats.totalClusters <= NumClusters(|msgs|);
      }
    }
  }

  /** When the request fails after the guards, the error event carries
      the model's own message, or the length or dimension message. */
  lemma {:induction false} ProcessFails(msgs: seq<Message>, model: Model, draw: nat -> nat)
    requires |msgs| >= 1
    ensures var trace := ProcessMessages(true, Some(msgs), model, draw);
      var last := trace[|trace| - 1];
      var bs := Batches(CleanTexts(msgs), 0);
      last.Error? ==>
        || (exists q :: 0 <= q < |bs| && model(bs[q]).Err? && last.message == model(bs[q]).error)
        || last.message == ErrorText(LengthMismatch)
        || last.message == ErrorText(DimensionMismatch)
  {
    var trace := ProcessMessages(true, Some(msgs), model, draw);
    assert trace[|trace| - 1] == Finale(msgs, model, draw);
    FinaleFails(msgs, model, draw);
  }

  lemma FinaleFails(msgs: seq<Message>, model: Model, draw: nat -> nat)
    requires |msgs| >= 1
    ensures var last := Finale(msgs, model, draw);
      var bs := Batches(CleanTexts(msgs), 0);
      last.Error? ==>
        || (exists q :: 0 <= q < |bs| && model(bs[q]).Err? && last.message == model(bs[q]).error)
        || last.message == ErrorText(LengthMismatch)
        || last.message == ErrorText(DimensionMismatch)
  {
    var texts := CleanTexts(msgs);
    var emb := EmbedFrom(texts, 0, model);
    if emb.result.Err? {
      var t := |emb.events|;
      assert 1 <= t <= |Batches(texts, 0)| && model(Batches(texts, 0)[t - 1]).Err?
        && emb.result.error == BatchFailure(model(Batches(texts, 0)[t - 1]).error) by {
        EmbedFails(texts, 0, model);
      }
      var bs := Batches(texts, 0);
      assert Finale(msgs, model, draw).message == model(bs[t - 1]).error;
    }
  }

  /** With a model that embeds each text on its own, message `i` is
      clustered with the vector of its own cleaned text. */
  lemma PointwiseEmbeddings(msgs: seq<Message>, model: Model, f: string -> Vector, draw: nat -> nat)
    requires |msgs| >= 1
    requires forall b :: model(b) == Ok(Pointwise(f, b))
    ensures var trace := ProcessMessages(true, Some(msgs), model, draw);
      var last := trace[|trace| - 1];
      last.Complete? ==>
        forall i :: 0 <= i < |msgs| ==> last.messages[i].embedding == f(CleanText(Some(msgs[i].text)))
  {
    var trace := ProcessMessages(true, Some(msgs), model, draw);
    assert trace[|trace| - 1] == Finale(msgs, model, draw);
    FinalePointwise(msgs, model, f, draw);
  }

  lemma FinalePointwise(msgs: seq<Message>, model: Model, f: string -> Vector, draw: nat -> nat)
    requires |msgs| >= 1
    requires forall b :: model(b) == Ok(Pointwise(f, b))
    ensures var last := Finale(msgs, model, draw);
      last.Complete? ==>
        forall i :: 0 <= i < |msgs| ==> last.messages[i].embedding == f(CleanText(Some(msgs[i].text)))
  {
    var texts := CleanTexts(msgs);
    var bs := Batches(texts, 0);
    var run := EmbedFrom(texts, 0, model);
    assert run.result.Ok? by {
      PointwiseModel(texts, 0, model, f);
    }
    var vs := run.result.value;
    assert forall q :: 0 <= q < |bs| ==> model(bs[q]).Ok? by {
      EmbedSucceedsIff(texts, 0, model);
    }
    assert vs == Embedded(model, bs) by {
      EmbedSucceeds(texts, 0, model);
    }
    assert |vs| == |msgs| && forall j :: 0 <= j < |msgs| ==> vs[j] == f(texts[j]) by {
      PointwiseModel(texts, 0, model, f);
    }
    FinaleContent(msgs, model, draw);
  }
}
