/** `generateEmbeddings` of public/ProcessingWorker.js: the cleaned texts go
    to the model in batches of 50, and a progress event announcing each
    batch's end is posted before that batch is embedded. */
module Embedding {
  import opened Wrappers
  import opened Seqs
  import opened Messages
  import opened Protocol

  const BatchSize: nat := 50

  /** The sentence encoder: one vector per text of a batch, or the message
      of the error it threw. It is a parameter because the model is code
      this project cannot see. */
  type Model = seq<string> -> Result<seq<Vector>, string>

  /** The `batchEnd` of every loop turn, for a loop that starts at `i`. */
  function BatchEnds(n: nat, i: nat): (ends: seq<nat>)
    ensures |ends| == if i >= n then 0 else (n - i + BatchSize - 1) / BatchSize
    ensures forall q :: 0 <= q < |ends| ==> i + q * BatchSize < n
    ensures forall q :: 0 <= q < |ends| ==> ends[q] == Min(i + (q + 1) * BatchSize, n)
    decreases n - i
  {
    if i >= n then [] else [Min(i + BatchSize, n)] + BatchEnds(n, i + BatchSize)
  }

  /** The ends rise strictly, every batch holds between 1 and 50 texts and
      the last batch ends at the last text. */
  lemma BatchEndsShape(n: nat, i: nat)
    requires i < n
    ensures var ends := BatchEnds(n, i);
      && |ends| >= 1
      && ends[|ends| - 1] == n
      && (forall q :: 0 <= q < |ends| ==> 1 <= ends[q] - (i + q * BatchSize) <= BatchSize)
      && (forall p, q :: 0 <= p < q < |ends| ==> ends[p] < ends[q])
  {
    var ends := BatchEnds(n, i);
    var m := |ends| - 1;
    assert (m + 1) * BatchSize >= n - i;
  }

  /** `texts.slice(i, i + 50)` for every loop turn. */
  function Batches(texts: seq<string>, i: nat): seq<seq<string>>
    decreases |texts| - i
  {
    if i >= |texts| then []
    else [texts[i..Min(i + BatchSize, |texts|)]] + Batches(texts, i + BatchSize)
  }

  /** Batch `q` is the slice from `i + 50q` to the `q`-th batch end. */
  lemma {:induction false} BatchesShape(texts: seq<string>, i: nat)
    ensures var bs := Batches(texts, i); var ends := BatchEnds(|texts|, i);
      && |bs| == |ends|
      && forall q :: 0 <= q < |bs| ==> bs[q] == texts[i + q * BatchSize..ends[q]]
    decreases |texts| - i
  {
    if i < |texts| {
      BatchesShape(texts, i + BatchSize);
      var bs := Batches(texts, i);
      var ends := BatchEnds(|texts|, i);
      forall q | 0 <= q < |bs| ensures bs[q] == texts[i + q * BatchSize..ends[q]] {
        if q > 0 {
          assert bs[q] == Batches(texts, i + BatchSize)[q - 1];
          assert ends[q] == BatchEnds(|texts|, i + BatchSize)[q - 1];
          assert i + q * BatchSize == (i + BatchSize) + (q - 1) * BatchSize;
        }
      }
    }
  }

  /** The batches cover the texts from `i` on, in order, without overlap. */
  lemma {:induction false} BatchesConcatenate(texts: seq<string>, i: nat)
    requires i <= |texts|
    ensures Flatten(Batches(texts, i)) == texts[i..]
    decreases |texts| - i
  {
    if i < |texts| {
      var e := Min(i + BatchSize, |texts|);
      BatchesConcatenate(texts, e);
      if i + BatchSize < |texts| {
        assert Batches(texts, i)[1..] == Batches(texts, i + BatchSize);
      } else {
        assert Batches(texts, i)[1..] == [];
      }
      assert texts[i..e] + texts[e..] == texts[i..];
    }
  }

  /** The model's vectors for each batch, concatenated. */
  function Embedded(model: Model, bs: seq<seq<string>>): seq<Vector>
    requires forall q :: 0 <= q < |bs| ==> model(bs[q]).Ok?
  {
    if bs == [] then [] else model(bs[0]).value + Embedded(model, bs[1..])
  }

  /** The embedding loop from text `i` on. */
  function EmbedFrom(texts: seq<string>, i: nat, model: Model): (run: Outcome<seq<Vector>>)
    ensures var ends := BatchEnds(|texts|, i);
      && |run.events| <= |ends|
      && forall e :: 0 <= e < |run.events| ==> run.events[e] == EmbeddingProgress(ends[e], |texts|)
    decreases |texts| - i
  {
    if i >= |texts| then Outcome([], Ok([]))
    else
      var end := Min(i + BatchSize, |texts|);
      var progress := EmbeddingProgress(end, |texts|);
      match model(texts[i..end])
      case Err(reason) => Outcome([progress], Err(BatchFailure(reason)))
      case Ok(vectors) =>
        var rest := EmbedFrom(texts, i + BatchSize, model);
        Outcome([progress] + rest.events,
          if rest.result.Ok? then Ok(vectors + rest.result.value) else rest.result)
  }

  /** The loop succeeds exactly when the model accepts every batch. */
  lemma {:induction false} EmbedSucceedsIff(texts: seq<string>, i: nat, model: Model)
    ensures EmbedFrom(texts, i, model).result.Ok?
      <==> forall q :: 0 <= q < |Batches(texts, i)| ==> model(Batches(texts, i)[q]).Ok?
    decreases |texts| - i
  {
    if i < |texts| {
      EmbedSucceedsIff(texts, i + BatchSize, model);
      var end := Min(i + BatchSize, |texts|);
      assert Batches(texts, i) == [texts[i..end]] + Batches(texts, i + BatchSize);
      if model(texts[i..end]).Ok? {
        if EmbedFrom(texts, i + BatchSize, model).result.Ok? {
          forall q | 0 <= q < |Batches(texts, i)| ensures model(Batches(texts, i)[q]).Ok? {
            if q > 0 {
              assert Batches(texts, i)[q] == Batches(texts, i + BatchSize)[q - 1];
            }
          }
        } else {
          var q :| 0 <= q < |Batches(texts, i + BatchSize)| && !model(Batches(texts, i + BatchSize)[q]).Ok?;
          assert Batches(texts, i)[q + 1] == Batches(texts, i + BatchSize)[q];
        }
      } else {
        assert Batches(texts, i)[0] == texts[i..end];
      }
    }
  }

  /** On success every batch was announced and the result is the batches'
      vectors in order. */
  lemma {:induction false} EmbedSucceeds(texts: seq<string>, i: nat, model: Model)
    requires forall q :: 0 <= q < |Batches(texts, i)| ==> model(Batches(texts, i)[q]).Ok?
    ensures var run := EmbedFrom(texts, i, model); var bs := Batches(texts, i);
      run.result.Ok? && |run.events| == |bs| && run.result.value == Embedded(model, bs)
    decreases |texts| - i
  {
    if i < |texts| {
      var bs := Batches(texts, i);
      var rest := Batches(texts, i + BatchSize);
      assert bs == [bs[0]] + rest;
      assert bs[1..] == rest;
      forall q | 0 <= q < |rest| ensures model(rest[q]).Ok? {
        assert rest[q] == bs[q + 1];
      }
      EmbedSucceeds(texts, i + BatchSize, model);
    }
  }

  /** A failing batch stops the loop: the last event announced that batch,
      every earlier batch was accepted, and the error carries the model's
      message. */
  lemma {:induction false} EmbedFails(texts: seq<string>, i: nat, model: Model)
    ensures var run := EmbedFrom(texts, i, model); var bs := Batches(texts, i); var t := |run.events|;
      run.result.Err? ==>
        && 1 <= t <= |bs|
        && (forall q :: 0 <= q < t - 1 ==> model(bs[q]).Ok?)
        && model(bs[t - 1]).Err?
        && run.result.error == BatchFailure(model(bs[t - 1]).error)
    decreases |texts| - i
  {
    if i < |texts| {
      var bs := Batches(texts, i);
      assert bs[1..] == Batches(texts, i + BatchSize);
      EmbedFails(texts, i + BatchSize, model);
    }
  }

  /** A model that embeds each text of a batch on its own. */
  function Pointwise(f: string -> Vector, b: seq<string>): (vs: seq<Vector>)
    ensures |vs| == |b|
    ensures forall j :: 0 <= j < |b| ==> vs[j] == f(b[j])
  {
    seq(|b|, j requires 0 <= j < |b| => f(b[j]))
  }

  /** One vector per text in input order: when the model embeds each text on
      its own, the loop returns exactly those vectors. */
  lemma {:induction false} PointwiseModel(texts: seq<string>, i: nat, model: Model, f: string -> Vector)
    requires i <= |texts|
    requires forall b :: model(b) == Ok(Pointwise(f, b))
    ensures var run := EmbedFrom(texts, i, model);
      && run.result.Ok?
      && |run.result.value| == |texts| - i
      && forall j :: i <= j < |texts| ==> run.result.value[j - i] == f(texts[j])
    decreases |texts| - i
  {
    if i < |texts| {
      var end := Min(i + BatchSize, |texts|);
      var vs := Pointwise(f, texts[i..end]);
      PointwiseModel(texts, end, model, f);
      var rest := EmbedFrom(texts, i + BatchSize, model);
      assert rest == EmbedFrom(texts, end, model);
      var r := EmbedFrom(texts, i, model);
      assert model(texts[i..end]) == Ok(vs);
      assert r.result == Ok(vs + rest.result.value);
      forall j | i <= j < |texts|
        ensures r.result.value[j - i] == f(texts[j])
      {
        if j < end {
          assert vs[j - i] == f(texts[i..end][j - i]);
        } else {
          assert r.result.value[j - i] == rest.result.value[j - end];
        }
      }
    }
  }
}
