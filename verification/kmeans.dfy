/** Lloyd's k-means as `kMeansClustering` in public/ProcessingWorker.js runs
    it: nearest-centroid assignment with the lowest index winning ties,
    centroids recomputed as member means (an empty cluster's centroid
    becomes the zero vector), at most ten iterations, stopping after the
    first iteration that changes no assignment.

    Distances are compared as squared Euclidean distances over exact reals:
    `Math.sqrt` is monotone, so the nearest centroid is the same. */
module KMeans {
  import opened Wrappers
  import opened Seqs
  import opened Messages
  import opened Protocol

  const MaxIterations: nat := 10

  /** A square is never negative. */
  lemma SquareNonNegative(x: real)
    ensures x * x >= 0.0
  {
    if x > 0.0 {
      PositiveSquare(x);
    } else if x < 0.0 {
      PositiveSquare(-x);
      assert x * x == (-x) * (-x);
    }
  }

  lemma PositiveSquare(y: real)
    requires y > 0.0
    ensures y * y > 0.0
  {
  }

  /** Squared Euclidean distance of two vectors of one length. */
  function SqDist(a: Vector, b: Vector): (d: real)
    requires |a| == |b|
    ensures d >= 0.0
    ensures a == b ==> d == 0.0
  {
    if a == [] then 0.0
    else
      var n := |a| - 1;
      SquareNonNegative(a[n] - b[n]);
      SqDist(a[..n], b[..n]) + (a[n] - b[n]) * (a[n] - b[n])
  }

  /** `euclideanDistance`, squared: it throws exactly on vectors of
      different lengths, is never negative and is zero from a vector to
      itself. */
  function Distance(a: Vector, b: Vector): (r: Result<real, WorkerError>)
    ensures r.Ok? <==> |a| == |b|
    ensures r.Err? ==> r.error == DimensionMismatch
    ensures r.Ok? ==> r.value >= 0.0 && (a == b ==> r.value == 0.0)
    ensures r.Ok? ==> r.value == SqDist(a, b)
  {
    if |a| != |b| then Err(DimensionMismatch) else Ok(SqDist(a, b))
  }

  /** Swapping the arguments does not change the distance. */
  lemma {:induction false} DistanceSymmetric(a: Vector, b: Vector)
    ensures Distance(a, b) == Distance(b, a)
  {
    if |a| == |b| {
      SqDistSymmetric(a, b);
    }
  }

  lemma {:induction false} SqDistSymmetric(a: Vector, b: Vector)
    requires |a| == |b|
    ensures SqDist(a, b) == SqDist(b, a)
  {
    if a != [] {
      var n := |a| - 1;
      SqDistSymmetric(a[..n], b[..n]);
      assert (a[n] - b[n]) * (a[n] - b[n]) == (b[n] - a[n]) * (b[n] - a[n]);
    }
  }

  /** Every centroid has the point's length, so no distance throws. */
  predicate SameDims(p: Vector, cs: seq<Vector>) {
    forall j :: 0 <= j < |cs| ==> |cs[j]| == |p|
  }

  /** `j` is where the scan over the centroids settles: no centroid is
      closer, and every earlier one is strictly farther. */
  predicate IsNearest(p: Vector, cs: seq<Vector>, j: nat)
    requires SameDims(p, cs)
  {
    && j < |cs|
    && (forall i :: 0 <= i < |cs| ==> SqDist(p, cs[j]) <= SqDist(p, cs[i]))
    && (forall i :: 0 <= i < j ==> SqDist(p, cs[j]) < SqDist(p, cs[i]))
  }

  /** The inner `for j` loop from centroid `j` on, with the best index and
      distance found so far. */
  function Scan(p: Vector, cs: seq<Vector>, j: nat, best: nat, bestD: real): (r: Result<nat, WorkerError>)
    requires 0 < j <= |cs| && best < j
    requires forall i :: 0 <= i < j ==> |cs[i]| == |p|
    requires bestD == SqDist(p, cs[best])
    requires forall i :: 0 <= i < j ==> bestD <= SqDist(p, cs[i])
    requires forall i :: 0 <= i < best ==> bestD < SqDist(p, cs[i])
    ensures r.Ok? <==> SameDims(p, cs)
    ensures r.Err? ==> r.error == DimensionMismatch
    ensures r.Ok? ==> IsNearest(p, cs, r.value)
    decreases |cs| - j
  {
    if j == |cs| then Ok(best)
    else if |cs[j]| != |p| then Err(DimensionMismatch)
    else if SqDist(p, cs[j]) < bestD then Scan(p, cs, j + 1, j, SqDist(p, cs[j]))
    else Scan(p, cs, j + 1, best, bestD)
  }

  /** The closest centroid to `p`; the first distance always beats the
      initial `Infinity`, so with no centroids the index stays 0. */
  function Nearest(p: Vector, cs: seq<Vector>): (r: Result<nat, WorkerError>)
    ensures r.Ok? <==> SameDims(p, cs)
    ensures r.Err? ==> r.error == DimensionMismatch
    ensures r.Ok? && cs != [] ==> IsNearest(p, cs, r.value)
    ensures cs == [] ==> r == Ok(0)
  {
    if cs == [] then Ok(0)
    else if |cs[0]| != |p| then Err(DimensionMismatch)
    else Scan(p, cs, 1, 0, SqDist(p, cs[0]))
  }

  /** The assignment loop: every point's nearest centroid, or the error of
      the first distance that throws. */
  function AssignAll(points: seq<Vector>, cs: seq<Vector>): (r: Result<seq<nat>, WorkerError>)
    ensures r.Ok? <==> forall i :: 0 <= i < |points| ==> SameDims(points[i], cs)
    ensures r.Err? ==> r.error == DimensionMismatch
    ensures r.Ok? ==> |r.value| == |points|
    ensures r.Ok? && cs != [] ==> forall i :: 0 <= i < |points| ==> r.value[i] < |cs|
  {
    if points == [] then Ok([])
    else
      match Nearest(points[0], cs)
      case Err(e) => Err(e)
      case Ok(a) =>
        match AssignAll(points[1..], cs)
        case Err(e) => Err(e)
        case Ok(rest) =>
          assert forall i :: 1 <= i < |points| ==> points[i] == points[1..][i - 1];
          Ok([a] + rest)
  }

  /** Each point goes to its nearest centroid. */
  lemma {:induction false} AssignAllNearest(points: seq<Vector>, cs: seq<Vector>)
    requires cs != [] && AssignAll(points, cs).Ok?
    ensures forall i :: 0 <= i < |points| ==> SameDims(points[i], cs) && IsNearest(points[i], cs, AssignAll(points, cs).value[i])
  {
    if points != [] {
      AssignAllNearest(points[1..], cs);
      assert forall i :: 1 <= i < |points| ==> points[i] == points[1..][i - 1];
    }
  }

  /** All points have length `dims`. */
  predicate Uniform(points: seq<Vector>, dims: nat) {
    forall i :: 0 <= i < |points| ==> |points[i]| == dims
  }

  /** `clusterCounts[j]`: how many points are assigned to cluster `j`. */
  function MemberCount(assign: seq<nat>, j: nat): nat {
    if assign == [] then 0
    else MemberCount(assign[..|assign| - 1], j) + (if assign[|assign| - 1] == j then 1 else 0)
  }

  /** Coordinate `d` of the members of cluster `j`, summed. */
  function ColumnSum(points: seq<Vector>, assign: seq<nat>, j: nat, d: nat): real
    requires |points| == |assign|
    requires forall i :: 0 <= i < |points| ==> d < |points[i]|
  {
    if points == [] then 0.0
    else
      var n := |points| - 1;
      ColumnSum(points[..n], assign[..n], j, d) + (if assign[n] == j then points[n][d] else 0.0)
  }

  /** The mean of cluster `j`'s members, or the zero vector when it has
      none. */
  function Centroid(points: seq<Vector>, assign: seq<nat>, j: nat, dims: nat): (c: Vector)
    requires |points| == |assign| && Uniform(points, dims)
    ensures |c| == dims
  {
    seq(dims, d requires 0 <= d < dims =>
      if MemberCount(assign, j) > 0 then ColumnSum(points, assign, j, d) / MemberCount(assign, j) as real
      else 0.0)
  }

  function Centroids(points: seq<Vector>, assign: seq<nat>, k: nat, dims: nat): (cs: seq<Vector>)
    requires |points| == |assign| && Uniform(points, dims)
    ensures |cs| == k
    ensures forall j :: 0 <= j < k ==> cs[j] == Centroid(points, assign, j, dims)
  {
    seq(k, j requires 0 <= j < k => Centroid(points, assign, j, dims))
  }

  /** A cluster with no members sums to zero in every coordinate. */
  lemma {:induction false} EmptyColumnSum(points: seq<Vector>, assign: seq<nat>, j: nat, d: nat)
    requires |points| == |assign|
    requires forall i :: 0 <= i < |points| ==> d < |points[i]|
    requires MemberCount(assign, j) == 0
    ensures ColumnSum(points, assign, j, d) == 0.0
  {
    if points != [] {
      var n := |points| - 1;
      EmptyColumnSum(points[..n], assign[..n], j, d);
    }
  }

  /** When all members of cluster `j` are the vector `v`, each column sums
      to the count times that coordinate of `v`. */
  lemma {:induction false} IdenticalColumnSum(points: seq<Vector>, assign: seq<nat>, j: nat, v: Vector, d: nat)
    requires |points| == |assign| && Uniform(points, |v|) && d < |v|
    requires forall i :: 0 <= i < |points| && assign[i] == j ==> points[i] == v
    ensures ColumnSum(points, assign, j, d) == MemberCount(assign, j) as real * v[d]
  {
    if points != [] {
      var n := |points| - 1;
      IdenticalColumnSum(points[..n], assign[..n], j, v, d);
    }
  }

  /** The centroid of a cluster whose members all equal `v` is `v`. */
  lemma CentroidOfIdentical(points: seq<Vector>, assign: seq<nat>, j: nat, v: Vector)
    requires |points| == |assign| && Uniform(points, |v|)
    requires MemberCount(assign, j) > 0
    requires forall i :: 0 <= i < |points| && assign[i] == j ==> points[i] == v
    ensures Centroid(points, assign, j, |v|) == v
  {
    forall d | 0 <= d < |v| ensures Centroid(points, assign, j, |v|)[d] == v[d] {
      IdenticalColumnSum(points, assign, j, v, d);
      var c := MemberCount(assign, j) as real;
      assert Centroid(points, assign, j, |v|)[d] == ColumnSum(points, assign, j, d) / c;
      MeanOfEqual(ColumnSum(points, assign, j, d), c, v[d]);
    }
  }

  /** `clusterCounts` after the accumulation loop. */
  function Counts(assign: seq<nat>, k: nat): (counts: seq<nat>)
    ensures |counts| == k
    ensures forall j :: 0 <= j < k ==> counts[j] == MemberCount(assign, j)
  {
    seq(k, j requires 0 <= j < k => MemberCount(assign, j))
  }

  lemma MeanOfEqual(sum: real, c: real, v: real)
    requires c > 0.0 && sum == c * v
    ensures sum / c == v
  {
  }

  /** The counts of the `k` clusters add up to the number of points. */
  lemma {:induction false} CountsSum(assign: seq<nat>, k: nat)
    requires forall i :: 0 <= i < |assign| ==> assign[i] < k
    ensures Sum(Counts(assign, k)) == |assign|
  {
    if assign != [] {
      var n := |assign| - 1;
      var c := assign[n];
      CountsSum(assign[..n], k);
      assert Counts(assign, k) == Counts(assign[..n], k)[c := Counts(assign[..n], k)[c] + 1];
      SumIncrement(Counts(assign[..n], k), c);
      assert Sum(Counts(assign[..n], k)) == n;
      assert Sum(Counts(assign, k)) == Sum(Counts(assign[..n], k)) + 1;
    } else {
      SumOfZeros(Counts(assign, k));
    }
  }

  lemma {:induction false} SumOfZeros(xs: seq<nat>)
    requires forall i :: 0 <= i < |xs| ==> xs[i] == 0
    ensures Sum(xs) == 0
  {
    if xs != [] {
      SumOfZeros(xs[..|xs| - 1]);
    }
  }

  /** Adding one to an entry adds one to the sum. */
  lemma {:induction false} SumIncrement(xs: seq<nat>, c: nat)
    requires c < |xs|
    ensures Sum(xs[c := xs[c] + 1]) == Sum(xs) + 1
  {
    var n := |xs| - 1;
    var ys := xs[c := xs[c] + 1];
    if c < n {
      SumIncrement(xs[..n], c);
      assert ys[..n] == xs[..n][c := xs[c] + 1];
    } else {
      assert ys[..n] == xs[..n];
    }
  }

  /** One more point added to the running sums. */
  lemma ColumnSumSnoc(points: seq<Vector>, assign: seq<nat>, i: nat, j: nat, d: nat)
    requires |points| == |assign| && i < |points|
    requires forall i' :: 0 <= i' < |points| ==> d < |points[i']|
    ensures ColumnSum(points[..i + 1], assign[..i + 1], j, d)
      == ColumnSum(points[..i], assign[..i], j, d) + (if assign[i] == j then points[i][d] else 0.0)
  {
    assert points[..i + 1][..i] == points[..i];
    assert assign[..i + 1][..i] == assign[..i];
  }

  lemma MemberCountSnoc(assign: seq<nat>, i: nat, j: nat)
    requires i < |assign|
    ensures MemberCount(assign[..i + 1], j) == MemberCount(assign[..i], j) + (if assign[i] == j then 1 else 0)
  {
    assert assign[..i + 1][..i] == assign[..i];
  }

  /** The centroid update as the worker's loops perform it: accumulate
      counts and coordinate sums per cluster, then divide the clusters
      that have members. */
  method UpdateCentroids(points: seq<Vector>, assign: seq<nat>, k: nat, dims: nat) returns (centroids: seq<Vector>)
    requires |points| == |assign| && Uniform(points, dims)
    requires forall i :: 0 <= i < |assign| ==> assign[i] < k
    ensures centroids == Centroids(points, assign, k, dims)
  {
    var sums: seq<Vector> := seq(k, _ => seq(dims, _ => 0.0));
    var counts: seq<nat> := seq(k, _ => 0);
    for i := 0 to |points|
      invariant |sums| == k && |counts| == k
      invariant forall j :: 0 <= j < k ==> |sums[j]| == dims
      invariant forall j :: 0 <= j < k ==> counts[j] == MemberCount(assign[..i], j)
      invariant forall j, d :: 0 <= j < k && 0 <= d < dims ==>
        sums[j][d] == ColumnSum(points[..i], assign[..i], j, d)
    {
      var c := assign[i];
      var row := sums[c];
      for d := 0 to dims
        invariant |row| == dims
        invariant forall e :: 0 <= e < dims ==> row[e] == if e < d then sums[c][e] + points[i][e] else sums[c][e]
      {
        row := row[d := row[d] + points[i][d]];
      }
      forall j | 0 <= j < k ensures MemberCount(assign[..i + 1], j) == MemberCount(assign[..i], j) + (if c == j then 1 else 0) {
        MemberCountSnoc(assign, i, j);
      }
      forall j, d | 0 <= j < k && 0 <= d < dims
        ensures ColumnSum(points[..i + 1], assign[..i + 1], j, d)
          == ColumnSum(points[..i], assign[..i], j, d) + (if c == j then points[i][d] else 0.0)
      {
        ColumnSumSnoc(points, assign, i, j, d);
      }
      counts := counts[c := counts[c] + 1];
      sums := sums[c := row];
    }
    assert points[..|points|] == points && assign[..|assign|] == assign;
    centroids := sums;
    for j := 0 to k
      invariant |centroids| == k
      invariant forall j' :: j <= j' < k ==> centroids[j'] == sums[j']
      invariant forall j' :: 0 <= j' < j ==> centroids[j'] == Centroid(points, assign, j', dims)
    {
      var row := centroids[j];
      if counts[j] > 0 {
        for d := 0 to dims
          invariant |row| == dims
          invariant forall e :: 0 <= e < dims ==> row[e] == if e < d then sums[j][e] / counts[j] as real else sums[j][e]
        {
          row := row[d := row[d] / counts[j] as real];
        }
      } else {
        forall d | 0 <= d < dims ensures row[d] == 0.0 {
          EmptyColumnSum(points, assign, j, d);
        }
      }
      assert row == Centroid(points, assign, j, dims);
      centroids := centroids[j := row];
    }
  }

  /** Centroids and assignments between iterations. */
  datatype State = State(centroids: seq<Vector>, assign: seq<nat>)

  /** At least one point and one centroid, one assignment per point, each
      naming a centroid. */
  predicate Valid(points: seq<Vector>, st: State) {
    && |points| >= 1
    && |st.centroids| >= 1
    && |st.assign| == |points|
    && (forall i :: 0 <= i < |st.assign| ==> st.assign[i] < |st.centroids|)
  }

  /** One iteration of the loop body: reassign every point, then rebuild
      the centroids from the new assignment over `points[0].length`
      coordinates. The flag is `changed`. */
  function Step(points: seq<Vector>, st: State): (r: Result<(State, bool), WorkerError>)
    requires Valid(points, st)
    ensures r.Ok? <==> forall i :: 0 <= i < |points| ==> SameDims(points[i], st.centroids)
    ensures r.Err? ==> r.error == DimensionMismatch
    ensures r.Ok? ==> Valid(points, r.value.0) && |r.value.0.centroids| == |st.centroids|
    ensures r.Ok? ==> (r.value.1 <==> r.value.0.assign != st.assign)
  {
    match AssignAll(points, st.centroids)
    case Err(e) => Err(e)
    case Ok(a) => Ok((State(Centroids(points, a, |st.centroids|, |points[0]|), a), a != st.assign))
  }

  /** A successful iteration assigns every point to its nearest centroid
      and moves each centroid to the mean of its new members. */
  lemma StepMeaning(points: seq<Vector>, st: State)
    requires Valid(points, st) && Step(points, st).Ok?
    ensures Uniform(points, |points[0]|)
    ensures var next := Step(points, st).value.0;
      && (forall i :: 0 <= i < |points| ==>
            SameDims(points[i], st.centroids) && IsNearest(points[i], st.centroids, next.assign[i]))
      && next.centroids == Centroids(points, next.assign, |st.centroids|, |points[0]|)
  {
    AssignAllNearest(points, st.centroids);
    forall i | 0 <= i < |points| ensures |points[i]| == |points[0]| {
      assert SameDims(points[i], st.centroids) && SameDims(points[0], st.centroids);
    }
  }

  /** The state after `s` iterations, or the error that stopped them. */
  function Iterate(points: seq<Vector>, st: State, s: nat): (r: Result<State, WorkerError>)
    requires Valid(points, st)
    ensures r.Ok? ==> Valid(points, r.value) && |r.value.centroids| == |st.centroids|
    decreases s
  {
    if s == 0 then Ok(st)
    else
      var r := Step(points, st);
      if r.Err? then Err(r.error) else Iterate(points, r.value.0, s - 1)
  }

  /** Whether iteration `s + 1`, counted from `st`, changed an assignment. */
  predicate ChangedAt(points: seq<Vector>, st: State, s: nat)
    requires Valid(points, st)
    decreases s
  {
    var r := Step(points, st);
    if r.Err? then false
    else if s == 0 then r.value.1
    else ChangedAt(points, r.value.0, s - 1)
  }

  /** The iteration loop from `iter` on: a progress event after each
      completed iteration, stopping after an iteration that changed
      nothing or when `maxIter` is reached. */
  function Run(points: seq<Vector>, st: State, iter: nat, maxIter: nat): (run: Outcome<seq<nat>>)
    requires Valid(points, st)
    decreases maxIter - iter
  {
    if iter >= maxIter then Outcome([], Ok(st.assign))
    else
      var r := Step(points, st);
      if r.Err? then Outcome([], Err(r.error))
      else
        var progress := ClusteringProgress(iter + 1, maxIter);
        if !r.value.1 then Outcome([progress], Ok(r.value.0.assign))
        else
          var rest := Run(points, r.value.0, iter + 1, maxIter);
          Outcome([progress] + rest.events, rest.result)
  }

  /** Iteration `iter + e + 1` of `maxIter` is the `e`-th one announced. */
  lemma {:induction false} RunEvents(points: seq<Vector>, st: State, iter: nat, maxIter: nat)
    requires Valid(points, st)
    ensures var run := Run(points, st, iter, maxIter);
      forall e :: 0 <= e < |run.events| ==> run.events[e] == ClusteringProgress(iter + e + 1, maxIter)
    decreases maxIter - iter
  {
    if iter < maxIter {
      var r := Step(points, st);
      if r.Ok? && r.value.1 {
        RunEvents(points, r.value.0, iter + 1, maxIter);
        RunUnfold(points, st, iter, maxIter);
        assert Run(points, st, iter, maxIter).events
          == [ClusteringProgress(iter + 1, maxIter)] + Run(points, r.value.0, iter + 1, maxIter).events;
      }
    }
  }

  /** At most `maxIter - iter` iterations are announced. */
  lemma {:induction false} RunBound(points: seq<Vector>, st: State, iter: nat, maxIter: nat)
    requires Valid(points, st)
    ensures iter + |Run(points, st, iter, maxIter).events| <= Max(iter, maxIter)
    decreases maxIter - iter
  {
    if iter < maxIter {
      var r := Step(points, st);
      if r.Ok? && r.value.1 {
        RunBound(points, r.value.0, iter + 1, maxIter);
      }
    }
  }

  /** The loop's result is the assignment after as many iterations as it
      announced; an error comes from the iteration after the last one
      announced. */
  lemma {:induction false} RunResult(points: seq<Vector>, st: State, iter: nat, maxIter: nat)
    requires Valid(points, st)
    ensures var run := Run(points, st, iter, maxIter); var t := |run.events|;
      && Iterate(points, st, t).Ok?
      && (run.result.Ok? ==> run.result.value == Iterate(points, st, t).value.assign)
      && (run.result.Err? ==>
            iter + t < maxIter
            && Step(points, Iterate(points, st, t).value).Err?
            && run.result.error == DimensionMismatch)
    decreases maxIter - iter
  {
    var run := Run(points, st, iter, maxIter);
    assert Iterate(points, st, 0) == Ok(st);
    if iter < maxIter {
      var r := Step(points, st);
      if r.Err? {
        assert run == Outcome([], Err(r.error));
      } else if !r.value.1 {
        assert run == Outcome([ClusteringProgress(iter + 1, maxIter)], Ok(r.value.0.assign));
        assert Iterate(points, st, 1) == Ok(r.value.0) by {
          assert Iterate(points, r.value.0, 0) == Ok(r.value.0);
        }
      } else {
        var next := r.value.0;
        var rest := Run(points, next, iter + 1, maxIter);
        var t' := |rest.events|;
        assert |run.events| == 1 + t' && run.result == rest.result by {
          RunUnfold(points, st, iter, maxIter);
        }
        assert Iterate(points, st, 1 + t') == Iterate(points, next, t');
        RunResult(points, next, iter + 1, maxIter);
      }
    } else {
      assert run == Outcome([], Ok(st.assign));
    }
  }

  /** Every announced iteration but the last changed an assignment. */
  lemma {:induction false} RunChanges(points: seq<Vector>, st: State, iter: nat, maxIter: nat)
    requires Valid(points, st)
    ensures var t := |Run(points, st, iter, maxIter).events|;
      forall s :: 0 <= s < t - 1 ==> ChangedAt(points, st, s)
    decreases maxIter - iter
  {
    if iter < maxIter {
      var r := Step(points, st);
      if r.Ok? && r.value.1 {
        RunChanges(points, r.value.0, iter + 1, maxIter);
        var t := |Run(points, st, iter, maxIter).events|;
        forall s | 0 <= s < t - 1 ensures ChangedAt(points, st, s) {
          if s > 0 {
            assert ChangedAt(points, st, s) == ChangedAt(points, r.value.0, s - 1);
          }
        }
      }
    }
  }

  /** The `t`-th iteration from `st` changed no assignment. */
  predicate QuietAfter(points: seq<Vector>, st: State, t: nat)
    requires Valid(points, st)
  {
    t >= 1 && !ChangedAt(points, st, t - 1)
  }

  /** The loop ends before `maxIter` without an error only after an
      iteration that changed no assignment. */
  lemma {:induction false} RunStopsEarly(points: seq<Vector>, st: State, iter: nat, maxIter: nat)
    requires Valid(points, st)
    ensures var run := Run(points, st, iter, maxIter); var t := |run.events|;
      run.result.Ok? && iter + t < maxIter ==> QuietAfter(points, st, t)
    decreases maxIter - iter
  {
    var run := Run(points, st, iter, maxIter);
    if iter < maxIter {
      var r := Step(points, st);
      if r.Err? {
        assert run == Outcome([], Err(r.error));
      } else if !r.value.1 {
        assert run == Outcome([ClusteringProgress(iter + 1, maxIter)], Ok(r.value.0.assign));
        assert QuietAfter(points, st, 1);
      } else {
        var next := r.value.0;
        var rest := Run(points, next, iter + 1, maxIter);
        var t' := |rest.events|;
        assert |run.events| == 1 + t' && run.result == rest.result by {
          RunUnfold(points, st, iter, maxIter);
        }
        if rest.result.Ok? && iter + 1 + t' < maxIter {
          assert QuietAfter(points, next, t') by {
            RunStopsEarly(points, next, iter + 1, maxIter);
          }
          assert QuietAfter(points, st, 1 + t') by {
            ChangedAtUnfold(points, st, t');
          }
        }
      }
    } else {
      assert run == Outcome([], Ok(st.assign));
    }
  }

  lemma RunUnfold(points: seq<Vector>, st: State, iter: nat, maxIter: nat)
    requires Valid(points, st) && iter < maxIter
    requires Step(points, st).Ok? && Step(points, st).value.1
    ensures var next := Step(points, st).value.0;
      && |Run(points, st, iter, maxIter).events| == 1 + |Run(points, next, iter + 1, maxIter).events|
      && Run(points, st, iter, maxIter).result == Run(points, next, iter + 1, maxIter).result
  {
  }

  lemma ChangedAtUnfold(points: seq<Vector>, st: State, s: nat)
    requires Valid(points, st) && s >= 1 && Step(points, st).Ok?
    ensures ChangedAt(points, st, s) == ChangedAt(points, Step(points, st).value.0, s - 1)
  {
  }

  /** With all points of one length and centroids of that length, no
      distance throws and the loop succeeds. */
  lemma {:induction false} RunSucceeds(points: seq<Vector>, st: State, iter: nat, maxIter: nat)
    requires Valid(points, st) && Uniform(points, |points[0]|)
    requires forall j :: 0 <= j < |st.centroids| ==> |st.centroids[j]| == |points[0]|
    ensures Run(points, st, iter, maxIter).result.Ok?
    decreases maxIter - iter
  {
    if iter < maxIter {
      forall i | 0 <= i < |points| ensures SameDims(points[i], st.centroids) {
      }
      var r := Step(points, st);
      if r.Ok? && r.value.1 {
        RunSucceeds(points, r.value.0, iter + 1, maxIter);
      }
    }
  }

  /** `k` centroids copied from the points `draw(j) % n` (the random
      picks), and every assignment 0. */
  function InitialState(points: seq<Vector>, k: nat, draw: nat -> nat): (st: State)
    requires |points| >= 1 && k >= 1
    ensures Valid(points, st)
    ensures |st.centroids| == k
    ensures forall j :: 0 <= j < k ==> st.centroids[j] in points
  {
    State(seq(k, j requires 0 <= j < k => points[draw(j) % |points|]), seq(|points|, _ => 0))
  }

  /** `kMeansClustering(embeddings, k)` with the default ten iterations. */
  function KMeansClustering(points: seq<Vector>, k: nat, draw: nat -> nat): (run: Outcome<seq<nat>>)
    requires |points| >= 1 && k >= 1
    ensures run.result.Ok? <==> Uniform(points, |points[0]|)
    ensures run.result.Err? ==> run.result.error == DimensionMismatch && run.events == []
    ensures run.result.Ok? ==>
      && |run.result.value| == |points|
      && (forall i :: 0 <= i < |points| ==> run.result.value[i] < k)
      && 1 <= |run.events| <= MaxIterations
    ensures forall e :: 0 <= e < |run.events| ==> run.events[e] == ClusteringProgress(e + 1, MaxIterations)
  {
    var st := InitialState(points, k, draw);
    RunFromCopies(points, st);
    Run(points, st, 0, MaxIterations)
  }

  /** The loop from centroids copied from the points. */
  lemma RunFromCopies(points: seq<Vector>, st: State)
    requires Valid(points, st)
    requires forall j :: 0 <= j < |st.centroids| ==> st.centroids[j] in points
    ensures var run := Run(points, st, 0, MaxIterations);
      && (run.result.Ok? <==> Uniform(points, |points[0]|))
      && (run.result.Err? ==> run.result.error == DimensionMismatch && run.events == [])
      && (run.result.Ok? ==>
            && |run.result.value| == |points|
            && (forall i :: 0 <= i < |points| ==> run.result.value[i] < |st.centroids|)
            && 1 <= |run.events| <= MaxIterations)
      && (forall e :: 0 <= e < |run.events| ==> run.events[e] == ClusteringProgress(e + 1, MaxIterations))
  {
    RunResult(points, st, 0, MaxIterations);
    RunBound(points, st, 0, MaxIterations);
    RunEvents(points, st, 0, MaxIterations);
    RunOkIffUniform(points, st);
  }

  /** From centroids copied from the points, the loop fails exactly when
      the points differ in length, and then before announcing anything. */
  lemma RunOkIffUniform(points: seq<Vector>, st: State)
    requires Valid(points, st)
    requires forall j :: 0 <= j < |st.centroids| ==> st.centroids[j] in points
    ensures var run := Run(points, st, 0, MaxIterations);
      && (run.result.Ok? <==> Uniform(points, |points[0]|))
      && (run.result.Err? ==> run.events == [])
  {
    if Uniform(points, |points[0]|) {
      RunSucceeds(points, st, 0, MaxIterations);
    } else {
      FirstStepFails(points, st);
    }
  }

  /** Points of different lengths make the first assignment throw, since
      every centroid starts as a copy of a point. */
  lemma FirstStepFails(points: seq<Vector>, st: State)
    requires Valid(points, st) && !Uniform(points, |points[0]|)
    requires forall j :: 0 <= j < |st.centroids| ==> st.centroids[j] in points
    ensures Step(points, st).Err?
  {
    var i :| 0 <= i < |points| && |points[i]| != |points[0]|;
    if |st.centroids[0]| == |points[0]| {
      assert !SameDims(points[i], st.centroids);
    } else {
      assert !SameDims(points[0], st.centroids);
    }
  }

  /** Stopping is sound after any iteration but the first: when the
      centroids are those of the current assignment and an iteration
      changes no assignment, it reproduces its input state exactly, so
      further iterations would change nothing. */
  lemma NoChangeKeepsState(points: seq<Vector>, st: State)
    requires Valid(points, st) && Uniform(points, |points[0]|)
    requires st.centroids == Centroids(points, st.assign, |st.centroids|, |points[0]|)
    requires Step(points, st).Ok? && !Step(points, st).value.1
    ensures Step(points, st).value.0 == st
  {
    StepMeaning(points, st);
  }

  /** k is not capped by the number of points: a single point copied into
      every centroid is equally close to all of them, and the strict
      comparison keeps it in cluster 0, so the first iteration changes
      nothing and the loop stops there. */
  lemma SinglePoint(p: Vector, k: nat, draw: nat -> nat)
    requires k >= 1
    ensures KMeansClustering([p], k, draw) == Outcome([ClusteringProgress(1, MaxIterations)], Ok([0]))
  {
    var st := InitialState([p], k, draw);
    assert forall j :: 0 <= j < k ==> st.centroids[j] == p;
    assert SameDims(p, st.centroids);
    AssignAllNearest([p], st.centroids);
    var a := AssignAll([p], st.centroids).value;
    assert a == [0] == st.assign;
  }

  /** Assignments start at 0, so the first iteration reports no change
      whenever every point is nearest to centroid 0, and the loop stops
      there: for the points 0 and 10 and every random pick landing on the
      first point, both points stay in cluster 0 after one iteration. */
  lemma StopsAfterFirstIteration()
    ensures KMeansClustering([[0.0], [10.0]], 3, _ => 0)
      == Outcome([ClusteringProgress(1, MaxIterations)], Ok([0, 0]))
  {
    var points: seq<Vector> := [[0.0], [10.0]];
    var zero: seq<Vector> := [[0.0], [0.0], [0.0]];
    var st := InitialState(points, 3, _ => 0);
    assert st == State(zero, [0, 0]);
    assert AssignAll(points, zero) == Ok([0, 0]) by {
      FirstAssignment();
    }
    assert Step(points, st).Ok? && !Step(points, st).value.1;
  }

  /** With every centroid at the point 0, the strict comparison keeps both
      points in cluster 0. */
  lemma FirstAssignment()
    ensures AssignAll([[0.0], [10.0]], [[0.0], [0.0], [0.0]]) == Ok([0, 0])
  {
    var points: seq<Vector> := [[0.0], [10.0]];
    var zero: seq<Vector> := [[0.0], [0.0], [0.0]];
    assert forall i :: 0 <= i < |points| ==> SameDims(points[i], zero);
    AssignAllNearest(points, zero);
    var a := AssignAll(points, zero).value;
    assert a[0] == 0 && a[1] == 0;
    assert a == [0, 0];
  }

  /** The state that loop stops in (see `StoppedCentroids`) is not a
      fixed point: with centroids 5 and the zero vector of the empty
      clusters, the next iteration would move the point 0 out of cluster 0. */
  lemma NotConvergedWhenStopped()
    ensures var points: seq<Vector> := [[0.0], [10.0]];
      var last := State([[5.0], [0.0], [0.0]], [0, 0]);
      Valid(points, last) && Step(points, last).Ok? && Step(points, last).value.1
  {
    var points: seq<Vector> := [[0.0], [10.0]];
    var cs: seq<Vector> := [[5.0], [0.0], [0.0]];
    assert AssignAll(points, cs).Ok? && AssignAll(points, cs).value[0] != 0 by {
      FirstPointMoves();
    }
  }

  /** Against those centroids the point 0 is nearest to the zero vector of
      cluster 1. */
  lemma FirstPointMoves()
    ensures var points: seq<Vector> := [[0.0], [10.0]];
      var cs: seq<Vector> := [[5.0], [0.0], [0.0]];
      AssignAll(points, cs).Ok? && AssignAll(points, cs).value[0] != 0
  {
    var points: seq<Vector> := [[0.0], [10.0]];
    var cs: seq<Vector> := [[5.0], [0.0], [0.0]];
    assert forall i :: 0 <= i < |points| ==> SameDims(points[i], cs);
    assert SqDist(points[0], cs[1]) < SqDist(points[0], cs[0]) by {
      assert SqDist(points[0], cs[1]) == 0.0;
      assert SqDist(points[0], cs[0]) == 25.0;
    }
    AssignAllNearest(points, cs);
  }

  /** After the first iteration both points sit in cluster 0: its centroid
      is their mean 5 and the two empty clusters get the zero vector. */
  lemma StoppedCentroids()
    ensures Centroids([[0.0], [10.0]], [0, 0], 3, 1) == [[5.0], [0.0], [0.0]]
  {
    var points: seq<Vector> := [[0.0], [10.0]];
    var assign: seq<nat> := [0, 0];
    assert assign[..1] == [0] && assign[..1][..0] == [];
    assert MemberCount(assign, 0) == 2 && MemberCount(assign, 1) == 0 && MemberCount(assign, 2) == 0;
    assert ColumnSum(points, assign, 0, 0) == 10.0;
    var cs := Centroids(points, assign, 3, 1);
    assert cs[0] == [5.0];
    assert cs[1] == [0.0] && cs[2] == [0.0];
  }
}
