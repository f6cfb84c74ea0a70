/** Batching: the time-ordered list of N points is cut into ceil(N / M) contiguous slices of at most
    M points each. */
module Batching {
  import opened GpxModel
  import opened Ceiling

  /** Number of output files for N points and batch size M. */
  function BatchCount(n: nat, m: nat): (count: nat)
    requires m > 0
    ensures count * m >= n
    ensures count * m < n + m
  {
    CeilDivIsCeiling(n, m);
    var c := CeilDiv(n, m);
    assert c * m < n + m by {
      if c > 0 {
        assert c * m == (c - 1) * m + m;
      }
    }
    c
  }

  /** Batch `i`: the points from index i*M up to (i+1)*M, or to the end if that comes first.
      It is a non-empty run of at most M consecutive sorted points starting at index i*M. */
  function Batch(s: seq<TrackPoint>, m: nat, i: nat): (batch: seq<TrackPoint>)
    requires m > 0 && i < BatchCount(|s|, m)
    ensures 1 <= |batch| <= m && i * m + |batch| <= |s|
    ensures forall k :: 0 <= k < |batch| ==> batch[k] == s[i * m + k]
  {
    CeilDivSpec(|s|, m, i + 1);
    assert (i + 1) * m == i * m + m;
    CeilDivSpec(|s|, m, i);
    s[i * m .. if (i + 1) * m <= |s| then (i + 1) * m else |s|]
  }

  /** All batches, in index order. */
  function Batches(s: seq<TrackPoint>, m: nat): (bs: seq<seq<TrackPoint>>)
    requires m > 0
    ensures |bs| == BatchCount(|s|, m)
  {
    seq(BatchCount(|s|, m), i requires 0 <= i < BatchCount(|s|, m) => Batch(s, m, i))
  }

  /** Concatenation of a sequence of sequences, in order. */
  function Concat<T>(ss: seq<seq<T>>): seq<T>
  {
    if ss == [] then [] else Concat(ss[..|ss| - 1]) + ss[|ss| - 1]
  }

  /** The slice the loop body takes for batch `i`: a full window while one fits, else the rest. */
  method SliceBatch(sorted: seq<TrackPoint>, m: nat, i: nat) returns (batch: seq<TrackPoint>)
    requires m > 0 && i < BatchCount(|sorted|, m)
    ensures batch == Batch(sorted, m, i)
    ensures i + 1 < BatchCount(|sorted|, m) ==> |batch| == m
    ensures 1 <= |batch| <= m
  {
    CeilDivSpec(|sorted|, m, i);
    CeilDivSpec(|sorted|, m, i + 1);
    if (i + 1) * m <= |sorted| {
      batch := sorted[i * m .. (i + 1) * m];
    } else {
      batch := sorted[i * m ..];
    }
  }

  /** The number of batches is the ceiling of N / M: none for no points, exactly N / M when M
      divides N, and the last batch is never empty. */
  lemma {:induction false} BatchCountIsCeiling(n: nat, m: nat)
    requires m > 0
    ensures n == 0 ==> BatchCount(n, m) == 0
    ensures n % m == 0 ==> BatchCount(n, m) == n / m
    ensures BatchCount(n, m) * m >= n
    ensures BatchCount(n, m) > 0 ==> (BatchCount(n, m) - 1) * m < n
  {
    CeilDivIsCeiling(n, m);
  }

  /** Every batch but the last holds exactly M points; the last holds between 1 and M. */
  lemma {:induction false} BatchSizes(s: seq<TrackPoint>, m: nat, i: nat)
    requires m > 0 && i < BatchCount(|s|, m)
    ensures i + 1 < BatchCount(|s|, m) ==> |Batch(s, m, i)| == m
    ensures i + 1 == BatchCount(|s|, m) ==> 1 <= |Batch(s, m, i)| <= m
  {
    CeilDivSpec(|s|, m, i);
    CeilDivSpec(|s|, m, i + 1);
  }

  lemma {:induction false} ConcatBatchesStep(s: seq<TrackPoint>, m: nat, k: nat)
    requires m > 0 && 0 < k <= BatchCount(|s|, m)
    ensures Concat(Batches(s, m)[..k]) == Concat(Batches(s, m)[..k - 1]) + Batch(s, m, k - 1)
  {
    var bs := Batches(s, m);
    assert bs[..k][..k - 1] == bs[..k - 1];
  }

  /** The batches before index k, put back together, are the first min(k*M, N) points. */
  lemma {:induction false} ConcatBatchesPrefix(s: seq<TrackPoint>, m: nat, k: nat)
    requires m > 0 && k <= BatchCount(|s|, m)
    ensures k * m <= |s| || k == BatchCount(|s|, m)
    ensures Concat(Batches(s, m)[..k]) == s[..PrefixEnd(|s|, m, k)]
  {
    var bs := Batches(s, m);
    if k == 0 {
      assert bs[..0] == [];
    } else {
      var base := (k - 1) * m;
      var end := PrefixEnd(|s|, m, k);
      ConcatBatchesPrefix(s, m, k - 1);
      CeilDivSpec(|s|, m, k - 1);
      assert Concat(bs[..k - 1]) == s[..base];
      ConcatBatchesStep(s, m, k);
      BatchEnd(s, m, k - 1);
      FullUnlessLast(|s|, m, k);
      assert bs[k - 1] == s[base .. end];
      assert s[..base] + s[base .. end] == s[..end];
    }
  }

  /** Putting the batches back together in index order gives the sorted list: every point lands
      in a batch, none twice, and none is lost. */
  lemma {:induction false} ConcatBatches(s: seq<TrackPoint>, m: nat)
    requires m > 0
    ensures Concat(Batches(s, m)) == s
  {
    var bs := Batches(s, m);
    ConcatBatchesPrefix(s, m, |bs|);
    assert bs[..|bs|] == bs;
    AllBatchesEnd(|s|, m);
  }

  /** How many sorted points the first k batches hold: k*M, or all N once that is exceeded. */
  function PrefixEnd(n: nat, m: nat, k: nat): nat
  {
    if k * m <= n then k * m else n
  }

  /** Batch i runs from i*M to the end of the first i + 1 batches. */
  lemma {:induction false} BatchEnd(s: seq<TrackPoint>, m: nat, i: nat)
    requires m > 0 && i < BatchCount(|s|, m)
    ensures i * m + |Batch(s, m, i)| == PrefixEnd(|s|, m, i + 1)
    ensures Batch(s, m, i) == s[i * m .. PrefixEnd(|s|, m, i + 1)]
  {
  }

  /** All the batches together hold all N points. */
  lemma {:induction false} AllBatchesEnd(n: nat, m: nat)
    requires m > 0
    ensures PrefixEnd(n, m, BatchCount(n, m)) == n
  {
    var c := BatchCount(n, m);
    if c * m <= n {
      assert c * m == n;
    }
  }

  /** Only the last batch can stop short of a full window. */
  lemma {:induction false} FullUnlessLast(n: nat, m: nat, k: nat)
    requires m > 0 && k <= BatchCount(n, m)
    ensures k * m <= n || k == BatchCount(n, m)
  {
    CeilDivSpec(n, m, k);
  }

  /** The point at sorted index j is the (j mod M)-th point of batch j / M. */
  lemma {:induction false} BatchOfIndex(s: seq<TrackPoint>, m: nat, j: nat)
    requires m > 0 && j < |s|
    ensures j / m < BatchCount(|s|, m)
    ensures j % m < |Batch(s, m, j / m)| && Batch(s, m, j / m)[j % m] == s[j]
  {
    var i := j / m;
    assert i * m + j % m == j;
    assert i * m <= j;
    CeilDivSpec(|s|, m, i);
    assert (i + 1) * m == i * m + m;
  }
}
