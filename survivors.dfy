/** Which sorted points reach the output, stated on global indices. The point at sorted index j
    lies in batch j / M at position j mod M, so it survives thinning exactly when j mod M is a
    multiple of the stride S. */
module Survivors {
  import opened GpxModel
  import opened Ceiling
  import opened TimeSort
  import opened Batching
  import opened Thinning

  /** The surviving indices below n, in increasing order. */
  function KeptIndices(n: nat, m: nat, stride: nat): (ks: seq<nat>)
    requires m > 0 && stride > 0
    ensures forall t :: 0 <= t < |ks| ==> ks[t] < n
    ensures forall t, u :: 0 <= t < u < |ks| ==> ks[t] < ks[u]
  {
    if n == 0 then []
    else KeptIndices(n - 1, m, stride) + (if ((n - 1) % m) % stride == 0 then [n - 1] else [])
  }

  /** An index is listed exactly when it is below n and a multiple of the stride within its batch. */
  lemma {:induction false} KeptIndicesMembers(n: nat, m: nat, stride: nat, j: nat)
    requires m > 0 && stride > 0
    ensures j in KeptIndices(n, m, stride) <==> j < n && (j % m) % stride == 0
  {
    if n > 0 {
      KeptIndicesMembers(n - 1, m, stride, j);
    }
  }

  /** With stride 1 every index survives. */
  lemma {:induction false} KeptIndicesStrideOne(n: nat, m: nat)
    requires m > 0
    ensures KeptIndices(n, m, 1) == seq(n, j requires 0 <= j < n => j)
  {
    if n > 0 {
      KeptIndicesStrideOne(n - 1, m);
    }
  }

  /** The cleaned points of `s` at the indices `ks`, in that order. */
  function CleanAt(s: seq<TrackPoint>, ks: seq<nat>): seq<TrackPoint>
    requires forall t :: 0 <= t < |ks| ==> ks[t] < |s|
  {
    seq(|ks|, t requires 0 <= t < |ks| => Clean(s[ks[t]]))
  }

  /** Picking at increasing indices from a time-ordered list gives a time-ordered list. */
  lemma {:induction false} CleanAtSorted(s: seq<TrackPoint>, ks: seq<nat>)
    requires forall t :: 0 <= t < |ks| ==> ks[t] < |s|
    requires forall t, u :: 0 <= t < u < |ks| ==> ks[t] < ks[u]
    requires SortedByTime(s)
    ensures SortedByTime(CleanAt(s, ks))
  {
    var r := CleanAt(s, ks);
    forall t, u | 0 <= t < u < |r|
      ensures r[t].time <= r[u].time
    {
      assert r[t].time == s[ks[t]].time && r[u].time == s[ks[u]].time;
    }
  }

  /** Position r of block i, for r below M, has remainder r. */
  lemma {:induction false} BlockMod(i: nat, m: nat, r: nat)
    requires r < m
    ensures (i * m + r) % m == r
  {
    var j := i * m + r;
    var q, rr := j / m, j % m;
    assert (i - q) * m == rr - r by {
      assert q * m + rr == j;
    }
    MultipleBeyondBlock(i - q, m);
  }

  /** The indices batch i starts with: its base plus every multiple of the stride below d. */
  function BlockIndices(base: nat, d: nat, stride: nat): (ks: seq<nat>)
    requires stride > 0
  {
    seq(CeilDiv(d, stride), k requires 0 <= k < CeilDiv(d, stride) => base + k * stride)
  }

  /** One more position adds itself to the block's indices exactly when it is a multiple of the
      stride away from the base. */
  lemma {:induction false} BlockIndicesStep(base: nat, d: nat, stride: nat)
    requires stride > 0 && d > 0
    ensures BlockIndices(base, d, stride)
            == BlockIndices(base, d - 1, stride) + (if (d - 1) % stride == 0 then [base + (d - 1)] else [])
  {
    CeilDivStep(d - 1, stride);
    var before, now := BlockIndices(base, d - 1, stride), BlockIndices(base, d, stride);
    var extra: seq<nat> := if (d - 1) % stride == 0 then [base + (d - 1)] else [];
    assert |now| == |before| + |extra|;
    forall k | 0 <= k < |now|
      ensures now[k] == (before + extra)[k]
    {
      if k == |before| {
        assert k * stride == d - 1;
      }
    }
  }

  /** The first d positions of batch i add to the survivors exactly the positions that are
      multiples of the stride. */
  lemma {:induction false} KeptIndicesBlock(m: nat, stride: nat, i: nat, d: nat)
    requires m > 0 && stride > 0 && d <= m
    ensures KeptIndices(i * m + d, m, stride)
            == KeptIndices(i * m, m, stride) + BlockIndices(i * m, d, stride)
  {
    var base := i * m;
    if d == 0 {
      CeilDivIsCeiling(0, stride);
      assert BlockIndices(base, 0, stride) == [];
    } else {
      KeptIndicesBlock(m, stride, i, d - 1);
      var e := base + (d - 1);
      BlockMod(i, m, d - 1);
      BlockIndicesStep(base, d, stride);
      var before := BlockIndices(base, d - 1, stride);
      var extra: seq<nat> := if (d - 1) % stride == 0 then [e] else [];
      assert KeptIndices(e + 1, m, stride) == KeptIndices(e, m, stride) + extra;
      var prior := KeptIndices(base, m, stride);
      assert (prior + before) + extra == prior + (before + extra);
    }
  }

  /** Thinning batch i keeps the cleaned sorted points at its base plus multiples of the stride. */
  lemma {:induction false} ThinnedBatchIndices(s: seq<TrackPoint>, m: nat, stride: nat, i: nat)
    requires m > 0 && stride > 0 && i < BatchCount(|s|, m)
    ensures forall t :: 0 <= t < |BlockIndices(i * m, |Batch(s, m, i)|, stride)| ==>
              BlockIndices(i * m, |Batch(s, m, i)|, stride)[t] < |s|
    ensures Thinned(Batch(s, m, i), stride) == CleanAt(s, BlockIndices(i * m, |Batch(s, m, i)|, stride))
  {
    var batch := Batch(s, m, i);
    var ks := BlockIndices(i * m, |batch|, stride);
    forall t | 0 <= t < |ks|
      ensures t * stride < |batch| && ks[t] < |s|
    {
      CeilDivSpec(|batch|, stride, t);
    }
    var kept := Thinned(batch, stride);
    forall t | 0 <= t < |kept|
      ensures kept[t] == CleanAt(s, ks)[t]
    {
      ThinnedPoints(batch, stride, t);
    }
  }

  /** The kept points of every batch, in batch order. */
  function ThinnedBatches(s: seq<TrackPoint>, m: nat, stride: nat): (ts: seq<seq<TrackPoint>>)
    requires m > 0 && stride > 0
    ensures |ts| == BatchCount(|s|, m)
  {
    seq(BatchCount(|s|, m), i requires 0 <= i < BatchCount(|s|, m) => Thinned(Batch(s, m, i), stride))
  }

  lemma {:induction false} CleanAtAppend(s: seq<TrackPoint>, a: seq<nat>, b: seq<nat>)
    requires forall t :: 0 <= t < |a| ==> a[t] < |s|
    requires forall t :: 0 <= t < |b| ==> b[t] < |s|
    ensures forall t :: 0 <= t < |a + b| ==> (a + b)[t] < |s|
    ensures CleanAt(s, a + b) == CleanAt(s, a) + CleanAt(s, b)
  {
  }

  /** Passing over batch i adds its kept points to the survivors so far. */
  lemma {:induction false} KeptThroughBatch(s: seq<TrackPoint>, m: nat, stride: nat, i: nat)
    requires m > 0 && stride > 0 && i < BatchCount(|s|, m)
    ensures PrefixEnd(|s|, m, i) <= PrefixEnd(|s|, m, i + 1) <= |s|
    ensures CleanAt(s, KeptIndices(PrefixEnd(|s|, m, i + 1), m, stride))
            == CleanAt(s, KeptIndices(PrefixEnd(|s|, m, i), m, stride)) + Thinned(Batch(s, m, i), stride)
  {
    var d := |Batch(s, m, i)|;
    CeilDivSpec(|s|, m, i);
    BatchEnd(s, m, i);
    KeptIndicesBlock(m, stride, i, d);
    ThinnedBatchIndices(s, m, stride, i);
    CleanAtAppend(s, KeptIndices(i * m, m, stride), BlockIndices(i * m, d, stride));
  }

  lemma {:induction false} ConcatThinnedStep(s: seq<TrackPoint>, m: nat, stride: nat, k: nat)
    requires m > 0 && stride > 0 && 0 < k <= BatchCount(|s|, m)
    ensures Concat(ThinnedBatches(s, m, stride)[..k])
            == Concat(ThinnedBatches(s, m, stride)[..k - 1]) + Thinned(Batch(s, m, k - 1), stride)
  {
    var ts := ThinnedBatches(s, m, stride);
    assert ts[..k][..k - 1] == ts[..k - 1];
  }

  /** The kept points of the batches before k, put together, are the cleaned points at the
      surviving indices among the first min(k*M, N). */
  lemma {:induction false} ConcatThinnedPrefix(s: seq<TrackPoint>, m: nat, stride: nat, k: nat)
    requires m > 0 && stride > 0 && k <= BatchCount(|s|, m)
    ensures PrefixEnd(|s|, m, k) <= |s|
    ensures Concat(ThinnedBatches(s, m, stride)[..k])
            == CleanAt(s, KeptIndices(PrefixEnd(|s|, m, k), m, stride))
  {
    var ts := ThinnedBatches(s, m, stride);
    if k == 0 {
      assert ts[..0] == [];
    } else {
      ConcatThinnedPrefix(s, m, stride, k - 1);
      ConcatThinnedStep(s, m, stride, k);
      KeptThroughBatch(s, m, stride, k - 1);
    }
  }

  /** All kept points, batch after batch, are the cleaned sorted points at the surviving indices. */
  lemma {:induction false} ConcatThinned(s: seq<TrackPoint>, m: nat, stride: nat)
    requires m > 0 && stride > 0
    ensures Concat(ThinnedBatches(s, m, stride)) == CleanAt(s, KeptIndices(|s|, m, stride))
  {
    var ts := ThinnedBatches(s, m, stride);
    ConcatThinnedPrefix(s, m, stride, |ts|);
    assert ts[..|ts|] == ts;
    AllBatchesEnd(|s|, m);
  }
}
