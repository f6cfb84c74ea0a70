/** Thinning and cleaning inside one batch (`batch_to_xml`): keep the points whose index within
    the batch is a multiple of the stride S, drop their dilution field, and put them, in batch
    order, into a new document with one track holding one segment. */
module Thinning {
  import opened GpxModel
  import opened Ceiling

  /** The kept points: the k-th is the cleaned point at batch index k*S, for every k below
      ceil(|batch| / S). */
  function Thinned(batch: seq<TrackPoint>, stride: nat): (kept: seq<TrackPoint>)
    requires stride > 0
    ensures |kept| == CeilDiv(|batch|, stride)
  {
    seq(CeilDiv(|batch|, stride),
        k requires 0 <= k < CeilDiv(|batch|, stride) =>
          CeilDivSpec(|batch|, stride, k);
          Clean(batch[k * stride]))
  }

  /** The `enumerate` loop: appends each point whose index is a multiple of the stride, with its
      dilution field cleared, to the new segment. */
  method BatchToDocument(batch: seq<TrackPoint>, stride: nat) returns (doc: Gpx)
    requires stride > 0
    ensures doc == SingleTrack(Thinned(batch, stride))
  {
    var kept: seq<TrackPoint> := [];
    for idx := 0 to |batch|
      invariant |kept| == CeilDiv(idx, stride)
      invariant forall k :: 0 <= k < |kept| ==> k * stride < idx && kept[k] == Clean(batch[k * stride])
    {
      CeilDivStep(idx, stride);
      if idx % stride == 0 {
        kept := kept + [Clean(batch[idx])];
      }
    }
    ThinnedAt(batch, stride, kept);
    doc := SingleTrack(kept);
  }

  /** A sequence with the length and the elements the stride selects is the thinned batch. */
  lemma {:induction false} ThinnedAt(batch: seq<TrackPoint>, stride: nat, kept: seq<TrackPoint>)
    requires stride > 0 && |kept| == CeilDiv(|batch|, stride)
    requires forall k :: 0 <= k < |kept| ==> k * stride < |batch| && kept[k] == Clean(batch[k * stride])
    ensures kept == Thinned(batch, stride)
  {
  }

  /** The point at a batch index that is a multiple of the stride is kept, as kept point
      index / S. */
  lemma {:induction false} MultipleIsKept(batch: seq<TrackPoint>, stride: nat, i: nat)
    requires stride > 0 && i < |batch| && i % stride == 0
    ensures i / stride < |Thinned(batch, stride)|
    ensures Thinned(batch, stride)[i / stride] == Clean(batch[i])
  {
    var k := i / stride;
    assert k * stride == i;
    CeilDivSpec(|batch|, stride, k);
  }

  /** The kept points are exactly the cleaned points at the batch indices that are multiples of
      the stride. */
  lemma {:induction false} KeptIffMultipleOfStride(batch: seq<TrackPoint>, stride: nat, p: TrackPoint)
    requires stride > 0
    ensures p in Thinned(batch, stride) <==>
            exists i :: 0 <= i < |batch| && i % stride == 0 && p == Clean(batch[i])
  {
    var kept := Thinned(batch, stride);
    if p in kept {
      var k :| 0 <= k < |kept| && kept[k] == p;
      ThinnedPoints(batch, stride, k);
      MultipleDivMod(k, stride);
      var i := k * stride;
      assert 0 <= i < |batch| && i % stride == 0 && p == Clean(batch[i]);
    }
    if exists i :: 0 <= i < |batch| && i % stride == 0 && p == Clean(batch[i]) {
      var i :| 0 <= i < |batch| && i % stride == 0 && p == Clean(batch[i]);
      MultipleIsKept(batch, stride, i);
    }
  }

  /** Every kept point has no dilution field and the time and position of the batch point it
      came from, at index k*S. */
  lemma {:induction false} ThinnedPoints(batch: seq<TrackPoint>, stride: nat, k: nat)
    requires stride > 0 && k < |Thinned(batch, stride)|
    ensures k * stride < |batch|
    ensures Thinned(batch, stride)[k] == Clean(batch[k * stride])
    ensures Thinned(batch, stride)[k].dilution == None
    ensures Thinned(batch, stride)[k].time == batch[k * stride].time
    ensures Thinned(batch, stride)[k].position == batch[k * stride].position
  {
    CeilDivSpec(|batch|, stride, k);
  }

  /** A stride of 1 keeps every point, only cleaned. */
  lemma {:induction false} ThinStrideOne(batch: seq<TrackPoint>)
    ensures Thinned(batch, 1) == CleanAll(batch)
  {
    CeilDivIsCeiling(|batch|, 1);
  }

  /** A non-empty batch keeps at least its first point, and never more points than it has. */
  lemma {:induction false} ThinnedBounds(batch: seq<TrackPoint>, stride: nat)
    requires stride > 0
    ensures |Thinned(batch, stride)| <= |batch|
    ensures batch != [] ==> |Thinned(batch, stride)| >= 1 && Thinned(batch, stride)[0] == Clean(batch[0])
  {
    CeilDivSpec(|batch|, stride, 0);
    if |batch| > 0 {
      CeilDivSpec(|batch|, stride, |batch|);
    } else {
      CeilDivIsCeiling(0, stride);
    }
  }
}
