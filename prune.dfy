/** The script's main block: collect every point of every input file, sort them by time, cut the
    sorted list into batches, thin and clean each batch, and write it as file i of the output
    folder. The folder is a map from file name to document: writing a name replaces whatever
    file had it, and files with other names stay as they were. */
module Prune {
  import opened GpxModel
  import opened Ceiling
  import opened Flatten
  import opened TimeSort
  import opened Batching
  import opened Thinning
  import opened FileNames
  import opened Survivors

  /** The two module-level settings: maximum points per output file and thinning stride. */
  datatype Config = Config(pointsPerFile: nat, pointsToSkip: nat)

  const DefaultConfig: Config := Config(1000000, 1)

  /** The only failure the model has: a zero setting makes Python divide or take a modulus by
      zero (ZeroDivisionError). */
  datatype PruneError = DivisionByZero

  datatype Result<T> = Success(value: T) | Failure(error: PruneError)

  /** The document written for batch i: one track with one segment, whose k-th point is the
      cleaned sorted point at global index i*M + k*S, for every k with k*S inside the batch. */
  function OutputDocument(sorted: seq<TrackPoint>, cfg: Config, i: nat): (doc: Gpx)
    requires cfg.pointsPerFile > 0 && cfg.pointsToSkip > 0
    requires i < BatchCount(|sorted|, cfg.pointsPerFile)
    ensures |doc.tracks| == 1 && |doc.tracks[0].segments| == 1
    ensures |doc.tracks[0].segments[0].points|
            == CeilDiv(|Batch(sorted, cfg.pointsPerFile, i)|, cfg.pointsToSkip)
    ensures forall k :: 0 <= k < |doc.tracks[0].segments[0].points| ==>
              i * cfg.pointsPerFile + k * cfg.pointsToSkip < |sorted| &&
              doc.tracks[0].segments[0].points[k]
              == Clean(sorted[i * cfg.pointsPerFile + k * cfg.pointsToSkip])
  {
    var m, stride := cfg.pointsPerFile, cfg.pointsToSkip;
    var batch := Batch(sorted, m, i);
    var kept := Thinned(batch, stride);
    assert forall k :: 0 <= k < |kept| ==> i * m + k * stride < |sorted| && kept[k] == Clean(sorted[i * m + k * stride]) by {
      forall k | 0 <= k < |kept|
        ensures i * m + k * stride < |sorted| && kept[k] == Clean(sorted[i * m + k * stride])
      {
        ThinnedPoints(batch, stride, k);
      }
    }
    SingleTrack(kept)
  }

  /** The documents of all batches, in batch order. */
  function OutputDocuments(sorted: seq<TrackPoint>, cfg: Config): (docs: seq<Gpx>)
    requires cfg.pointsPerFile > 0 && cfg.pointsToSkip > 0
    ensures |docs| == BatchCount(|sorted|, cfg.pointsPerFile)
  {
    seq(BatchCount(|sorted|, cfg.pointsPerFile),
        i requires 0 <= i < BatchCount(|sorted|, cfg.pointsPerFile) => OutputDocument(sorted, cfg, i))
  }

  /** The name belongs to one of the first `count` output files. */
  ghost predicate IsOutputName(name: string, count: nat)
  {
    exists i :: 0 <= i < count && name == FileName(i)
  }

  /** The folder after a run: file i holds the document of batch i, every other file that was
      there is untouched, and nothing else appears. */
  ghost predicate WrittenFolder(sorted: seq<TrackPoint>, cfg: Config, folder: map<string, Gpx>,
                                out: map<string, Gpx>)
    requires cfg.pointsPerFile > 0 && cfg.pointsToSkip > 0
  {
    var count := BatchCount(|sorted|, cfg.pointsPerFile);
    && (forall i :: 0 <= i < count ==> FileName(i) in out && out[FileName(i)] == OutputDocument(sorted, cfg, i))
    && (forall name :: name in folder && !IsOutputName(name, count) ==> name in out && out[name] == folder[name])
    && (forall name :: name in out ==> name in folder || IsOutputName(name, count))
  }

  /** The batch loop: for each batch index, slice the batch, build its document and write it
      under the batch's file name. */
  method WriteBatches(sorted: seq<TrackPoint>, cfg: Config, folder: map<string, Gpx>)
    returns (out: map<string, Gpx>)
    requires cfg.pointsPerFile > 0 && cfg.pointsToSkip > 0
    ensures WrittenFolder(sorted, cfg, folder, out)
  {
    var m, s := cfg.pointsPerFile, cfg.pointsToSkip;
    var count := CeilDiv(|sorted|, m);
    out := folder;
    for i := 0 to count
      invariant forall j :: 0 <= j < i ==> FileName(j) in out && out[FileName(j)] == OutputDocument(sorted, cfg, j)
      invariant forall name :: name in folder && !IsOutputName(name, i) ==> name in out && out[name] == folder[name]
      invariant forall name :: name in out ==> name in folder || IsOutputName(name, i)
    {
      var batch := SliceBatch(sorted, m, i);
      var doc := BatchToDocument(batch, s);
      ghost var before := out;
      out := out[FileName(i) := doc];
      WrittenStaysWritten(sorted, cfg, before, out, i, doc);
      forall name | name in folder && !IsOutputName(name, i + 1)
        ensures name in out && out[name] == folder[name]
      {
        assert !IsOutputName(name, i);
      }
    }
  }

  /** Writing file i keeps the files written for the earlier batches. */
  lemma {:induction false} WrittenStaysWritten(sorted: seq<TrackPoint>, cfg: Config, before: map<string, Gpx>,
                                             after: map<string, Gpx>, i: nat, doc: Gpx)
    requires cfg.pointsPerFile > 0 && cfg.pointsToSkip > 0
    requires i < BatchCount(|sorted|, cfg.pointsPerFile)
    requires after == before[FileName(i) := doc]
    requires doc == OutputDocument(sorted, cfg, i)
    requires forall j :: 0 <= j < i ==> FileName(j) in before && before[FileName(j)] == OutputDocument(sorted, cfg, j)
    ensures forall j :: 0 <= j <= i ==> FileName(j) in after && after[FileName(j)] == OutputDocument(sorted, cfg, j)
  {
    EarlierNamesDiffer(i);
  }

  /** The whole run on already-parsed files. A zero batch size fails before anything is written
      (`math.ceil(N/0)`); a zero stride fails inside the first batch (`0 % 0`), so only when there
      is at least one point, and also before any file is written. */
  method PruneFolder(files: seq<Gpx>, cfg: Config, folder: map<string, Gpx>)
    returns (result: Result<map<string, Gpx>>)
    ensures result.Failure? <==>
            cfg.pointsPerFile == 0 || (cfg.pointsToSkip == 0 && FilesPoints(files) != [])
    ensures result.Success? ==> cfg.pointsPerFile > 0 && (cfg.pointsToSkip > 0 || FilesPoints(files) == [])
    ensures result.Success? && FilesPoints(files) == [] ==> result.value == folder
    ensures result.Success? && cfg.pointsToSkip > 0 ==>
              WrittenFolder(SortByTime(FilesPoints(files)), cfg, folder, result.value)
  {
    if cfg.pointsPerFile == 0 {
      return Failure(DivisionByZero);
    }
    var all := CollectPoints(files);
    var sorted := SortByTime(all);
    assert |sorted| == |all| by {
      assert |multiset(sorted)| == |multiset(all)|;
    }
    if |sorted| == 0 {
      // no batch, so the stride is never used
      CeilDivIsCeiling(0, cfg.pointsPerFile);
      return Success(folder);
    }
    if cfg.pointsToSkip == 0 {
      return Failure(DivisionByZero);
    }
    var out := WriteBatches(sorted, cfg, folder);
    return Success(out);
  }

  /** The names the run writes are pairwise distinct, so no output file overwrites another. */
  lemma {:induction false} OutputNamesDistinct(count: nat)
    ensures forall i, j :: 0 <= i < j < count ==> FileName(i) != FileName(j)
  {
    forall i, j | 0 <= i < j < count
      ensures FileName(i) != FileName(j)
    {
      if FileName(i) == FileName(j) {
        FileNameInjective(i, j);
      }
    }
  }

  /** Files of an earlier run with more batches are not removed: a numbered file beyond this run's
      batch count keeps its old contents. */
  lemma {:induction false} StaleOutputFilesRemain(sorted: seq<TrackPoint>, cfg: Config, folder: map<string, Gpx>,
                                                out: map<string, Gpx>, j: nat)
    requires cfg.pointsPerFile > 0 && cfg.pointsToSkip > 0
    requires WrittenFolder(sorted, cfg, folder, out)
    requires j >= BatchCount(|sorted|, cfg.pointsPerFile) && FileName(j) in folder
    ensures FileName(j) in out && out[FileName(j)] == folder[FileName(j)]
  {
    var count := BatchCount(|sorted|, cfg.pointsPerFile);
    forall i | 0 <= i < count
      ensures FileName(j) != FileName(i)
    {
      if FileName(j) == FileName(i) {
        FileNameInjective(j, i);
      }
    }
    assert !IsOutputName(FileName(j), count);
  }

  /** The output files before index k read back in order are the kept points of the batches
      before k, put together. */
  lemma {:induction false} OutputsPrefix(sorted: seq<TrackPoint>, cfg: Config, k: nat)
    requires cfg.pointsPerFile > 0 && cfg.pointsToSkip > 0
    requires k <= BatchCount(|sorted|, cfg.pointsPerFile)
    ensures FilesPoints(OutputDocuments(sorted, cfg)[..k])
            == Concat(ThinnedBatches(sorted, cfg.pointsPerFile, cfg.pointsToSkip)[..k])
  {
    var docs := OutputDocuments(sorted, cfg);
    var ts := ThinnedBatches(sorted, cfg.pointsPerFile, cfg.pointsToSkip);
    if k == 0 {
      assert docs[..0] == [];
      assert ts[..0] == [];
    } else {
      OutputsPrefix(sorted, cfg, k - 1);
      assert docs[..k][..k - 1] == docs[..k - 1];
      assert ts[..k][..k - 1] == ts[..k - 1];
      SingleTrackPoints(ts[k - 1]);
    }
  }

  /** Every run's output, read back file by file: the cleaned sorted points at the surviving
      indices, each surviving index once and in increasing order (`KeptIndices`). */
  lemma {:induction false} OutputPoints(sorted: seq<TrackPoint>, cfg: Config)
    requires cfg.pointsPerFile > 0 && cfg.pointsToSkip > 0
    ensures FilesPoints(OutputDocuments(sorted, cfg))
            == CleanAt(sorted, KeptIndices(|sorted|, cfg.pointsPerFile, cfg.pointsToSkip))
  {
    var docs := OutputDocuments(sorted, cfg);
    OutputsPrefix(sorted, cfg, |docs|);
    assert docs[..|docs|] == docs;
    ConcatThinned(sorted, cfg.pointsPerFile, cfg.pointsToSkip);
    assert ThinnedBatches(sorted, cfg.pointsPerFile, cfg.pointsToSkip)[..|docs|]
           == ThinnedBatches(sorted, cfg.pointsPerFile, cfg.pointsToSkip);
  }

  /** The points of each output file are in time order. */
  lemma {:induction false} OutputFileSorted(sorted: seq<TrackPoint>, cfg: Config, i: nat)
    requires cfg.pointsPerFile > 0 && cfg.pointsToSkip > 0
    requires i < BatchCount(|sorted|, cfg.pointsPerFile)
    requires SortedByTime(sorted)
    ensures SortedByTime(TracksPoints(OutputDocument(sorted, cfg, i).tracks))
  {
    var m, stride := cfg.pointsPerFile, cfg.pointsToSkip;
    var batch := Batch(sorted, m, i);
    var ks := BlockIndices(i * m, |batch|, stride);
    ThinnedBatchIndices(sorted, m, stride, i);
    forall t, u | 0 <= t < u < |ks|
      ensures ks[t] < ks[u]
    {
      MultipleBeyondBlock(u - t, stride);
      assert u * stride == t * stride + (u - t) * stride;
    }
    CleanAtSorted(sorted, ks);
    SingleTrackPoints(Thinned(batch, stride));
  }

  /** The output files read back in order are in time order across files too. */
  lemma {:induction false} OutputsSortedByTime(sorted: seq<TrackPoint>, cfg: Config)
    requires cfg.pointsPerFile > 0 && cfg.pointsToSkip > 0
    requires SortedByTime(sorted)
    ensures SortedByTime(FilesPoints(OutputDocuments(sorted, cfg)))
  {
    OutputPoints(sorted, cfg);
    CleanAtSorted(sorted, KeptIndices(|sorted|, cfg.pointsPerFile, cfg.pointsToSkip));
  }

  /** The documents of output files 0 .. count - 1 of a folder, in index order. */
  function ReadOutputs(folder: map<string, Gpx>, count: nat): seq<Gpx>
    requires forall i :: 0 <= i < count ==> FileName(i) in folder
  {
    seq(count, i requires 0 <= i < count => folder[FileName(i)])
  }

  /** The folder a successful run leaves: its numbered files, read in index order, hold the
      cleaned time-sorted input points at the surviving indices, in time order. */
  lemma {:induction false} WrittenFolderPoints(files: seq<Gpx>, cfg: Config, folder: map<string, Gpx>,
                                               out: map<string, Gpx>)
    requires cfg.pointsPerFile > 0 && cfg.pointsToSkip > 0
    requires WrittenFolder(SortByTime(FilesPoints(files)), cfg, folder, out)
    ensures forall i :: 0 <= i < BatchCount(|SortByTime(FilesPoints(files))|, cfg.pointsPerFile) ==>
              FileName(i) in out
    ensures FilesPoints(ReadOutputs(out, BatchCount(|SortByTime(FilesPoints(files))|, cfg.pointsPerFile)))
            == CleanAt(SortByTime(FilesPoints(files)),
                       KeptIndices(|SortByTime(FilesPoints(files))|, cfg.pointsPerFile, cfg.pointsToSkip))
    ensures SortedByTime(FilesPoints(ReadOutputs(out, BatchCount(|SortByTime(FilesPoints(files))|, cfg.pointsPerFile))))
  {
    var sorted := SortByTime(FilesPoints(files));
    var count := BatchCount(|sorted|, cfg.pointsPerFile);
    assert ReadOutputs(out, count) == OutputDocuments(sorted, cfg);
    OutputPoints(sorted, cfg);
    SortByTimeSorted(FilesPoints(files));
    OutputsSortedByTime(sorted, cfg);
  }

  /** The stride-1 round trip for a whole run: the points of output files 0, 1, ... read back in
      order are the time-sorted input points with their dilution field removed, each exactly once. */
  lemma {:induction false} OutputsCoverInput(files: seq<Gpx>, m: nat)
    requires m > 0
    ensures FilesPoints(OutputDocuments(SortByTime(FilesPoints(files)), Config(m, 1)))
            == CleanAll(SortByTime(FilesPoints(files)))
  {
    var sorted := SortByTime(FilesPoints(files));
    OutputPoints(sorted, Config(m, 1));
    KeptIndicesStrideOne(|sorted|, m);
  }
}
