# GPX folder pruning, modelled in Dafny

`prune_gpx_folder.py` merges many small GPX track logs into fewer, larger ones. It reads every
`.gpx` file of a folder, puts all track points of all tracks and segments into one list, sorts that
list by timestamp, cuts it into batches of at most `N_POINTS_PER_FILE` (M) points, keeps only every
`N_POINTS_TO_SKIP`-th (S) point of each batch, clears each kept point's `position_dilution`, and
writes each batch as `pruned/pruned-{:06d}.gpx` holding one track with one segment.

This project models that point pipeline:

- `gpx_model.dfy` (`GpxModel`): documents, tracks, segments and track points as datatypes;
  clearing the dilution field; the single-track, single-segment output document.
- `flatten.dfy` (`Flatten`): the nested loop that collects all points (`CollectPoints`) against the
  function `FilesPoints`, with lemmas on file order and on membership.
- `time_sort.dfy` (`TimeSort`): `sorted(..., key=time)` as a stable insertion sort (`SortByTime`).
  The lemmas show that it is a permutation, that it is ordered by time, and that it keeps equal-time
  points in input order. A uniqueness lemma shows that every stable sort by time gives this same
  result, so the model agrees with Python's `sorted`.
- `ceiling.dfy` (`Ceiling`): integer ceiling division and its characterisation.
- `batching.dfy` (`Batching`): the batch slices, their count and sizes, and the fact that joining
  them gives back the sorted list.
- `thinning.dfy` (`Thinning`): the `batch_to_xml` loop (`BatchToDocument`) against the function
  `Thinned`, with lemmas on which points are kept and what they carry.
- `file_names.dfy` (`FileNames`): the `pruned-{:06d}.gpx` names. The zero-padded index reads back
  as the index, so distinct batches get distinct names.
- `survivors.dfy` (`Survivors`): which sorted points reach the output, stated on global indices.
  Sorted point j survives exactly when j mod M is a multiple of S.
- `prune.dfy` (`Prune`): the main batch loop. It writes into the output folder, which is modelled
  as a map from file name to document. The module also holds the error paths for zero settings and
  the end-to-end lemmas. For every M and S, reading the output files back gives the cleaned
  time-sorted points at the surviving indices, each once and in time order. With S = 1 that is every
  input point.

Parameters M and S are a `Config` value (`DefaultConfig` holds the script's 1000000 and 1) instead
of module constants. A zero M makes `math.ceil(N/0)` raise. A zero S makes `idx % 0` raise on the
first point of the first batch, so it fails only when there is at least one point. Both are modelled
as a `Failure(DivisionByZero)` result of `PruneFolder`; in both cases no file is written.

## Model

| member | source | states |
|---|---|---|
| GpxModel.SingleTrack | prune_gpx_folder.py:24-32 | the output document has exactly one track holding exactly one segment, and that segment holds the given points |
| GpxModel.Clean | prune_gpx_folder.py:37 | a cleaned point has no dilution field; its time and position are those of the original |
| Flatten.CollectPoints | prune_gpx_folder.py:51-60 | the nested loop appends every point, file by file, track by track, segment by segment, in encounter order (`FilesPoints`) |
| Flatten.FilesPointsAppend | prune_gpx_folder.py:53-60 | the collected list respects file order: the points of files a ++ b are those of a followed by those of b |
| Flatten.InFilesPoints | prune_gpx_folder.py:57-60 | a point is collected if and only if some segment of some track of some file holds it |
| Flatten.SingleTrackPoints | prune_gpx_folder.py:24-38 | collecting the points of an output document gives back exactly the points put into its segment |
| TimeSort.Insert | prune_gpx_folder.py:63 | inserting a point adds exactly that point: the result's multiset is the input's plus the point |
| TimeSort.SortByTime | prune_gpx_folder.py:63 | the sorted list is a permutation of the collected list |
| TimeSort.SortByTimeIsStableSort | prune_gpx_folder.py:63 | the sorted list is a permutation, non-decreasing in time, and every time class keeps its input order (stability) |
| TimeSort.InsertWithTime | prune_gpx_folder.py:63 | inserting into a time-ordered list puts the point after every point with the same time |
| TimeSort.StableSortUnique | prune_gpx_folder.py:63 | two time-ordered lists with the same points in each time class, in the same order, are equal |
| TimeSort.StableSortIsSortByTime | prune_gpx_folder.py:63 | any time-ordered, stable rearrangement of the input, as Python's `sorted` produces, is `SortByTime` of it |
| Ceiling.CeilDivSpec | prune_gpx_folder.py:71 | k is below ceil(n/m) exactly when k*m < n |
| Ceiling.CeilDivIsCeiling | prune_gpx_folder.py:71 | ceil(n/m) blocks of m cover n, one fewer do not; it is 0 exactly for n = 0 and n/m when m divides n |
| Batching.BatchCount | prune_gpx_folder.py:71 | defined as the integer ceiling of N/M, the loop bound; its contract says that count*M covers N and falls short of N + M. `BatchCountIsCeiling` gives the rest of its meaning |
| Batching.Batch | prune_gpx_folder.py:73-76 | defined as the slice from i*M to (i+1)*M, or to the end; its contract says the batch is 1 to M consecutive sorted points starting at index i*M. `BatchSizes` and `ConcatBatches` state its meaning |
| Batching.Batches | prune_gpx_folder.py:71-76 | defined as the batches in loop-index order; its length is the loop bound, which `BatchCountIsCeiling` shows is ceil(N/M) |
| Batching.SliceBatch | prune_gpx_folder.py:73-76 | the slice taken for index i is batch i, holds M points unless it is the last, and is never empty |
| Batching.BatchCountIsCeiling | prune_gpx_folder.py:71 | N = 0 gives no batch, M dividing N gives exactly N/M batches, and the count is the least one covering N |
| Batching.BatchSizes | prune_gpx_folder.py:73-76 | every batch but the last holds exactly M points; the last holds between 1 and M |
| Batching.ConcatBatchesPrefix | prune_gpx_folder.py:71-76 | batches 0..k-1 joined are the first min(k*M, N) sorted points |
| Batching.ConcatBatches | prune_gpx_folder.py:71-76 | all batches joined in index order are the sorted list: no point lost, none duplicated |
| Batching.BatchOfIndex | prune_gpx_folder.py:74-76 | sorted point j is point j mod M of batch j div M |
| Thinning.Thinned | prune_gpx_folder.py:34-38 | defined in closed form: kept point k is the cleaned batch point k*S, for k below ceil(n/S). `BatchToDocument` proves this is what the `idx % S == 0` loop keeps, and `KeptIffMultipleOfStride` characterises the kept points |
| Thinning.BatchToDocument | prune_gpx_folder.py:22-42 | the loop builds the one-track, one-segment document of the thinned, cleaned batch |
| Thinning.MultipleIsKept | prune_gpx_folder.py:35-38 | the point at batch index i with i mod S = 0 is kept, cleaned, as kept point i/S |
| Thinning.KeptIffMultipleOfStride | prune_gpx_folder.py:34-38 | a point is kept if and only if it is the cleaned point at a batch index that is a multiple of S |
| Thinning.ThinnedPoints | prune_gpx_folder.py:35-38 | kept point k is batch point k*S with no dilution field and the same time and position |
| Thinning.ThinStrideOne | prune_gpx_folder.py:16 | with S = 1 every point of the batch is kept, in order, only cleaned |
| Thinning.ThinnedBounds | prune_gpx_folder.py:34-35 | a batch never gains points, and a non-empty batch keeps its first point |
| FileNames.ZeroPad | prune_gpx_folder.py:80 | `{:06d}`: the digits of n, with only zeros in front, as long as the wider of 6 and the digit count; `ZeroPadRoundTrip` and `ZeroPadWidth` state its meaning |
| FileNames.FileName | prune_gpx_folder.py:80 | the name has the prefix, at least 6 digits and the suffix, and `ParseFileName` reads the batch index back from it |
| FileNames.DigitsRoundTrip | prune_gpx_folder.py:80 | the decimal digits of n read back as n |
| FileNames.ZeroPadRoundTrip | prune_gpx_folder.py:80 | the zero-padded index is all digits, at least 6 long, and reads back as the index |
| FileNames.ZeroPadWidth | prune_gpx_folder.py:80 | indices below 10^6 are padded to exactly 6 digits; larger ones are written in full |
| FileNames.DigitsLength | prune_gpx_folder.py:80 | n has at most k digits exactly when n < 10^k |
| FileNames.FileNameInjective | prune_gpx_folder.py:80 | equal file names come from equal batch indices |
| Survivors.KeptIndices | prune_gpx_folder.py:34-76 | the surviving sorted indices below n, strictly increasing and all below n |
| Survivors.KeptIndicesMembers | prune_gpx_folder.py:34-76 | index j is listed exactly when j < n and j mod M is a multiple of S |
| Survivors.KeptIndicesStrideOne | prune_gpx_folder.py:16-35 | with S = 1 every index survives |
| Survivors.KeptIndicesBlock | prune_gpx_folder.py:34-76 | within one batch, exactly the positions i*M + k*S are added, in order |
| Survivors.CleanAtSorted | prune_gpx_folder.py:34-63 | points picked at increasing indices from a time-ordered list are time-ordered |
| Survivors.ConcatThinnedPrefix | prune_gpx_folder.py:71-78 | the kept points of batches 0..k-1 joined are the cleaned points at the surviving indices among the first min(k*M, N) |
| Survivors.ConcatThinned | prune_gpx_folder.py:71-78 | the kept points of all batches joined are the cleaned sorted points at every surviving index, each once |
| Prune.OutputDocument | prune_gpx_folder.py:22-78 | `batch_to_xml(batch)`: one track, one segment, ceil(n/S) points for a batch of n, and point k is the cleaned sorted point at global index i*M + k*S |
| Prune.WriteBatches | prune_gpx_folder.py:71-83 | after the loop, file i holds the document of batch i, every other file of the folder is unchanged, and no other file appears |
| Prune.PruneFolder | prune_gpx_folder.py:44-83 | the run fails exactly when M = 0, or S = 0 with at least one point; otherwise the folder is written as above from the time-sorted collected points |
| Prune.WrittenStaysWritten | prune_gpx_folder.py:80-81 | writing file i keeps the files already written for earlier batches |
| Prune.OutputNamesDistinct | prune_gpx_folder.py:80-81 | the names of one run's files are pairwise distinct, so no output file overwrites another |
| Prune.StaleOutputFilesRemain | prune_gpx_folder.py:46-47 | a numbered file left by an earlier run with more batches keeps its old contents |
| Prune.OutputsPrefix | prune_gpx_folder.py:71-83 | for any S > 0, output files 0..k-1 read back are the kept points of batches 0..k-1, joined |
| Prune.OutputPoints | prune_gpx_folder.py:51-83 | for any M, S > 0, the output files read back in order are the cleaned sorted points at the surviving indices (`KeptIndices`): nothing is duplicated, and only thinning drops points |
| Prune.OutputFileSorted | prune_gpx_folder.py:63-78 | the points of each output file are in time order |
| Prune.OutputsSortedByTime | prune_gpx_folder.py:63-83 | the output files read back in index order are in time order, across files too |
| Prune.WrittenFolderPoints | prune_gpx_folder.py:51-83 | after a successful run, files 0..count-1 of the folder exist, and read back in index order they hold the cleaned time-sorted input points at the surviving indices, in time order |
| Prune.OutputsCoverInput | prune_gpx_folder.py:51-83 | with S = 1, the output files read back in order are all collected points, time-sorted, each once, without dilution |

## Left out

- Folder discovery, `open`, `mkdir` and `write_text` (lines 46-49, 54, 81): the folder is a map from
  name to document that the batch loop updates, and the input files are already-parsed documents.
  The creation of the `pruned` directory is not modelled. The order in which `glob` lists files is
  the order of the `files` sequence.
- GPX parsing and XML serialisation by `gpxpy` (lines 24-32, 40, 55): third-party code that is not
  part of this model. A document is the datatype `Gpx`, and the version-1.0, non-pretty-printed
  text is not modelled.
- `Position` holds latitude, longitude and elevation as `real` values; nothing computes with them, so
  no floating-point behaviour is modelled.
- gpxpy track points have further fields that lines 37-38 pass through untouched: horizontal and
  vertical dilution, speed, name, comment, symbol and extensions. The model leaves them out. Since
  the script never reads or changes them, only the output's file contents would show them.
- Timestamps are total integers; `time = None`, on which Python's comparison raises, is not
  modelled.
- `math.ceil(N / M)` uses float division; the model uses the integer ceiling, which agrees for
  every N a list can have in memory.
- Progress `print` output (lines 52, 66, 69, 83) is not modelled.
- GPX point objects are updated in place (`p.position_dilution = None`); the model builds a cleaned
  copy instead. Nothing reads a point after it is cleaned, and each point lies in exactly one batch,
  so the difference cannot be observed.
- Prune.PruneFolder: the zero-stride failure is decided before the batch loop rather than on the
  first iteration; the first batch is non-empty whenever there is a point, so the outcome is the
  same and no file has been written in either case.
- Thinning.BatchToDocument: requires S > 0; the `idx % 0` failure is modelled in `PruneFolder`.
- Running the pipeline twice on the same input gives the same files: this holds because every
  function of the model is deterministic, and is not stated as a separate lemma.
