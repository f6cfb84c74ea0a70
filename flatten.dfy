/** Ingestion: every point of every segment of every track of every parsed file is appended to one
    list, in encounter order (file, then track, then segment, then point). */
module Flatten {
  import opened GpxModel

  /** The points of a run of segments, in order. */
  function SegmentsPoints(segs: seq<Segment>): seq<TrackPoint>
  {
    if segs == [] then [] else SegmentsPoints(segs[..|segs| - 1]) + segs[|segs| - 1].points
  }

  /** The points of a run of tracks, in order. */
  function TracksPoints(tracks: seq<Track>): seq<TrackPoint>
  {
    if tracks == [] then []
    else TracksPoints(tracks[..|tracks| - 1]) + SegmentsPoints(tracks[|tracks| - 1].segments)
  }

  /** The points of a run of parsed files, in order. */
  function FilesPoints(files: seq<Gpx>): seq<TrackPoint>
  {
    if files == [] then []
    else FilesPoints(files[..|files| - 1]) + TracksPoints(files[|files| - 1].tracks)
  }

  lemma {:induction false} SegmentsPointsStep(segs: seq<Segment>, g: nat)
    requires g < |segs|
    ensures SegmentsPoints(segs[..g + 1]) == SegmentsPoints(segs[..g]) + segs[g].points
  {
    assert segs[..g + 1][..g] == segs[..g];
  }

  lemma {:induction false} TracksPointsStep(tracks: seq<Track>, t: nat)
    requires t < |tracks|
    ensures TracksPoints(tracks[..t + 1]) == TracksPoints(tracks[..t]) + SegmentsPoints(tracks[t].segments)
  {
    assert tracks[..t + 1][..t] == tracks[..t];
  }

  lemma {:induction false} FilesPointsStep(files: seq<Gpx>, f: nat)
    requires f < |files|
    ensures FilesPoints(files[..f + 1]) == FilesPoints(files[..f]) + TracksPoints(files[f].tracks)
  {
    assert files[..f + 1][..f] == files[..f];
  }

  /** The nested loop that appends every point to `all`. */
  method CollectPoints(files: seq<Gpx>) returns (all: seq<TrackPoint>)
    ensures all == FilesPoints(files)
  {
    all := [];
    for f := 0 to |files|
      invariant all == FilesPoints(files[..f])
    {
      ghost var doneFiles := all;
      var tracks := files[f].tracks;
      for t := 0 to |tracks|
        invariant all == doneFiles + TracksPoints(tracks[..t])
      {
        ghost var doneTracks := all;
        var segs := tracks[t].segments;
        for g := 0 to |segs|
          invariant all == doneTracks + SegmentsPoints(segs[..g])
        {
          ghost var doneSegs := all;
          var points := segs[g].points;
          for k := 0 to |points|
            invariant all == doneSegs + points[..k]
          {
            all := all + [points[k]];
            assert points[..k + 1] == points[..k] + [points[k]];
            AppendAssoc(doneSegs, points[..k], [points[k]]);
          }
          assert points[..|points|] == points;
          SegmentsPointsStep(segs, g);
          AppendAssoc(doneTracks, SegmentsPoints(segs[..g]), points);
        }
        assert segs[..|segs|] == segs;
        TracksPointsStep(tracks, t);
        AppendAssoc(doneFiles, TracksPoints(tracks[..t]), SegmentsPoints(segs));
      }
      assert tracks[..|tracks|] == tracks;
      FilesPointsStep(files, f);
    }
    assert files[..|files|] == files;
  }

  /** Files keep their order: the points of a longer run of files extend those of a shorter one. */
  lemma {:induction false} FilesPointsAppend(a: seq<Gpx>, b: seq<Gpx>)
    ensures FilesPoints(a + b) == FilesPoints(a) + FilesPoints(b)
  {
    if b == [] {
      assert a + b == a;
    } else {
      var init, last := b[..|b| - 1], b[|b| - 1];
      assert (a + b)[..|a + b| - 1] == a + init;
      assert (a + b)[|a + b| - 1] == last;
      assert FilesPoints(a + b) == FilesPoints(a + init) + TracksPoints(last.tracks);
      FilesPointsAppend(a, init);
      assert FilesPoints(b) == FilesPoints(init) + TracksPoints(last.tracks);
      AppendAssoc(FilesPoints(a), FilesPoints(init), TracksPoints(last.tracks));
    }
  }

  /** Some segment of the track holds the point. */
  ghost predicate InTrack(p: TrackPoint, track: Track)
  {
    exists g :: 0 <= g < |track.segments| && p in track.segments[g].points
  }

  /** Some segment of some track of the file holds the point. */
  ghost predicate InFile(p: TrackPoint, file: Gpx)
  {
    exists t :: 0 <= t < |file.tracks| && InTrack(p, file.tracks[t])
  }

  lemma {:induction false} InSegmentsPoints(p: TrackPoint, segs: seq<Segment>)
    ensures p in SegmentsPoints(segs) <==> InTrack(p, Track(segs))
  {
    if segs != [] {
      var init, last := segs[..|segs| - 1], segs[|segs| - 1];
      InSegmentsPoints(p, init);
      if p in SegmentsPoints(segs) {
        if p in SegmentsPoints(init) {
          var g :| 0 <= g < |init| && p in init[g].points;
          assert segs[g] == init[g];
        } else {
          assert p in segs[|segs| - 1].points;
        }
      }
      if InTrack(p, Track(segs)) {
        var g :| 0 <= g < |segs| && p in segs[g].points;
        if g < |init| {
          assert init[g] == segs[g];
          assert InTrack(p, Track(init));
        }
      }
    }
  }

  lemma {:induction false} InTracksPoints(p: TrackPoint, tracks: seq<Track>)
    ensures p in TracksPoints(tracks) <==> InFile(p, Gpx(tracks))
  {
    if tracks != [] {
      var init, last := tracks[..|tracks| - 1], tracks[|tracks| - 1];
      InTracksPoints(p, init);
      InSegmentsPoints(p, last.segments);
      assert InTrack(p, last) == InTrack(p, Track(last.segments));
      if p in TracksPoints(tracks) {
        if p in TracksPoints(init) {
          var t :| 0 <= t < |init| && InTrack(p, init[t]);
          assert tracks[t] == init[t];
        } else {
          assert InTrack(p, tracks[|tracks| - 1]);
        }
      }
      if InFile(p, Gpx(tracks)) {
        var t :| 0 <= t < |tracks| && InTrack(p, tracks[t]);
        if t < |init| {
          assert init[t] == tracks[t];
          assert InFile(p, Gpx(init));
        }
      }
    }
  }

  /** Some file of a non-empty run holds the point exactly when one before the last does or the
      last does. */
  lemma {:induction false} InSomeFileLast(p: TrackPoint, files: seq<Gpx>)
    requires files != []
    ensures (exists f :: 0 <= f < |files| && InFile(p, files[f])) <==>
            (exists f :: 0 <= f < |files| - 1 && InFile(p, files[f])) || InFile(p, files[|files| - 1])
  {
    if exists f :: 0 <= f < |files| && InFile(p, files[f]) {
      var f :| 0 <= f < |files| && InFile(p, files[f]);
      if f < |files| - 1 {
        assert exists g :: 0 <= g < |files| - 1 && InFile(p, files[g]);
      }
    }
  }

  /** A point is collected exactly when some segment of some track of some file holds it. */
  lemma {:induction false} InFilesPoints(p: TrackPoint, files: seq<Gpx>)
    ensures p in FilesPoints(files) <==> exists f :: 0 <= f < |files| && InFile(p, files[f])
  {
    if files != [] {
      var init, last := files[..|files| - 1], files[|files| - 1];
      InFilesPoints(p, init);
      InTracksPoints(p, last.tracks);
      assert InFile(p, last) == InFile(p, Gpx(last.tracks));
      assert FilesPoints(files) == FilesPoints(init) + TracksPoints(last.tracks);
      assert forall f :: 0 <= f < |init| ==> init[f] == files[f];
      InSomeFileLast(p, files);
    }
  }

  /** The points of a single-track, single-segment document are exactly its segment's points. */
  lemma {:induction false} SingleTrackPoints(points: seq<TrackPoint>)
    ensures TracksPoints(SingleTrack(points).tracks) == points
    ensures FilesPoints([SingleTrack(points)]) == points
  {
    var doc := SingleTrack(points);
    assert [doc][..0] == [];
    assert doc.tracks[..0] == [];
    assert doc.tracks[0].segments[..0] == [];
    assert SegmentsPoints(doc.tracks[0].segments) == points;
    assert TracksPoints(doc.tracks) == points;
  }
}
