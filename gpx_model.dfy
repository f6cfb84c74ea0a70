/** The part of a GPX document that the pruning script looks at: documents hold tracks, tracks hold
    segments, segments hold track points. Coordinates are never computed with, so they are an
    opaque payload; timestamps are total integers. */
module GpxModel {

  datatype Option<+T> = None | Some(value: T)

  /** Latitude, longitude and elevation of a sample: carried along, never inspected. */
  datatype Position = Position(latitude: real, longitude: real, elevation: Option<real>)

  /** One timestamped sample. `dilution` is the optional position-dilution-of-precision field
      that some recorders attach and that the output must not carry. */
  datatype TrackPoint = TrackPoint(time: int, position: Position, dilution: Option<real>)

  datatype Segment = Segment(points: seq<TrackPoint>)

  datatype Track = Track(segments: seq<Segment>)

  datatype Gpx = Gpx(tracks: seq<Track>)

  /** The document an output file holds: one track with one segment. */
  function SingleTrack(points: seq<TrackPoint>): (doc: Gpx)
    ensures |doc.tracks| == 1 && |doc.tracks[0].segments| == 1
    ensures doc.tracks[0].segments[0].points == points
  {
    Gpx([Track([Segment(points)])])
  }

  /** The point with its dilution field dropped and everything else kept. */
  function Clean(p: TrackPoint): (q: TrackPoint)
    ensures q.dilution == None
    ensures q.time == p.time && q.position == p.position
  {
    p.(dilution := None)
  }

  /** Clean applied to every point of a sequence, in order. */
  function CleanAll(s: seq<TrackPoint>): (r: seq<TrackPoint>)
    ensures |r| == |s|
    ensures forall i :: 0 <= i < |s| ==> r[i] == Clean(s[i])
  {
    seq(|s|, i requires 0 <= i < |s| => Clean(s[i]))
  }

  lemma {:induction false} CleanAllAppend(a: seq<TrackPoint>, b: seq<TrackPoint>)
    ensures CleanAll(a + b) == CleanAll(a) + CleanAll(b)
  {
  }

  /** Grouping of concatenations, stated once so that proofs can name it. */
  lemma {:induction false} AppendAssoc(a: seq<TrackPoint>, b: seq<TrackPoint>, c: seq<TrackPoint>)
    ensures a + (b + c) == (a + b) + c
  {
  }
}
