/** Track extraction: the first half of `evaluateBurst`, which walks the
    burst in frame order, takes the first "ball" detection of each frame as a
    trajectory point, and keeps the first "net" box of the whole burst. */
module Track {
  import opened Options
  import opened Geometry

  /** One recognised object in one frame; `kind` is the detector's label
      ("ball", "net", ...). The segmentation mask is opaque
      and never read, so it is not carried. */
  datatype Detection = Detection(kind: string, bbox: Box, score: real)

  /** One sampled frame: its time stamp `t` and its detections in detector
      order. */
  datatype Frame = Frame(t: real, detections: seq<Detection>)

  /** A point of the ball trajectory: the frame's time, the centre of the
      ball box, the box itself and its score. */
  datatype TrackPoint = TrackPoint(t: real, cx: real, cy: real, bbox: Box, score: real)

  const BallLabel: string := "ball"
  const NetLabel: string := "net"

  /** `detections.find(d => d.label === kind)`: the first detection carrying
      the label, if there is one. */
  function FindLabel(ds: seq<Detection>, kind: string): (r: Option<Detection>)
    ensures r.None? <==> forall i :: 0 <= i < |ds| ==> ds[i].kind != kind
    ensures r.Some? ==> exists i :: 0 <= i < |ds| && ds[i] == r.value && ds[i].kind == kind
                                    && forall j :: 0 <= j < i ==> ds[j].kind != kind
  {
    if |ds| == 0 then None
    else if ds[0].kind == kind then Some(ds[0])
    else
      var r := FindLabel(ds[1..], kind);
      assert forall i :: 1 <= i < |ds| ==> ds[i] == ds[1..][i - 1];
      r
  }

  predicate HasBall(f: Frame) {
    FindLabel(f.detections, BallLabel).Some?
  }

  predicate HasNet(f: Frame) {
    FindLabel(f.detections, NetLabel).Some?
  }

  /** The trajectory point a ball detection contributes in a frame of time
      `t`: the box's centre lies midway between its edges, and inside the box
      when the box is well formed. */
  function PointOf(t: real, d: Detection): (p: TrackPoint)
    ensures p.t == t && p.bbox == d.bbox && p.score == d.score
    ensures p.cx - d.bbox.x1 == d.bbox.x2 - p.cx && p.cy - d.bbox.y1 == d.bbox.y2 - p.cy
    ensures WellFormed(d.bbox) ==> d.bbox.x1 <= p.cx <= d.bbox.x2 && d.bbox.y1 <= p.cy <= d.bbox.y2
  {
    var b := d.bbox;
    TrackPoint(t, (b.x1 + b.x2) / 2.0, (b.y1 + b.y2) / 2.0, b, d.score)
  }

  /** The point frame `f` adds to the trajectory: built from its first ball
      detection, or none when it has no ball. */
  function FramePoints(f: Frame): (s: seq<TrackPoint>)
    ensures |s| <= 1
    ensures |s| == 1 <==> HasBall(f)
  {
    match FindLabel(f.detections, BallLabel)
    case Some(d) => [PointOf(f.t, d)]
    case None => []
  }

  /** The point of a frame known to contain a ball. */
  function BallPoint(f: Frame): TrackPoint
    requires HasBall(f)
  {
    PointOf(f.t, FindLabel(f.detections, BallLabel).value)
  }

  /** The trajectory of a burst, pushed frame by frame in burst order. */
  function BallTrack(fs: seq<Frame>): (track: seq<TrackPoint>)
    ensures |track| <= |fs|
  {
    if |fs| == 0 then [] else BallTrack(fs[..|fs| - 1]) + FramePoints(fs[|fs| - 1])
  }

  /** Pushing one more frame appends that frame's point, if any. */
  lemma BallTrackAppend(fs: seq<Frame>, f: Frame)
    ensures BallTrack(fs + [f]) == BallTrack(fs) + FramePoints(f)
  {
    assert (fs + [f])[..|fs|] == fs;
  }

  /** Positions, in increasing order, of the frames that contain a ball. */
  function BallFrames(fs: seq<Frame>): (idx: seq<nat>)
    ensures forall k :: 0 <= k < |idx| ==> idx[k] < |fs| && HasBall(fs[idx[k]])
    ensures forall k, m :: 0 <= k < m < |idx| ==> idx[k] < idx[m]
    ensures forall i :: 0 <= i < |fs| && HasBall(fs[i]) ==> i in idx
  {
    if |fs| == 0 then []
    else
      var front := fs[..|fs| - 1];
      var rest := BallFrames(front);
      assert forall k :: 0 <= k < |rest| ==> fs[rest[k]] == front[rest[k]];
      rest + (if HasBall(fs[|fs| - 1]) then [|fs| - 1] else [])
  }

  /** The trajectory has one point per frame that contains a ball, in frame
      order, each built from that frame's first ball detection. */
  lemma {:induction false} BallTrackMatchesBallFrames(fs: seq<Frame>)
    ensures |BallTrack(fs)| == |BallFrames(fs)|
    ensures forall k :: 0 <= k < |BallFrames(fs)| ==>
              BallTrack(fs)[k] == BallPoint(fs[BallFrames(fs)[k]])
  {
    if |fs| > 0 {
      var last := fs[|fs| - 1];
      var front := fs[..|fs| - 1];
      BallTrackMatchesBallFrames(front);
      var idx := BallFrames(front);
      var track := BallTrack(front);
      assert BallTrack(fs) == track + FramePoints(last);
      assert BallFrames(fs) == idx + (if HasBall(last) then [|fs| - 1] else []);
      assert HasBall(last) ==> FramePoints(last) == [BallPoint(last)];
      forall k | 0 <= k < |BallFrames(fs)|
        ensures BallTrack(fs)[k] == BallPoint(fs[BallFrames(fs)[k]])
      {
        if k < |idx| {
          assert BallTrack(fs)[k] == track[k];
          assert fs[idx[k]] == front[idx[k]];
        }
      }
    }
  }

  /** Adding frames to a burst only extends its trajectory: the points of
      earlier frames keep their places. */
  lemma {:induction false} BallTrackPrefix(fs: seq<Frame>, n: nat)
    requires n <= |fs|
    ensures BallTrack(fs[..n]) <= BallTrack(fs)
  {
    if n < |fs| {
      var front := fs[..|fs| - 1];
      BallTrackPrefix(front, n);
      assert front[..n] == fs[..n];
    } else {
      assert fs[..n] == fs;
    }
  }

  /** The net box of a burst: the first "net" box of the first frame that
      has one. */
  function FirstNet(fs: seq<Frame>): Option<Box>
    ensures FirstNet(fs).None? <==> forall i :: 0 <= i < |fs| ==> !HasNet(fs[i])
  {
    if |fs| == 0 then None
    else match FindLabel(fs[0].detections, NetLabel)
      case Some(d) => Some(d.bbox)
      case None =>
        assert forall i :: 1 <= i < |fs| ==> fs[i] == fs[1..][i - 1];
        FirstNet(fs[1..])
  }

  /** The net box is absent exactly when no frame has a net detection, and
      otherwise is the box of the first net detection of the earliest frame
      that has one. */
  lemma {:induction false} FirstNetIsEarliest(fs: seq<Frame>)
    ensures FirstNet(fs).None? <==> forall i :: 0 <= i < |fs| ==> !HasNet(fs[i])
    ensures FirstNet(fs).Some? ==>
              exists i :: 0 <= i < |fs| && HasNet(fs[i])
                && FindLabel(fs[i].detections, NetLabel).value.bbox == FirstNet(fs).value
                && forall j :: 0 <= j < i ==> !HasNet(fs[j])
  {
    if |fs| > 0 && !HasNet(fs[0]) {
      var rest := fs[1..];
      FirstNetIsEarliest(rest);
      assert forall i :: 1 <= i < |fs| ==> fs[i] == rest[i - 1];
      if FirstNet(rest).Some? {
        var i :| 0 <= i < |rest| && HasNet(rest[i])
                 && FindLabel(rest[i].detections, NetLabel).value.bbox == FirstNet(rest).value
                 && forall j :: 0 <= j < i ==> !HasNet(rest[j]);
        assert fs[i + 1] == rest[i];
        assert forall j :: 0 <= j < i + 1 ==> !HasNet(fs[j]);
      }
    }
  }

  /** Once a net box has been found, later frames never replace it; until
      then, the next frame's first net box (if any) becomes it. */
  lemma {:induction false} FirstNetAppend(fs: seq<Frame>, f: Frame)
    ensures FirstNet(fs + [f]) == match FirstNet(fs)
                                  case Some(b) => Some(b)
                                  case None =>
                                    match FindLabel(f.detections, NetLabel)
                                    case Some(d) => Some(d.bbox)
                                    case None => None
  {
    if |fs| > 0 {
      FirstNetAppend(fs[1..], f);
      assert (fs + [f])[1..] == fs[1..] + [f];
    }
  }

  /** The frame loop of `evaluateBurst`: it pushes a point for every frame
      with a ball and records the net box only while none is held. */
  method ExtractTrack(fs: seq<Frame>) returns (track: seq<TrackPoint>, netBox: Option<Box>)
    ensures track == BallTrack(fs)
    ensures netBox == FirstNet(fs)
  {
    track := [];
    netBox := None;
    var i := 0;
    while i < |fs|
      invariant 0 <= i <= |fs|
      invariant track == BallTrack(fs[..i])
      invariant netBox == FirstNet(fs[..i])
    {
      var f := fs[i];
      var ball := FindLabel(f.detections, BallLabel);
      var net := FindLabel(f.detections, NetLabel);
      ghost var seen := fs[..i];
      assert fs[..i + 1] == seen + [f];
      BallTrackAppend(seen, f);
      FirstNetAppend(seen, f);
      if ball.Some? {
        track := track + [PointOf(f.t, ball.value)];
      }
      assert track == BallTrack(seen + [f]);
      if net.Some? && netBox.None? {
        netBox := Some(net.value.bbox);
      }
      assert netBox == FirstNet(seen + [f]);
      i := i + 1;
    }
    assert fs[..i] == fs;
  }
}
