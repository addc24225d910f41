/** Worked bursts: a net call, a bounce inside and outside a unit-square
    court, a plain descent, and the jitter boundary. */
module Scenarios {
  import opened Options
  import opened Geometry
  import opened Polygon
  import opened Track
  import opened EventEngine

  /** The unit-square court, listed counter-clockwise from the origin. */
  const UnitCourt: seq<Point> := [Point(0.0, 0.0), Point(1.0, 0.0), Point(1.0, 1.0), Point(0.0, 1.0)]

  /** A ball box of side 0.02 centred on `(cx, cy)`. */
  function BallBox(cx: real, cy: real): Box {
    Box(cx - 0.01, cy - 0.01, cx + 0.01, cy + 0.01)
  }

  /** A frame whose only detection is a ball centred on `(cx, cy)`. */
  function BallFrame(t: real, cx: real, cy: real): Frame {
    Frame(t, [Detection(BallLabel, BallBox(cx, cy), 0.9)])
  }

  /** Three frames whose ball centres have the given heights at `x`. */
  function ThreeBalls(x: real, y0: real, y1: real, y2: real): seq<Frame> {
    [BallFrame(0.0, x, y0), BallFrame(1.0, x, y1), BallFrame(2.0, x, y2)]
  }

  lemma ThreeBallsTrack(x: real, y0: real, y1: real, y2: real)
    ensures |BallTrack(ThreeBalls(x, y0, y1, y2))| == 3
    ensures BallTrack(ThreeBalls(x, y0, y1, y2))[0].cy == y0
    ensures BallTrack(ThreeBalls(x, y0, y1, y2))[1].cy == y1
    ensures BallTrack(ThreeBalls(x, y0, y1, y2))[2].cy == y2
    ensures BallTrack(ThreeBalls(x, y0, y1, y2))[2].cx == x
    ensures FirstNet(ThreeBalls(x, y0, y1, y2)) == None
  {
    var fs := ThreeBalls(x, y0, y1, y2);
    assert BallLabel != NetLabel;
    forall i | 0 <= i < 3
      ensures FindLabel(fs[i].detections, BallLabel) == Some(fs[i].detections[0])
      ensures FramePoints(fs[i]) == [PointOf(fs[i].t, fs[i].detections[0])]
      ensures FindLabel(fs[i].detections, NetLabel) == None
    {
      assert fs[i].detections[1..] == [];
    }
    assert fs[..2][..1] == fs[..1] && fs[..1][..0] == [];
    assert BallTrack(fs[..1]) == FramePoints(fs[0]);
    assert BallTrack(fs[..2]) == FramePoints(fs[0]) + FramePoints(fs[1]);
    assert BallTrack(fs) == FramePoints(fs[0]) + FramePoints(fs[1]) + FramePoints(fs[2]);
    assert fs[1..][1..] == [fs[2]] && [fs[2]][1..] == [];
    assert FirstNet([fs[2]]) == None;
    assert FirstNet(fs[1..]) == FirstNet([fs[2]]);
  }

  /** A ball box lying wholly inside the net box: IoU 0.0016 / 0.008 = 0.2,
      so a net call with confidence 0.6 + 0.2 = 0.8 (below the 0.95 cap). */
  lemma NetCallScenario()
    ensures
      var ball := Box(0.48, 0.50, 0.52, 0.54);
      var net := Box(0.45, 0.48, 0.55, 0.56);
      var fs := [Frame(0.0, [Detection(BallLabel, Box(0.48, 0.40, 0.52, 0.44), 0.9)]),
                 Frame(1.0, [Detection(NetLabel, net, 0.8), Detection(BallLabel, ball, 0.9)])];
      && Iou(ball, net) == 0.2
      && EvaluateBurst(fs, UnitCourt, 0.5) == Verdict(Net, 0.8, map[NetOverlapKey := 0.2])
  {
    var ball := Box(0.48, 0.50, 0.52, 0.54);
    var net := Box(0.45, 0.48, 0.55, 0.56);
    var fs := [Frame(0.0, [Detection(BallLabel, Box(0.48, 0.40, 0.52, 0.44), 0.9)]),
               Frame(1.0, [Detection(NetLabel, net, 0.8), Detection(BallLabel, ball, 0.9)])];
    assert Intersection(ball, net) == 0.0016;
    assert Area(net) == 0.008;
    assert fs[..1][..0] == [] && fs[..2] == fs;
    assert FindLabel(fs[1].detections, BallLabel) == Some(fs[1].detections[1]);
    assert FindLabel(fs[0].detections, NetLabel) == None;
    assert FindLabel(fs[1].detections, NetLabel) == Some(fs[1].detections[0]);
    assert FirstNet(fs) == Some(net) by {
      assert fs[1..][1..] == [];
    }
    assert LastBox(BallTrack(fs)) == ball;
  }

  /** The centre `(0.5, 0.35)` is inside the unit court, `(1.5, 0.35)` is not. */
  lemma UnitCourtContainment()
    ensures PointInPolygon(Point(0.5, 0.35), UnitCourt)
    ensures !PointInPolygon(Point(1.5, 0.35), UnitCourt)
  {
    var c := UnitCourt;
    var inner := Point(0.5, 0.35);
    var outer := Point(1.5, 0.35);
    // Only the two vertical sides straddle y = 0.35; they meet it at x = 0
    // (edge 0) and x = 1 (edge 2).
    assert !Crosses(inner, c, 0) && !Crosses(inner, c, 1) && Crosses(inner, c, 2) && !Crosses(inner, c, 3);
    assert !Crosses(outer, c, 0) && !Crosses(outer, c, 1) && !Crosses(outer, c, 2) && !Crosses(outer, c, 3);
    assert CrossingsBefore(inner, c, 4) == 1;
    assert CrossingsBefore(outer, c, 4) == 0;
  }

  /** Down from 0.30 to 0.50 then up to 0.35 inside the court: "in", 0.8. */
  lemma BounceInScenario()
    ensures EvaluateBurst(ThreeBalls(0.5, 0.30, 0.50, 0.35), UnitCourt, 0.5)
            == Verdict(In, InConfidence, map[])
  {
    ThreeBallsTrack(0.5, 0.30, 0.50, 0.35);
    UnitCourtContainment();
  }

  /** The same bounce with the last centre at x = 1.5: "out", 0.85. */
  lemma BounceOutScenario()
    ensures EvaluateBurst(ThreeBalls(1.5, 0.30, 0.50, 0.35), UnitCourt, 0.5)
            == Verdict(Out, OutConfidence, map[])
  {
    ThreeBallsTrack(1.5, 0.30, 0.50, 0.35);
    UnitCourtContainment();
  }

  /** A steady descent 0.1, 0.2, 0.3 never turns: "inconclusive", 0.35. */
  lemma DescentScenario()
    ensures EvaluateBurst(ThreeBalls(0.5, 0.1, 0.2, 0.3), UnitCourt, 0.5)
            == Verdict(Inconclusive, NoBounceConfidence, map[])
  {
    ThreeBallsTrack(0.5, 0.1, 0.2, 0.3);
  }

  /** A descent of exactly 0.01 and then a rise is filtered as jitter. */
  lemma JitterScenario()
    ensures EvaluateBurst(ThreeBalls(0.5, 0.30, 0.31, 0.20), UnitCourt, 0.5)
            == Verdict(Inconclusive, NoBounceConfidence, map[])
  {
    ThreeBallsTrack(0.5, 0.30, 0.31, 0.20);
  }

  /** A single frame, ball or not, is too little to decide. */
  lemma SingleFrameScenario(f: Frame, court: seq<Point>)
    ensures EvaluateBurst([f], court, 0.5) == Verdict(Inconclusive, TooFewPointsConfidence, map[])
  {
  }
}
