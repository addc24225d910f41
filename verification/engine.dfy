/** The rules engine `evaluateBurst`: from a burst of frame detections and a
    court polygon it derives the ball trajectory and the net box, tests for a
    bounce, a net contact and court containment, and composes one verdict by
    a fixed precedence. */
module EventEngine {
  import opened Options
  import opened Geometry
  import opened Polygon
  import opened Track

  /** The four calls the engine can make. */
  datatype Recommendation = In | Out | Net | Inconclusive

  /** The verdict record: a recommendation, a confidence and a diagnostic map
      (holding "netOverlap" on a net call, empty otherwise). */
  datatype Verdict = Verdict(recommendation: Recommendation, confidence: real, meta: map<string, real>)

  /** Minimum net IoU for a net call; compared strictly. */
  const NetThreshold: real := 0.03
  /** Minimum descent before the turn for a bounce; compared strictly. */
  const JitterThreshold: real := 0.01
  /** Net-call confidence is `0.6 + overlap`, capped at 0.95. */
  const NetBaseConfidence: real := 0.6
  const NetMaxConfidence: real := 0.95
  const TooFewPointsConfidence: real := 0.2
  const OutConfidence: real := 0.85
  const InConfidence: real := 0.8
  const NoBounceConfidence: real := 0.35
  const NetOverlapKey: string := "netOverlap"

  /** The string the JavaScript returns for each recommendation. */
  function Label(r: Recommendation): (s: string)
    ensures s in {"in", "out", "net", "inconclusive"}
  {
    match r
    case In => "in"
    case Out => "out"
    case Net => "net"
    case Inconclusive => "inconclusive"
  }

  /** Distinct recommendations are reported as distinct strings. */
  lemma LabelInjective(r: Recommendation, q: Recommendation)
    requires Label(r) == Label(q)
    ensures r == q
  {
  }

  function Abs(x: real): (r: real)
    ensures r >= 0.0 && (r == x || r == -x)
  {
    if x < 0.0 then -x else x
  }

  /** The bounce test over the last three centres (the last two, with the
      earlier one doubled, when only two exist): the ball descended (image y
      grows downward) by more than the jitter threshold, then rose. With two
      points the prior descent is 0, so there is never a bounce; in all, the
      test holds exactly at a turning point. */
  predicate Bounced(track: seq<TrackPoint>)
    requires |track| >= 2
    ensures Bounced(track) <==> TurningPoint(track)
  {
    var n := |track|;
    var last := track[n - 1];
    var prev := track[n - 2];
    var prev2 := if n >= 3 then track[n - 3] else prev;
    var dy := last.cy - prev.cy;
    var dyPrev := prev.cy - prev2.cy;
    dyPrev > 0.0 && dy < 0.0 && Abs(dyPrev) > JitterThreshold
  }

  /** The middle one of the last three centres is the lowest in the image:
      more than the jitter threshold below its predecessor, and strictly below
      its successor. */
  predicate TurningPoint(track: seq<TrackPoint>) {
    var n := |track|;
    n >= 3 && track[n - 3].cy + JitterThreshold < track[n - 2].cy
    && track[n - 1].cy < track[n - 2].cy
  }

  /** Only the last three points matter: earlier history cannot create or
      suppress a bounce. */
  lemma BouncedLooksAtLastThree(history: seq<TrackPoint>, recent: seq<TrackPoint>)
    requires |recent| >= 3
    ensures Bounced(history + recent) <==> Bounced(recent)
  {
    var s := history + recent;
    var n := |s|;
    assert s[n - 1] == recent[|recent| - 1];
    assert s[n - 2] == recent[|recent| - 2];
    assert s[n - 3] == recent[|recent| - 3];
  }

  /** The jitter threshold is strict: a descent of exactly 0.01 followed by a
      rise is not a bounce. */
  lemma JitterBoundaryIsNotBounce(track: seq<TrackPoint>)
    requires |track| >= 3
    requires track[|track| - 2].cy - track[|track| - 3].cy == JitterThreshold
    ensures !Bounced(track)
  {
  }

  /** The box of the last trajectory point. */
  function LastBox(track: seq<TrackPoint>): Box
    requires |track| > 0
  {
    track[|track| - 1].bbox
  }

  /** The IoU of the last ball box with the net box, or 0 without a net box
      or without a trajectory. */
  function NetOverlap(track: seq<TrackPoint>, netBox: Option<Box>): (o: real)
    ensures 0.0 <= o <= 1.0
    ensures netBox.None? || |track| == 0 ==> o == 0.0
    ensures o > 0.0 <==> netBox.Some? && |track| > 0 && Overlapping(LastBox(track), netBox.value)
  {
    if netBox.Some? && |track| > 0 then Iou(LastBox(track), netBox.value) else 0.0
  }

  /** The centre of the last trajectory point. */
  function LastCentre(track: seq<TrackPoint>): Point
    requires |track| > 0
  {
    Point(track[|track| - 1].cx, track[|track| - 1].cy)
  }

  /** `evaluateBurst(frames, courtPolygonNormalized, midlineX)`. The side
      reference `midlineX` is accepted and never read. */
  function EvaluateBurst(frames: seq<Frame>, court: seq<Point>, midlineX: real): (v: Verdict)
    ensures 0.0 <= v.confidence <= 1.0
    ensures |BallTrack(frames)| < 2 ==> v == Verdict(Inconclusive, TooFewPointsConfidence, map[])
    ensures v.recommendation == Net ==>
              && FirstNet(frames).Some?
              && v.meta == map[NetOverlapKey := NetOverlap(BallTrack(frames), FirstNet(frames))]
              && v.meta[NetOverlapKey] > NetThreshold
              && Overlapping(LastBox(BallTrack(frames)), FirstNet(frames).value)
              && NetBaseConfidence + NetThreshold < v.confidence <= NetMaxConfidence
    ensures v.recommendation != Net ==> v.meta == map[]
    ensures v.recommendation in {In, Out} ==>
              && |BallTrack(frames)| >= 3
              && TurningPoint(BallTrack(frames))
              && (v.recommendation == In <==> PointInPolygon(LastCentre(BallTrack(frames)), court))
  {
    var track := BallTrack(frames);
    var netBox := FirstNet(frames);
    if |track| < 2 then Verdict(Inconclusive, TooFewPointsConfidence, map[])
    else
      var overlap := NetOverlap(track, netBox);
      if overlap > NetThreshold then
        Verdict(Net, Min(NetBaseConfidence + overlap, NetMaxConfidence), map[NetOverlapKey := overlap])
      else if Bounced(track) then
        if !PointInPolygon(LastCentre(track), court) then Verdict(Out, OutConfidence, map[])
        else Verdict(In, InConfidence, map[])
      else Verdict(Inconclusive, NoBounceConfidence, map[])
  }

  /** The full decision table once at least two points exist: a net call
      exactly when the overlap exceeds the threshold, and otherwise out, in or
      inconclusive according to bounce and containment, each with its fixed
      confidence. */
  lemma DecisionTable(frames: seq<Frame>, court: seq<Point>, midlineX: real)
    requires |BallTrack(frames)| >= 2
    ensures
      var track := BallTrack(frames);
      var o := NetOverlap(track, FirstNet(frames));
      var v := EvaluateBurst(frames, court, midlineX);
      var bounced := TurningPoint(track);
      var inside := PointInPolygon(LastCentre(track), court);
      && (v.recommendation == Net <==> o > NetThreshold)
      && (v.recommendation == Net ==> v.confidence == Min(NetBaseConfidence + o, NetMaxConfidence))
      && (v.recommendation == Out <==> o <= NetThreshold && bounced && !inside)
      && (v.recommendation == Out ==> v.confidence == OutConfidence)
      && (v.recommendation == In <==> o <= NetThreshold && bounced && inside)
      && (v.recommendation == In ==> v.confidence == InConfidence)
      && (v.recommendation == Inconclusive <==> o <= NetThreshold && !bounced)
      && (v.recommendation == Inconclusive ==> v.confidence == NoBounceConfidence)
  {
  }

  /** A net call wins over any bounce or containment outcome: whenever it is
      made, the court polygon plays no part. */
  lemma NetCallIgnoresCourt(frames: seq<Frame>, court1: seq<Point>, court2: seq<Point>, midlineX: real)
    requires EvaluateBurst(frames, court1, midlineX).recommendation == Net
    ensures EvaluateBurst(frames, court2, midlineX) == EvaluateBurst(frames, court1, midlineX)
  {
  }

  /** With fewer than two ball points the verdict is the same low-confidence
      inconclusive call, whatever the court or the net. */
  lemma TooFewPointsIgnoresCourt(frames: seq<Frame>, court1: seq<Point>, court2: seq<Point>, m1: real, m2: real)
    requires |BallTrack(frames)| < 2
    ensures EvaluateBurst(frames, court1, m1) == EvaluateBurst(frames, court2, m2)
  {
  }

  /** `midlineX` never influences the verdict. */
  lemma MidlineUnused(frames: seq<Frame>, court: seq<Point>, m1: real, m2: real)
    ensures EvaluateBurst(frames, court, m1) == EvaluateBurst(frames, court, m2)
  {
  }

  /** A burst in which exactly two frames carry a ball cannot be called in or
      out. */
  lemma TwoPointsNeverInOrOut(frames: seq<Frame>, court: seq<Point>, midlineX: real)
    requires |BallTrack(frames)| == 2
    ensures EvaluateBurst(frames, court, midlineX).recommendation in {Net, Inconclusive}
  {
  }

  /** The statement order of `evaluateBurst`: extract the track, bail out
      below two points, compute bounce, overlap and containment (the latter
      even when it goes unused), then decide. */
  method EvaluateBurstScan(frames: seq<Frame>, court: seq<Point>, midlineX: real) returns (v: Verdict)
    ensures v == EvaluateBurst(frames, court, midlineX)
  {
    var track, netBox := ExtractTrack(frames);
    if |track| < 2 {
      return Verdict(Inconclusive, TooFewPointsConfidence, map[]);
    }
    var bounced := Bounced(track);
    var netOverlap := 0.0;
    if netBox.Some? && |track| > 0 {
      netOverlap := Iou(LastBox(track), netBox.value);
    }
    var inside := PointInPolygonScan(LastCentre(track), court);
    if netOverlap > NetThreshold {
      return Verdict(Net, Min(NetBaseConfidence + netOverlap, NetMaxConfidence), map[NetOverlapKey := netOverlap]);
    }
    if bounced {
      if !inside {
        return Verdict(Out, OutConfidence, map[]);
      }
      return Verdict(In, InConfidence, map[]);
    }
    return Verdict(Inconclusive, NoBounceConfidence, map[]);
  }
}
