# Line-call rules engine — Dafny model

This project models the line-call rules engine of the pickleball video-review
app (`web/src/lib/eventEngine.js`). Its entry point, `evaluateBurst`, takes a
short, ordered burst of per-frame detections and a court polygon. It returns a
verdict: "in", "out", "net" or "inconclusive", with a confidence and a small
diagnostic map.

The model follows the engine layer by layer:

- `geometry.dfy` (module `Geometry`): boxes and points, the clamped box area
  (`bboxArea`) and intersection over union (`bboxIou`).
- `polygon.dfy` (module `Polygon`): the ray-casting parity test
  (`pointInPolygon`). It is given both as a crossing count and as the
  source's toggle loop.
- `track.dfy` (module `Track`): the frame loop of `evaluateBurst`. It covers
  first-match search, the ball trajectory of centre points and the
  first-seen net box.
- `engine.dfy` (module `EventEngine`): the bounce test, the net overlap and
  the verdict composer, with the source's thresholds and confidences as
  named constants.
- `scenarios.dfy` (module `Scenarios`): worked bursts on a unit-square
  court.
- `options.dfy` (module `Options`): the `Option` type that stands in for
  JavaScript's `undefined`/`null`.

Coordinates are exact `real`s. This idealises JavaScript doubles: no
rounding, no NaN. The `1e-9` that `pointInPolygon` adds to each edge's
vertical extent is kept as a constant. When that sum is exactly zero, the
edge test follows what IEEE division gives in the source. A positive
numerator gives `+Infinity`, which counts as a crossing. A negative or zero
numerator gives `-Infinity` or `NaN`, which does not.

Some properties hold more generally than the engine needs:

- The IoU bounds and IoU symmetry hold for all boxes, reversed ones included.
  The intersection width can never exceed either box's clamped width.
- The net box is the first "net" box of the earliest frame that has one.
  Later frames never replace it.
- A net call is decided before bounce and containment. When it is made, the
  court polygon has no effect.

For a ball box `[0.48,0.50,0.52,0.54]` lying wholly inside a net box
`[0.45,0.48,0.55,0.56]`, the engine's IoU is 0.0016 / 0.008 = 0.2 and the
net-call confidence is 0.8; `Scenarios.NetCallScenario` proves both.

Containment is decided at the centre of the last trajectory point. That is
the point after the turn, not the turning point itself. The model keeps this
as written.

## Model

| member | source | states |
|---|---|---|
| Geometry.Clamp | web/src/lib/eventEngine.js:6 | `Math.max(0, d)` is never negative, never below d, and is either d or 0 |
| Geometry.Area | web/src/lib/eventEngine.js:5-8 | area is never negative; it is 0 exactly when x2 <= x1 or y2 <= y1; for a well-formed box it is width times height |
| Geometry.Intersection | web/src/lib/eventEngine.js:11-14 | the overlap area is between 0 and the clamped area of each box, and is positive exactly when the two boxes share interior |
| Geometry.Iou | web/src/lib/eventEngine.js:10-17 | IoU lies in [0,1] for all boxes; it is positive exactly when the boxes overlap; it is 0 when the union area is 0 |
| Geometry.IouSymmetric | web/src/lib/eventEngine.js:10-17 | IoU(a, b) == IoU(b, a) |
| Geometry.IouSelf | web/src/lib/eventEngine.js:10-17 | a box with positive area has IoU 1 with itself |
| Geometry.IouDisjoint | web/src/lib/eventEngine.js:11-16 | boxes separated along either axis have IoU 0 |
| Geometry.UnionZeroIffDegenerate | web/src/lib/eventEngine.js:15-16 | the union is 0, the division-guard case, exactly when both boxes have zero area |
| Polygon.EdgeCrosses | web/src/lib/eventEngine.js:85 | a crossing edge's half-open vertical span [min y, max y) holds the point's y; a horizontal edge never crosses |
| Polygon.VerticalEdgeCrossing | web/src/lib/eventEngine.js:85 | a vertical edge (outside the one extent the 1e-9 cancels) crosses exactly when its vertical span holds the point and it lies to the point's right |
| Polygon.CrossingsBefore | web/src/lib/eventEngine.js:82-86 | the count over the first k edges is at most k, and 0 exactly when none of those edges crosses |
| Polygon.PointInPolygon | web/src/lib/eventEngine.js:80-89 | inside means an odd number of crossing edges; a point can only be inside when some edge crosses its ray |
| Polygon.PointInPolygonScan | web/src/lib/eventEngine.js:80-89 | the edge loop with j trailing i, toggling on each crossing, returns "an odd number of edges cross the ray" |
| Polygon.FewVerticesOutside | web/src/lib/eventEngine.js:80-88 | an empty polygon, or one with a single vertex, contains no point |
| Polygon.OutsideVerticalSpan | web/src/lib/eventEngine.js:85 | a point whose y is at least every vertex's y, or less than every vertex's y, is crossed by no edge and is outside |
| Polygon.RotatedPrefix | web/src/lib/eventEngine.js:82-85 | edge k of the rotated polygon is edge k+1 of the original, so partial crossing counts shift by one edge |
| Polygon.RotationInvariant | web/src/lib/eventEngine.js:80-89 | moving the first vertex to the end changes neither the crossing count nor containment |
| Polygon.RotateByStep | web/src/lib/eventEngine.js:82 | rotating the vertex list by k is rotating by k - 1 and then by one more vertex |
| Polygon.CyclicRotationInvariant | web/src/lib/eventEngine.js:80-89 | every cyclic rotation `poly[k..] + poly[..k]` keeps the crossing count and containment |
| Track.FindLabel | web/src/lib/eventEngine.js:26-27 | the result is absent exactly when no detection has the label; otherwise it is a detection with that label and no earlier detection has it |
| Track.PointOf | web/src/lib/eventEngine.js:30-32 | the track point keeps the frame time, box and score; its centre is equidistant from opposite box edges and inside a well-formed box |
| Track.FramePoints | web/src/lib/eventEngine.js:26-33 | a frame adds exactly one point when it has a ball detection and none otherwise |
| Track.BallTrack | web/src/lib/eventEngine.js:25-33 | the trajectory is never longer than the burst |
| Track.BallTrackAppend | web/src/lib/eventEngine.js:28-32 | processing one more frame appends that frame's point, if any, at the end |
| Track.BallFrames | web/src/lib/eventEngine.js:25-28 | the positions of ball frames, strictly increasing, each a ball frame, and every ball frame listed |
| Track.BallTrackMatchesBallFrames | web/src/lib/eventEngine.js:25-33 | the trajectory has exactly one point per ball frame, in frame order, each built from that frame's first ball detection |
| Track.BallTrackPrefix | web/src/lib/eventEngine.js:25-33 | the trajectory of a prefix of the burst is a prefix of the burst's trajectory |
| Track.FirstNet | web/src/lib/eventEngine.js:24-34 | the net box is absent exactly when no frame of the burst has a net detection |
| Track.FirstNetIsEarliest | web/src/lib/eventEngine.js:27-34 | the net box is absent exactly when no frame has a net; otherwise it is the first net box of the earliest frame with one |
| Track.FirstNetAppend | web/src/lib/eventEngine.js:34 | once a net box is held, a further frame never replaces it; until then, the frame's first net box becomes it |
| Track.ExtractTrack | web/src/lib/eventEngine.js:23-35 | the frame loop yields exactly the trajectory and the first-seen net box |
| EventEngine.Label | web/src/lib/eventEngine.js:38-76 | every recommendation is reported as one of "in", "out", "net", "inconclusive" |
| EventEngine.LabelInjective | web/src/lib/eventEngine.js:38-76 | different recommendations are reported as different strings |
| EventEngine.Bounced | web/src/lib/eventEngine.js:46-53 | a bounce holds exactly when there are at least three points and the middle of the last three is more than 0.01 below its predecessor and strictly below its successor; so two points never bounce |
| EventEngine.BouncedLooksAtLastThree | web/src/lib/eventEngine.js:46-51 | points before the last three never change the bounce outcome |
| EventEngine.JitterBoundaryIsNotBounce | web/src/lib/eventEngine.js:53 | a prior descent of exactly 0.01 is not a bounce |
| EventEngine.NetOverlap | web/src/lib/eventEngine.js:56-60 | the overlap is in [0,1]; it is 0 without a net box; it is positive exactly when the last ball box overlaps the net box |
| EventEngine.EvaluateBurst | web/src/lib/eventEngine.js:19-77 | confidence in [0,1]; fewer than 2 points gives inconclusive/0.2 with empty meta; a net call needs a net box overlapping the last ball box by IoU > 0.03, records it in meta and has confidence in (0.63, 0.95]; in/out need a turning point of 3+ points, with "in" exactly when the last centre is inside the court; every non-net meta is empty |
| EventEngine.DecisionTable | web/src/lib/eventEngine.js:37-76 | with 2+ points: net iff overlap > 0.03 (confidence min(0.6+overlap, 0.95)); out iff no net, turning point and outside (0.85); in iff no net, turning point and inside (0.8); inconclusive iff no net and no turning point (0.35) |
| EventEngine.NetCallIgnoresCourt | web/src/lib/eventEngine.js:62-69 | a net call is made before containment, so the same burst gives the same verdict on any court |
| EventEngine.TooFewPointsIgnoresCourt | web/src/lib/eventEngine.js:37-39 | with fewer than 2 points the verdict depends on neither the court nor midlineX |
| EventEngine.MidlineUnused | web/src/lib/eventEngine.js:19 | midlineX never influences the verdict |
| EventEngine.TwoPointsNeverInOrOut | web/src/lib/eventEngine.js:50-53 | a trajectory of exactly two points can only give net or inconclusive |
| EventEngine.EvaluateBurstScan | web/src/lib/eventEngine.js:19-77 | the source's statement order (extract, guard, bounce, overlap, containment, decide) computes the same verdict as the composer |
| Scenarios.NetCallScenario | web/src/lib/eventEngine.js:10-17 | a ball box inside the net box gives IoU 0.2 and a net call of confidence 0.8 |
| Scenarios.UnitCourtContainment | web/src/lib/eventEngine.js:80-89 | (0.5, 0.35) is inside the unit-square court and (1.5, 0.35) is not |
| Scenarios.BounceInScenario | web/src/lib/eventEngine.js:70-73 | centres 0.30, 0.50, 0.35 ending inside the court give in/0.8 |
| Scenarios.BounceOutScenario | web/src/lib/eventEngine.js:70-71 | the same bounce ending at x = 1.5 gives out/0.85 |
| Scenarios.DescentScenario | web/src/lib/eventEngine.js:76 | a steady descent 0.1, 0.2, 0.3 gives inconclusive/0.35 |
| Scenarios.JitterScenario | web/src/lib/eventEngine.js:53 | a descent of exactly 0.01 then a rise gives inconclusive/0.35 |
| Scenarios.SingleFrameScenario | web/src/lib/eventEngine.js:37-39 | a one-frame burst gives inconclusive/0.2 on any court |

## Left out

- `web/src/lib/inference.js`, `web/src/lib/onnx-runtime.js` and `web/src/test_inference_browser.js` are not part of this model. They load the ONNX runtime, preprocess canvas images and run model sessions: foreign library calls and asynchronous I/O.
- `web/src/inference.js` (a mock detector returning a constant), `web/src/lib/api.js` and `src/worker/index.js` (HTTP wrappers and a health endpoint) are not part of this model. They are network I/O with no decision logic.
- `web/src/pages/Match.jsx` (React state and alerts) is not part of this model. It is UI.
- Floating point: coordinates are exact reals, so double rounding and NaN propagation from malformed input are not modelled. The `1e-9` term is a plain real constant.
- The detection `mask` and any per-frame bitmap are never read by the engine, so they are not carried. A `bbox` with fewer than four entries cannot be represented.
- `midlineX` has no behaviour to model. The default of 0.5 is not modelled; `EventEngine.MidlineUnused` proves the verdict ignores `midlineX`, so the default cannot change it.
- Polygon.FewVerticesOutside: covers polygons with 0 or 1 vertices only. With exact reals, the `1e-9` term makes a two-vertex polygon's two edges meet the ray at abscissae a hair apart, so "fewer than three vertices is never inside" does not hold for two vertices.
