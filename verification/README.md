# Circle drawing game: sampler, scorer and session in Dafny

This project models the algorithmic core of the circle drawing game
component (`circle-drawing-game.tsx`). The player drags the pointer to draw a
loop. The component keeps a filtered list of points, draws a smoothed curve
through them, and when the drag ends scores how round and how closed the loop
is.

- `geometry.dfy` (`Geometry`): points over `real`, squared distance, the
  midpoint used for smoothing, `Math.min`/`Math.max`. `Math.sqrt` is not
  defined here. Every operation that needs it takes a `sqrt: real -> real`
  parameter, and the proofs use only `IsSqrt(sqrt)`: the result is
  non-negative and squares back to its argument. `Math.pow(v, 2)` is `Sq(v)`.
- `sampler.dfy` (`Sampler`): the `setPoints` updater of the move handler. A
  position is kept only if it lies at least 3 from the last kept point. Each
  kept point yields the segment the renderer draws: a quadratic curve from
  midpoint to midpoint with the middle point as control point, or a straight
  line for the first two points. The segment's line width is modelled too.
- `scorer.dfy` (`Scorer`): `calculateCircleScore`. It computes the centroid,
  the radii, their mean and standard deviation, and the regularity, closure
  and point-count scores. It combines them with weights 0.5/0.3/0.2, clamps
  the result to [1, 100] and rounds it. Strokes under 10 points score 0.
- `session.dfy` (`Session`): the state `{isDrawing, points, score, bestScore}`
  and the handlers `startDrawing`, `draw`, `stopDrawing` (fired by both
  `mouseup` and `mouseleave`) and `clearCanvas`. Each handler is one
  transition. Events are replayed in order by `Run`.

The jitter filter compares the squared distance with 9. The source compares
`Math.sqrt` of it with 3. `Sampler.ExtendDropsExactlyNearPoints` proves the
two tests agree for every square root.

The source divides by the mean radius, and in JavaScript a zero mean radius
would give `NaN`. The code has no guard for this case, and the model follows
the code.
`Scorer.CircleScore` requires a positive mean radius.
`Scorer.SpacedStrokeHasPositiveRadius` proves that every stroke the sampler
can build meets this requirement: its first two points are 3 apart, so they
cannot both sit on the centroid. `Session.StopDrawing` therefore only needs
the session invariant `Valid`, and `Session.Run` shows that every reachable
session keeps it.

The point-count score as written is `100` for 50 < n < 200 and
`max(0, 100 - 2|n - 100|)` otherwise. The second branch is never positive
outside the band, so the score is always 0 or 100. `Scorer.CountScore`
states this.

## Model

| member | source | states |
|---|---|---|
| Geometry.DistanceBelow | circle-drawing-game.tsx:83-86 | the root distance is below a bound k exactly when the squared distance is below k², and it is zero exactly for equal points |
| Geometry.Midpoint | circle-drawing-game.tsx:99-103 | the control point `p + (q - p) * 0.5` is the average of p and q, equally far from both, at half their distance |
| Sampler.CurveWidth | circle-drawing-game.tsx:105-107 | for any non-negative step the width is in [6, 10], so the floor of 3 never applies; for an accepted step (at least 3) it is in [6, 9.4]; it is 6 from a step of 20 on |
| Sampler.CurveWidthAntitone | circle-drawing-game.tsx:105-107 | a longer (faster) step never gives a thicker line |
| Sampler.Smooth | circle-drawing-game.tsx:93-158 | no segment below 2 points; a straight width-6 segment p0→p1 for exactly 2; for 3 or more, a curve from midpoint(p[n-3],p[n-2]) to midpoint(p[n-2],p[n-1]) with control point p[n-2], whose width is `CurveWidth` of the last step p[n-2]→p[n-1] and lies in [6, 9.4] whenever that step passed the jitter filter |
| Sampler.Extend | circle-drawing-game.tsx:74-191 | an empty stroke becomes [pos]; a position within 3 of the last point leaves the stroke unchanged and draws nothing; otherwise exactly pos is appended, earlier points are untouched, and the smoothed segment is drawn; the 3-apart invariant is preserved |
| Sampler.ExtendDropsExactlyNearPoints | circle-drawing-game.tsx:83-88 | the stroke stays unchanged exactly when `Math.sqrt` of the squared step is below 3 |
| Sampler.ExtendIdempotent | circle-drawing-game.tsx:80-90 | a second move to the same position neither changes the stroke nor draws anything |
| Sampler.Sample | circle-drawing-game.tsx:74-90 | a gesture's moves keep the stroke 3-apart, only append (the old stroke is a prefix) and add at most one point per move |
| Sampler.NearDuplicatesNeverGrow | circle-drawing-game.tsx:83-88 | a position within 3 of the stroke's end, reported any number of times, leaves the stroke unchanged |
| Sampler.ConsecutiveCurvesJoin | circle-drawing-game.tsx:93-103 | each new curve starts exactly where the curve for the previous point ended |
| Scorer.Radii | circle-drawing-game.tsx:221-226 | one radius per point, each the non-negative distance whose square is the squared distance from the centroid to that point |
| Scorer.Deviations | circle-drawing-game.tsx:232 | the squared deviations are non-negative, and one is zero exactly when its radius equals the mean |
| Scorer.VarianceZeroIffConstant | circle-drawing-game.tsx:231-232 | the variance of the radii is non-negative and zero exactly when all radii are equal |
| Scorer.StdDevFacts | circle-drawing-game.tsx:228-233 | the standard deviation is non-negative, and zero exactly when all radii are equal |
| Scorer.PenalizedRange | circle-drawing-game.tsx:242-245 | `max(0, 100 - (err/size)*w)` lies in [0, 100], is 100 exactly for zero error, and is 0 once err ≥ size and w ≥ 100 |
| Scorer.Regularity | circle-drawing-game.tsx:241-242 | the regularity score lies in [0, 100] and is 100 exactly when all radii are equal |
| Scorer.Closure | circle-drawing-game.tsx:235-245 | the closure score lies in [0, 100], is 100 exactly when the first and last points coincide, and is 0 when the gap is at least the mean radius |
| Scorer.CountScore | circle-drawing-game.tsx:247-249 | the point-count score is 100 for 50 < n < 200 and 0 for every other n |
| Scorer.Composite | circle-drawing-game.tsx:251-252 | the weighted sum of the three scores lies in [0, 100] |
| Scorer.Round | circle-drawing-game.tsx:254 | `Math.round` returns an integer within half a unit of its argument, with halves going up |
| Scorer.Clamp | circle-drawing-game.tsx:254 | the clamp lies in [1, 100], is the identity inside it, and is 1 below it and 100 above it |
| Scorer.CircleScore | circle-drawing-game.tsx:218-255 | fewer than 10 points give 0; otherwise the score is an integer in [1, 100], 1 for a weighted sum below 1, and within 0.5 of the weighted sum otherwise |
| Scorer.SpacedStrokeHasPositiveRadius | circle-drawing-game.tsx:222-245 | a stroke with at least two points 3 apart has a positive mean radius, so the divisions at lines 242 and 245 are defined |
| Scorer.ClosedRoundStrokeScoresFull | circle-drawing-game.tsx:218-255 | a closed stroke of equal radii with 51 to 199 points scores 100 |
| Scorer.OpenStrokeScoresAtMost70 | circle-drawing-game.tsx:235-252 | a stroke whose end-to-start gap is at least the mean radius scores at most 70 |
| Scorer.BadPointCountScoresAtMost80 | circle-drawing-game.tsx:247-252 | a stroke with at most 50 or at least 200 points scores at most 80 |
| Session.InitialValid | circle-drawing-game.tsx:16-19 | the initial state (not drawing, no points, no score, best 0) satisfies the session invariant |
| Session.StartDrawing | circle-drawing-game.tsx:34-43 | drawing starts with exactly [pos] and no score, keeps the best score, and preserves the invariant |
| Session.Draw | circle-drawing-game.tsx:64-195 | a move while not drawing changes nothing; while drawing it applies the sampler to the points only and preserves the invariant |
| Session.StopDrawing | circle-drawing-game.tsx:198-215 | does nothing unless drawing; always stops drawing and keeps the points; under 10 points the score and best score stay; otherwise the mean radius is positive, the score is the circle score, and the best score becomes the larger of the old best and the new score; the best score never decreases |
| Session.ClearCanvas | circle-drawing-game.tsx:258-270 | clears points and score, stops drawing, and leaves the best score alone |
| Session.Handle | circle-drawing-game.tsx:293-296 | each mouse event preserves the invariant and never lowers the best score |
| Session.Run | circle-drawing-game.tsx:293-296 | any sequence of events preserves the invariant and never lowers the best score |
| Session.ReachableSessionsValid | circle-drawing-game.tsx:16-19 | every session reachable from the initial state keeps points 3 apart, is never drawing with an empty stroke, shows only scores in [1, 100], and has a best score in [0, 100] |
| Session.DrawIdempotent | circle-drawing-game.tsx:66-90 | two moves to the same position change the session at most once, and the second draws nothing |
| Session.NearDuplicateMovesChangeNothing | circle-drawing-game.tsx:80-88 | repeated moves to a position within 3 of the stroke's end leave the whole session unchanged |

## Left out

- Canvas rendering is not modelled: gradients, glow, shadows, `save`/`restore`,
  `quadraticCurveTo`/`lineTo`. Only the geometry of each segment and its line
  width are kept.
- Particles (`drawParticle` and the 15% roll) are left out because they depend
  on `Math.random` and are decorative.
- The hue of each segment is left out because it is colour styling and does
  not affect the score.
- `getMousePos` is left out because it depends on the DOM. Positions arrive
  already in canvas coordinates.
- The early returns when the canvas or its 2D context is missing are left
  out, because they depend on the DOM.
- Listener wiring, the `useEffect` lifecycle and the JSX are left out. So are
  `getScoreInfo` and React's batching of state updates. Each handler is one
  atomic transition, and `Run` replays events in order.
- IEEE-754 doubles are left out. Coordinates are exact reals. `Math.sqrt` is
  a parameter known only through `IsSqrt`, and there are no `NaN` values.
- Scorer.CircleScore: requires a positive mean radius. The source has no
  guard and would produce `NaN`. The model proves the requirement holds for
  every stroke the sampler builds.
- Scorer.Round: is modelled as `floor(v + 0.5)` on exact reals. Rounding
  error in doubles is not modelled.
- Session.StopDrawing: requires the session invariant `Valid`, which every
  reachable session satisfies (`Session.ReachableSessionsValid`). On
  arbitrary states the source could divide by zero.
- The drawing history that redraws past loops after a resize is left out. It
  is not part of this component.
