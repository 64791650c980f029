# Tentacle effect — a Dafny model

This project models the logic of `script.js`, an interactive canvas effect.
Sixty jointed "tentacles" chase the pointer or touch position. Each one is drawn
as a smooth curve that fades in while the pointer is engaged and fades out
when it leaves.

The model has three modules:

- `Geometry` (`geometry.dfy`): points, the easing step `a += (b - a) * f` that
  every animated quantity uses, the midpoint, and lemmas about repeated easing.
- `Tentacles` (`tentacle.dfy`): the numeric settings of the effect, the taper,
  wave and orbit point of a joint, and the functions `Moved` and `Drawn`, which
  specify one call of `move` and of `draw`. The class `Tentacle` holds its
  joints in an `array<Point>` that `Reset` and `Move` update in place and
  `Draw` reads. The results of `Move` and `Draw` are proved equal to `Moved`
  and `Drawn`.
- `Animation` (`controller.dfy`): the class `Controller`, whose fields are the
  script's globals `target`, `tick`, `currentOpacity`, `targetOpacity` and
  `tentacles`. It has `Init`, the per-frame update `Frame` (the body of
  `animate`) and the five input handlers as state transitions.

Modelling choices:

- JavaScript numbers are exact reals.
- Dafny has no `Math.atan2`, `Math.sin` or `Math.cos`, so they are a record of
  function values (`Trig`) that the caller supplies.
- Facts about the trigonometric functions are hypotheses of the lemmas that
  need them: `SinBounded` (sine lies in [-1, 1]) and `Pythagorean`
  (sin² + cos² = 1).
- There is no square root. Distances are stated per coordinate, where an
  offset scales by a factor c, and as squared distances (`Dist2`), which scale
  by c².
- `draw` returns its canvas path as a sequence of `PathCmd` values instead of
  calling a canvas.
- The glow switch of `animate` is returned by `Frame` as a boolean.
- The two pointer-move handlers run the same code, so they share one method,
  `PointerMove`.
- The code's `init` rebuilds the tentacles at the centre of the surface and
  leaves `target` as it was. The model follows the code here.

## Model

| member | source | states |
|---|---|---|
| Geometry.Ease | script.js:38-39 | one easing step leaves exactly the fraction 1 - f of the gap to the goal |
| Geometry.EaseBetween | script.js:97 | for 0 <= f <= 1 an easing step lands between its start and its goal, in either order |
| Geometry.EaseToContracts | script.js:38-39 | easing a point toward q scales its squared distance to q by (1 - f)², so it never grows for 0 <= f <= 1; a point already at q stays at q |
| Geometry.EaseTo | script.js:38-39 | no contract of its own; each coordinate is one `Ease` step, and `EaseToContracts` states what it does to the distance to the goal |
| Geometry.Mid | script.js:60-61 | the midpoint is equally far from both ends, and the two ends are twice as far apart as the midpoint is from either |
| Tentacles.Taper | script.js:47-48 | the orbit radius is the full radius at the head, strictly between half and the full radius for joints 1 to length - 1, and half the radius at index length |
| Tentacles.TaperDecreasing | script.js:47-48 | the orbit radius strictly decreases along the chain |
| Tentacles.Wave | script.js:46 | with sine in [-1, 1] the angular wave lies in [-0.5, 0.5] |
| Tentacles.Orbit | script.js:43-48 | no contract of its own; the point from atan2 of the offset, the wave and the taper is specified by `OrbitOnCircle` |
| Tentacles.OrbitOnCircle | script.js:43-48 | with sin² + cos² = 1 the orbit point is exactly the tapered radius away from the predecessor |
| Tentacles.Follow | script.js:49-50 | no contract of its own; the 40% step toward the orbit point is specified by `JointEasing` |
| Tentacles.Joint | script.js:37-50 | no contract of its own; joint i after the in-order loop, tied to `Moved` by `MovedJoints` and `MovedRecurrence` |
| Tentacles.Moved | script.js:36-52 | a move keeps the number of joints |
| Tentacles.MovedJoints | script.js:37-50 | joint i of the moved chain is the i-th joint computed by the in-order loop: the head eased toward the target, each later joint following the moved joint before it |
| Tentacles.MovedRecurrence | script.js:37-50 | after a move the head has eased 10% toward the target, and joint i >= 1 has eased 40% toward the orbit point computed from the already moved joint i - 1 |
| Tentacles.HeadEasing | script.js:37-39 | each coordinate of the head's offset from the target becomes 0.9 of what it was; the squared distance scales by 0.81 and never grows; the head is at the target after a move exactly when it was before |
| Tentacles.JointEasing | script.js:40-50 | joint i >= 1 keeps exactly 60% of its offset from its orbit point; the squared distance scales by 0.36; with unit-circle trigonometry the orbit point is the tapered radius from the moved predecessor |
| Tentacles.MovedPrefix | script.js:40-50 | the first k joints after a move depend only on the first k joints before it, because the loop runs in index order |
| Tentacles.HeadAfterMoves | script.js:36-39 | after k frames toward a fixed target the chain has the same length and the head's offset from the target is 0.9^k times the first offset |
| Tentacles.Curves | script.js:59-63 | no contract of its own; the quadratic curves of the draw loop are specified by `CurvesAt` |
| Tentacles.CurvesAt | script.js:59-63 | the curve list has one quadratic curve per consecutive pair of points; curve k has control point k and ends at the midpoint of points k and k + 1 |
| Tentacles.Path | script.js:57-65 | no contract of its own; the whole path of draw is specified by `PathShape` |
| Tentacles.PathShape | script.js:57-65 | a path is one moveTo the head, a quadratic curve per interior joint i (control joint i, end the midpoint of joints i and i + 1), then one lineTo the last joint |
| Tentacles.Drawn | script.js:55 | nothing is drawn exactly when the opacity is below 0.01 |
| Tentacles.Tentacle.constructor | script.js:20-27 | a new tentacle has `length` joints, all on the spawn point, and angle offset index * 0.1 |
| Tentacles.Tentacle.Reset | script.js:29-34 | every joint is on (x, y) afterwards; the joint count and angle offset do not change |
| Tentacles.Tentacle.Move | script.js:36-52 | the joints after the in-place loop are `Moved` of the joints before it |
| Tentacles.Tentacle.Draw | script.js:54-65 | the commands emitted are `Drawn` of the joints at the given opacity |
| Animation.OpacityInRange | script.js:97 | an opacity step keeps an opacity in [0, 1] when the target opacity is in [0, 1] |
| Animation.OpacityGap | script.js:97 | after k frames with a fixed target opacity the gap to it is 0.95^k times the first gap |
| Animation.FadeIn | script.js:97 | starting from 0 with target 1, after k frames the opacity is 1 - 0.95^k, in [0, 1) and never 1 |
| Animation.FadeOut | script.js:97 | starting from 1 with target 0, after k frames the opacity is 0.95^k, in (0, 1] and never 0 |
| Animation.Controller.constructor | script.js:4-8 | the load-time state: target at the origin, tick 0, both opacities 0, no tentacles |
| Animation.Controller.Init | script.js:76-82 | exactly 60 fresh tentacles, tentacle i with angle offset i * 0.1 and all joints on the surface centre; target, tick and opacities unchanged |
| Animation.Controller.Frame | script.js:97-107 | the opacity eases 5% toward the target opacity and stays in [0, 1]; tick grows by one; the glow is on exactly when the opacity exceeds 0.01; every tentacle is `Moved` on the new tick and its path is `Drawn` at the new opacity; nothing else changes |
| Animation.Controller.MoveAndDrawAll | script.js:104-107 | every tentacle is moved once toward the target and then drawn, giving one path per tentacle |
| Animation.MoveAndDraw | script.js:105-106 | one tentacle is `Moved`, and its path is `Drawn` from the moved joints |
| Animation.Controller.ResetAll | script.js:116 | every tentacle's joints are all on (x, y) |
| Animation.Controller.PointerMove | script.js:112-121 | the effect is engaged and aimed at (x, y); the tentacles snap onto (x, y) when the effect was disengaged and are untouched otherwise; tick, opacity and the tentacle list do not change |
| Animation.Controller.MouseMove | script.js:112-121 | as `PointerMove`, for the mouse position |
| Animation.Controller.TouchMove | script.js:134-143 | as `PointerMove`, for the first touch position |
| Animation.Controller.MouseLeave | script.js:123-125 | the target opacity becomes 0, and only it changes |
| Animation.Controller.TouchEnd | script.js:145-147 | the target opacity becomes 0, and only it changes |
| Animation.Controller.MouseEnter | script.js:127-132 | the effect is engaged, aimed at the entry point, and every tentacle snaps onto it, whatever the previous state |
| Animation.Reengage | script.js:112-125 | after a leave followed by two pointer moves, the tentacles sit on the first point (only the first move snaps), and the target is the second point |

## Left out

- DOM and canvas setup, `resize` (it only reads the window size and sizes the canvas; the tentacles are not rebuilt), listener registration and `requestAnimationFrame`: these are plumbing with no state the model needs. `Init` takes the surface size as parameters.
- The rendering side effects: the trail fill, stroke colour and width, `beginPath`/`stroke`/`closePath` and the shadow settings. `draw` returns its commands, and the shadow branch of `animate` is the boolean `glow`.
- `Math.atan2`, `Math.sin` and `Math.cos` are not defined. They are supplied by the caller as `Trig`, and only the two hypotheses above are assumed about them.
- IEEE-754 rounding: all arithmetic is exact over the reals, so nothing here says that the floating-point values converge or match exactly.
- Event payloads (`e.clientX`, `e.touches[0]`): the handlers take the coordinates directly.
- HeadEasing: states that the squared distance to the target scales by 0.81 and that a head not at the target does not reach it. It does not state outright that the distance strictly decreases, because that needs positivity of a sum of squares.
- Tentacles.Moved: its own contract gives only the length. What a move does joint by joint is in MovedRecurrence, HeadEasing and JointEasing.
