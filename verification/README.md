# BouncyBouncy in Dafny

BouncyBouncy is an OpenGL/GLUT teaching demo. The user clicks a boundary
polygon and an object polygon into the window. The object then moves inside
the boundary and can also rotate. When its next position falls inside the
bounding box of a boundary edge, its velocity is reflected about that edge's
normal. The program keeps its state in globals and changes it from GLUT
callbacks: the timer, the keyboard, the arrow keys, the context menu and the
mouse.

This project models that state as one immutable record
(`Simulation.State`). Each callback becomes a pure transition from the old
state to the new one. The modules are:

- `Geometry` (geometry.dfy): points and vectors over the reals, the dot and
  cross products, the edge normal, and reflection. The reflection is written
  without a square root as `v - 2 (v.m)/(m.m) m`. `SourceReflect` is the
  program's normalised formula, and `SourceReflectAgrees` proves that the two
  are equal.
- `Collision` (collision.dfy): the inclusive bounding-box test of edge i,
  which runs from point i to point (i + 1) mod n. It also has the search for
  the lowest-indexed edge whose box holds the candidate position, in two
  forms: a recursive function and the program's loop with a break.
- `Simulation` (simulation.dfy): the global state, its initial values, and
  the handlers `Menu`, `Mouse`, `Keyboard`, `SpecialKeys` and `Timer`. `Timer`
  is made of `Translate` followed by `Rotate`; `TimerStep` writes it out
  imperatively.
- `Events` (events.dfy): one dispatch function over a typed event, a run of
  events, and the invariant that every event keeps. The invariant says that
  clicked points lie in the view, the object never comes to rest, and the
  rotation speed stays positive.
- `Scenarios` (scenarios.dfy): the timer against a boundary that is the
  whole view square. An object landing on the top or right side bounces: one
  velocity component changes sign, and at the corner the lower edge index
  wins. But every side of the square is axis-aligned, so its bounding box has
  zero thickness. A step that jumps over a side therefore meets no box, and
  the object leaves the boundary unreflected. `StartEscapes` shows this for
  the program's own start: with the square as boundary, the initial velocity
  carries the object out through the top side on the 34th tick.

Three points about the code that the model keeps as they are:

- The angle is not reduced modulo 360. The code subtracts 360 once, and only
  when the sum is strictly greater than 360. So the angle can be exactly 360
  and stay there (`RotateCanReach360`), and a speed above 360 can leave it
  above 360.
- The timer translates first and rotates second. The two steps touch
  disjoint fields, so the order does not change the result.
- A zero-length edge is not skipped: the code divides by the edge's zero
  length. The model makes a nonzero normal for the edge a tick reflects at a
  precondition of the tick (`TickDefined`).

## Model

| member | source | states |
|---|---|---|
| Simulation.Menu | BouncyBouncy.cpp:203-224 | Item 1 enters boundary definition, empties both shapes and stops both motions. Item 2 enters object definition, empties only the object and stops both motions. Item 3 switches translation on. Any other item changes nothing. Position, velocity, angle and speed are never touched. |
| Simulation.MenuIdempotent | BouncyBouncy.cpp:203-224 | Choosing the same item twice has the same effect as choosing it once. |
| Simulation.DefineBoundaryOverrides | BouncyBouncy.cpp:205-212 | "Define Boundary" resets shapes, mode and flags whatever item was chosen before it. |
| Simulation.Initial | BouncyBouncy.cpp:36-55 | The start-up values of the globals: no shapes, both flags off, position (0, 0), velocity (0.02, 0.03), angle 0, speed 2, no shape being defined (its property is `Events.InitialValid`). |
| Simulation.ToView | BouncyBouncy.cpp:240-241 | A click inside the window gives view coordinates in [-1, 1] on both axes. |
| Simulation.ToViewInvertible | BouncyBouncy.cpp:240-241 | The pixel → view conversion is injective: the pixel is recovered exactly from the view point. |
| Simulation.ToViewFlipsY | BouncyBouncy.cpp:241 | The y axis flips: a pixel further down the window maps to a lower view point. |
| Simulation.Mouse | BouncyBouncy.cpp:238-248 | A press appends the converted point to the boundary in boundary mode or to the object in object mode. A release, or a press when no shape is being defined, changes nothing. The button does not matter. |
| Simulation.MouseAppendsOnePoint | BouncyBouncy.cpp:242-246 | A press in a defining mode adds exactly one point in total and keeps the earlier points of both shapes in place. |
| Simulation.PressAll | BouncyBouncy.cpp:238-248 | A run of presses never changes the mode, the motion flags, the position, the velocity, the angle or the speed. |
| Simulation.PressAllAppends | BouncyBouncy.cpp:242-246 | Presses in boundary mode append the clicked view points to the boundary in click order and leave the object alone. In object mode it is the other way round, and in idle mode nothing changes. |
| Simulation.ViewPointsAt | BouncyBouncy.cpp:240-241 | The k-th appended point is the view point of the k-th click, so `PressAllAppends` states which points are added, not just how many. |
| Simulation.Keyboard | BouncyBouncy.cpp:169-180 | 't' flips only the translation flag, 'r' flips only the rotation flag, 'q' and only 'q' ends the program, and any other key changes nothing. |
| Simulation.KeyboardTwiceRestores | BouncyBouncy.cpp:171-176 | Pressing any key other than 'q' twice restores the state. Stopping and restarting translation resumes from the same position and velocity. |
| Simulation.SpecialKeys | BouncyBouncy.cpp:183-200 | Up and Down multiply both velocity components by 11/10 or 9/10. Right and Left multiply only the rotation speed the same way. Other keys change nothing. |
| Simulation.VelocityKeysKeepDirection | BouncyBouncy.cpp:185-192 | Up and Down keep the heading: the new velocity is parallel to the old one, points the same way, and its squared length is scaled by 121/100 or 81/100. The speed is unchanged. |
| Simulation.ThreeUpsScaleVelocity | BouncyBouncy.cpp:185-188 | Three presses of Up multiply the velocity by 1331/1000. |
| Simulation.SpeedKeysKeepSign | BouncyBouncy.cpp:193-198 | Left and Right leave the velocity alone, and the speed stays positive exactly when it was positive (and negative likewise). |
| Collision.NextIndex | BouncyBouncy.cpp:103 | Edge i ends at point i + 1, except the last edge, which wraps to point 0 and only it. |
| Collision.InBox | BouncyBouncy.cpp:108-114 | The inclusive min/max box test holds exactly when each coordinate of q lies between the two end points' coordinates, in either order. |
| Collision.Normal | BouncyBouncy.cpp:116-117 | The normal of edge i is zero exactly when the edge has zero length. |
| Geometry.EdgeNormal | BouncyBouncy.cpp:116-117 | The normal (p2.y - p1.y, -(p2.x - p1.x)) is zero exactly when p1 = p2. |
| Geometry.EdgeNormalPerpendicular | BouncyBouncy.cpp:116-117 | The normal is perpendicular to the edge and has the same length. |
| Geometry.NormSq | BouncyBouncy.cpp:120 | The squared length under the square root is non-negative, and zero only for the zero vector. |
| Collision.FirstHitFrom | BouncyBouncy.cpp:102-142 | The search from a given index returns an index whose box holds the point, with no hit before it, or returns nothing exactly when no box from there on holds it. |
| Collision.FirstHit | BouncyBouncy.cpp:102-142 | The edge the timer reflects at is the lowest-indexed one whose inclusive box holds the candidate. There is none exactly when every box misses. |
| Collision.FirstHitUnique | BouncyBouncy.cpp:139-140 | There is at most one lowest hitting index: the break takes exactly one edge. |
| Collision.FirstHitExact | BouncyBouncy.cpp:102-142 | FirstHit returns i if and only if i is the lowest hitting index. |
| Collision.ScanEdges | BouncyBouncy.cpp:102-142 | The for loop with its break finds the same edge as FirstHit. |
| Geometry.SourceReflectAgrees | BouncyBouncy.cpp:120-129 | The program's normalise-then-reflect formula equals the sqrt-free reflection for any positive length whose square is m.m. |
| Geometry.ReflectReversesNormal | BouncyBouncy.cpp:127-129 | After reflection, the velocity's component along the normal is negated: v'·m = -(v·m). |
| Geometry.ReflectKeepsTangent | BouncyBouncy.cpp:127-129 | Reflection keeps the component along the edge (the cross product with the normal is unchanged). |
| Geometry.ReflectPreservesNormSq | BouncyBouncy.cpp:127-129 | Reflection preserves speed: the squared length of v' equals that of v. |
| Geometry.ReflectInvolution | BouncyBouncy.cpp:127-129 | Reflecting twice about the same normal gives back the original velocity. |
| Geometry.Reflect | BouncyBouncy.cpp:127-129 | The sqrt-free reflection. A velocity along the edge (zero dot product with the normal) is left unchanged. |
| Geometry.SourceReflect | BouncyBouncy.cpp:119-129 | The normalise-then-reflect formula as written, with the length as a parameter. A velocity along the edge is left unchanged. |
| Simulation.Translate | BouncyBouncy.cpp:96-147 | With translation off, nothing changes. Otherwise only the position and velocity change, the position moves by the new velocity, and on a miss the velocity is kept (so the object moves by the old velocity). |
| Simulation.TranslateReflectsAtFirstHit | BouncyBouncy.cpp:102-140 | When edge i is the first hit, its normal is nonzero and the velocity is reflected once, about edge i only. The normal component is negated, the tangential one kept, and the object moves by the reflected velocity. |
| Simulation.Candidate | BouncyBouncy.cpp:98-99 | The new coordinates before collision handling; they differ from the position exactly when the velocity is nonzero. |
| Simulation.TickDefined | BouncyBouncy.cpp:120-122 | The condition under which the division by the edge length is defined. It always holds with translation off, when no box is hit, and when no boundary edge has zero length. |
| Simulation.Rotate | BouncyBouncy.cpp:150-153 | With rotation off, nothing changes. Otherwise only the angle changes: it becomes angle + speed when that sum is at most 360, and angle + speed - 360 when the sum exceeds 360. It stays at most 360 unless the sum exceeds 720. |
| Simulation.RotateStaysInRange | BouncyBouncy.cpp:150-153 | With the angle in [0, 360] and the speed in [0, 360], the new angle is in [0, 360]. |
| Simulation.RotateCanReach360 | BouncyBouncy.cpp:152 | The wrap test is strict: a sum of exactly 360 is kept as 360, and with zero speed it stays there. |
| Simulation.RotateTimes | BouncyBouncy.cpp:150-153 | Any number of rotation steps change only the angle. |
| Simulation.RotateTimesStaysInRange | BouncyBouncy.cpp:150-153 | From an angle in [0, 360] and with a speed in [0, 360], the angle stays in [0, 360] after any number of steps. |
| Simulation.Timer | BouncyBouncy.cpp:94-154 | A tick keeps shapes, mode, flags and rotation speed. With translation off it keeps position and velocity. With rotation off it keeps the angle. |
| Simulation.TimerPreservesSpeed | BouncyBouncy.cpp:96-147 | A tick never changes the squared length of the velocity, bounce or not. |
| Simulation.TimerStep | BouncyBouncy.cpp:94-154 | The imperative timer (new coordinates, edge loop with break, reflection, position update, angle update) computes the same state as Timer. |
| Events.Step | BouncyBouncy.cpp:94-248 | Only the 'q' key ends the program. Only clicks and menu choices change shapes or mode. Only ticks and arrow keys change position, velocity, angle or speed. |
| Events.InitialValid | BouncyBouncy.cpp:36-55 | The start-up state meets the invariant: the velocity is nonzero and the speed positive. |
| Events.StepPreservesValid | BouncyBouncy.cpp:94-248 | Every event with its click inside the window keeps the invariant: points in the view, a nonzero velocity, a positive speed. |
| Events.TickPreservesValid | BouncyBouncy.cpp:94-154 | A tick keeps the invariant. A bounce cannot bring the object to rest. |
| Events.ClickPreservesValid | BouncyBouncy.cpp:238-248 | A click inside the window keeps every clicked point in the view. |
| Events.SpecialPreservesValid | BouncyBouncy.cpp:183-200 | Arrow keys keep the velocity nonzero and the speed positive. |
| Events.Run | BouncyBouncy.cpp:94-248 | A sequence of events with clicks inside the window keeps the invariant from a valid start to the end of the run. |
| Events.StepValid | BouncyBouncy.cpp:94-248 | One step keeps the invariant, stated for every state and event so that Run can chain it. |
| Events.RunAppend | BouncyBouncy.cpp:94-248 | Running two event sequences one after the other is running their concatenation, unless the first one quits. |
| Events.RunDefinedWithoutTicks | BouncyBouncy.cpp:203-248 | Menu choices, clicks and keys never divide by zero, so a run without ticks is always defined. |
| Scenarios.ReflectAxis | BouncyBouncy.cpp:115-129 | Reflecting about an axis-parallel normal negates exactly that axis's velocity component. |
| Scenarios.BounceAt | BouncyBouncy.cpp:96-147 | With the first hit and its normal known, a tick reflects about that normal and moves by the result. |
| Scenarios.BounceHorizontal | BouncyBouncy.cpp:96-147 | A first hit on a horizontal edge negates the vertical velocity. |
| Scenarios.BounceVertical | BouncyBouncy.cpp:96-147 | A first hit on a vertical edge negates the horizontal velocity. |
| Scenarios.SquareNormals | BouncyBouncy.cpp:116-117 | The four sides of the view square have outward normals (0, -2), (2, 0), (0, 2), (-2, 0). |
| Scenarios.TopSideHitsEdge2 | BouncyBouncy.cpp:102-114 | A point on the top side, short of its right end, is first held by the box of edge 2. |
| Scenarios.RightSideHitsEdge1 | BouncyBouncy.cpp:102-114 | A point on the right side above its lower end is first held by edge 1, even at the top corner that edge 2's box also holds. |
| Scenarios.TopEdgeBounces | BouncyBouncy.cpp:96-147 | Landing on the top side of the view square negates the vertical velocity. |
| Scenarios.RightEdgeBounces | BouncyBouncy.cpp:96-147 | Landing on the right side of the view square negates the horizontal velocity. |
| Scenarios.SquareEscapes | BouncyBouncy.cpp:108-114 | A candidate position outside the view square meets no edge box, so the object moves on unreflected. |
| Scenarios.SquareInteriorMoves | BouncyBouncy.cpp:108-114 | A candidate position strictly inside the view square meets no edge box, so the object moves on unreflected. |
| Scenarios.SetupBuildsSquare | BouncyBouncy.cpp:203-248 | From the start-up state, "Define Boundary", clicks at the four window corners and "Start Movement" give the view square as boundary with translation on. |
| Scenarios.DriftStep | BouncyBouncy.cpp:96-147 | From position (0.02 j, 0.03 j) in the view square, one tick moves the object to (0.02 (j + 1), 0.03 (j + 1)) unreflected, for every j up to 33. |
| Scenarios.DriftRun | BouncyBouncy.cpp:94-154 | k ticks from (0.02 j, 0.03 j) reach (0.02 (j + k), 0.03 (j + k)) while j + k is at most 34. |
| Scenarios.StartEscapes | BouncyBouncy.cpp:36-55 | From the program's start, after the setup events and 34 ticks, the object is at (0.68, 1.02), outside the boundary, with its initial velocity. |

## Left out

- display (BouncyBouncy.cpp:58-91): rendering only. It changes no state.
- reshape, createMenu and main: they only set up the window, projection, menu entries and callbacks.
- glutPostRedisplay and the 60 Hz re-arming of the timer: these are scheduling, and a tick is one call of `Timer`.
- Float rounding: all coordinates, velocities, angles and factors are exact reals. In particular 1.1f and 0.9f are taken as 11/10 and 9/10.
- std::sqrt: `Reflect` avoids it. `SourceReflect` takes the length as a parameter, with its square equal to m.m.
- Zero-length edges: the code divides by zero and produces NaN. The model instead requires a nonzero normal for the edge a tick reflects at (`Simulation.TickDefined`).
- glutGet(GLUT_WINDOW_WIDTH/HEIGHT): the window size is a parameter of `Mouse` and `Events.Step`, assumed positive.
- GLUT key codes and button constants: the arrow keys are the `SpecialKey` datatype, and press/release is `ButtonState`. The mouse button is a parameter that the code ignores.
- exit(0) on 'q': modelled as the `Quit` outcome rather than ending a process.
- The integer flags and mode: flags are booleans, since only 0 and 1 are ever stored. The mode is a three-value datatype, since only 0, 1 and 2 are ever stored.
- The Point class accessors (getX, getY, setX, setY): a Point is a plain datatype.
