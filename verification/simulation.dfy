/**
  The simulation state of the bouncing demo and the handlers that change it.

  The program keeps its state in globals and changes it from GLUT callbacks;
  here the state is one immutable record and every callback is a pure
  transition from the old state to the new one.
 */
module Simulation {
  import opened Geometry
  import opened Collision

  /** Where mouse presses add points: nowhere, to the boundary, or to the object. */
  datatype Mode = Idle | DefineBoundary | DefineObject

  datatype State = State(
    boundary: seq<Point>,  // clicked boundary vertices, in click order
    obj: seq<Point>,       // clicked object vertices, in click order
    translate: bool,       // whether the timer moves the object
    rotate: bool,          // whether the timer turns the object
    pos: Point,            // the object's offset
    vel: Point,            // offset added per tick
    angle: real,           // rotation in degrees
    speed: real,           // degrees added per tick
    mode: Mode)

  /** The program's state at start-up. */
  const Initial: State :=
    State([], [], false, false, Point(0.0, 0.0), Point(0.02, 0.03), 0.0, 2.0, Idle)

  /** Position, velocity, angle and rotation speed agree. */
  predicate SameMotion(s: State, t: State) {
    s.pos == t.pos && s.vel == t.vel && s.angle == t.angle && s.speed == t.speed
  }

  // ---------------------------------------------------------------------------
  // Menu
  // ---------------------------------------------------------------------------

  const DefineBoundaryItem := 1
  const DefineObjectItem := 2
  const StartMovementItem := 3

  /**
    The context menu. "Define Boundary" starts over: both shapes are emptied.
    "Define Object" empties only the object. Both stop all motion. "Start
    Movement" switches translation on. Any other item changes nothing.
   */
  function Menu(s: State, item: int): (r: State)
    ensures item == DefineBoundaryItem ==>
      r.mode == DefineBoundary && !r.translate && !r.rotate &&
      r.boundary == [] && r.obj == [] && SameMotion(r, s)
    ensures item == DefineObjectItem ==>
      r.mode == DefineObject && !r.translate && !r.rotate &&
      r.obj == [] && r.boundary == s.boundary && SameMotion(r, s)
    ensures item == StartMovementItem ==> r == s.(translate := true)
    ensures item !in {DefineBoundaryItem, DefineObjectItem, StartMovementItem} ==> r == s
  {
    if item == DefineBoundaryItem then
      s.(mode := DefineBoundary, translate := false, rotate := false, boundary := [], obj := [])
    else if item == DefineObjectItem then
      s.(mode := DefineObject, translate := false, rotate := false, obj := [])
    else if item == StartMovementItem then
      s.(translate := true)
    else
      s
  }

  /** Choosing the same menu item twice is the same as choosing it once. */
  lemma MenuIdempotent(s: State, item: int)
    ensures Menu(Menu(s, item), item) == Menu(s, item)
  {
  }

  /** "Define Boundary" discards whatever any earlier menu choice did to the shapes and flags. */
  lemma DefineBoundaryOverrides(s: State, item: int)
    ensures Menu(Menu(s, item), DefineBoundaryItem) == Menu(s, DefineBoundaryItem)
  {
  }

  // ---------------------------------------------------------------------------
  // Mouse
  // ---------------------------------------------------------------------------

  datatype ButtonState = Pressed | Released

  /**
    Converts a pixel position (origin top left, y downwards) in a window of the
    given size to view coordinates (origin in the centre, y upwards).
   */
  function ToView(px: int, py: int, width: int, height: int): (p: Point)
    requires width > 0 && height > 0
    ensures 0 <= px <= width ==> -1.0 <= p.x <= 1.0
    ensures 0 <= py <= height ==> -1.0 <= p.y <= 1.0
  {
    UnitFraction(px, width);
    UnitFraction(py, height);
    Point(px as real / width as real * 2.0 - 1.0, 1.0 - py as real / height as real * 2.0)
  }

  lemma UnitFraction(a: int, n: int)
    requires n > 0
    ensures 0 <= a <= n ==> 0.0 <= a as real / n as real <= 1.0
  {
    var t := a as real / n as real;
    assert t * n as real == a as real;
  }

  /** The pixel a view point came from, as reals. */
  function ToPixel(p: Point, width: int, height: int): (r: (real, real))
    requires width > 0 && height > 0
  {
    ((p.x + 1.0) / 2.0 * width as real, (1.0 - p.y) / 2.0 * height as real)
  }

  /** The conversion loses nothing: the pixel can be recovered from the view point. */
  lemma ToViewInvertible(px: int, py: int, width: int, height: int)
    requires width > 0 && height > 0
    ensures ToPixel(ToView(px, py, width, height), width, height) == (px as real, py as real)
  {
    var p := ToView(px, py, width, height);
    var w, h := width as real, height as real;
    assert (p.x + 1.0) / 2.0 == px as real / w;
    assert (px as real / w) * w == px as real;
    assert (1.0 - p.y) / 2.0 == py as real / h;
    assert (py as real / h) * h == py as real;
    assert ToPixel(p, width, height).0 == px as real;
    assert ToPixel(p, width, height).1 == py as real;
  }

  /** The vertical axis flips: a lower pixel row gives a lower view point. */
  lemma ToViewFlipsY(px: int, py1: int, py2: int, width: int, height: int)
    requires width > 0 && height > 0
    requires py1 < py2
    ensures ToView(px, py2, width, height).y < ToView(px, py1, width, height).y
  {
    var h := height as real;
    var t1, t2 := py1 as real / h, py2 as real / h;
    assert t2 - t1 == (py2 - py1) as real / h;
  }

  /**
    A mouse press adds the clicked point to the end of the shape being
    defined; a release, or a press while no shape is being defined, changes
    nothing. Which button was used does not matter.
   */
  function Mouse(s: State, button: int, state: ButtonState, px: int, py: int,
                 width: int, height: int): (r: State)
    requires width > 0 && height > 0
    ensures state == Released || s.mode == Idle ==> r == s
    ensures state == Pressed && s.mode == DefineBoundary ==>
      r == s.(boundary := s.boundary + [ToView(px, py, width, height)])
    ensures state == Pressed && s.mode == DefineObject ==>
      r == s.(obj := s.obj + [ToView(px, py, width, height)])
  {
    if state == Pressed then
      var p := ToView(px, py, width, height);
      if s.mode == DefineBoundary then s.(boundary := s.boundary + [p])
      else if s.mode == DefineObject then s.(obj := s.obj + [p])
      else s
    else
      s
  }

  /** A press grows exactly one of the shapes by exactly one point, keeping the old ones in place. */
  lemma MouseAppendsOnePoint(s: State, button: int, px: int, py: int, width: int, height: int)
    requires width > 0 && height > 0
    requires s.mode != Idle
    ensures var r := Mouse(s, button, Pressed, px, py, width, height);
      |r.boundary| + |r.obj| == |s.boundary| + |s.obj| + 1 &&
      r.boundary[..|s.boundary|] == s.boundary &&
      r.obj[..|s.obj|] == s.obj
  {
  }

  /** The view points of a list of pixel positions, in the same order. */
  function ViewPoints(pixels: seq<(int, int)>, width: int, height: int): (r: seq<Point>)
    requires width > 0 && height > 0
    ensures |r| == |pixels|
  {
    if pixels == [] then []
    else [ToView(pixels[0].0, pixels[0].1, width, height)] + ViewPoints(pixels[1..], width, height)
  }

  /** The k-th view point comes from the k-th pixel. */
  lemma {:induction false} ViewPointsAt(pixels: seq<(int, int)>, width: int, height: int, k: nat)
    requires width > 0 && height > 0
    requires k < |pixels|
    ensures ViewPoints(pixels, width, height)[k] == ToView(pixels[k].0, pixels[k].1, width, height)
    decreases k
  {
    if k > 0 {
      ViewPointsAt(pixels[1..], width, height, k - 1);
    }
  }

  /** Presses of the left button at the given pixels, one after another. */
  function PressAll(s: State, pixels: seq<(int, int)>, width: int, height: int): (r: State)
    requires width > 0 && height > 0
    ensures r.mode == s.mode && r.translate == s.translate && r.rotate == s.rotate
    ensures SameMotion(r, s)
    decreases |pixels|
  {
    if pixels == [] then s
    else PressAll(Mouse(s, 0, Pressed, pixels[0].0, pixels[0].1, width, height), pixels[1..], width, height)
  }

  /**
    Clicking points while defining a shape builds that shape in click order:
    the clicked points end up after the old ones, and the other shape keeps
    its points.
   */
  lemma {:induction false} PressAllAppends(s: State, pixels: seq<(int, int)>, width: int, height: int)
    requires width > 0 && height > 0
    ensures var r := PressAll(s, pixels, width, height);
      match s.mode
      case Idle => r == s
      case DefineBoundary => r.boundary == s.boundary + ViewPoints(pixels, width, height) && r.obj == s.obj
      case DefineObject => r.obj == s.obj + ViewPoints(pixels, width, height) && r.boundary == s.boundary
    decreases |pixels|
  {
    if pixels != [] {
      var t := Mouse(s, 0, Pressed, pixels[0].0, pixels[0].1, width, height);
      var p := ToView(pixels[0].0, pixels[0].1, width, height);
      var rest := ViewPoints(pixels[1..], width, height);
      PressAllAppends(t, pixels[1..], width, height);
      assert PressAll(s, pixels, width, height) == PressAll(t, pixels[1..], width, height);
      assert ViewPoints(pixels, width, height) == [p] + rest;
      match s.mode
      case Idle =>
      case DefineBoundary =>
        assert t.mode == s.mode && t.boundary == s.boundary + [p] && t.obj == s.obj;
        assert s.boundary + ([p] + rest) == t.boundary + rest;
      case DefineObject =>
        assert t.mode == s.mode && t.obj == s.obj + [p] && t.boundary == s.boundary;
        assert s.obj + ([p] + rest) == t.obj + rest;
    }
  }

  // ---------------------------------------------------------------------------
  // Keyboard
  // ---------------------------------------------------------------------------

  /** A key handler either leaves the program running in some state or ends it. */
  datatype Outcome = Continue(state: State) | Quit

  /** 't' toggles translation, 'r' toggles rotation, 'q' ends the program. */
  function Keyboard(s: State, key: char): (r: Outcome)
    ensures r.Quit? <==> key == 'q'
    ensures key == 't' ==> r == Continue(s.(translate := !s.translate))
    ensures key == 'r' ==> r == Continue(s.(rotate := !s.rotate))
    ensures key !in {'t', 'r', 'q'} ==> r == Continue(s)
  {
    if key == 't' then Continue(s.(translate := !s.translate))
    else if key == 'r' then Continue(s.(rotate := !s.rotate))
    else if key == 'q' then Quit
    else Continue(s)
  }

  /**
    Pressing a key other than 'q' twice restores the state: in particular
    stopping and restarting translation resumes from the same position.
   */
  lemma KeyboardTwiceRestores(s: State, key: char)
    requires key != 'q'
    ensures Keyboard(Keyboard(s, key).state, key) == Continue(s)
  {
  }

  /** The arrow keys; every other special key is ignored. */
  datatype SpecialKey = Up | Down | Left | Right | OtherKey(code: int)

  const Faster: real := 11.0 / 10.0
  const Slower: real := 9.0 / 10.0

  /**
    Up and Down scale the velocity by 11/10 and 9/10; Right and Left scale the
    rotation speed the same way.
   */
  function SpecialKeys(s: State, key: SpecialKey): (r: State)
    ensures key.Up? ==> r == s.(vel := Point(Faster * s.vel.x, Faster * s.vel.y))
    ensures key.Down? ==> r == s.(vel := Point(Slower * s.vel.x, Slower * s.vel.y))
    ensures key.Right? ==> r == s.(speed := Faster * s.speed)
    ensures key.Left? ==> r == s.(speed := Slower * s.speed)
    ensures key.OtherKey? ==> r == s
  {
    match key
    case Up => s.(vel := Scale(Faster, s.vel))
    case Down => s.(vel := Scale(Slower, s.vel))
    case Right => s.(speed := Faster * s.speed)
    case Left => s.(speed := Slower * s.speed)
    case OtherKey(_) => s
  }

  /**
    Up and Down change how fast the object moves but not where it is heading:
    the new velocity is parallel to the old one, points the same way, and its
    squared length is scaled by the square of the factor.
   */
  lemma VelocityKeysKeepDirection(s: State, key: SpecialKey)
    requires key.Up? || key.Down?
    ensures var v := SpecialKeys(s, key).vel;
      Cross(v, s.vel) == 0.0 && Dot(v, s.vel) >= 0.0 &&
      NormSq(v) == (if key.Up? then 121.0 / 100.0 else 81.0 / 100.0) * NormSq(s.vel) &&
      SpecialKeys(s, key).speed == s.speed
  {
    var k := if key.Up? then Faster else Slower;
    var v := SpecialKeys(s, key).vel;
    assert v == Scale(k, s.vel);
    DotScale(k, s.vel, s.vel);
    DotScale(k, s.vel, v);
    DotSymmetric(s.vel, v);
    assert Cross(v, s.vel) == k * Cross(s.vel, s.vel);
  }

  /** Three presses of Up multiply the velocity by (11/10)^3. */
  lemma ThreeUpsScaleVelocity(s: State)
    ensures SpecialKeys(SpecialKeys(SpecialKeys(s, Up), Up), Up).vel ==
      Point(1331.0 / 1000.0 * s.vel.x, 1331.0 / 1000.0 * s.vel.y)
  {
  }

  /** Left and Right change only the rotation speed, and never its sign. */
  lemma SpeedKeysKeepSign(s: State, key: SpecialKey)
    requires key.Left? || key.Right?
    ensures var r := SpecialKeys(s, key);
      r.vel == s.vel && (s.speed > 0.0 <==> r.speed > 0.0) && (s.speed < 0.0 <==> r.speed < 0.0)
  {
  }

  // ---------------------------------------------------------------------------
  // Timer
  // ---------------------------------------------------------------------------

  /** The position the object would reach with its current velocity. */
  function Candidate(s: State): (q: Point)
    ensures q == s.pos <==> s.vel == Origin
  {
    Add(s.pos, s.vel)
  }

  /**
    The program divides by the length of the edge it bounces off, so a tick
    is defined only when that edge has two distinct ends.
   */
  predicate TickDefined(s: State): (b: bool)
    ensures !s.translate || Misses(s.boundary, Candidate(s)) ==> b
    ensures (forall i :: 0 <= i < |s.boundary| ==> EdgeStart(s.boundary, i) != EdgeEnd(s.boundary, i)) ==> b
  {
    s.translate ==>
      match FirstHit(s.boundary, Candidate(s))
      case Some(i) => Normal(s.boundary, i) != Origin
      case None => true
  }

  /**
    One translation step: move by the velocity, unless the new position lies
    in the bounding box of some boundary edge; then reflect the velocity at
    the first such edge and move by the reflected velocity instead.
   */
  function Translate(s: State): (r: State)
    requires TickDefined(s)
    ensures !s.translate ==> r == s
    ensures r == s.(pos := r.pos, vel := r.vel)
    ensures s.translate ==> r.pos == Add(s.pos, r.vel)
    ensures s.translate && Misses(s.boundary, Candidate(s)) ==> r.vel == s.vel
  {
    if !s.translate then s
    else
      match FirstHit(s.boundary, Candidate(s))
      case None => s.(pos := Candidate(s))
      case Some(i) =>
        var v := Reflect(s.vel, Normal(s.boundary, i));
        s.(pos := Add(s.pos, v), vel := v)
  }

  /**
    When some edge box contains the candidate position, the velocity is
    reflected exactly once, about the lowest-indexed such edge: its normal
    component is reversed, its component along the edge is kept.
   */
  lemma TranslateReflectsAtFirstHit(s: State, i: nat)
    requires TickDefined(s) && s.translate
    requires IsFirstHit(s.boundary, Candidate(s), i)
    ensures Normal(s.boundary, i) != Origin
    ensures Translate(s).vel == Reflect(s.vel, Normal(s.boundary, i))
    ensures Dot(Translate(s).vel, Normal(s.boundary, i)) == -Dot(s.vel, Normal(s.boundary, i))
    ensures Cross(Translate(s).vel, Normal(s.boundary, i)) == Cross(s.vel, Normal(s.boundary, i))
    ensures Translate(s).pos == Add(s.pos, Translate(s).vel)
  {
    FirstHitExact(s.boundary, Candidate(s), i);
    ReflectReversesNormal(s.vel, Normal(s.boundary, i));
    ReflectKeepsTangent(s.vel, Normal(s.boundary, i));
  }

  /** The rotation step: add the speed, then take off one full turn if past 360. */
  function Rotate(s: State): (r: State)
    ensures !s.rotate ==> r == s
    ensures r == s.(angle := r.angle)
    ensures s.rotate && s.angle + s.speed <= 360.0 ==> r.angle == s.angle + s.speed
    ensures s.rotate && s.angle + s.speed > 360.0 ==> r.angle == s.angle + s.speed - 360.0
    ensures s.rotate ==> r.angle <= 360.0 || s.angle + s.speed > 720.0
  {
    if !s.rotate then s
    else
      var a := s.angle + s.speed;
      s.(angle := if a > 360.0 then a - 360.0 else a)
  }

  /** An angle in [0, 360] stays in [0, 360] when the speed is in [0, 360]. */
  lemma RotateStaysInRange(s: State)
    requires 0.0 <= s.angle <= 360.0 && 0.0 <= s.speed <= 360.0
    ensures 0.0 <= Rotate(s).angle <= 360.0
  {
  }

  /**
    The wrap test is strict, so the angle can land on 360 itself and stay
    there: the range is [0, 360], not [0, 360).
   */
  lemma RotateCanReach360(s: State)
    requires s.rotate && s.angle + s.speed == 360.0
    ensures Rotate(s).angle == 360.0
    ensures s.speed == 0.0 ==> Rotate(Rotate(s)).angle == 360.0
  {
  }

  /** The state after n rotation steps. */
  function RotateTimes(s: State, n: nat): (r: State)
    ensures r == s.(angle := r.angle)
  {
    if n == 0 then s else Rotate(RotateTimes(s, n - 1))
  }

  /** With the speed in [0, 360], the angle stays in [0, 360] for good. */
  lemma {:induction false} RotateTimesStaysInRange(s: State, n: nat)
    requires 0.0 <= s.angle <= 360.0 && 0.0 <= s.speed <= 360.0
    ensures 0.0 <= RotateTimes(s, n).angle <= 360.0
  {
    if n > 0 {
      RotateTimesStaysInRange(s, n - 1);
      RotateStaysInRange(RotateTimes(s, n - 1));
    }
  }

  /** One timer tick: translate (if on), then rotate (if on). */
  function Timer(s: State): (r: State)
    requires TickDefined(s)
    ensures r.boundary == s.boundary && r.obj == s.obj && r.mode == s.mode
    ensures r.translate == s.translate && r.rotate == s.rotate && r.speed == s.speed
    ensures !s.translate ==> r.pos == s.pos && r.vel == s.vel
    ensures !s.rotate ==> r.angle == s.angle
  {
    Rotate(Translate(s))
  }

  /** A tick never changes how fast the object moves, bounce or not. */
  lemma TimerPreservesSpeed(s: State)
    requires TickDefined(s)
    ensures NormSq(Timer(s).vel) == NormSq(s.vel)
  {
    if s.translate {
      match FirstHit(s.boundary, Candidate(s))
      case None =>
      case Some(i) => ReflectPreservesNormSq(s.vel, Normal(s.boundary, i));
    }
  }

  /**
    The timer as the program writes it: new coordinates, a loop over the
    edges that breaks at the first box hit, then the rotation update.
   */
  method TimerStep(s: State) returns (r: State)
    requires TickDefined(s)
    ensures r == Timer(s)
  {
    r := s;
    if s.translate {
      var next := Add(s.pos, s.vel);
      var hit := ScanEdges(s.boundary, next);
      if hit.Some? {
        var m := EdgeNormal(s.boundary[hit.value], s.boundary[(hit.value + 1) % |s.boundary|]);
        r := r.(vel := Reflect(s.vel, m));
        next := Add(s.pos, r.vel);
      }
      r := r.(pos := next);
    }
    if s.rotate {
      var a := r.angle + r.speed;
      if a > 360.0 {
        a := a - 360.0;
      }
      r := r.(angle := a);
    }
  }
}
