/**
  Concrete runs of the timer against a square boundary, showing what the
  bounding-box test does with axis-aligned edges.
 */
module Scenarios {
  import opened Geometry
  import opened Collision
  import opened Simulation
  import opened Events

  /** The whole view as a boundary, clicked counter-clockwise from the bottom left. */
  const ViewSquare: seq<Point> := [Point(-1.0, -1.0), Point(1.0, -1.0), Point(1.0, 1.0), Point(-1.0, 1.0)]

  /** Reflection about an axis-parallel normal negates that axis's component of v. */
  lemma ReflectAxis(v: Point, m: Point)
    requires (m.x == 0.0 && m.y > 0.0) || (m.y == 0.0 && m.x > 0.0)
    ensures m != Origin
    ensures Reflect(v, m) == if m.x == 0.0 then Point(v.x, -v.y) else Point(-v.x, v.y)
  {
    var q := NormSq(m);
    if m.x == 0.0 {
      SquareIs(m.y);
      assert q == m.y * m.y;
      assert 2.0 * (v.y * m.y) / q * m.y == 2.0 * v.y;
    } else {
      SquareIs(m.x);
      assert q == m.x * m.x;
      assert 2.0 * (v.x * m.x) / q * m.x == 2.0 * v.x;
    }
  }

  /** With the first hit and its normal known, the tick reflects about that normal. */
  lemma BounceAt(s: State, i: nat, m: Point)
    requires s.translate && FirstHit(s.boundary, Candidate(s)) == Some(i)
    requires i < |s.boundary| && Normal(s.boundary, i) == m && m != Origin
    ensures TickDefined(s)
    ensures Timer(s).vel == Reflect(s.vel, m)
    ensures Timer(s).pos == Add(s.pos, Reflect(s.vel, m))
  {
  }

  /** Bouncing off a horizontal edge (normal (0, c)) negates the vertical velocity. */
  lemma BounceHorizontal(s: State, i: nat, c: real)
    requires s.translate && FirstHit(s.boundary, Candidate(s)) == Some(i)
    requires i < |s.boundary| && Normal(s.boundary, i) == Point(0.0, c) && c > 0.0
    ensures TickDefined(s)
    ensures Timer(s).vel == Point(s.vel.x, -s.vel.y)
    ensures Timer(s).pos == Point(s.pos.x + s.vel.x, s.pos.y - s.vel.y)
  {
    BounceAt(s, i, Point(0.0, c));
    ReflectAxis(s.vel, Point(0.0, c));
  }

  /** Bouncing off a vertical edge (normal (c, 0)) negates the horizontal velocity. */
  lemma BounceVertical(s: State, i: nat, c: real)
    requires s.translate && FirstHit(s.boundary, Candidate(s)) == Some(i)
    requires i < |s.boundary| && Normal(s.boundary, i) == Point(c, 0.0) && c > 0.0
    ensures TickDefined(s)
    ensures Timer(s).vel == Point(-s.vel.x, s.vel.y)
    ensures Timer(s).pos == Point(s.pos.x - s.vel.x, s.pos.y + s.vel.y)
  {
    BounceAt(s, i, Point(c, 0.0));
    ReflectAxis(s.vel, Point(c, 0.0));
  }

  /** The normals of the four sides, each pointing out of the square. */
  lemma SquareNormals()
    ensures Normal(ViewSquare, 0) == Point(0.0, -2.0)
    ensures Normal(ViewSquare, 1) == Point(2.0, 0.0)
    ensures Normal(ViewSquare, 2) == Point(0.0, 2.0)
    ensures Normal(ViewSquare, 3) == Point(-2.0, 0.0)
  {
  }

  /** A point on the top side, short of its right end, is first in the box of edge 2. */
  lemma TopSideHitsEdge2(q: Point)
    requires q.y == 1.0 && -1.0 <= q.x < 1.0
    ensures FirstHit(ViewSquare, q) == Some(2)
  {
    assert !Hits(ViewSquare, 0, q);
    assert !Hits(ViewSquare, 1, q);
    assert Hits(ViewSquare, 2, q);
    assert FirstHitFrom(ViewSquare, q, 2) == Some(2);
    assert FirstHitFrom(ViewSquare, q, 1) == Some(2);
  }

  /**
    A point on the right side, above its lower end, is first in the box of
    edge 1, even at the corner (1, 1), which edge 2's box holds as well.
   */
  lemma RightSideHitsEdge1(q: Point)
    requires q.x == 1.0 && -1.0 < q.y <= 1.0
    ensures FirstHit(ViewSquare, q) == Some(1)
    ensures q.y == 1.0 ==> Hits(ViewSquare, 2, q)
  {
    assert !Hits(ViewSquare, 0, q);
    assert Hits(ViewSquare, 1, q);
    assert FirstHitFrom(ViewSquare, q, 1) == Some(1);
  }

  /**
    Landing on the top side bounces off edge 2, from (1, 1) to (-1, 1):
    the vertical velocity changes sign.
   */
  lemma TopEdgeBounces(s: State)
    requires s.boundary == ViewSquare && s.translate
    requires Candidate(s).y == 1.0 && -1.0 <= Candidate(s).x < 1.0
    ensures TickDefined(s)
    ensures Timer(s).vel == Point(s.vel.x, -s.vel.y)
    ensures Timer(s).pos == Point(s.pos.x + s.vel.x, s.pos.y - s.vel.y)
  {
    TopSideHitsEdge2(Candidate(s));
    SquareNormals();
    BounceHorizontal(s, 2, 2.0);
  }

  /**
    Landing on the right side bounces off edge 1, from (1, -1) to (1, 1):
    the horizontal velocity changes sign. At the corner (1, 1) the lower
    index wins over edge 2.
   */
  lemma RightEdgeBounces(s: State)
    requires s.boundary == ViewSquare && s.translate
    requires Candidate(s).x == 1.0 && -1.0 < Candidate(s).y <= 1.0
    ensures TickDefined(s)
    ensures Timer(s).vel == Point(-s.vel.x, s.vel.y)
    ensures Timer(s).pos == Point(s.pos.x - s.vel.x, s.pos.y + s.vel.y)
  {
    RightSideHitsEdge1(Candidate(s));
    SquareNormals();
    BounceVertical(s, 1, 2.0);
  }

  /**
    Every edge box of ViewSquare lies on the square's border, so a step whose
    candidate position is off the border inside or outside meets no box.
    A step that jumps over an edge line leaves the boundary unreflected.
   */
  lemma SquareEscapes(s: State)
    requires s.boundary == ViewSquare && s.translate
    requires Candidate(s).x > 1.0 || Candidate(s).x < -1.0 || Candidate(s).y > 1.0 || Candidate(s).y < -1.0
    ensures TickDefined(s)
    ensures Timer(s).pos == Candidate(s) && Timer(s).vel == s.vel
  {
    var q := Candidate(s);
    assert Misses(ViewSquare, q) by {
      assert !Hits(ViewSquare, 0, q);
      assert !Hits(ViewSquare, 1, q);
      assert !Hits(ViewSquare, 2, q);
      assert !Hits(ViewSquare, 3, q);
    }
  }

  /**
    Every edge box of ViewSquare lies on the square's border, so a candidate
    position strictly inside the square meets no box either: the object
    moves on with its velocity unchanged.
   */
  lemma SquareInteriorMoves(s: State)
    requires s.boundary == ViewSquare && s.translate
    requires -1.0 < Candidate(s).x < 1.0 && -1.0 < Candidate(s).y < 1.0
    ensures TickDefined(s)
    ensures Timer(s).pos == Candidate(s) && Timer(s).vel == s.vel
  {
    var q := Candidate(s);
    assert Misses(ViewSquare, q) by {
      assert !Hits(ViewSquare, 0, q);
      assert !Hits(ViewSquare, 1, q);
      assert !Hits(ViewSquare, 2, q);
      assert !Hits(ViewSquare, 3, q);
    }
  }

  /** A window size for the clicks below; any positive size gives the same points. */
  const Width := 300
  const Height := 300

  /**
    The user's first actions: "Define Boundary", a left click at each corner
    of the window, counter-clockwise from the bottom left, then "Start
    Movement".
   */
  const Setup: seq<Event> := [
    MenuChoice(DefineBoundaryItem),
    Click(0, Pressed, 0, Height),
    Click(0, Pressed, Width, Height),
    Click(0, Pressed, Width, 0),
    Click(0, Pressed, 0, 0),
    MenuChoice(StartMovementItem)]

  /** The state j ticks after Setup, while no edge box has been met. */
  function Drifted(j: nat): State {
    Initial.(mode := DefineBoundary, boundary := ViewSquare, translate := true,
             pos := Point(0.02 * j as real, 0.03 * j as real))
  }

  /** n timer ticks in a row. */
  function Ticks(n: nat): (r: seq<Event>)
    ensures |r| == n
  {
    if n == 0 then [] else [Tick] + Ticks(n - 1)
  }

  /** From the start-up state, Setup makes the view square the boundary and starts moving. */
  lemma SetupBuildsSquare()
    ensures RunDefined(Initial, Setup, Width, Height)
    ensures Run(Initial, Setup, Width, Height) == Continue(Drifted(0))
  {
    RunDefinedWithoutTicks(Initial, Setup, Width, Height);
    var s1 := Menu(Initial, DefineBoundaryItem);
    var s2 := s1.(boundary := [Point(-1.0, -1.0)]);
    var s3 := s2.(boundary := s2.boundary + [Point(1.0, -1.0)]);
    var s4 := s3.(boundary := s3.boundary + [Point(1.0, 1.0)]);
    var s5 := s4.(boundary := s4.boundary + [Point(-1.0, 1.0)]);
    assert Step(Initial, Setup[0], Width, Height) == Continue(s1);
    assert Step(s1, Setup[1], Width, Height) == Continue(s2);
    assert Step(s2, Setup[2], Width, Height) == Continue(s3);
    assert Step(s3, Setup[3], Width, Height) == Continue(s4);
    assert Step(s4, Setup[4], Width, Height) == Continue(s5);
    assert Step(s5, Setup[5], Width, Height) == Continue(Drifted(0));
    assert Run(Drifted(0), Setup[6..], Width, Height) == Continue(Drifted(0));
    assert Run(s5, Setup[5..], Width, Height) == Continue(Drifted(0));
    assert Run(s4, Setup[4..], Width, Height) == Continue(Drifted(0));
    assert Run(s3, Setup[3..], Width, Height) == Continue(Drifted(0));
    assert Run(s2, Setup[2..], Width, Height) == Continue(Drifted(0));
    assert Run(s1, Setup[1..], Width, Height) == Continue(Drifted(0));
  }

  /**
    One tick from Drifted(j) lands strictly inside the square for j < 33 and
    above its top side for j = 33; either way no box is met.
   */
  lemma DriftStep(j: nat)
    requires j < 34
    ensures TickDefined(Drifted(j))
    ensures Timer(Drifted(j)) == Drifted(j + 1)
  {
    var s := Drifted(j);
    assert Candidate(s) == Point(0.02 * (j + 1) as real, 0.03 * (j + 1) as real);
    if j < 33 {
      SquareInteriorMoves(s);
    } else {
      SquareEscapes(s);
    }
  }

  /** k ticks from Drifted(j) reach Drifted(j + k), for any j + k up to 34. */
  lemma {:induction false} DriftRun(j: nat, k: nat)
    requires j + k <= 34
    ensures RunDefined(Drifted(j), Ticks(k), Width, Height)
    ensures Run(Drifted(j), Ticks(k), Width, Height) == Continue(Drifted(j + k))
    decreases k
  {
    if k > 0 {
      DriftStep(j);
      DriftRun(j + 1, k - 1);
      var rest := Ticks(k - 1);
      assert Ticks(k)[0] == Tick && Ticks(k)[1..] == rest;
      assert Step(Drifted(j), Tick, Width, Height) == Continue(Drifted(j + 1));
    }
  }

  /**
    With exact arithmetic the program's own start escapes the view square:
    after Setup, 33 ticks bring the object to (0.66, 0.99) without meeting a
    box, and the 34th steps over the top side to (0.68, 1.02), velocity
    unchanged.
   */
  lemma StartEscapes()
    ensures RunDefined(Initial, Setup + Ticks(34), Width, Height)
    ensures Run(Initial, Setup + Ticks(34), Width, Height) == Continue(Drifted(34))
    ensures Drifted(33).pos == Point(0.66, 0.99)
    ensures Drifted(34).pos == Point(0.68, 1.02) && Drifted(34).vel == Initial.vel
  {
    SetupBuildsSquare();
    DriftRun(0, 34);
    RunAppend(Initial, Setup, Ticks(34), Width, Height);
  }
}
