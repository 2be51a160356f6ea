/**
  The callbacks as one dispatch function over a typed event, and the
  invariant every event keeps.
 */
module Events {
  import opened Geometry
  import opened Simulation

  /** What the event loop delivers to the program. */
  datatype Event =
    | Tick
    | Click(button: int, state: ButtonState, px: int, py: int)
    | Key(key: char)
    | Special(special: SpecialKey)
    | MenuChoice(item: int)

  /** Whether the event can be handled in s: only a tick can divide by zero. */
  predicate Handles(s: State, e: Event) {
    e.Tick? ==> TickDefined(s)
  }

  /** Hands the event to its callback, in a window of the given size. */
  function Step(s: State, e: Event, width: int, height: int): (r: Outcome)
    requires width > 0 && height > 0
    requires Handles(s, e)
    ensures r.Quit? <==> e == Key('q')
    ensures r.Continue? && !e.Click? && !e.MenuChoice? ==>
      r.state.boundary == s.boundary && r.state.obj == s.obj && r.state.mode == s.mode
    ensures r.Continue? && !e.Tick? && !e.Special? ==> SameMotion(r.state, s)
  {
    match e
    case Tick => Continue(Timer(s))
    case Click(button, state, px, py) => Continue(Mouse(s, button, state, px, py, width, height))
    case Key(key) => Keyboard(s, key)
    case Special(key) => Continue(SpecialKeys(s, key))
    case MenuChoice(item) => Continue(Menu(s, item))
  }

  /** Every point lies in the visible square [-1, 1] x [-1, 1]. */
  predicate InView(points: seq<Point>) {
    forall i :: 0 <= i < |points| ==> -1.0 <= points[i].x <= 1.0 && -1.0 <= points[i].y <= 1.0
  }

  /**
    The invariant of a running program: both shapes lie in the view, the
    object never comes to rest and its rotation speed stays positive.
   */
  predicate Valid(s: State) {
    InView(s.boundary) && InView(s.obj) && s.vel != Origin && s.speed > 0.0
  }

  lemma InitialValid()
    ensures Valid(Initial)
  {
  }

  /** A click inside the window. */
  predicate InWindow(e: Event, width: int, height: int) {
    e.Click? ==> 0 <= e.px <= width && 0 <= e.py <= height
  }

  /** Every event with its click inside the window keeps the invariant. */
  lemma StepPreservesValid(s: State, e: Event, width: int, height: int)
    requires width > 0 && height > 0
    requires Handles(s, e) && InWindow(e, width, height)
    requires Valid(s)
    ensures Step(s, e, width, height).Continue? ==> Valid(Step(s, e, width, height).state)
  {
    match e
    case Tick => TickPreservesValid(s);
    case Click(button, state, px, py) => ClickPreservesValid(s, button, state, px, py, width, height);
    case Key(key) =>
    case Special(key) => SpecialPreservesValid(s, key);
    case MenuChoice(item) =>
  }

  lemma TickPreservesValid(s: State)
    requires TickDefined(s) && Valid(s)
    ensures Valid(Timer(s))
  {
    var r := Timer(s);
    TimerPreservesSpeed(s);
    assert NormSq(s.vel) > 0.0;
    assert NormSq(r.vel) > 0.0;
  }

  lemma ClickPreservesValid(s: State, button: int, state: ButtonState, px: int, py: int,
                            width: int, height: int)
    requires width > 0 && height > 0 && 0 <= px <= width && 0 <= py <= height
    requires Valid(s)
    ensures Valid(Mouse(s, button, state, px, py, width, height))
  {
    var r := Mouse(s, button, state, px, py, width, height);
    var p := ToView(px, py, width, height);
    assert InView([p]);
    assert r.boundary == s.boundary || r.boundary == s.boundary + [p];
    assert r.obj == s.obj || r.obj == s.obj + [p];
  }

  lemma SpecialPreservesValid(s: State, key: SpecialKey)
    requires Valid(s)
    ensures Valid(SpecialKeys(s, key))
  {
    var r := SpecialKeys(s, key);
    if key.Up? || key.Down? {
      VelocityKeysKeepDirection(s, key);
      assert NormSq(s.vel) > 0.0;
      assert NormSq(r.vel) > 0.0;
    }
  }

  /** The state after handling the events in order, or Quit if 'q' came first. */
  function Run(s: State, events: seq<Event>, width: int, height: int): (r: Outcome)
    requires width > 0 && height > 0
    requires RunDefined(s, events, width, height)
    ensures Valid(s) && AllInWindow(events, width, height) && r.Continue? ==> Valid(r.state)
    decreases |events|
  {
    if events == [] then Continue(s)
    else
      StepValid(s, events[0], width, height);
      match Step(s, events[0], width, height)
      case Quit => Quit
      case Continue(t) => Run(t, events[1..], width, height)
  }

  /** Every tick in the run meets a boundary edge of nonzero length, if any. */
  predicate RunDefined(s: State, events: seq<Event>, width: int, height: int)
    requires width > 0 && height > 0
    decreases |events|
  {
    events == [] ||
    (Handles(s, events[0]) &&
     match Step(s, events[0], width, height)
     case Quit => true
     case Continue(t) => RunDefined(t, events[1..], width, height))
  }

  predicate AllInWindow(events: seq<Event>, width: int, height: int) {
    forall i :: 0 <= i < |events| ==> InWindow(events[i], width, height)
  }

  lemma StepValid(s: State, e: Event, width: int, height: int)
    requires width > 0 && height > 0 && Handles(s, e)
    ensures Valid(s) && InWindow(e, width, height) && Step(s, e, width, height).Continue? ==>
      Valid(Step(s, e, width, height).state)
  {
    if Valid(s) && InWindow(e, width, height) {
      StepPreservesValid(s, e, width, height);
    }
  }

  /** Running a + b is running a, then b from where a stopped, unless a quit. */
  lemma {:induction false} RunAppend(s: State, a: seq<Event>, b: seq<Event>, width: int, height: int)
    requires width > 0 && height > 0
    requires RunDefined(s, a, width, height)
    requires Run(s, a, width, height).Continue? ==> RunDefined(Run(s, a, width, height).state, b, width, height)
    ensures RunDefined(s, a + b, width, height)
    ensures Run(s, a + b, width, height) ==
      match Run(s, a, width, height)
      case Quit => Quit
      case Continue(t) => Run(t, b, width, height)
    decreases |a|
  {
    if a == [] {
      assert a + b == b;
    } else {
      assert (a + b)[0] == a[0];
      assert (a + b)[1..] == a[1..] + b;
      match Step(s, a[0], width, height)
      case Quit =>
      case Continue(t) => RunAppend(t, a[1..], b, width, height);
    }
  }

  /** Only a tick can be unhandled, so a run without ticks is always defined. */
  lemma {:induction false} RunDefinedWithoutTicks(s: State, events: seq<Event>, width: int, height: int)
    requires width > 0 && height > 0
    requires forall i :: 0 <= i < |events| ==> !events[i].Tick?
    ensures RunDefined(s, events, width, height)
    decreases |events|
  {
    if events != [] {
      match Step(s, events[0], width, height)
      case Quit =>
      case Continue(t) =>
        RunDefinedWithoutTicks(t, events[1..], width, height);
    }
  }
}
