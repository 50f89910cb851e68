/**
  `human_like_mouse_move`: dragging the slider in three phases of evenly
  spaced moves along a horizontal line. Coordinates are exact reals; the
  pauses between moves do not affect the positions and are not modelled.
 */
module Drag {
  /** One `page.mouse.move(x, y)`. */
  datatype Move = Move(x: real, y: real)

  const FastSteps := 50
  const SlowSteps := 10
  const FinalSteps := 20

  /** Where the fast phase ends: 80% of the way from `fromX` to `toX`. */
  function FastTarget(fromX: real, toX: real): real {
    fromX + (toX - fromX) * 0.8
  }

  /** Where the slow phase ends: 90% of the rest of the way. */
  function SlowTarget(fromX: real, toX: real): real {
    var p := FastTarget(fromX, toX);
    p + (toX - p) * 0.9
  }

  /** Where the `k`-th of `n` equal steps from `a` towards `b` lands. */
  function Step(a: real, b: real, k: int, n: int): real
    requires 0 < n
  {
    a + k as real * ((b - a) / n as real)
  }

  /** The x coordinate of the `i`-th move. */
  function Waypoint(fromX: real, toX: real, i: int): real
    requires 0 <= i < FastSteps + SlowSteps + FinalSteps
  {
    var p1 := FastTarget(fromX, toX);
    var p2 := SlowTarget(fromX, toX);
    if i < FastSteps then Step(fromX, p1, i + 1, FastSteps)
    else if i < FastSteps + SlowSteps then Step(p1, p2, i - FastSteps + 1, SlowSteps)
    else Step(p2, toX, i - FastSteps - SlowSteps + 1, FinalSteps)
  }

  /** The slow phase ends 98% of the way along. */
  lemma SlowTargetClosedForm(fromX: real, toX: real)
    ensures SlowTarget(fromX, toX) == fromX + (toX - fromX) * 0.98
  {
  }

  /** The last of `n` equal steps lands on the phase's end. */
  lemma StepLast(a: real, b: real, n: int)
    requires 0 < n
    ensures Step(a, b, n, n) == b
  {
  }

  /** No step taken: the phase's start. */
  lemma StepFirst(a: real, b: real, n: int)
    requires 0 < n
    ensures Step(a, b, 0, n) == a
  {
  }

  /** One more step adds one `n`-th of the distance. */
  lemma StepNext(a: real, b: real, k: int, n: int)
    requires 0 < n
    ensures Step(a, b, k + 1, n) == Step(a, b, k, n) + (b - a) / n as real
  {
    var d := (b - a) / n as real;
    assert (k + 1) as real * d == k as real * d + d;
  }

  /** Each phase ends where the source aims it: the 50th move at the fast
      target, the 60th at the slow target and the last exactly at `toX`. */
  lemma PhaseEnds(fromX: real, toX: real)
    ensures Waypoint(fromX, toX, FastSteps - 1) == FastTarget(fromX, toX)
    ensures Waypoint(fromX, toX, FastSteps + SlowSteps - 1) == SlowTarget(fromX, toX)
    ensures Waypoint(fromX, toX, FastSteps + SlowSteps + FinalSteps - 1) == toX
  {
    StepLast(fromX, FastTarget(fromX, toX), FastSteps);
    StepLast(FastTarget(fromX, toX), SlowTarget(fromX, toX), SlowSteps);
    StepLast(SlowTarget(fromX, toX), toX, FinalSteps);
  }

  /** Moving towards a larger end, later steps land no earlier, and every
      step lands between the two ends. */
  lemma StepMonotone(a: real, b: real, k: int, l: int, n: int)
    requires a <= b && 0 <= k <= l <= n && 0 < n
    ensures a <= Step(a, b, k, n) <= Step(a, b, l, n) <= b
  {
    var d := (b - a) / n as real;
    assert 0.0 <= d;
    assert n as real * d == b - a;
    assert Step(a, b, k, n) == a + k as real * d;
    assert Step(a, b, l, n) == a + l as real * d;
    MulMono(0.0, k as real, d);
    MulMono(k as real, l as real, d);
    MulMono(l as real, n as real, d);
    assert 0.0 * d == 0.0;
  }

  lemma MulMono(a: real, b: real, d: real)
    requires a <= b && 0.0 <= d
    ensures a * d <= b * d
  {
  }

  /** Dragging right, a move of the fast phase lies between `fromX` and the
      fast target, one of the slow phase between the two targets, and one of
      the final phase between the slow target and `toX`. */
  lemma WaypointInPhase(fromX: real, toX: real, i: int)
    requires fromX <= toX
    requires 0 <= i < FastSteps + SlowSteps + FinalSteps
    ensures i < FastSteps ==> fromX <= Waypoint(fromX, toX, i) <= FastTarget(fromX, toX)
    ensures FastSteps <= i < FastSteps + SlowSteps ==>
      FastTarget(fromX, toX) <= Waypoint(fromX, toX, i) <= SlowTarget(fromX, toX)
    ensures FastSteps + SlowSteps <= i ==> SlowTarget(fromX, toX) <= Waypoint(fromX, toX, i) <= toX
  {
    var p1, p2 := FastTarget(fromX, toX), SlowTarget(fromX, toX);
    assert fromX <= p1 <= p2 <= toX;
    if i < FastSteps {
      StepMonotone(fromX, p1, i + 1, i + 1, FastSteps);
    } else if i < FastSteps + SlowSteps {
      StepMonotone(p1, p2, i - FastSteps + 1, i - FastSteps + 1, SlowSteps);
    } else {
      StepMonotone(p2, toX, i - FastSteps - SlowSteps + 1, i - FastSteps - SlowSteps + 1, FinalSteps);
    }
  }

  /** Dragging right, every move's x lies between `fromX` and `toX` and no
      move goes back: the positions never decrease. */
  lemma WaypointMonotone(fromX: real, toX: real, i: int, j: int)
    requires fromX <= toX
    requires 0 <= i <= j < FastSteps + SlowSteps + FinalSteps
    ensures fromX <= Waypoint(fromX, toX, i) <= Waypoint(fromX, toX, j) <= toX
  {
    var p1, p2 := FastTarget(fromX, toX), SlowTarget(fromX, toX);
    assert fromX <= p1 <= p2 <= toX;
    WaypointInPhase(fromX, toX, i);
    WaypointInPhase(fromX, toX, j);
    if j < FastSteps {
      StepMonotone(fromX, p1, i + 1, j + 1, FastSteps);
    } else if FastSteps <= i && j < FastSteps + SlowSteps {
      StepMonotone(p1, p2, i - FastSteps + 1, j - FastSteps + 1, SlowSteps);
    } else if FastSteps + SlowSteps <= i {
      StepMonotone(p2, toX, i - FastSteps - SlowSteps + 1, j - FastSteps - SlowSteps + 1, FinalSteps);
    }
  }

  /** `human_like_mouse_move`: 50 equal steps to the fast target, 10 equal
      steps to the slow target and 20 equal steps to `toX`, each step one
      move at height `y`. */
  method HumanLikeMouseMove(fromX: real, toX: real, y: real) returns (moves: seq<Move>)
    ensures |moves| == FastSteps + SlowSteps + FinalSteps
    ensures forall i :: 0 <= i < |moves| ==> moves[i] == Move(Waypoint(fromX, toX, i), y)
    ensures moves[FastSteps - 1].x == FastTarget(fromX, toX)
    ensures moves[FastSteps + SlowSteps - 1].x == SlowTarget(fromX, toX)
    ensures moves[|moves| - 1].x == toX
    ensures fromX <= toX ==> forall i, j :: 0 <= i <= j < |moves| ==> fromX <= moves[i].x <= moves[j].x <= toX
  {
    var x := fromX;
    moves := [];
    ghost var p1, p2 := FastTarget(fromX, toX), SlowTarget(fromX, toX);

    var fastTargetX := x + (toX - x) * 0.8;
    var fastDx := (fastTargetX - x) / FastSteps as real;
    for k := 0 to FastSteps
      invariant |moves| == k
      invariant x == Step(fromX, p1, k, FastSteps)
      invariant forall i :: 0 <= i < k ==> moves[i] == Move(Waypoint(fromX, toX, i), y)
    {
      StepNext(fromX, p1, k, FastSteps);
      x := x + fastDx;
      moves := moves + [Move(x, y)];
    }
    StepLast(fromX, p1, FastSteps);

    var slowTargetX := x + (toX - x) * 0.9;
    var slowDx := (slowTargetX - x) / SlowSteps as real;
    StepFirst(p1, p2, SlowSteps);
    for k := 0 to SlowSteps
      invariant |moves| == FastSteps + k
      invariant x == Step(p1, p2, k, SlowSteps)
      invariant forall i :: 0 <= i < FastSteps + k ==> moves[i] == Move(Waypoint(fromX, toX, i), y)
    {
      StepNext(p1, p2, k, SlowSteps);
      x := x + slowDx;
      moves := moves + [Move(x, y)];
    }
    StepLast(p1, p2, SlowSteps);

    var finalDx := (toX - x) / FinalSteps as real;
    StepFirst(p2, toX, FinalSteps);
    for k := 0 to FinalSteps
      invariant |moves| == FastSteps + SlowSteps + k
      invariant x == Step(p2, toX, k, FinalSteps)
      invariant forall i :: 0 <= i < FastSteps + SlowSteps + k ==> moves[i] == Move(Waypoint(fromX, toX, i), y)
    {
      StepNext(p2, toX, k, FinalSteps);
      x := x + finalDx;
      moves := moves + [Move(x, y)];
    }

    PhaseEnds(fromX, toX);
    if fromX <= toX {
      forall i, j | 0 <= i <= j < |moves| ensures fromX <= moves[i].x <= moves[j].x <= toX {
        WaypointMonotone(fromX, toX, i, j);
      }
    }
  }
}
