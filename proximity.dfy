/** The proximity evaluator: the squared-distance test against the activation
    radius, the pulse intensity, and the per-cell inactive/active state
    machine one evaluation pass runs on every cell. */
module Proximity {
  import opened Cells
  import opened Arith

  /** Squared distance between two points. */
  function DistSq(p: Point, q: Point): (d: real)
    ensures d >= 0.0
    ensures p == q ==> d == 0.0
  {
    var dx := p.x - q.x;
    var dy := p.y - q.y;
    SquareNonNegative(dx);
    SquareNonNegative(dy);
    dx * dx + dy * dy
  }

  /** A pointer at p is in range of the cell when its centre is at most
      ACTIVE_RADIUS away, the boundary included. */
  predicate InRange(p: Point, c: Cell): (b: bool)
    ensures p == c.center ==> b
  {
    DistSq(p, c.center) <= RADIUS_SQ
  }

  /** `sqrt` behaves as `Math.sqrt` on the non-negative reals. */
  ghost predicate IsSquareRoot(sqrt: real -> real) {
    forall x :: 0.0 <= x ==> 0.0 <= sqrt(x) && sqrt(x) * sqrt(x) == x
  }

  /** Pulse strength for an in-range cell: 1 with the pointer on the centre,
      falling to 0 at the activation radius. */
  function Intensity(distSq: real, sqrt: real -> real): (r: real)
    requires IsSquareRoot(sqrt) && 0.0 <= distSq <= RADIUS_SQ
    ensures 0.0 <= r <= 1.0
    ensures r == 1.0 <==> distSq == 0.0
    ensures r == 0.0 <==> distSq == RADIUS_SQ
  {
    var d := sqrt(distSq);
    SquareMonotone(d, ACTIVE_RADIUS);
    SquareMonotone(ACTIVE_RADIUS, d);
    SquareMonotone(d, 0.0);
    1.0 - d / ACTIVE_RADIUS
  }

  /** The closer the pointer, the stronger the pulse. */
  lemma IntensityFalls(near: real, far: real, sqrt: real -> real)
    requires IsSquareRoot(sqrt) && 0.0 <= near <= far <= RADIUS_SQ
    ensures Intensity(near, sqrt) >= Intensity(far, sqrt)
    ensures near < far ==> Intensity(near, sqrt) > Intensity(far, sqrt)
  {
    SquareMonotone(sqrt(near), sqrt(far));
    SquareMonotone(sqrt(far), sqrt(near));
  }

  /** What the styling layer may rely on: the `is-active` class and the
      `--pulse` property are present exactly on active cells, the pulse lies
      in [0, 1], every active cell has a delay, and delays lie in [0, 0.25). */
  ghost predicate WellFormed(c: Cell) {
    && c.el.activeClass == c.active
    && c.el.pulse.Some? == c.active
    && (c.el.pulse.Some? ==> 0.0 <= c.el.pulse.value <= 1.0)
    && (c.active ==> c.el.delay.Some?)
    && (c.el.delay.Some? ==> 0.0 <= c.el.delay.value < 0.25)
  }

  /** One evaluation pass over one cell with the pointer at p. `draw` is the
      `Math.random()` value the pass uses if the cell becomes active. */
  function Step(c: Cell, p: Point, sqrt: real -> real, draw: real): (r: Cell)
    requires IsSquareRoot(sqrt)
    ensures r.center == c.center && r.el.anchor == c.el.anchor
    ensures r.active == InRange(p, c)
  {
    var distanceSq := DistSq(p, c.center);
    if distanceSq <= RADIUS_SQ then
      var el := c.el.(pulse := Some(Intensity(distanceSq, sqrt)));
      if !c.active then c.(active := true, el := el.(delay := Some(draw * 0.25), activeClass := true))
      else c.(el := el)
    else if c.active then
      c.(active := false, el := c.el.(activeClass := false, pulse := None))
    else
      c
  }

  /** Writes happen only on edges: the delay changes only when the cell
      becomes active, the class only when the active flag flips, and an
      inactive cell out of range is left exactly as it was. */
  lemma StepWritesOnEdges(c: Cell, p: Point, sqrt: real -> real, draw: real)
    requires IsSquareRoot(sqrt)
    ensures var r := Step(c, p, sqrt, draw);
      && (r.el.delay != c.el.delay ==> !c.active && r.active)
      && (r.el.activeClass != c.el.activeClass ==> r.active != c.active)
      && (!c.active && !r.active ==> r == c)
  {
  }

  /** The pulse is rewritten on every in-range pass, and removed only when an
      active cell leaves range. */
  lemma StepPulse(c: Cell, p: Point, sqrt: real -> real, draw: real)
    requires IsSquareRoot(sqrt)
    ensures var r := Step(c, p, sqrt, draw);
      && (InRange(p, c) ==> r.el.pulse == Some(Intensity(DistSq(p, c.center), sqrt)))
      && (!InRange(p, c) && c.active ==> r.el.pulse == None)
      && (!InRange(p, c) && !c.active ==> r.el.pulse == c.el.pulse)
  {
  }

  /** On the inactive-to-active edge the cell gets the class and a delay of
      a quarter of the draw; an active cell that stays in range keeps both. */
  lemma StepActivation(c: Cell, p: Point, sqrt: real -> real, draw: real)
    requires IsSquareRoot(sqrt) && InRange(p, c)
    ensures var r := Step(c, p, sqrt, draw);
      && (!c.active ==> r.el.activeClass && r.el.delay == Some(draw * 0.25))
      && (c.active ==> r.el.delay == c.el.delay && r.el.activeClass == c.el.activeClass)
  {
  }

  /** On the active-to-inactive edge the class and pulse go, the delay stays. */
  lemma StepDeactivation(c: Cell, p: Point, sqrt: real -> real, draw: real)
    requires IsSquareRoot(sqrt) && c.active && !InRange(p, c)
    ensures var r := Step(c, p, sqrt, draw);
      !r.active && !r.el.activeClass && r.el.pulse == None && r.el.delay == c.el.delay
  {
  }

  /** A second pass with the same pointer changes nothing, whatever it draws. */
  lemma StepIdempotent(c: Cell, p: Point, sqrt: real -> real, draw1: real, draw2: real)
    requires IsSquareRoot(sqrt)
    ensures Step(Step(c, p, sqrt, draw1), p, sqrt, draw2) == Step(c, p, sqrt, draw1)
  {
  }

  /** A pass keeps the element consistent with the active flag. */
  lemma StepKeepsWellFormed(c: Cell, p: Point, sqrt: real -> real, draw: real)
    requires IsSquareRoot(sqrt) && WellFormed(c) && 0.0 <= draw < 1.0
    ensures WellFormed(Step(c, p, sqrt, draw))
  {
  }

  /** Pointer exactly on a centre: the cell is active at full intensity. */
  lemma PointerAtCentre(c: Cell, sqrt: real -> real, draw: real)
    requires IsSquareRoot(sqrt)
    ensures var r := Step(c, c.center, sqrt, draw);
      r.active && r.el.pulse == Some(1.0)
  {
  }

  /** Pointer exactly ACTIVE_RADIUS from a centre: still active, at zero
      intensity. */
  lemma PointerOnBoundary(c: Cell, sqrt: real -> real, draw: real)
    requires IsSquareRoot(sqrt)
    ensures var r := Step(c, Point(c.center.x + 120.0, c.center.y + 160.0), sqrt, draw);
      r.active && r.el.pulse == Some(0.0)
  {
  }

  /** Pointer 201 from a centre: inactive and without a pulse. */
  lemma PointerJustOutside(c: Cell, sqrt: real -> real, draw: real)
    requires IsSquareRoot(sqrt) && WellFormed(c)
    ensures var r := Step(c, Point(c.center.x + 201.0, c.center.y), sqrt, draw);
      !r.active && r.el.pulse == None
  {
  }

  /** The centres the evaluator can meet when the pointer has left: not left
      of the viewport and at most one edge above it. */
  ghost predicate BelowRightOfLeave(c: Cell) {
    c.center.x >= 0.0 && c.center.y >= -HEX_SIZE
  }

  /** The parked pointer is out of range of every such centre. */
  lemma LeavePointerOutOfRange(c: Cell)
    requires BelowRightOfLeave(c)
    ensures !InRange(LEAVE_POINTER, c)
  {
    var a := c.center.x - LEAVE_POINTER.x;
    var b := c.center.y - LEAVE_POINTER.y;
    SumOfSquaresAbove(a, b, ACTIVE_RADIUS, ACTIVE_RADIUS - HEX_SIZE);
    var dx, dy := LEAVE_POINTER.x - c.center.x, LEAVE_POINTER.y - c.center.y;
    assert dx * dx == a * a by { assert dx == -a; }
    assert dy * dy == b * b by { assert dy == -b; }
  }

  /** One evaluation pass over the whole grid, cell by cell. */
  function Evaluated(cs: seq<Cell>, p: Point, sqrt: real -> real, draws: seq<real>): (r: seq<Cell>)
    requires IsSquareRoot(sqrt) && |draws| == |cs|
    ensures |r| == |cs|
    ensures forall i :: 0 <= i < |cs| ==>
      r[i].center == cs[i].center && r[i].el.anchor == cs[i].el.anchor && r[i].active == InRange(p, cs[i])
  {
    seq(|cs|, i requires 0 <= i < |cs| => Step(cs[i], p, sqrt, draws[i]))
  }

  /** Evaluating twice with the same pointer and grid leaves the first
      result as it is. */
  lemma EvaluatedIdempotent(cs: seq<Cell>, p: Point, sqrt: real -> real, draws1: seq<real>, draws2: seq<real>)
    requires IsSquareRoot(sqrt) && |draws1| == |cs| == |draws2|
    ensures Evaluated(Evaluated(cs, p, sqrt, draws1), p, sqrt, draws2) == Evaluated(cs, p, sqrt, draws1)
  {
    var once := Evaluated(cs, p, sqrt, draws1);
    forall i | 0 <= i < |cs|
      ensures Evaluated(once, p, sqrt, draws2)[i] == once[i]
    {
      StepIdempotent(cs[i], p, sqrt, draws1[i], draws2[i]);
    }
  }

  /** A pass keeps every element consistent with its cell's active flag. */
  lemma EvaluatedKeepsWellFormed(cs: seq<Cell>, p: Point, sqrt: real -> real, draws: seq<real>)
    requires IsSquareRoot(sqrt) && |draws| == |cs|
    requires forall i :: 0 <= i < |cs| ==> WellFormed(cs[i]) && 0.0 <= draws[i] < 1.0
    ensures forall i :: 0 <= i < |cs| ==> WellFormed(Evaluated(cs, p, sqrt, draws)[i])
  {
    forall i | 0 <= i < |cs|
      ensures WellFormed(Evaluated(cs, p, sqrt, draws)[i])
    {
      StepKeepsWellFormed(cs[i], p, sqrt, draws[i]);
    }
  }

  /** With the pointer parked, a pass leaves every cell inactive, without
      the class and without a pulse. */
  lemma EvaluatedAtLeave(cs: seq<Cell>, sqrt: real -> real, draws: seq<real>)
    requires IsSquareRoot(sqrt) && |draws| == |cs|
    requires forall i :: 0 <= i < |cs| ==> WellFormed(cs[i]) && BelowRightOfLeave(cs[i])
    ensures forall i :: 0 <= i < |cs| ==>
      var c := Evaluated(cs, LEAVE_POINTER, sqrt, draws)[i];
      !c.active && !c.el.activeClass && c.el.pulse == None
  {
    forall i | 0 <= i < |cs|
      ensures var c := Evaluated(cs, LEAVE_POINTER, sqrt, draws)[i];
        !c.active && !c.el.activeClass && c.el.pulse == None
    {
      LeavePointerOutOfRange(cs[i]);
    }
  }
}
