/** The overlay controller: the state the script keeps in module-level
    variables (the overlay, the cells, the pointer, the pending frame) and the
    operations that change it, from grid building and the evaluation pass to
    the frame scheduler and the input handlers. */
module Interactive {
  import opened Cells
  import opened GridLayout
  import opened Proximity

  /** One `Math.random()` value per cell, each in [0, 1). */
  ghost predicate DrawsFor(cs: seq<Cell>, draws: seq<real>) {
    |draws| == |cs| && forall i :: 0 <= i < |draws| ==> 0.0 <= draws[i] < 1.0
  }

  class Controller {
    /** Height of one hexagon, sqrt(3) * HEX_SIZE; rows are this far apart. */
    const hexHeight: real
    /** Whether the overlay container has been created. */
    var hasOverlay: bool
    var cells: seq<Cell>
    var pointer: Point
    /** Whether an animation-frame callback is registered (`rafId` is set). */
    var pending: bool

    /** Frame callbacks registered with the host so far, and those it has run. */
    ghost var requested: nat
    ghost var fired: nat
    /** The pointer of the last evaluation pass over the current grid, if any. */
    ghost var evaluatedAt: Option<Point>

    /** At most one frame callback is outstanding; every element agrees with
        its cell's active flag; every centre lies on the grid; and after an
        evaluation pass, a cell is active exactly when that pass's pointer is
        in range of it. */
    ghost predicate Valid()
      reads this
    {
      && hexHeight > 0.0
      && requested == fired + (if pending then 1 else 0)
      && (forall i :: 0 <= i < |cells| ==> WellFormed(cells[i]) && OnGrid(hexHeight, cells[i]))
      && (evaluatedAt.Some? ==>
            forall i :: 0 <= i < |cells| ==> cells[i].active == InRange(evaluatedAt.value, cells[i]))
    }

    /** The script's initial state: no overlay, no cells, no pending frame,
        and the pointer at the centre of a `width` by `height` viewport. */
    constructor (hexHeight: real, width: nat, height: nat)
      requires hexHeight > 0.0 && hexHeight * hexHeight == 3.0 * HEX_SIZE * HEX_SIZE
      ensures Valid()
      ensures this.hexHeight == hexHeight && !hasOverlay && cells == [] && !pending
      ensures pointer == Point(width as real / 2.0, height as real / 2.0)
      ensures requested == 0 && fired == 0 && evaluatedAt == None
    {
      this.hexHeight := hexHeight;
      hasOverlay := false;
      cells := [];
      pointer := Point(width as real / 2.0, height as real / 2.0);
      pending := false;
      requested, fired := 0, 0;
      evaluatedAt := None;
    }

    /** Rebuilds the grid for a `width` by `height` viewport, discarding
        every previous cell; does nothing while there is no overlay. */
    method BuildGrid(width: nat, height: nat)
      requires Valid()
      modifies this`cells, this`evaluatedAt
      ensures Valid()
      ensures old(hasOverlay) ==> cells == Layout(hexHeight, width, height) && evaluatedAt == None
      ensures !old(hasOverlay) ==> cells == old(cells) && evaluatedAt == old(evaluatedAt)
      ensures |cells| == if old(hasOverlay) then RowCount(hexHeight, height) * ColumnCount(width) else old(|cells|)
    {
      if !hasOverlay {
        return;
      }
      cells := [];
      var columns := ColumnCount(width);
      var rows := RowCount(hexHeight, height);
      var row: nat := 0;
      while row < rows
        invariant row <= rows
        invariant evaluatedAt == old(evaluatedAt)
        invariant cells == GridRows(hexHeight, row, columns)
      {
        var col: nat := 0;
        while col < columns
          invariant col <= columns
          invariant evaluatedAt == old(evaluatedAt)
          invariant cells == GridRows(hexHeight, row, columns) + GridRow(hexHeight, row, col)
        {
          var offsetY := if col % 2 == 0 then 0.0 else hexHeight / 2.0;
          var x := col as real * HORIZONTAL_SPACING - HEX_SIZE;
          var y := row as real * hexHeight + offsetY - HEX_SIZE;
          var centerX := x + HEX_SIZE;
          var centerY := y + hexHeight / 2.0;
          var cell := Cell(Element(Point(x, y), None, false, None), Point(centerX, centerY), false);
          assert cell == NewCell(hexHeight, row, col);
          cells := cells + [cell];
          col := col + 1;
        }
        row := row + 1;
      }
      evaluatedAt := None;
      LayoutCells(hexHeight, width, height);
    }

    /** The frame callback: clears the pending flag, then runs one evaluation
        pass over every cell with the current pointer. */
    method UpdateCells(sqrt: real -> real, draws: seq<real>)
      requires Valid() && pending && IsSquareRoot(sqrt) && DrawsFor(cells, draws)
      modifies this`cells, this`pending, this`fired, this`evaluatedAt
      ensures Valid() && !pending && fired == old(fired) + 1
      ensures cells == Evaluated(old(cells), pointer, sqrt, draws)
      ensures evaluatedAt == Some(pointer)
      ensures pointer == LEAVE_POINTER ==>
        forall i :: 0 <= i < |cells| ==> !cells[i].active && !cells[i].el.activeClass && cells[i].el.pulse == None
    {
      pending := false;
      fired := fired + 1;
      ghost var before := cells;
      var i := 0;
      while i < |cells|
        invariant 0 <= i <= |cells| == |before|
        invariant !pending && fired == old(fired) + 1 && evaluatedAt == old(evaluatedAt)
        invariant forall j :: 0 <= j < i ==> cells[j] == Step(before[j], pointer, sqrt, draws[j])
        invariant forall j :: i <= j < |cells| ==> cells[j] == before[j]
      {
        var cell := cells[i];
        var distanceSq := DistSq(pointer, cell.center);
        if distanceSq <= RADIUS_SQ {
          var el := cell.el.(pulse := Some(Intensity(distanceSq, sqrt)));
          if !cell.active {
            cell := cell.(active := true, el := el.(delay := Some(draws[i] * 0.25), activeClass := true));
          } else {
            cell := cell.(el := el);
          }
        } else if cell.active {
          cell := cell.(active := false, el := cell.el.(activeClass := false, pulse := None));
        }
        cells := cells[i := cell];
        i := i + 1;
      }
      evaluatedAt := Some(pointer);
      assert cells == Evaluated(before, pointer, sqrt, draws);
      EvaluatedKeepsWellFormed(before, pointer, sqrt, draws);
      assert forall i :: 0 <= i < |cells| ==>
        cells[i].center == before[i].center && cells[i].active == InRange(pointer, cells[i]);
      if pointer == LEAVE_POINTER {
        EvaluatedAtLeave(before, sqrt, draws);
      }
    }

    /** Registers the frame callback unless one is already registered. */
    method ScheduleUpdate()
      requires Valid()
      modifies this`pending, this`requested
      ensures Valid() && pending
      ensures requested == old(requested) + (if old(pending) then 0 else 1)
    {
      if !pending {
        pending := true;
        requested := requested + 1;
      }
    }

    /** One display refresh: the host runs the registered callback, if any. */
    method AnimationFrame(sqrt: real -> real, draws: seq<real>)
      requires Valid() && IsSquareRoot(sqrt) && DrawsFor(cells, draws)
      modifies this`cells, this`pending, this`fired, this`evaluatedAt
      ensures Valid() && !pending
      ensures old(pending) ==> cells == Evaluated(old(cells), pointer, sqrt, draws) && fired == old(fired) + 1
      ensures !old(pending) ==> cells == old(cells) && fired == old(fired) && evaluatedAt == old(evaluatedAt)
    {
      if pending {
        UpdateCells(sqrt, draws);
      }
    }

    /** The pointer moved to (x, y): remember it and ask for a frame. */
    method MouseMove(x: real, y: real)
      requires Valid()
      modifies this`pointer, this`pending, this`requested
      ensures Valid() && pending && pointer == Point(x, y)
      ensures requested == old(requested) + (if old(pending) then 0 else 1)
    {
      pointer := Point(x, y);
      ScheduleUpdate();
    }

    /** The pointer left the window: park it off the grid and ask for a frame. */
    method MouseLeave()
      requires Valid()
      modifies this`pointer, this`pending, this`requested
      ensures Valid() && pending && pointer == LEAVE_POINTER
      ensures requested == old(requested) + (if old(pending) then 0 else 1)
    {
      pointer := LEAVE_POINTER;
      ScheduleUpdate();
    }

    /** The viewport is now `width` by `height`: rebuild the grid, then ask
        for a frame. */
    method Resize(width: nat, height: nat)
      requires Valid()
      modifies this`cells, this`evaluatedAt, this`pending, this`requested
      ensures Valid() && pending
      ensures old(hasOverlay) ==> cells == Layout(hexHeight, width, height)
      ensures !old(hasOverlay) ==> cells == old(cells)
      ensures requested == old(requested) + (if old(pending) then 0 else 1)
    {
      BuildGrid(width, height);
      ScheduleUpdate();
    }

    /** Start-up: create the overlay, build the grid for the viewport, and
        ask for the first frame. */
    method Initialize(width: nat, height: nat)
      requires Valid()
      modifies this`hasOverlay, this`cells, this`evaluatedAt, this`pending, this`requested
      ensures Valid() && hasOverlay && pending
      ensures cells == Layout(hexHeight, width, height) && evaluatedAt == None
      ensures requested == old(requested) + (if old(pending) then 0 else 1)
    {
      hasOverlay := true;
      BuildGrid(width, height);
      ScheduleUpdate();
    }
  }

  /** A session as the host drives it: start-up, a burst of pointer moves
      coalesced into one frame, then the pointer leaves and a frame runs. */
  method LeaveSession(hexHeight: real, sqrt: real -> real, width: nat, height: nat, x: real, y: real)
    returns (c: Controller)
    requires hexHeight > 0.0 && hexHeight * hexHeight == 3.0 * HEX_SIZE * HEX_SIZE
    requires IsSquareRoot(sqrt)
    ensures fresh(c) && c.Valid() && !c.pending
    ensures c.requested == 2 && c.fired == 2
    ensures |c.cells| == RowCount(hexHeight, height) * ColumnCount(width)
    ensures forall i :: 0 <= i < |c.cells| ==> !c.cells[i].active && !c.cells[i].el.activeClass
  {
    c := new Controller(hexHeight, width, height);
    c.Initialize(width, height);
    c.MouseMove(x, y);
    c.MouseMove(x + 1.0, y);
    assert c.requested == 1;
    c.AnimationFrame(sqrt, seq(|c.cells|, _ => 0.0));
    c.MouseLeave();
    c.AnimationFrame(sqrt, seq(|c.cells|, _ => 0.5));
  }
}
