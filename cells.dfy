/** The values the hexagon overlay works on: its two constants, points, and
    the record kept for each hexagon (its span element and its centre). */
module Cells {

  datatype Option<T> = None | Some(value: T)

  /** Edge length of one hexagon, in CSS pixels. */
  const HEX_SIZE: real := 26.0

  /** Largest pointer-to-centre distance at which a cell is active. */
  const ACTIVE_RADIUS: real := 200.0

  const RADIUS_SQ: real := ACTIVE_RADIUS * ACTIVE_RADIUS

  /** Distance between the anchors of neighbouring columns. */
  const HORIZONTAL_SPACING: real := HEX_SIZE * 1.5

  datatype Point = Point(x: real, y: real)

  /** Where the pointer is parked when it leaves the window. */
  const LEAVE_POINTER: Point := Point(-ACTIVE_RADIUS, -ACTIVE_RADIUS)

  /** The span element of one hexagon: its top-left anchor (the `--x` and
      `--y` style properties), the `--pulse` style property, whether it has
      the `is-active` class, and its animation delay in seconds. */
  datatype Element = Element(anchor: Point, pulse: Option<real>, activeClass: bool, delay: Option<real>)

  /** One entry of the grid: the element, the centre used for distance
      tests, and whether the cell is active. */
  datatype Cell = Cell(el: Element, center: Point, active: bool)
}
