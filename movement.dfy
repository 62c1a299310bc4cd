/**
  The player's cursor and the bounds-checked step that moves it over an
  `h`-row, `w`-column field.
 */
module Movement {
  import opened Grid

  datatype Point = Point(y: int, x: int)

  predicate InBounds(p: Point, h: int, w: int)
  {
    InGrid(w, h, p.y, p.x)
  }

  /**
    Where a step by `(dy, dx)` takes the cursor at `p`: the step is taken
    whole or not at all, so the cursor never leaves the field and is never
    clamped to an edge.
   */
  function Moved(p: Point, dy: int, dx: int, h: int, w: int): (q: Point)
    ensures InBounds(p, h, w) ==> InBounds(q, h, w)
    ensures q == p || q == Point(p.y + dy, p.x + dx)
    ensures q != p ==> InBounds(q, h, w)
    ensures InBounds(Point(p.y + dy, p.x + dx), h, w) ==> q == Point(p.y + dy, p.x + dx)
  {
    if p.y + dy < 0 || p.y + dy >= h then p
    else if p.x + dx < 0 || p.x + dx >= w then p
    else Point(p.y + dy, p.x + dx)
  }

  /** A step that would leave the field is refused, even if one coordinate could move. */
  lemma MoveRefusedOffField(p: Point, dy: int, dx: int, h: int, w: int)
    requires !InBounds(Point(p.y + dy, p.x + dx), h, w)
    ensures Moved(p, dy, dx, h, w) == p
  {
  }

  /** A step that is taken can be undone by the opposite step. */
  lemma MoveUndone(p: Point, dy: int, dx: int, h: int, w: int)
    requires InBounds(p, h, w)
    requires Moved(p, dy, dx, h, w) != p
    ensures Moved(Moved(p, dy, dx, h, w), -dy, -dx, h, w) == p
  {
  }

  /** Where the cursor ends after a sequence of steps. */
  function MovedAlong(p: Point, steps: seq<Point>, h: int, w: int): Point
    decreases steps
  {
    if steps == [] then p
    else MovedAlong(Moved(p, steps[0].y, steps[0].x, h, w), steps[1..], h, w)
  }

  /** From a position on the field, no sequence of steps takes the cursor off it. */
  lemma {:induction false} CursorStaysOnField(p: Point, steps: seq<Point>, h: int, w: int)
    requires InBounds(p, h, w)
    ensures InBounds(MovedAlong(p, steps, h, w), h, w)
    decreases steps
  {
    if steps != [] {
      CursorStaysOnField(Moved(p, steps[0].y, steps[0].x, h, w), steps[1..], h, w);
    }
  }

  /** The player's position, updated in place by `Move`. */
  class Cursor {
    var y: int
    var x: int

    function Pos(): Point
      reads this
    {
      Point(y, x)
    }

    constructor (y: int, x: int)
      ensures Pos() == Point(y, x)
    {
      this.y := y;
      this.x := x;
    }

    /** Steps by `(dy, dx)` if the target is on the field; otherwise stays put. */
    method Move(dy: int, dx: int, h: int, w: int)
      modifies this
      ensures Pos() == Moved(old(Pos()), dy, dx, h, w)
      ensures InBounds(Point(old(y) + dy, old(x) + dx), h, w) ==> y == old(y) + dy && x == old(x) + dx
      ensures !InBounds(Point(old(y) + dy, old(x) + dx), h, w) ==> y == old(y) && x == old(x)
    {
      if y + dy < 0 || y + dy >= h {
        return;
      }
      if x + dx < 0 || x + dx >= w {
        return;
      }
      y := y + dy;
      x := x + dx;
    }
  }
}
