/**
  The neighbour loop of mine placement as the source writes it, next to the
  rule it evidently means (`Field.Placed`, run by `Engine.Game.RaiseNeighbours`).
  Each of its three slips is modelled on its own and shown by a concrete input.
 */
module NeighbourLoop {
  import opened Grid
  import opened Tiles
  import opened Field
  import opened Engine

  /**
    Rounds of the inner loop as written, from column `b` in row `a` of the box
    around column `x`: its guard tests the row `a`, which the inner loop never
    changes. The number of rounds if the loop stops within `fuel` rounds.
   */
  function InnerRoundsAsWritten(a: int, b: int, x: int, fuel: nat): Option<nat>
    decreases fuel
  {
    if !(a <= x + 1) then Some(0)
    else if fuel == 0 then None
    else match InnerRoundsAsWritten(a, b + 1, x, fuel - 1)
      case Some(n) => Some(n + 1)
      case None => None
  }

  /** Rounds of the inner loop with the intended guard, which tests the column `b`. */
  function InnerRounds(b: int, x: int, fuel: nat): Option<nat>
    decreases fuel
  {
    if !(b <= x + 1) then Some(0)
    else if fuel == 0 then None
    else match InnerRounds(b + 1, x, fuel - 1)
      case Some(n) => Some(n + 1)
      case None => None
  }

  /** As written, once the guard holds the inner loop never stops, however many rounds it is given. */
  lemma {:induction false} InnerLoopAsWrittenNeverStops(a: int, b: int, x: int, fuel: nat)
    requires a <= x + 1
    ensures InnerRoundsAsWritten(a, b, x, fuel) == None
    decreases fuel
  {
    if fuel > 0 {
      InnerLoopAsWrittenNeverStops(a, b + 1, x, fuel - 1);
    }
  }

  /**
    Both ways the written guard goes wrong: a mine in the top-left corner
    starts a row at `a = -1 <= x + 1` and the loop never stops; a mine at row
    5, column 0 starts at `a = 4 > x + 1` and no column of that row is visited.
   */
  lemma InnerLoopAsWrittenCounterexample(fuel: nat)
    ensures InnerRoundsAsWritten(-1, -1, 0, fuel) == None
    ensures InnerRoundsAsWritten(4, -1, 0, fuel) == Some(0)
  {
    InnerLoopAsWrittenNeverStops(-1, -1, 0, fuel);
  }

  /** With the intended guard, each row of the box takes exactly three rounds. */
  lemma InnerLoopVisitsThreeColumns(x: int, fuel: nat)
    requires 3 <= fuel
    ensures InnerRounds(x - 1, x, fuel) == Some(3)
  {
    assert InnerRounds(x + 2, x, fuel - 3) == Some(0);
    assert InnerRounds(x + 1, x, fuel - 2) == Some(1);
    assert InnerRounds(x, x, fuel - 1) == Some(2);
  }

  /** The positions the written test lets through: it skips the mine's whole row and column. */
  predicate RaisedAsWritten(a: int, b: int, y: int, x: int)
  {
    y - 1 <= a <= y + 1 && x - 1 <= b <= x + 1 && a != y && b != x
  }

  /**
    As written only the four diagonal neighbours are raised: the neighbours
    beside, above and below a mine (all four of them) keep a count that misses it.
   */
  lemma RaisedAsWrittenOnlyDiagonal(y: int, x: int)
    ensures forall a, b :: RaisedAsWritten(a, b, y, x) ==> Near(a, b, y, x)
    ensures Near(y, x + 1, y, x) && !RaisedAsWritten(y, x + 1, y, x)
    ensures Near(y + 1, x, y, x) && !RaisedAsWritten(y + 1, x, y, x)
    ensures Near(y, x - 1, y, x) && !RaisedAsWritten(y, x - 1, y, x)
    ensures Near(y - 1, x, y, x) && !RaisedAsWritten(y - 1, x, y, x)
  {
  }

  /** The tile at `(r, c)` once a mine is placed at `(y, x)` with the written test. */
  function PlacedAsWritten(tiles: seq<Tile>, w: nat, h: nat, y: int, x: int, r: int, c: int): Tile
    requires |tiles| == w * h && InGrid(w, h, r, c)
  {
    var t := Cell(tiles, w, h, r, c);
    if r == y && c == x then t.(code := BOMB_CODE)
    else if RaisedAsWritten(r, c, y, x) && !IsBomb(t) then t.(code := t.code + 1)
    else t
  }

  /**
    A mine placed in the middle of a fresh 3-by-3 field with the written test
    leaves the tile to its right at code 0, next to one mine.
   */
  lemma RaisedAsWrittenBreaksCounts()
    ensures var t1 := seq(9, i requires 0 <= i < 9 => PlacedAsWritten(seq(9, _ => Blank), 3, 3, 1, 1, i / 3, i % 3));
      Cell(t1, 3, 3, 1, 2).code == 0 && AdjacentBombs(t1, 3, 3, 1, 2) == 1 && !Consistent(t1, 3, 3)
  {
    var t0 := seq(9, _ => Blank);
    var t1 := seq(9, i requires 0 <= i < 9 => PlacedAsWritten(t0, 3, 3, 1, 1, i / 3, i % 3));
    assert t1[4].code == BOMB_CODE;
    assert t1[5] == Blank;
    assert BombAt(t1, 3, 3, 1, 1) == 1;
    assert !CellConsistent(t1, 3, 3, 1, 2);
  }

  /** The bounds test as written: it bounds the column by the field's height. */
  predicate InBoundsAsWritten(a: int, b: int, w: int, h: int)
  {
    a >= 0 && a < h && b >= 0 && b < h
  }

  /**
    On the game's 60-by-40 field the written test refuses every column from
    40 on, so the neighbours there never count a mine; on a field taller than
    wide it lets a column past the right edge through, which addresses a tile
    of the next row.
   */
  lemma InBoundsAsWrittenCounterexample()
    ensures InGrid(GAME_WIDTH, GAME_HEIGHT, 0, 45) && !InBoundsAsWritten(0, 45, GAME_WIDTH, GAME_HEIGHT)
    ensures !InGrid(2, 3, 0, 2) && InBoundsAsWritten(0, 2, 2, 3) && Index(2, 0, 2) == Index(2, 1, 0)
  {
  }
}
