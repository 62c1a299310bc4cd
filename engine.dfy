/**
  The game state: the tiles of one field, the player's cursor and the number
  of mines the game was generated with; generation, the commands a key press
  applies, and the glyphs the board is drawn with.
 */
module Engine {
  import opened Grid
  import opened Tiles
  import opened Movement
  import opened Field
  import opened Keys

  /** The field size the game is played on. */
  const GAME_WIDTH := 60
  const GAME_HEIGHT := 40

  /**
    Inside the three-by-three box around `(y, x)`, `(r, c)` comes before
    `(a, b)` in the row-by-row order the neighbour loop visits the box.
   */
  ghost predicate Swept(r: int, c: int, y: int, x: int, a: int, b: int)
  {
    || (y - 1 <= r < a && x - 1 <= c <= x + 1)
    || (r == a && x - 1 <= c < b)
  }

  /**
    The neighbour loop's invariant: the mine's own tile and every position
    visited before `(a, b)` are as `Placed` makes them, the rest as in `t0`.
   */
  ghost predicate SweptUpTo(tiles: seq<Tile>, t0: seq<Tile>, w: nat, h: nat, y: int, x: int, a: int, b: int)
  {
    && |tiles| == w * h && |t0| == w * h
    && forall r, c | InGrid(w, h, r, c) ::
      Cell(tiles, w, h, r, c) ==
        if (r == y && c == x) || Swept(r, c, y, x, a, b) then Placed(t0, w, h, y, x, r, c)
        else Cell(t0, w, h, r, c)
  }

  /** Setting the mine's own tile starts the sweep. */
  lemma SweepStart(t0: seq<Tile>, w: nat, h: nat, y: int, x: int)
    requires |t0| == w * h && InGrid(w, h, y, x)
    ensures 0 <= Index(w, y, x) < |t0|
    ensures var j := Index(w, y, x);
      SweptUpTo(t0[j := t0[j].(code := BOMB_CODE)], t0, w, h, y, x, y - 1, x - 1)
  {
    IndexInRange(w, h, y, x);
    var j := Index(w, y, x);
    CellAfterUpdate(t0, w, h, y, x, t0[j].(code := BOMB_CODE));
  }

  /** Visiting `(a, b)` without raising it: the mine itself, off the field, or another mine. */
  lemma SweepSkip(tiles: seq<Tile>, t0: seq<Tile>, w: nat, h: nat, y: int, x: int, a: int, b: int)
    requires SweptUpTo(tiles, t0, w, h, y, x, a, b)
    requires (a == y && b == x) || !InGrid(w, h, a, b) || IsBomb(Cell(tiles, w, h, a, b))
    ensures SweptUpTo(tiles, t0, w, h, y, x, a, b + 1)
  {
  }

  /** Visiting a neighbour without a mine raises its count by one. */
  lemma SweepRaise(tiles: seq<Tile>, t0: seq<Tile>, w: nat, h: nat, y: int, x: int, a: int, b: int)
    requires SweptUpTo(tiles, t0, w, h, y, x, a, b)
    requires y - 1 <= a <= y + 1 && x - 1 <= b <= x + 1 && !(a == y && b == x)
    requires InGrid(w, h, a, b) && !IsBomb(Cell(tiles, w, h, a, b))
    ensures 0 <= Index(w, a, b) < |tiles|
    ensures var k := Index(w, a, b);
      SweptUpTo(tiles[k := tiles[k].(code := tiles[k].code + 1)], t0, w, h, y, x, a, b + 1)
  {
    IndexInRange(w, h, a, b);
    var k := Index(w, a, b);
    CellAfterUpdate(tiles, w, h, a, b, tiles[k].(code := tiles[k].code + 1));
  }

  /** Finishing a row of the box starts the next one. */
  lemma SweepNextRow(tiles: seq<Tile>, t0: seq<Tile>, w: nat, h: nat, y: int, x: int, a: int)
    requires SweptUpTo(tiles, t0, w, h, y, x, a, x + 2)
    ensures SweptUpTo(tiles, t0, w, h, y, x, a + 1, x - 1)
  {
  }

  /** Once the whole box is visited, every tile is as `Placed` makes it. */
  lemma SweepDone(tiles: seq<Tile>, t0: seq<Tile>, w: nat, h: nat, y: int, x: int)
    requires SweptUpTo(tiles, t0, w, h, y, x, y + 2, x - 1)
    ensures PlacedEverywhere(t0, tiles, w, h, y, x)
  {
  }

  class Game {
    const width: nat
    const height: nat
    const numBombs: nat
    const cursor: Cursor
    var tiles: seq<Tile>

    /** The cursor is on the field and every adjacency code is right. */
    ghost predicate Valid()
      reads this, cursor
    {
      && 0 < width && 0 < height
      && Consistent(tiles, width, height)
      && InBounds(cursor.Pos(), height, width)
    }

    /** The flat index of the tile under the cursor. */
    function Focus(): (k: nat)
      reads this, cursor
      requires Valid()
      ensures k < |tiles|
      ensures k == Index(width, cursor.y, cursor.x)
    {
      IndexInRange(width, height, cursor.y, cursor.x);
      cursor.y * width + cursor.x
    }

    /**
      A new game on a `width * height` field: the mine quota comes from one
      draw, the cursor starts in the top-left corner, every tile is fresh.
     */
    constructor (width: nat, height: nat, quotaDraw: nat)
      requires 0 < width && 0 < height && 4 <= width * height
      ensures Valid() && fresh(cursor)
      ensures this.width == width && this.height == height
      ensures numBombs == BombQuota(quotaDraw, width, height)
      ensures cursor.Pos() == Point(0, 0)
      ensures AllBlank(tiles, width, height) && CountBombs(tiles) == 0
    {
      this.width := width;
      this.height := height;
      numBombs := BombQuota(quotaDraw, width, height);
      cursor := new Cursor(0, 0);
      var ts: seq<Tile> := [];
      var i := 0;
      while i < width * height
        invariant 0 <= i <= width * height
        invariant |ts| == i && forall k | 0 <= k < i :: ts[k] == Blank
      {
        ts := ts + [Blank];
        i := i + 1;
      }
      tiles := ts;
      BlankIsConsistent(ts, width, height);
    }

    /**
      One draw of mine placement. A draw landing on a mine is refused and
      changes nothing; otherwise that tile becomes a mine and each of its
      neighbours without a mine counts one more.
     */
    method Drop(draw: nat) returns (accepted: bool)
      requires Valid()
      modifies this
      ensures Valid() && SameStatus(old(tiles), tiles)
      ensures |tiles| == |old(tiles)| > 0
      ensures accepted <==> !IsBomb(old(tiles)[draw % |tiles|])
      ensures !accepted ==> tiles == old(tiles)
      ensures accepted ==> CountBombs(tiles) == old(CountBombs(tiles)) + 1
      ensures accepted ==> IsBomb(tiles[draw % |tiles|])
      ensures accepted ==> forall i | 0 <= i < |tiles| ::
        IsBomb(tiles[i]) <==> IsBomb(old(tiles)[i]) || i == draw % |tiles|
      ensures accepted ==> var j := draw % |tiles|;
        PlacedEverywhere(old(tiles), tiles, width, height, j / width, j % width)
    {
      var n := |tiles|;
      CoordsOfIndex(width, height, 0);
      var j := draw % n;
      if tiles[j].code == BOMB_CODE {
        return false;
      }
      ghost var t0 := tiles;
      var y := j / width;
      var x := j % width;
      CoordsOfIndex(width, height, j);
      SweepStart(tiles, width, height, y, x);
      tiles := tiles[j := tiles[j].(code := BOMB_CODE)];

      RaiseNeighbours(t0, y, x);
      SweepDone(tiles, t0, width, height, y, x);
      PlacingKeepsConsistent(t0, tiles, width, height, y, x);
      forall i | 0 <= i < |tiles|
        ensures IsBomb(tiles[i]) <==> IsBomb(t0[i]) || i == j
      {
        PlacedTileIsBomb(t0, tiles, width, height, y, x, i);
      }
      accepted := true;
    }

    /**
      Raises by one the count of every neighbour of `(y, x)` that is on the
      field and holds no mine, visiting the three-by-three box row by row.
     */
    method RaiseNeighbours(ghost t0: seq<Tile>, y: int, x: int)
      requires InGrid(width, height, y, x)
      requires SweptUpTo(tiles, t0, width, height, y, x, y - 1, x - 1)
      modifies this
      ensures SweptUpTo(tiles, t0, width, height, y, x, y + 2, x - 1)
      ensures SameStatus(old(tiles), tiles)
    {
      var a := y - 1;
      while a <= y + 1
        invariant y - 1 <= a <= y + 2
        invariant SameStatus(old(tiles), tiles)
        invariant SweptUpTo(tiles, t0, width, height, y, x, a, x - 1)
      {
        var b := x - 1;
        while b <= x + 1
          invariant x - 1 <= b <= x + 2
          invariant SameStatus(old(tiles), tiles)
          invariant SweptUpTo(tiles, t0, width, height, y, x, a, b)
        {
          if (a != y || b != x) && 0 <= a < height && 0 <= b < width {
            IndexInRange(width, height, a, b);
            var k := a * width + b;
            if tiles[k].code != BOMB_CODE {
              SweepRaise(tiles, t0, width, height, y, x, a, b);
              tiles := tiles[k := tiles[k].(code := tiles[k].code + 1)];
            } else {
              SweepSkip(tiles, t0, width, height, y, x, a, b);
            }
          } else {
            SweepSkip(tiles, t0, width, height, y, x, a, b);
          }
          b := b + 1;
        }
        SweepNextRow(tiles, t0, width, height, y, x, a);
        a := a + 1;
      }
    }

    /**
      Places `numBombs` mines, taking the draws in order and refusing each one
      that lands on a mine; it stops early only when the draws run out.
      `placed` is the number of accepted draws and `used` the number taken.
     */
    method PlaceBombs(draws: seq<nat>) returns (placed: nat, used: nat)
      requires Valid()
      modifies this
      ensures Valid() && SameStatus(old(tiles), tiles)
      ensures placed <= numBombs && used <= |draws|
      ensures placed < numBombs ==> used == |draws|
      ensures forall i | 0 <= i < |tiles| ::
        IsBomb(tiles[i]) <==> IsBomb(old(tiles)[i]) || i in Landed(draws[..used], |tiles|)
      ensures placed == |NewMines(old(tiles), draws[..used])|
      ensures CountBombs(tiles) == old(CountBombs(tiles)) + placed
      ensures numBombs <= |NewMines(old(tiles), draws)| ==> placed == numBombs
    {
      ghost var t0 := tiles;
      placed, used := 0, 0;
      while placed < numBombs && used < |draws|
        invariant Valid() && SameStatus(t0, tiles)
        invariant placed <= numBombs && used <= |draws|
        invariant MinesFromDraws(t0, tiles, draws[..used])
        invariant placed == |NewMines(t0, draws[..used])|
        decreases |draws| - used
      {
        ghost var before := tiles;
        var accepted := Drop(draws[used]);
        DrawStep(t0, before, tiles, draws, used);
        used := used + 1;
        if accepted {
          placed := placed + 1;
        }
      }
      assert draws[..|draws|] == draws;
      MinesAdded(t0, tiles, NewMines(t0, draws[..used]));
    }

    /** Cycles the mark of tile `k`. */
    method Mark(k: nat)
      requires Valid() && k < |tiles|
      modifies this
      ensures Valid()
      ensures tiles == old(tiles)[k := Cycled(old(tiles)[k])]
    {
      SameCodesConsistent(tiles, tiles[k := Cycled(tiles[k])], width, height);
      tiles := tiles[k := tiles[k].(mark := NextMark(tiles[k].mark))];
    }

    /** Reveals tile `k`; revealing a revealed tile changes nothing. */
    method Reveal(k: nat)
      requires Valid() && k < |tiles|
      modifies this
      ensures Valid()
      ensures tiles == old(tiles)[k := Uncovered(old(tiles)[k])]
      ensures old(tiles)[k].revealed ==> tiles == old(tiles)
    {
      SameCodesConsistent(tiles, tiles[k := Uncovered(tiles[k])], width, height);
      tiles := tiles[k := tiles[k].(revealed := true)];
    }

    /**
      Applies one key press: a movement key moves only the cursor, space and
      newline change only the tile under the cursor, any other key (and no key)
      changes nothing.
     */
    method Dispatch(ch: int)
      requires Valid()
      modifies this, cursor
      ensures Valid()
      ensures |tiles| == |old(tiles)|
      ensures forall i | 0 <= i < |tiles| && i != old(Focus()) :: tiles[i] == old(tiles)[i]
      ensures forall i | 0 <= i < |tiles| :: old(tiles)[i].revealed ==> tiles[i].revealed
      ensures match Decode(ch)
        case Step(dy, dx) =>
          cursor.Pos() == Moved(old(cursor.Pos()), dy, dx, height, width) && tiles == old(tiles)
        case CycleMark =>
          cursor.Pos() == old(cursor.Pos()) && tiles == old(tiles)[old(Focus()) := Cycled(old(tiles)[old(Focus())])]
        case Uncover =>
          cursor.Pos() == old(cursor.Pos()) && tiles == old(tiles)[old(Focus()) := Uncovered(old(tiles)[old(Focus())])]
        case Ignore =>
          cursor.Pos() == old(cursor.Pos()) && tiles == old(tiles)
    {
      match Decode(ch)
      case Step(dy, dx) =>
        cursor.Move(dy, dx, height, width);
      case CycleMark =>
        Mark(Focus());
      case Uncover =>
        Reveal(Focus());
      case Ignore =>
    }

    /** The glyph of every tile, in row-major order. */
    method Render() returns (glyphs: seq<char>)
      requires Valid()
      ensures |glyphs| == |tiles|
      ensures forall i | 0 <= i < |tiles| :: glyphs[i] == Glyph(tiles[i])
    {
      glyphs := [];
      var i := 0;
      while i < |tiles|
        invariant 0 <= i <= |tiles|
        invariant |glyphs| == i
        invariant forall k | 0 <= k < i :: glyphs[k] == Glyph(tiles[k])
      {
        glyphs := glyphs + [Glyph(tiles[i])];
        i := i + 1;
      }
    }
  }

  /** The game's own field size admits the mine quota. */
  lemma GameSizeAdmitsQuota()
    ensures 4 <= GAME_WIDTH * GAME_HEIGHT
    ensures BombQuota(0, GAME_WIDTH, GAME_HEIGHT) == 600
  {
  }

  /**
    From the top-left corner of a field at least two tiles wide and tall:
    stepping up or left is refused, stepping right then down reaches `(1, 1)`,
    and revealing there uncovers that one tile.
   */
  method RevealAfterTwoSteps(g: Game)
    requires g.Valid() && 2 <= g.width && 2 <= g.height
    requires g.cursor.Pos() == Point(0, 0)
    modifies g, g.cursor
    ensures g.Valid() && g.cursor.Pos() == Point(1, 1)
    ensures g.tiles == old(g.tiles)[g.width + 1 := Uncovered(old(g.tiles)[g.width + 1])]
  {
    ghost var start := g.tiles;
    KeysAgree();
    g.Dispatch(KEY_UP);
    g.Dispatch('a' as int);
    assert g.cursor.Pos() == Point(0, 0) && g.tiles == start;
    g.Dispatch('d' as int);
    g.Dispatch(KEY_DOWN);
    assert g.cursor.Pos() == Point(1, 1) && g.tiles == start;
    assert g.Focus() == g.width + 1;
    g.Dispatch('\n' as int);
  }
}
