/**
  The mine field as a flat, row-major sequence of tiles: what it means for the
  adjacency codes to be right, how many mines it holds, how many mines a new
  game asks for, and what placing one mine does to the field.
 */
module Field {
  import opened Grid
  import opened Tiles

  /** The tile at row `r`, column `c`. */
  function Cell(tiles: seq<Tile>, w: nat, h: nat, r: int, c: int): Tile
    requires |tiles| == w * h && InGrid(w, h, r, c)
  {
    IndexInRange(w, h, r, c);
    tiles[Index(w, r, c)]
  }

  /** 1 if `(r, c)` is on the field and holds a mine, else 0. */
  function BombAt(tiles: seq<Tile>, w: nat, h: nat, r: int, c: int): nat
    requires |tiles| == w * h
  {
    if InGrid(w, h, r, c) && IsBomb(Cell(tiles, w, h, r, c)) then 1 else 0
  }

  /**
    The number of mines among the (up to) eight neighbours of `(r, c)`; a
    neighbour off the edge of the field counts as no mine.
   */
  function AdjacentBombs(tiles: seq<Tile>, w: nat, h: nat, r: int, c: int): (n: nat)
    requires |tiles| == w * h
    ensures n <= 8
  {
    BombAt(tiles, w, h, r - 1, c - 1) + BombAt(tiles, w, h, r - 1, c) + BombAt(tiles, w, h, r - 1, c + 1) +
    BombAt(tiles, w, h, r, c - 1)     +                                  BombAt(tiles, w, h, r, c + 1) +
    BombAt(tiles, w, h, r + 1, c - 1) + BombAt(tiles, w, h, r + 1, c) + BombAt(tiles, w, h, r + 1, c + 1)
  }

  /** A tile without a mine carries the number of mines around it. */
  predicate CellConsistent(tiles: seq<Tile>, w: nat, h: nat, r: int, c: int)
    requires |tiles| == w * h && InGrid(w, h, r, c)
  {
    !IsBomb(Cell(tiles, w, h, r, c)) ==> Cell(tiles, w, h, r, c).code == AdjacentBombs(tiles, w, h, r, c)
  }

  /** The field invariant: `w * h` tiles, every adjacency code right. */
  ghost predicate Consistent(tiles: seq<Tile>, w: nat, h: nat)
  {
    && |tiles| == w * h
    && forall r, c | InGrid(w, h, r, c) :: CellConsistent(tiles, w, h, r, c)
  }

  /** The number of tiles holding a mine. */
  function CountBombs(tiles: seq<Tile>): (n: nat)
    ensures n <= |tiles|
  {
    if |tiles| == 0 then 0
    else CountBombs(tiles[..|tiles| - 1]) + (if IsBomb(tiles[|tiles| - 1]) then 1 else 0)
  }

  /** The two fields agree, tile by tile, on what is revealed and how it is marked. */
  predicate SameStatus(t0: seq<Tile>, t1: seq<Tile>)
  {
    && |t0| == |t1|
    && forall i | 0 <= i < |t0| :: t0[i].revealed == t1[i].revealed && t0[i].mark == t1[i].mark
  }

  /** A field of `w * h` fresh tiles. */
  predicate AllBlank(tiles: seq<Tile>, w: nat, h: nat)
  {
    |tiles| == w * h && forall i | 0 <= i < |tiles| :: tiles[i] == Blank
  }

  /** A field with no mine on it holds no mine in its count. */
  lemma {:induction false} NoBombsCountZero(tiles: seq<Tile>)
    requires forall i | 0 <= i < |tiles| :: !IsBomb(tiles[i])
    ensures CountBombs(tiles) == 0
  {
    if |tiles| > 0 {
      NoBombsCountZero(tiles[..|tiles| - 1]);
    }
  }

  /** A field of fresh tiles has no mine at any position. */
  lemma BlankHasNoBombAt(tiles: seq<Tile>, w: nat, h: nat, r: int, c: int)
    requires AllBlank(tiles, w, h)
    ensures BombAt(tiles, w, h, r, c) == 0
  {
    if InGrid(w, h, r, c) {
      IndexInRange(w, h, r, c);
      assert Cell(tiles, w, h, r, c) == Blank;
    }
  }

  /** A field of fresh tiles is consistent and holds no mine. */
  lemma BlankIsConsistent(tiles: seq<Tile>, w: nat, h: nat)
    requires AllBlank(tiles, w, h)
    ensures Consistent(tiles, w, h) && CountBombs(tiles) == 0
  {
    NoBombsCountZero(tiles);
    forall r, c | InGrid(w, h, r, c)
      ensures CellConsistent(tiles, w, h, r, c)
    {
      IndexInRange(w, h, r, c);
      assert Cell(tiles, w, h, r, c) == Blank;
      BlankHasNoBombAt(tiles, w, h, r - 1, c - 1);
      BlankHasNoBombAt(tiles, w, h, r - 1, c);
      BlankHasNoBombAt(tiles, w, h, r - 1, c + 1);
      BlankHasNoBombAt(tiles, w, h, r, c - 1);
      BlankHasNoBombAt(tiles, w, h, r, c + 1);
      BlankHasNoBombAt(tiles, w, h, r + 1, c - 1);
      BlankHasNoBombAt(tiles, w, h, r + 1, c);
      BlankHasNoBombAt(tiles, w, h, r + 1, c + 1);
    }
  }

  /**
    How many mines a new game asks for, from one draw of the random source:
    at least a quarter of the tiles and fewer than half of them, so always
    fewer than there are tiles.
   */
  function BombQuota(draw: nat, w: nat, h: nat): (n: nat)
    requires 4 <= w * h
    ensures (w * h) / 4 <= n < 2 * ((w * h) / 4)
    ensures n < w * h
  {
    draw % ((w * h) / 4) + (w * h) / 4
  }

  /** `(r, c)` is one of the eight neighbours of `(y, x)`. */
  predicate Near(r: int, c: int, y: int, x: int)
  {
    y - 1 <= r <= y + 1 && x - 1 <= c <= x + 1 && !(r == y && c == x)
  }

  /**
    The tile at `(r, c)` once a mine is placed at `(y, x)`: the mine's own
    tile gets the mine code and every neighbour without a mine counts one more.
   */
  function Placed(tiles: seq<Tile>, w: nat, h: nat, y: int, x: int, r: int, c: int): Tile
    requires |tiles| == w * h && InGrid(w, h, r, c)
  {
    var t := Cell(tiles, w, h, r, c);
    if r == y && c == x then t.(code := BOMB_CODE)
    else if Near(r, c, y, x) && !IsBomb(t) then t.(code := t.code + 1)
    else t
  }

  /** Every tile of `t1` is what `Placed` makes of `t0` for a mine at `(y, x)`. */
  ghost predicate PlacedEverywhere(t0: seq<Tile>, t1: seq<Tile>, w: nat, h: nat, y: int, x: int)
  {
    && |t0| == w * h && |t1| == w * h
    && forall r, c | InGrid(w, h, r, c) :: Cell(t1, w, h, r, c) == Placed(t0, w, h, y, x, r, c)
  }

  /** Writing the tile at `(a, b)` leaves the cell at any other position as it was. */
  lemma CellAfterUpdateAt(tiles: seq<Tile>, w: nat, h: nat, a: int, b: int, v: Tile, r: int, c: int)
    requires |tiles| == w * h && InGrid(w, h, a, b) && InGrid(w, h, r, c)
    ensures 0 <= Index(w, a, b) < |tiles|
    ensures Cell(tiles[Index(w, a, b) := v], w, h, r, c) == if r == a && c == b then v else Cell(tiles, w, h, r, c)
  {
    IndexInRange(w, h, a, b);
    IndexInRange(w, h, r, c);
    var k, k' := Index(w, a, b), Index(w, r, c);
    var t := tiles[k := v];
    assert Cell(t, w, h, r, c) == t[k'];
    if !(r == a && c == b) {
      IndexInjective(w, h, a, b, r, c);
      assert k != k';
    }
  }

  /** Writing one tile changes the cell at that position and no other. */
  lemma CellAfterUpdate(tiles: seq<Tile>, w: nat, h: nat, a: int, b: int, v: Tile)
    requires |tiles| == w * h && InGrid(w, h, a, b)
    ensures 0 <= Index(w, a, b) < |tiles|
    ensures forall r, c | InGrid(w, h, r, c) ::
      Cell(tiles[Index(w, a, b) := v], w, h, r, c) == if r == a && c == b then v else Cell(tiles, w, h, r, c)
  {
    IndexInRange(w, h, a, b);
    forall r, c | InGrid(w, h, r, c)
      ensures Cell(tiles[Index(w, a, b) := v], w, h, r, c) == if r == a && c == b then v else Cell(tiles, w, h, r, c)
    {
      CellAfterUpdateAt(tiles, w, h, a, b, v, r, c);
    }
  }

  /**
    Placing a mine on a consistent field, at a tile without one, only adds a
    mine at that tile: a neighbour's raised count never reaches the mine code.
   */
  lemma BombAtAfterPlacing(t0: seq<Tile>, t1: seq<Tile>, w: nat, h: nat, y: int, x: int, a: int, b: int)
    requires Consistent(t0, w, h) && InGrid(w, h, y, x) && !IsBomb(Cell(t0, w, h, y, x))
    requires PlacedEverywhere(t0, t1, w, h, y, x)
    ensures BombAt(t1, w, h, a, b) == BombAt(t0, w, h, a, b) + (if a == y && b == x then 1 else 0)
  {
    if InGrid(w, h, a, b) && !(a == y && b == x) && Near(a, b, y, x) && !IsBomb(Cell(t0, w, h, a, b)) {
      assert CellConsistent(t0, w, h, a, b);
      assert BombAt(t0, w, h, y, x) == 0;
    }
  }

  /** Placing a mine at `(y, x)` adds one to the mine count around each of its neighbours and nowhere else. */
  lemma AdjacentAfterPlacing(t0: seq<Tile>, t1: seq<Tile>, w: nat, h: nat, y: int, x: int, r: int, c: int)
    requires Consistent(t0, w, h) && InGrid(w, h, y, x) && !IsBomb(Cell(t0, w, h, y, x))
    requires PlacedEverywhere(t0, t1, w, h, y, x)
    ensures AdjacentBombs(t1, w, h, r, c) == AdjacentBombs(t0, w, h, r, c) + if Near(r, c, y, x) then 1 else 0
  {
    BombAtAfterPlacing(t0, t1, w, h, y, x, r - 1, c - 1);
    BombAtAfterPlacing(t0, t1, w, h, y, x, r - 1, c);
    BombAtAfterPlacing(t0, t1, w, h, y, x, r - 1, c + 1);
    BombAtAfterPlacing(t0, t1, w, h, y, x, r, c - 1);
    BombAtAfterPlacing(t0, t1, w, h, y, x, r, c + 1);
    BombAtAfterPlacing(t0, t1, w, h, y, x, r + 1, c - 1);
    BombAtAfterPlacing(t0, t1, w, h, y, x, r + 1, c);
    BombAtAfterPlacing(t0, t1, w, h, y, x, r + 1, c + 1);
  }

  /** After placing a mine, the adjacency code at `(r, c)` is still right. */
  lemma PlacedCellConsistent(t0: seq<Tile>, t1: seq<Tile>, w: nat, h: nat, y: int, x: int, r: int, c: int)
    requires Consistent(t0, w, h) && InGrid(w, h, y, x) && !IsBomb(Cell(t0, w, h, y, x))
    requires PlacedEverywhere(t0, t1, w, h, y, x) && InGrid(w, h, r, c)
    ensures CellConsistent(t1, w, h, r, c)
  {
    assert Cell(t1, w, h, r, c) == Placed(t0, w, h, y, x, r, c);
    if !IsBomb(Cell(t1, w, h, r, c)) {
      assert CellConsistent(t0, w, h, r, c);
      AdjacentAfterPlacing(t0, t1, w, h, y, x, r, c);
    }
  }

  /** After placing a mine at `(y, x)`, the tile at flat index `i` holds a mine exactly when it did before or is that tile. */
  lemma PlacedTileIsBomb(t0: seq<Tile>, t1: seq<Tile>, w: nat, h: nat, y: int, x: int, i: int)
    requires Consistent(t0, w, h) && InGrid(w, h, y, x) && !IsBomb(Cell(t0, w, h, y, x))
    requires PlacedEverywhere(t0, t1, w, h, y, x) && 0 <= i < |t0|
    ensures 0 <= Index(w, y, x) < |t0|
    ensures IsBomb(t1[i]) <==> IsBomb(t0[i]) || i == Index(w, y, x)
  {
    IndexInRange(w, h, y, x);
    CoordsOfIndex(w, h, i);
    IndexInjective(w, h, i / w, i % w, y, x);
    BombAtAfterPlacing(t0, t1, w, h, y, x, i / w, i % w);
  }

  /** Placing a mine keeps every adjacency code right and adds exactly one mine. */
  lemma PlacingKeepsConsistent(t0: seq<Tile>, t1: seq<Tile>, w: nat, h: nat, y: int, x: int)
    requires Consistent(t0, w, h) && InGrid(w, h, y, x) && !IsBomb(Cell(t0, w, h, y, x))
    requires PlacedEverywhere(t0, t1, w, h, y, x)
    ensures Consistent(t1, w, h)
    ensures CountBombs(t1) == CountBombs(t0) + 1
  {
    forall r, c | InGrid(w, h, r, c)
      ensures CellConsistent(t1, w, h, r, c)
    {
      PlacedCellConsistent(t0, t1, w, h, y, x, r, c);
    }
    IndexInRange(w, h, y, x);
    var j := Index(w, y, x);
    forall i | 0 <= i < |t0|
      ensures IsBomb(t1[i]) <==> IsBomb(t0[i]) || i == j
    {
      PlacedTileIsBomb(t0, t1, w, h, y, x, i);
    }
    OneMoreBomb(t0, t1, j);
  }

  /** Two fields with mines at the same tiles hold the same number of mines. */
  lemma {:induction false} SameBombsSameCount(t0: seq<Tile>, t1: seq<Tile>)
    requires |t0| == |t1|
    requires forall i | 0 <= i < |t0| :: IsBomb(t1[i]) == IsBomb(t0[i])
    ensures CountBombs(t1) == CountBombs(t0)
  {
    if |t0| > 0 {
      SameBombsSameCount(t0[..|t0| - 1], t1[..|t1| - 1]);
    }
  }

  /** Turning exactly one mine-free tile into a mine raises the count by exactly one. */
  lemma {:induction false} OneMoreBomb(t0: seq<Tile>, t1: seq<Tile>, j: int)
    requires |t0| == |t1| && 0 <= j < |t0|
    requires !IsBomb(t0[j]) && IsBomb(t1[j])
    requires forall i | 0 <= i < |t0| && i != j :: IsBomb(t1[i]) == IsBomb(t0[i])
    ensures CountBombs(t1) == CountBombs(t0) + 1
  {
    var n := |t0|;
    if j == n - 1 {
      SameBombsSameCount(t0[..n - 1], t1[..n - 1]);
    } else {
      OneMoreBomb(t0[..n - 1], t1[..n - 1], j);
    }
  }

  /** Changing anything but codes keeps the field consistent. */
  lemma SameCodesConsistent(t0: seq<Tile>, t1: seq<Tile>, w: nat, h: nat)
    requires Consistent(t0, w, h) && |t1| == |t0|
    requires forall i | 0 <= i < |t0| :: t1[i].code == t0[i].code
    ensures Consistent(t1, w, h)
  {
    forall a, b | InGrid(w, h, a, b)
      ensures Cell(t1, w, h, a, b).code == Cell(t0, w, h, a, b).code
    {
      IndexInRange(w, h, a, b);
    }
    forall r, c | InGrid(w, h, r, c)
      ensures CellConsistent(t1, w, h, r, c)
    {
      assert CellConsistent(t0, w, h, r, c);
    }
  }

  /** The tiles a sequence of draws lands on, on a field of `n` tiles. */
  function Landed(draws: seq<nat>, n: nat): (s: set<int>)
    requires 0 < n
    ensures forall i | i in s :: 0 <= i < n
  {
    set k | 0 <= k < |draws| :: draws[k] % n
  }

  /** One more draw lands on one more tile. */
  lemma LandedSnoc(draws: seq<nat>, m: nat, n: nat)
    requires 0 < n && m < |draws|
    ensures Landed(draws[..m + 1], n) == Landed(draws[..m], n) + {draws[m] % n}
  {
    assert draws[..m + 1] == draws[..m] + [draws[m]];
  }

  /** The tiles without a mine in `t0` that some draw lands on: the mines the draws add. */
  function NewMines(t0: seq<Tile>, draws: seq<nat>): (s: set<int>)
    requires 0 < |t0|
    ensures forall i | i in s :: 0 <= i < |t0| && !IsBomb(t0[i])
  {
    set i | i in Landed(draws, |t0|) && 0 <= i < |t0| && !IsBomb(t0[i])
  }

  /** `t` holds a mine exactly where `t0` does or where one of the draws `ds` lands. */
  ghost predicate MinesFromDraws(t0: seq<Tile>, t: seq<Tile>, ds: seq<nat>)
  {
    && 0 < |t0| && |t| == |t0|
    && forall i | 0 <= i < |t| :: IsBomb(t[i]) <==> IsBomb(t0[i]) || i in Landed(ds, |t0|)
  }

  /**
    Taking the next draw: a refused draw lands on a mine already there, an
    accepted one adds its tile, and the new mines grow by one exactly when
    the draw was accepted.
   */
  lemma DrawStep(t0: seq<Tile>, before: seq<Tile>, after: seq<Tile>, draws: seq<nat>, m: nat)
    requires m < |draws| && MinesFromDraws(t0, before, draws[..m]) && |after| == |t0|
    requires forall i | 0 <= i < |after| :: IsBomb(after[i]) <==> IsBomb(before[i]) || i == draws[m] % |t0|
    ensures MinesFromDraws(t0, after, draws[..m + 1])
    ensures |NewMines(t0, draws[..m + 1])| ==
      |NewMines(t0, draws[..m])| + if IsBomb(before[draws[m] % |t0|]) then 0 else 1
  {
    var j := draws[m] % |t0|;
    LandedSnoc(draws, m, |t0|);
    if IsBomb(before[j]) {
      assert NewMines(t0, draws[..m + 1]) == NewMines(t0, draws[..m]);
    } else {
      assert j !in NewMines(t0, draws[..m]);
      assert NewMines(t0, draws[..m + 1]) == NewMines(t0, draws[..m]) + {j};
    }
  }

  /**
    Turning a set `s` of mine-free tiles into mines, and changing no other
    tile's mine status, raises the mine count by the size of `s`.
   */
  lemma {:induction false} MinesAdded(t0: seq<Tile>, t1: seq<Tile>, s: set<int>)
    requires |t0| == |t1|
    requires forall i | i in s :: 0 <= i < |t0| && !IsBomb(t0[i])
    requires forall i | 0 <= i < |t0| :: IsBomb(t1[i]) <==> IsBomb(t0[i]) || i in s
    ensures CountBombs(t1) == CountBombs(t0) + |s|
  {
    var n := |t0|;
    if n == 0 {
      assert forall i :: i !in s;
      assert s == {};
    } else {
      var s' := s - {n - 1};
      MinesAdded(t0[..n - 1], t1[..n - 1], s');
      if n - 1 in s {
        assert s == s' + {n - 1};
      } else {
        assert s == s';
      }
    }
  }
}
