/**
  One tile of the mine field: its adjacency code, whether it has been revealed,
  and the player's mark on it; the mark cycle and the glyph a tile is drawn as.
 */
module Tiles {

  /** The code of a tile that holds a mine; codes 0 to 8 count neighbouring mines. */
  const BOMB_CODE := 9

  const UNMARKED := 0
  const MARKED := 1
  const UNKNOWN := 2

  /**
    The source stores `code` and `mark` in a `char`; only these ranges ever
    occur, since codes start at 0 and are only raised below `BOMB_CODE` and
    marks only ever come out of `NextMark`.
   */
  type Code = c: int | 0 <= c <= BOMB_CODE
  type Mark = m: int | UNMARKED <= m <= UNKNOWN

  datatype Tile = Tile(code: Code, revealed: bool, mark: Mark)

  /** A fresh tile: no neighbouring mine counted yet, hidden, unmarked. */
  const Blank := Tile(0, false, UNMARKED)

  predicate IsBomb(t: Tile)
  {
    t.code == BOMB_CODE
  }

  /**
    The mark a tile gets when the player cycles it: unmarked, then marked, then
    unknown, then unmarked again. Any value outside the cycle goes back to
    unmarked, so no value is left as it is.
   */
  function NextMark(m: int): (r: Mark)
    ensures r != m
    ensures UNMARKED <= m <= UNKNOWN ==> r == (m + 1) % 3
    ensures !(UNMARKED <= m <= UNKNOWN) ==> r == UNMARKED
  {
    if m == UNMARKED then MARKED
    else if m == MARKED then UNKNOWN
    else UNMARKED
  }

  /** Cycling a mark three times gives it back, and not sooner. */
  lemma MarkCycleHasPeriodThree(m: Mark)
    ensures NextMark(NextMark(NextMark(m))) == m
    ensures NextMark(m) != m && NextMark(NextMark(m)) != m
  {
  }

  /** The tile after the player cycles its mark: a hidden tile shows the next mark, a revealed one looks the same. */
  function Cycled(t: Tile): (r: Tile)
    ensures !t.revealed ==> FaceOf(r) == Covered(NextMark(t.mark))
    ensures t.revealed ==> FaceOf(r) == FaceOf(t)
    ensures r.code == t.code && r.revealed == t.revealed
    ensures r.mark == NextMark(t.mark)
  {
    t.(mark := NextMark(t.mark))
  }

  /** The tile after the player reveals it: it shows its code from then on. */
  function Uncovered(t: Tile): (r: Tile)
    ensures FaceOf(r) == Shown(t.code)
    ensures IsBomb(r) == IsBomb(t) && r.mark == t.mark
  {
    t.(revealed := true)
  }

  /** Revealing is idempotent, and cycling the mark never hides a revealed tile. */
  lemma RevealIdempotent(t: Tile)
    ensures Uncovered(Uncovered(t)) == Uncovered(t)
    ensures Cycled(Uncovered(t)).revealed
  {
  }

  // The characters a tile is drawn with.
  const EMPTY_GLYPH := '.'
  const TILE_GLYPH := '#'
  const BOMB_GLYPH := '@'
  const MARKED_GLYPH := 'X'
  const UNKNOWN_GLYPH := '?'

  /**
    The character a tile is drawn as: a revealed tile shows its contents (an
    empty cell, a mine, or its count of neighbouring mines as a digit), a hidden
    tile shows its mark.
   */
  function Glyph(t: Tile): (g: char)
    ensures t.revealed ==> g in [EMPTY_GLYPH, BOMB_GLYPH, '1', '2', '3', '4', '5', '6', '7', '8']
    ensures !t.revealed ==> g in [TILE_GLYPH, MARKED_GLYPH, UNKNOWN_GLYPH]
  {
    if t.revealed then
      if t.code == 0 then EMPTY_GLYPH
      else if t.code == BOMB_CODE then BOMB_GLYPH
      else ('0' as int + t.code) as char
    else
      if t.mark == UNMARKED then TILE_GLYPH
      else if t.mark == MARKED then MARKED_GLYPH
      else UNKNOWN_GLYPH
  }

  /** What a player can see of a tile: its code once revealed, otherwise its mark. */
  datatype Face = Shown(code: Code) | Covered(mark: Mark)

  function FaceOf(t: Tile): Face
  {
    if t.revealed then Shown(t.code) else Covered(t.mark)
  }

  datatype Option<T> = None | Some(value: T)

  /** Reads a glyph back: the face it was drawn from, or `None` for any other character. */
  function ReadGlyph(g: char): Option<Face>
  {
    if g == EMPTY_GLYPH then Some(Shown(0))
    else if g == BOMB_GLYPH then Some(Shown(BOMB_CODE))
    else if '1' <= g <= '8' then Some(Shown(g as int - '0' as int))
    else if g == TILE_GLYPH then Some(Covered(UNMARKED))
    else if g == MARKED_GLYPH then Some(Covered(MARKED))
    else if g == UNKNOWN_GLYPH then Some(Covered(UNKNOWN))
    else None
  }

  /** Reading a drawn glyph gives back exactly what the player can see of the tile. */
  lemma GlyphRoundTrip(t: Tile)
    ensures ReadGlyph(Glyph(t)) == Some(FaceOf(t))
  {
  }

  /** Two tiles are drawn alike exactly when the player sees the same of both. */
  lemma GlyphDistinguishesFaces(t1: Tile, t2: Tile)
    ensures Glyph(t1) == Glyph(t2) <==> FaceOf(t1) == FaceOf(t2)
  {
    GlyphRoundTrip(t1);
    GlyphRoundTrip(t2);
  }
}
