/**
  Row-major addressing of the mine field: the tile at row `r`, column `c` of a
  field `w` columns wide is stored at flat index `r * w + c`.
 */
module Grid {

  /** `(r, c)` lies on a field of `h` rows and `w` columns. */
  predicate InGrid(w: int, h: int, r: int, c: int)
  {
    0 <= r < h && 0 <= c < w
  }

  /** The flat index of row `r`, column `c`. */
  function Index(w: int, r: int, c: int): int
  {
    r * w + c
  }

  lemma MulMonotone(a: int, b: int, k: nat)
    requires a <= b
    ensures a * k <= b * k
  {
    assert b * k - a * k == (b - a) * k;
  }

  /** Every in-bounds position has an index inside the flat tile sequence. */
  lemma IndexInRange(w: nat, h: nat, r: int, c: int)
    requires InGrid(w, h, r, c)
    ensures 0 <= Index(w, r, c) < w * h
  {
    MulMonotone(0, r, w);
    MulMonotone(r, h - 1, w);
    assert (h - 1) * w == h * w - w;
  }

  /** The index of an in-bounds position gives back its row and column by division and remainder. */
  lemma IndexCoords(w: nat, h: nat, r: int, c: int)
    requires InGrid(w, h, r, c)
    ensures Index(w, r, c) / w == r && Index(w, r, c) % w == c
  {
    var i := Index(w, r, c);
    var q, m := i / w, i % w;
    assert i == q * w + m && 0 <= m < w;
    if q < r {
      MulMonotone(q + 1, r, w);
      assert false;
    } else if r < q {
      MulMonotone(r + 1, q, w);
      assert false;
    }
  }

  /** Two in-bounds positions share an index only when they are the same position. */
  lemma IndexInjective(w: nat, h: nat, r1: int, c1: int, r2: int, c2: int)
    requires InGrid(w, h, r1, c1) && InGrid(w, h, r2, c2)
    ensures Index(w, r1, c1) == Index(w, r2, c2) <==> r1 == r2 && c1 == c2
  {
    IndexCoords(w, h, r1, c1);
    IndexCoords(w, h, r2, c2);
  }

  /** Every flat index of a `w * h` field is the index of an in-bounds position. */
  lemma CoordsOfIndex(w: nat, h: nat, i: int)
    requires 0 <= i < w * h
    ensures w > 0 && InGrid(w, h, i / w, i % w) && Index(w, i / w, i % w) == i
  {
    if w == 0 {
      assert false;
    }
    var q := i / w;
    assert i == q * w + i % w;
    if h <= q {
      MulMonotone(h, q, w);
      assert false;
    }
  }
}
