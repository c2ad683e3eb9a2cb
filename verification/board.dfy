/** Tile numbering of the 10x10 board built by `createBoardGrid`.

  The DOM grid is filled row by row from the top; row `r` (0 = top row) and
  column `c` (0 = left column) carry a tile number chosen so that consecutive
  tiles snake back and forth across the board (boustrophedon order).
 */
module Board {

  const Size: int := 10
  const LastTile: int := 100

  predicate IsCell(r: int, c: int) {
    0 <= r < Size && 0 <= c < Size
  }

  predicate IsTile(t: int) {
    1 <= t <= LastTile
  }

  /** Lowest and highest tile numbers held by DOM row `r`. */
  function RowLow(r: int): int { (Size - 1 - r) * Size + 1 }
  function RowHigh(r: int): int { (Size - r) * Size }

  /** The number written on DOM cell (r, c). */
  function TileAt(r: int, c: int): (t: int)
    requires IsCell(r, c)
    ensures IsTile(t)
    ensures RowLow(r) <= t <= RowHigh(r)
  {
    if r % 2 == 0 then (10 - r) * 10 - c else (10 - r - 1) * 10 + c + 1
  }

  /** Inverse of `TileAt`: the DOM row of tile `t`. */
  function RowOf(t: int): (r: int)
    requires IsTile(t)
    ensures 0 <= r < Size
    ensures RowLow(r) <= t <= RowHigh(r)
  {
    9 - (t - 1) / 10
  }

  /** Inverse of `TileAt`: the DOM column of tile `t`. */
  function ColOf(t: int): (c: int)
    requires IsTile(t)
    ensures 0 <= c < Size
  {
    var offset := (t - 1) % 10;
    if RowOf(t) % 2 == 0 then 9 - offset else offset
  }

  /** Reading a cell's number and locating it again gives back the cell. */
  lemma CellRoundTrip(r: int, c: int)
    requires IsCell(r, c)
    ensures RowOf(TileAt(r, c)) == r
    ensures ColOf(TileAt(r, c)) == c
  {
    var t := TileAt(r, c);
    assert t - 1 == (9 - r) * 10 + (if r % 2 == 0 then 9 - c else c);
    assert (t - 1) / 10 == 9 - r;
    assert (t - 1) % 10 == (if r % 2 == 0 then 9 - c else c);
  }

  /** Every tile 1..100 is written on exactly the cell `(RowOf(t), ColOf(t))`. */
  lemma TileRoundTrip(t: int)
    requires IsTile(t)
    ensures IsCell(RowOf(t), ColOf(t))
    ensures TileAt(RowOf(t), ColOf(t)) == t
  {
    var q, m := (t - 1) / 10, (t - 1) % 10;
    assert t - 1 == q * 10 + m;
  }

  /** The numbering is injective on the grid ... */
  lemma TileAtInjective(r1: int, c1: int, r2: int, c2: int)
    requires IsCell(r1, c1) && IsCell(r2, c2)
    requires TileAt(r1, c1) == TileAt(r2, c2)
    ensures r1 == r2 && c1 == c2
  {
    CellRoundTrip(r1, c1);
    CellRoundTrip(r2, c2);
  }

  /** ... and onto the tiles 1..100, so it is a bijection. */
  lemma TileAtOnto(t: int)
    requires IsTile(t)
    ensures exists r, c :: IsCell(r, c) && TileAt(r, c) == t
  {
    TileRoundTrip(t);
  }

  /** Row `r` holds exactly the tiles RowLow(r) .. RowHigh(r). */
  lemma RowHoldsExactly(r: int, t: int)
    requires 0 <= r < Size
    ensures (RowLow(r) <= t <= RowHigh(r)) <==> (exists c :: 0 <= c < Size && TileAt(r, c) == t)
  {
    if RowLow(r) <= t <= RowHigh(r) {
      TileRoundTrip(t);
      assert RowOf(t) == r;
      assert TileAt(r, ColOf(t)) == t;
    }
  }

  /** Cells that share a side. */
  predicate Neighbours(r1: int, c1: int, r2: int, c2: int) {
    (r1 == r2 && (c1 - c2 == 1 || c2 - c1 == 1)) || (c1 == c2 && (r1 - r2 == 1 || r2 - r1 == 1))
  }

  /** The cell of tile `t`, read off the quotient and remainder of `t - 1` by 10. */
  lemma CellOfParts(t: int, q: int, m: int)
    requires 0 <= q < Size && 0 <= m < Size && t - 1 == q * 10 + m
    ensures IsTile(t)
    ensures RowOf(t) == 9 - q
    ensures ColOf(t) == if (9 - q) % 2 == 0 then 9 - m else m
  {
    assert (t - 1) / 10 == q && (t - 1) % 10 == m;
  }

  /** Boustrophedon order: each tile's successor sits on a neighbouring cell. */
  lemma ConsecutiveTilesAdjacent(t: int)
    requires 1 <= t < LastTile
    ensures Neighbours(RowOf(t), ColOf(t), RowOf(t + 1), ColOf(t + 1))
  {
    var q, m := (t - 1) / 10, (t - 1) % 10;
    CellOfParts(t, q, m);
    if m < 9 {
      CellOfParts(t + 1, q, m + 1);
    } else {
      assert (8 - q) % 2 != (9 - q) % 2;
      CellOfParts(t + 1, q + 1, 0);
    }
  }

  /** Position of DOM cell (r, c) in the order `createBoardGrid` appends cells. */
  function CellIndex(r: int, c: int): int { r * Size + c }

  /** The tile numbers in the order the cells are appended to the board. */
  method CreateBoardGrid() returns (ids: seq<int>)
    ensures |ids| == Size * Size
    ensures forall r, c :: IsCell(r, c) ==> ids[CellIndex(r, c)] == TileAt(r, c)
    ensures forall t :: IsTile(t) ==> ids[CellIndex(RowOf(t), ColOf(t))] == t
    ensures forall k :: 0 <= k < |ids| ==> IsTile(ids[k])
  {
    ids := [];
    var r := 0;
    while r < Size
      invariant 0 <= r <= Size
      invariant |ids| == r * Size
      invariant forall r', c :: 0 <= r' < r && 0 <= c < Size ==> ids[CellIndex(r', c)] == TileAt(r', c)
    {
      var c := 0;
      while c < Size
        invariant 0 <= c <= Size
        invariant |ids| == r * Size + c
        invariant forall r', c' :: 0 <= r' < r && 0 <= c' < Size ==> ids[CellIndex(r', c')] == TileAt(r', c')
        invariant forall c' :: 0 <= c' < c ==> ids[CellIndex(r, c')] == TileAt(r, c')
      {
        var num := if r % 2 == 0 then (10 - r) * 10 - c else (10 - r - 1) * 10 + c + 1;
        ids := ids + [num];
        c := c + 1;
      }
      r := r + 1;
    }
    forall t | IsTile(t)
      ensures ids[CellIndex(RowOf(t), ColOf(t))] == t
    {
      TileRoundTrip(t);
    }
    forall k | 0 <= k < |ids|
      ensures IsTile(ids[k])
    {
      assert k == CellIndex(k / Size, k % Size);
    }
  }
}
