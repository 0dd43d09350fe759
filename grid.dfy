/** The 8x8 board matrix shared by the move engine and the board class.
    A cell holds a small integer: 0 empty, 1 white man, 2 black man,
    3 white king, 4 black king. Parity gives the side (odd is white),
    a value above 2 is a king. */
module Grid {

  /** The board matrix, row-major: `mtx[i][j]` is row i, column j. */
  type Mtx = seq<seq<int>>

  const Empty := 0
  const WhiteMan := 1
  const BlackMan := 2
  const WhiteKing := 3
  const BlackKing := 4

  /** A move: from (x, y) to (x2, y2), capturing the piece on (xb, yb);
      xb = yb = -1 means "no capture". */
  datatype MovePos = MovePos(x: int, y: int, x2: int, y2: int, xb: int, yb: int)

  /** A move that captures nothing. */
  function Step(x: int, y: int, x2: int, y2: int): (m: MovePos)
    ensures m.xb == -1 && m.yb == -1
    ensures m.x == x && m.y == y && m.x2 == x2 && m.y2 == y2
  {
    MovePos(x, y, x2, y2, -1, -1)
  }

  predicate OnBoard(i: int, j: int) {
    0 <= i < 8 && 0 <= j < 8
  }

  /** The matrix has the shape 8x8. */
  predicate IsMtx(g: Mtx) {
    |g| == 8 && forall i :: 0 <= i < 8 ==> |g[i]| == 8
  }

  /** The matrix has the shape 8x8 and every cell holds one of the five codes. */
  predicate WellFormed(g: Mtx) {
    IsMtx(g) && forall i, j :: 0 <= i < 8 && 0 <= j < 8 ==> Empty <= g[i][j] <= BlackKing
  }

  /** `g` with cell (i, j) replaced by v. */
  function SetCell(g: Mtx, i: int, j: int, v: int): (r: Mtx)
    requires IsMtx(g) && OnBoard(i, j)
    ensures IsMtx(r)
    ensures r[i][j] == v
    ensures forall a, b :: OnBoard(a, b) && (a != i || b != j) ==> r[a][b] == g[a][b]
  {
    g[i := g[i][j := v]]
  }

  /** Two 8x8 matrices with the same cells are the same matrix. */
  lemma MtxExt(g: Mtx, h: Mtx)
    requires IsMtx(g) && IsMtx(h)
    requires forall a, b :: OnBoard(a, b) ==> g[a][b] == h[a][b]
    ensures g == h
  {
    forall a | 0 <= a < 8
      ensures g[a] == h[a]
    {
      assert forall b :: 0 <= b < 8 ==> g[a][b] == h[a][b] by {
        forall b | 0 <= b < 8 ensures g[a][b] == h[a][b] {
          assert OnBoard(a, b);
        }
      }
    }
  }

  /** The code a piece has after landing on row `row`: a white man reaching
      row 0 or a black man reaching row 7 becomes a king of its side. */
  function Promote(c: int, row: int): (r: int)
    ensures r != c <==> (c == WhiteMan && row == 0) || (c == BlackMan && row == 7)
    ensures r % 2 == c % 2
    ensures r != c ==> r == c + 2 && r > 2
    ensures Empty <= c <= BlackKing ==> Empty <= r <= BlackKing
  {
    if (c == WhiteMan && row == 0) || (c == BlackMan && row == 7) then c + 2 else c
  }

  /** Moving the piece on (i, j) to (i2, j2) with promotion: the source
      becomes empty and the destination receives the (possibly promoted)
      source code. */
  function Relocate(g: Mtx, i: int, j: int, i2: int, j2: int): (r: Mtx)
    requires IsMtx(g) && OnBoard(i, j) && OnBoard(i2, j2)
    ensures IsMtx(r)
    ensures r[i][j] == Empty
    ensures (i != i2 || j != j2) ==> r[i2][j2] == Promote(g[i][j], i2)
    ensures forall a, b :: OnBoard(a, b) && (a != i || b != j) && (a != i2 || b != j2) ==> r[a][b] == g[a][b]
  {
    SetCell(SetCell(g, i2, j2, Promote(g[i][j], i2)), i, j, Empty)
  }

  /** The coordinates a move touches lie on the board (the captured square
      only when there is one). */
  predicate MoveOnBoard(t: MovePos) {
    OnBoard(t.x, t.y) && OnBoard(t.x2, t.y2) && (t.xb != -1 ==> OnBoard(t.xb, t.yb))
  }

  /** `g` with the captured square of `t` emptied, if `t` captures. */
  function ClearCaptured(g: Mtx, t: MovePos): (r: Mtx)
    requires IsMtx(g) && MoveOnBoard(t)
    ensures IsMtx(r)
    ensures t.xb != -1 ==> r[t.xb][t.yb] == Empty
    ensures forall a, b :: OnBoard(a, b) && (t.xb == -1 || a != t.xb || b != t.yb) ==> r[a][b] == g[a][b]
  {
    if t.xb != -1 then SetCell(g, t.xb, t.yb, Empty) else g
  }

  // ---------------------------------------------------------------------
  // Counting cells

  /** The number of cells of `row` holding `c`. */
  function CountRow(row: seq<int>, c: int): (n: nat)
    ensures n <= |row|
  {
    if row == [] then 0
    else CountRow(row[..|row| - 1], c) + (if row[|row| - 1] == c then 1 else 0)
  }

  /** The number of cells of `g` holding `c`. */
  function Count(g: seq<seq<int>>, c: int): nat {
    if g == [] then 0 else Count(g[..|g| - 1], c) + CountRow(g[|g| - 1], c)
  }

  /** Sum over the rows i of `g` of (number of cells holding c in row i)
      times the row's weight: 7 - i when `towardRowZero`, i otherwise. */
  function WeightedCount(g: seq<seq<int>>, c: int, towardRowZero: bool): nat
    requires |g| <= 8
  {
    if g == [] then 0
    else
      var i := |g| - 1;
      WeightedCount(g[..i], c, towardRowZero) + CountRow(g[i], c) * (if towardRowZero then 7 - i else i)
  }

  /** No cell of `g` holds `c` exactly when the count is zero. */
  lemma {:induction false} CountZero(g: seq<seq<int>>, c: int)
    ensures Count(g, c) == 0 <==> forall i, j :: 0 <= i < |g| && 0 <= j < |g[i]| ==> g[i][j] != c
  {
    if g != [] {
      var k := |g| - 1;
      CountZero(g[..k], c);
      CountRowZero(g[k], c);
      assert forall i :: 0 <= i < k ==> g[..k][i] == g[i];
    }
  }

  lemma {:induction false} CountRowZero(row: seq<int>, c: int)
    ensures CountRow(row, c) == 0 <==> forall j :: 0 <= j < |row| ==> row[j] != c
  {
    if row != [] {
      var k := |row| - 1;
      CountRowZero(row[..k], c);
      assert forall j :: 0 <= j < k ==> row[..k][j] == row[j];
    }
  }

  /** The weighted count is zero whenever the plain count is. */
  lemma {:induction false} WeightedCountZero(g: seq<seq<int>>, c: int, towardRowZero: bool)
    requires |g| <= 8
    ensures Count(g, c) == 0 ==> WeightedCount(g, c, towardRowZero) == 0
  {
    if g != [] {
      WeightedCountZero(g[..|g| - 1], c, towardRowZero);
    }
  }

  // ---------------------------------------------------------------------
  // The starting position

  /** The code of cell (i, j) in the standard starting position. */
  function StartCode(i: int, j: int): int {
    if i < 3 && (i + j) % 2 == 1 then BlackMan
    else if i > 4 && (i + j) % 2 == 1 then WhiteMan
    else Empty
  }

  function StartMtx(): (g: Mtx)
    ensures WellFormed(g)
    ensures forall i, j :: OnBoard(i, j) ==> g[i][j] == StartCode(i, j)
  {
    seq(8, i => seq(8, j => StartCode(i, j)))
  }

  /** An 8x8 matrix of empty cells. */
  function EmptyMtx(): (g: Mtx)
    ensures WellFormed(g)
    ensures forall i, j :: OnBoard(i, j) ==> g[i][j] == Empty
  {
    seq(8, i => seq(8, j => Empty))
  }

  function Hit(v: int, c: int): nat {
    if v == c then 1 else 0
  }

  lemma CountRowSnoc(row: seq<int>, k: nat, c: int)
    requires k < |row|
    ensures CountRow(row[..k + 1], c) == CountRow(row[..k], c) + Hit(row[k], c)
  {
    assert row[..k + 1][..k] == row[..k];
  }

  /** The count of an 8-cell row, written out cell by cell. */
  lemma CountRow8(row: seq<int>, c: int)
    requires |row| == 8
    ensures CountRow(row, c) == Hit(row[0], c) + Hit(row[1], c) + Hit(row[2], c) + Hit(row[3], c)
                              + Hit(row[4], c) + Hit(row[5], c) + Hit(row[6], c) + Hit(row[7], c)
  {
    assert row[..0] == [];
    CountRowSnoc(row, 0, c);
    CountRowSnoc(row, 1, c);
    CountRowSnoc(row, 2, c);
    CountRowSnoc(row, 3, c);
    CountRowSnoc(row, 4, c);
    CountRowSnoc(row, 5, c);
    CountRowSnoc(row, 6, c);
    CountRowSnoc(row, 7, c);
    assert row[..8] == row;
  }

  lemma CountSnoc(g: Mtx, k: nat, c: int)
    requires k < |g|
    ensures Count(g[..k + 1], c) == Count(g[..k], c) + CountRow(g[k], c)
  {
    assert g[..k + 1][..k] == g[..k];
  }

  /** The count of an 8-row matrix, written out row by row. */
  lemma Count8(g: Mtx, c: int)
    requires |g| == 8
    ensures Count(g, c) == CountRow(g[0], c) + CountRow(g[1], c) + CountRow(g[2], c) + CountRow(g[3], c)
                         + CountRow(g[4], c) + CountRow(g[5], c) + CountRow(g[6], c) + CountRow(g[7], c)
  {
    assert g[..0] == [];
    CountSnoc(g, 0, c);
    CountSnoc(g, 1, c);
    CountSnoc(g, 2, c);
    CountSnoc(g, 3, c);
    CountSnoc(g, 4, c);
    CountSnoc(g, 5, c);
    CountSnoc(g, 6, c);
    CountSnoc(g, 7, c);
    assert g[..8] == g;
  }

  /** Row i of the starting position: four men on the squares with i + j odd
      in rows 0-2 (black) and 5-7 (white), nothing in rows 3 and 4. */
  lemma StartRowCount(i: int, c: int)
    requires 0 <= i < 8
    ensures CountRow(StartMtx()[i], c) ==
      if 3 <= i <= 4 then 8 * Hit(Empty, c)
      else 4 * Hit(Empty, c) + 4 * Hit(if i < 3 then BlackMan else WhiteMan, c)
  {
    var row := StartMtx()[i];
    CountRow8(row, c);
    assert row[0] == StartCode(i, 0) && row[1] == StartCode(i, 1);
    assert row[2] == StartCode(i, 2) && row[3] == StartCode(i, 3);
    assert row[4] == StartCode(i, 4) && row[5] == StartCode(i, 5);
    assert row[6] == StartCode(i, 6) && row[7] == StartCode(i, 7);
  }

  /** The starting position has 12 men of each side, no kings and 40 empty cells. */
  lemma StartMtxCounts()
    ensures Count(StartMtx(), WhiteMan) == 12
    ensures Count(StartMtx(), BlackMan) == 12
    ensures Count(StartMtx(), WhiteKing) == 0
    ensures Count(StartMtx(), BlackKing) == 0
    ensures Count(StartMtx(), Empty) == 40
  {
    forall c | 0 <= c <= 4
      ensures Count(StartMtx(), c) == 40 * Hit(Empty, c) + 12 * Hit(BlackMan, c) + 12 * Hit(WhiteMan, c)
    {
      Count8(StartMtx(), c);
      StartRowCount(0, c);
      StartRowCount(1, c);
      StartRowCount(2, c);
      StartRowCount(3, c);
      StartRowCount(4, c);
      StartRowCount(5, c);
      StartRowCount(6, c);
      StartRowCount(7, c);
    }
  }
}
