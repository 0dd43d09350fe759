/** The move engine: applying a move to a copy of the matrix, the terminal
    scores, move generation for one piece and for one side with the
    forced-capture rule, and the walk over the recorded best-move chain. */
module GameLogic {
  import opened Grid

  /** The score that stands for "the side in the denominator has no pieces". */
  const INF := 1_000_000_000

  // ---------------------------------------------------------------------
  // Applying a move

  /** True when `t` captures the piece on (a, b). */
  predicate CapturesSquare(t: MovePos, a: int, b: int) {
    t.xb != -1 && a == t.xb && b == t.yb
  }

  /** The matrix after `turn`: the captured cell (if any) is emptied first,
      then the piece on (x, y) moves to (x2, y2), promoted if a white man
      lands on row 0 or a black man on row 7. The caller's matrix is a
      value and is not changed. */
  function MakeTurn(mtx: Mtx, turn: MovePos): (r: Mtx)
    requires IsMtx(mtx) && MoveOnBoard(turn)
    ensures IsMtx(r)
    ensures r[turn.x][turn.y] == Empty
    ensures CapturesSquare(turn, turn.xb, turn.yb) && (turn.xb != turn.x2 || turn.yb != turn.y2)
            ==> r[turn.xb][turn.yb] == Empty
    ensures (turn.x != turn.x2 || turn.y != turn.y2) ==>
            r[turn.x2][turn.y2] ==
            Promote(if CapturesSquare(turn, turn.x, turn.y) then Empty else mtx[turn.x][turn.y], turn.x2)
    ensures forall a, b ::
              (OnBoard(a, b) && (a != turn.x || b != turn.y) && (a != turn.x2 || b != turn.y2) && !CapturesSquare(turn, a, b))
              ==> r[a][b] == mtx[a][b]
  {
    Relocate(ClearCaptured(mtx, turn), turn.x, turn.y, turn.x2, turn.y2)
  }

  // ---------------------------------------------------------------------
  // Terminal scores

  /** A score: one of the two sentinels, or the ratio num / den. */
  datatype Score = Exact(value: int) | Quotient(num: int, den: int)

  /** Men and kings of white (odd codes) or black (even codes). */
  function Material(g: Mtx, white: bool): nat {
    if white then Count(g, WhiteMan) + Count(g, WhiteKing) else Count(g, BlackMan) + Count(g, BlackKing)
  }

  /** The evaluation of a position for the bot. With `firstBotColor` the
      score is black's material over white's, otherwise white's over
      black's (the counts are swapped). Kings weigh 4, or 5 in the
      `potential` mode, where each man also earns 0.05 per row advanced;
      in that mode numerator and denominator are both scaled by 20 so
      that they stay integers. */
  function CalcScore(mtx: Mtx, firstBotColor: bool, potential: bool): (s: Score)
    requires IsMtx(mtx)
    ensures s == Exact(INF) <==> Material(mtx, firstBotColor) == 0
    ensures s == Exact(0) <==> Material(mtx, firstBotColor) > 0 && Material(mtx, !firstBotColor) == 0
    ensures s.Quotient? ==> s.num > 0 && s.den > 0
  {
    var scale := if potential then 20 else 1;
    var w0 := scale * Count(mtx, WhiteMan) + (if potential then WeightedCount(mtx, WhiteMan, true) else 0);
    var b0 := scale * Count(mtx, BlackMan) + (if potential then WeightedCount(mtx, BlackMan, false) else 0);
    var wq0, bq0 := scale * Count(mtx, WhiteKing), scale * Count(mtx, BlackKing);
    var w, wq, b, bq := if firstBotColor then w0 else b0, if firstBotColor then wq0 else bq0,
                        if firstBotColor then b0 else w0, if firstBotColor then bq0 else wq0;
    WeightedCountZero(mtx, WhiteMan, true);
    WeightedCountZero(mtx, BlackMan, false);
    if w + wq == 0 then Exact(INF)
    else if b + bq == 0 then Exact(0)
    else
      var qCoef := if potential then 5 else 4;
      Quotient(b + bq * qCoef, w + wq * qCoef)
  }

  // ---------------------------------------------------------------------
  // Geometry of diagonal rays

  /** The coordinate d steps from x in direction s (negative s is -1, else +1). */
  function Ray(x: int, s: int, d: int): int {
    if s < 0 then x - d else x + d
  }

  /** The direction of a displacement. */
  function Dir(a: int): int {
    if a < 0 then -1 else 1
  }

  function Abs(a: int): nat {
    if a < 0 then -a else a
  }

  predicate IsDir(s: int) {
    s == -1 || s == 1
  }

  /** The squares at distances lo .. hi - 1 from (x, y) along (di, dj) are
      on the board and empty. */
  ghost predicate EmptyOnRay(g: Mtx, x: int, y: int, di: int, dj: int, lo: int, hi: int)
    requires IsMtx(g)
  {
    forall d :: lo <= d < hi ==> OnBoard(Ray(x, di, d), Ray(y, dj, d)) && g[Ray(x, di, d)][Ray(y, dj, d)] == Empty
  }

  /** The first distance from d on along the ray that leaves the board or
      holds a piece. */
  function Stop(g: Mtx, x: int, y: int, di: int, dj: int, d: nat): (k: nat)
    requires IsMtx(g) && OnBoard(x, y)
    ensures d <= k
    ensures EmptyOnRay(g, x, y, di, dj, d, k)
    ensures !OnBoard(Ray(x, di, k), Ray(y, dj, k)) || g[Ray(x, di, k)][Ray(y, dj, k)] != Empty
    decreases 8 - d
  {
    if !OnBoard(Ray(x, di, d), Ray(y, dj, d)) || g[Ray(x, di, d)][Ray(y, dj, d)] != Empty then d
    else Stop(g, x, y, di, dj, d + 1)
  }

  /** The first blocked distance is unique. */
  lemma StopIs(g: Mtx, x: int, y: int, di: int, dj: int, d: nat, k: nat)
    requires IsMtx(g) && OnBoard(x, y) && d <= k
    requires EmptyOnRay(g, x, y, di, dj, d, k)
    requires !OnBoard(Ray(x, di, k), Ray(y, dj, k)) || g[Ray(x, di, k)][Ray(y, dj, k)] != Empty
    ensures Stop(g, x, y, di, dj, d) == k
  {
  }

  /** Squares known to be empty lie before the first blocked distance. */
  lemma StopBeyond(g: Mtx, x: int, y: int, di: int, dj: int, d: nat, k: nat)
    requires IsMtx(g) && OnBoard(x, y) && d <= k
    requires EmptyOnRay(g, x, y, di, dj, d, k)
    ensures k <= Stop(g, x, y, di, dj, d)
  {
  }

  /** The moves from (x, y) to the squares at distances lo .. hi - 1 along
      (di, dj), in increasing distance, all recording (xb, yb). */
  function Landings(x: int, y: int, di: int, dj: int, lo: int, hi: int, xb: int, yb: int): (r: seq<MovePos>)
    requires lo <= hi
    ensures |r| == hi - lo
    ensures forall n :: 0 <= n < |r| ==> r[n] == MovePos(x, y, Ray(x, di, lo + n), Ray(y, dj, lo + n), xb, yb)
  {
    seq(hi - lo, n => MovePos(x, y, Ray(x, di, lo + n), Ray(y, dj, lo + n), xb, yb))
  }

  lemma LandingsNone(x: int, y: int, di: int, dj: int, lo: int, xb: int, yb: int)
    ensures Landings(x, y, di, dj, lo, lo, xb, yb) == []
  {
  }

  lemma LandingsSnoc(x: int, y: int, di: int, dj: int, lo: int, hi: int, xb: int, yb: int)
    requires lo <= hi
    ensures Landings(x, y, di, dj, lo, hi + 1, xb, yb)
         == Landings(x, y, di, dj, lo, hi, xb, yb) + [MovePos(x, y, Ray(x, di, hi), Ray(y, dj, hi), xb, yb)]
  {
  }

  /** Membership in a run of landings, without a quantifier. */
  lemma LandingsMember(x: int, y: int, di: int, dj: int, lo: int, hi: int, xb: int, yb: int, m: MovePos)
    requires 0 <= lo <= hi && IsDir(di) && IsDir(dj)
    ensures m in Landings(x, y, di, dj, lo, hi, xb, yb) <==>
            && m.x == x && m.y == y && m.xb == xb && m.yb == yb
            && lo <= Abs(m.x2 - x) < hi
            && m.x2 == Ray(x, di, Abs(m.x2 - x)) && m.y2 == Ray(y, dj, Abs(m.x2 - x))
  {
    var r := Landings(x, y, di, dj, lo, hi, xb, yb);
    var d := Abs(m.x2 - x);
    if && m.x == x && m.y == y && m.xb == xb && m.yb == yb && lo <= d < hi
       && m.x2 == Ray(x, di, d) && m.y2 == Ray(y, dj, d) {
      assert r[d - lo] == m;
    }
    if m in r {
      var n :| 0 <= n < |r| && r[n] == m;
    }
  }

  // ---------------------------------------------------------------------
  // The moves of one piece, as the scans produce them

  predicate IsMan(c: int) {
    c == WhiteMan || c == BlackMan
  }

  /** A piece of code c can be captured by the mover of code t. */
  predicate Foe(c: int, t: int) {
    c != Empty && c % 2 != t % 2
  }

  /** The row a man of code c on row x steps to: white (odd) towards row 0,
      black towards row 7. */
  function Forward(c: int, x: int): int {
    if c % 2 == 1 then x - 1 else x + 1
  }

  /** The four diagonal directions in the order of the scans:
      (-1,-1), (-1,1), (1,-1), (1,1). */
  function DirX(t: int): int {
    if t < 2 then -1 else 1
  }

  function DirY(t: int): int {
    if t % 2 == 0 then -1 else 1
  }

  /** The king capture on one ray: jump the first piece met if it is a foe,
      landing on any empty square after it up to the next piece. */
  function CaptureRay(g: Mtx, x: int, y: int, di: int, dj: int): seq<MovePos>
    requires IsMtx(g) && OnBoard(x, y)
  {
    CaptureFrom(g, x, y, di, dj, Stop(g, x, y, di, dj, 1))
  }

  /** The captures over the piece at distance k1, if it is on the board
      and of the other parity than the mover. */
  function CaptureFrom(g: Mtx, x: int, y: int, di: int, dj: int, k1: nat): seq<MovePos>
    requires IsMtx(g) && OnBoard(x, y)
  {
    var xb, yb := Ray(x, di, k1), Ray(y, dj, k1);
    if OnBoard(xb, yb) && g[xb][yb] % 2 != g[x][y] % 2 then
      Landings(x, y, di, dj, k1 + 1, Stop(g, x, y, di, dj, k1 + 1), xb, yb)
    else []
  }

  /** The king slides on one ray: every empty square up to the first piece. */
  function SlideRay(g: Mtx, x: int, y: int, di: int, dj: int): seq<MovePos>
    requires IsMtx(g) && OnBoard(x, y)
  {
    Landings(x, y, di, dj, 1, Stop(g, x, y, di, dj, 1), -1, -1)
  }

  function RayMoves(g: Mtx, x: int, y: int, t: int, caps: bool): seq<MovePos>
    requires IsMtx(g) && OnBoard(x, y)
  {
    if caps then CaptureRay(g, x, y, DirX(t), DirY(t)) else SlideRay(g, x, y, DirX(t), DirY(t))
  }

  /** The king's captures (or slides) on the first n directions. */
  function KingMovesUpTo(g: Mtx, x: int, y: int, n: nat, caps: bool): seq<MovePos>
    requires IsMtx(g) && OnBoard(x, y)
  {
    if n == 0 then [] else KingMovesUpTo(g, x, y, n - 1, caps) + RayMoves(g, x, y, n - 1, caps)
  }

  /** The man's jump to (i, j) over the midpoint, if (i, j) is on the board
      and empty and the midpoint holds a foe. */
  function ManJump(g: Mtx, x: int, y: int, i: int, j: int): seq<MovePos>
    requires IsMtx(g) && OnBoard(x, y)
  {
    if !OnBoard(i, j) then []
    else
      var xb, yb := (x + i) / 2, (y + j) / 2;
      if g[i][j] != Empty || g[xb][yb] == Empty || g[xb][yb] % 2 == g[x][y] % 2 then []
      else [MovePos(x, y, i, j, xb, yb)]
  }

  /** The man's jumps in the first n of the order (x-2,y-2), (x-2,y+2),
      (x+2,y-2), (x+2,y+2). */
  function ManJumpsUpTo(g: Mtx, x: int, y: int, n: nat): seq<MovePos>
    requires IsMtx(g) && OnBoard(x, y)
  {
    if n == 0 then []
    else ManJumpsUpTo(g, x, y, n - 1) + ManJump(g, x, y, x + 2 * DirX(n - 1), y + 2 * DirY(n - 1))
  }

  /** The man's step to (i, j), if it is on the board and empty. */
  function ManStep(g: Mtx, x: int, y: int, i: int, j: int): seq<MovePos>
    requires IsMtx(g) && OnBoard(x, y)
  {
    if !OnBoard(i, j) || g[i][j] != Empty then [] else [Step(x, y, i, j)]
  }

  function ManSteps(g: Mtx, x: int, y: int): seq<MovePos>
    requires IsMtx(g) && OnBoard(x, y)
  {
    var i := Forward(g[x][y], x);
    ManStep(g, x, y, i, y - 1) + ManStep(g, x, y, i, y + 1)
  }

  /** The captures of the piece on (x, y). Any code other than a man's,
      the empty code included, is scanned as a king. */
  function CapturesAt(g: Mtx, x: int, y: int): seq<MovePos>
    requires IsMtx(g) && OnBoard(x, y)
  {
    if IsMan(g[x][y]) then ManJumpsUpTo(g, x, y, 4) else KingMovesUpTo(g, x, y, 4, true)
  }

  /** The simple (non-capturing) moves of the piece on (x, y). */
  function SimpleAt(g: Mtx, x: int, y: int): seq<MovePos>
    requires IsMtx(g) && OnBoard(x, y)
  {
    if IsMan(g[x][y]) then ManSteps(g, x, y) else KingMovesUpTo(g, x, y, 4, false)
  }

  /** The moves of one piece: its captures if it has any, else its simple moves. */
  function TurnsAt(g: Mtx, x: int, y: int): seq<MovePos>
    requires IsMtx(g) && OnBoard(x, y)
  {
    if CapturesAt(g, x, y) != [] then CapturesAt(g, x, y) else SimpleAt(g, x, y)
  }

  // ---------------------------------------------------------------------
  // The moves of one piece, defined by their geometry

  /** A man's capture: two diagonal steps in any of the four directions to
      an empty square, over a foe on the midpoint. */
  ghost predicate IsManCapture(g: Mtx, x: int, y: int, m: MovePos)
    requires IsMtx(g) && OnBoard(x, y)
  {
    && m.x == x && m.y == y
    && Abs(m.x2 - x) == 2 && Abs(m.y2 - y) == 2
    && OnBoard(m.x2, m.y2) && g[m.x2][m.y2] == Empty
    && m.xb == (x + m.x2) / 2 && m.yb == (y + m.y2) / 2
    && Foe(g[m.xb][m.yb], g[x][y])
  }

  /** A king's capture along a diagonal: only empty squares up to the
      captured foe at distance k1, and only empty squares from there up to
      and including the landing square at distance k2 > k1. */
  ghost predicate IsKingCapture(g: Mtx, x: int, y: int, m: MovePos)
    requires IsMtx(g) && OnBoard(x, y)
  {
    var di, dj := Dir(m.x2 - x), Dir(m.y2 - y);
    var k1, k2 := Abs(m.xb - x), Abs(m.x2 - x);
    && m.x == x && m.y == y
    && 1 <= k1 < k2 && Abs(m.y2 - y) == k2
    && m.xb == Ray(x, di, k1) && m.yb == Ray(y, dj, k1)
    && EmptyOnRay(g, x, y, di, dj, 1, k1)
    && OnBoard(m.xb, m.yb) && Foe(g[m.xb][m.yb], g[x][y])
    && EmptyOnRay(g, x, y, di, dj, k1 + 1, k2 + 1)
  }

  /** A man's simple move: one diagonal step forward to an empty square. */
  ghost predicate IsManStep(g: Mtx, x: int, y: int, m: MovePos)
    requires IsMtx(g) && OnBoard(x, y)
  {
    && m.x == x && m.y == y && m.xb == -1 && m.yb == -1
    && m.x2 == Forward(g[x][y], x) && Abs(m.y2 - y) == 1
    && OnBoard(m.x2, m.y2) && g[m.x2][m.y2] == Empty
  }

  /** A king's simple move: any distance along a diagonal over empty squares. */
  ghost predicate IsKingSlide(g: Mtx, x: int, y: int, m: MovePos)
    requires IsMtx(g) && OnBoard(x, y)
  {
    var k := Abs(m.x2 - x);
    && m.x == x && m.y == y && m.xb == -1 && m.yb == -1
    && 1 <= k && Abs(m.y2 - y) == k
    && EmptyOnRay(g, x, y, Dir(m.x2 - x), Dir(m.y2 - y), 1, k + 1)
  }

  ghost predicate IsCapture(g: Mtx, x: int, y: int, m: MovePos)
    requires IsMtx(g) && OnBoard(x, y)
  {
    if IsMan(g[x][y]) then IsManCapture(g, x, y, m) else IsKingCapture(g, x, y, m)
  }

  ghost predicate IsSimple(g: Mtx, x: int, y: int, m: MovePos)
    requires IsMtx(g) && OnBoard(x, y)
  {
    if IsMan(g[x][y]) then IsManStep(g, x, y, m) else IsKingSlide(g, x, y, m)
  }

  // ---------------------------------------------------------------------
  // The scans produce exactly the geometric moves

  lemma CaptureRaySound(g: Mtx, x: int, y: int, di: int, dj: int, m: MovePos)
    requires IsMtx(g) && OnBoard(x, y) && IsDir(di) && IsDir(dj)
    requires m in CaptureRay(g, x, y, di, dj)
    ensures IsKingCapture(g, x, y, m) && Dir(m.x2 - x) == di && Dir(m.y2 - y) == dj
  {
    var k1 := Stop(g, x, y, di, dj, 1);
    var xb, yb := Ray(x, di, k1), Ray(y, dj, k1);
    assert OnBoard(xb, yb) && g[xb][yb] % 2 != g[x][y] % 2;
    var k2 := Stop(g, x, y, di, dj, k1 + 1);
    LandingsMember(x, y, di, dj, k1 + 1, k2, xb, yb, m);
    var d := Abs(m.x2 - x);
    assert k1 < d < k2;
    assert m.xb == xb && m.yb == yb && Abs(m.xb - x) == k1;
    assert Dir(m.x2 - x) == di && Dir(m.y2 - y) == dj && Abs(m.y2 - y) == d;
    assert EmptyOnRay(g, x, y, di, dj, k1 + 1, d + 1);
  }

  lemma CaptureRayComplete(g: Mtx, x: int, y: int, di: int, dj: int, m: MovePos)
    requires IsMtx(g) && OnBoard(x, y) && IsDir(di) && IsDir(dj)
    requires IsKingCapture(g, x, y, m) && Dir(m.x2 - x) == di && Dir(m.y2 - y) == dj
    ensures m in CaptureRay(g, x, y, di, dj)
  {
    var j1, j2 := Abs(m.xb - x), Abs(m.x2 - x);
    StopIs(g, x, y, di, dj, 1, j1);
    var k1 := j1;
    var xb, yb := Ray(x, di, k1), Ray(y, dj, k1);
    var k2 := Stop(g, x, y, di, dj, k1 + 1);
    StopBeyond(g, x, y, di, dj, k1 + 1, j2 + 1);
    LandingsMember(x, y, di, dj, k1 + 1, k2, xb, yb, m);
  }

  /** A king captures on ray (di, dj) exactly the geometric king captures
      in that direction. */
  lemma CaptureRayExact(g: Mtx, x: int, y: int, di: int, dj: int, m: MovePos)
    requires IsMtx(g) && OnBoard(x, y) && IsDir(di) && IsDir(dj)
    ensures m in CaptureRay(g, x, y, di, dj) <==>
            IsKingCapture(g, x, y, m) && Dir(m.x2 - x) == di && Dir(m.y2 - y) == dj
  {
    if m in CaptureRay(g, x, y, di, dj) {
      CaptureRaySound(g, x, y, di, dj, m);
    }
    if IsKingCapture(g, x, y, m) && Dir(m.x2 - x) == di && Dir(m.y2 - y) == dj {
      CaptureRayComplete(g, x, y, di, dj, m);
    }
  }

  /** A king slides on ray (di, dj) to exactly the geometric slide targets
      in that direction. */
  lemma SlideRayExact(g: Mtx, x: int, y: int, di: int, dj: int, m: MovePos)
    requires IsMtx(g) && OnBoard(x, y) && IsDir(di) && IsDir(dj)
    ensures m in SlideRay(g, x, y, di, dj) <==>
            IsKingSlide(g, x, y, m) && Dir(m.x2 - x) == di && Dir(m.y2 - y) == dj
  {
    LandingsMember(x, y, di, dj, 1, Stop(g, x, y, di, dj, 1), -1, -1, m);
  }

  /** Over the first n directions, a king's scan yields exactly the
      geometric moves whose direction is among them. */
  lemma {:induction false} KingMovesUpToExact(g: Mtx, x: int, y: int, n: nat, caps: bool, m: MovePos)
    requires IsMtx(g) && OnBoard(x, y) && n <= 4
    ensures m in KingMovesUpTo(g, x, y, n, caps) <==>
            (if caps then IsKingCapture(g, x, y, m) else IsKingSlide(g, x, y, m))
            && exists t :: 0 <= t < n && Dir(m.x2 - x) == DirX(t) && Dir(m.y2 - y) == DirY(t)
  {
    if n > 0 {
      KingMovesUpToExact(g, x, y, n - 1, caps, m);
      if caps {
        CaptureRayExact(g, x, y, DirX(n - 1), DirY(n - 1), m);
      } else {
        SlideRayExact(g, x, y, DirX(n - 1), DirY(n - 1), m);
      }
      if (exists t :: 0 <= t < n && Dir(m.x2 - x) == DirX(t) && Dir(m.y2 - y) == DirY(t)) {
        var t :| 0 <= t < n && Dir(m.x2 - x) == DirX(t) && Dir(m.y2 - y) == DirY(t);
        if t < n - 1 {
          assert exists t' :: 0 <= t' < n - 1 && Dir(m.x2 - x) == DirX(t') && Dir(m.y2 - y) == DirY(t');
        }
      }
    }
  }

  /** Every direction is one of the four scanned. */
  lemma DirCovered(a: int, b: int)
    ensures exists t :: 0 <= t < 4 && Dir(a) == DirX(t) && Dir(b) == DirY(t)
  {
    var t := (if Dir(a) < 0 then 0 else 2) + (if Dir(b) < 0 then 0 else 1);
    assert Dir(a) == DirX(t) && Dir(b) == DirY(t);
  }

  /** One jump of a man, in direction (a, b), is a geometric man capture. */
  lemma ManJumpExact(g: Mtx, x: int, y: int, a: int, b: int, m: MovePos)
    requires IsMtx(g) && OnBoard(x, y) && IsDir(a) && IsDir(b)
    ensures m in ManJump(g, x, y, x + 2 * a, y + 2 * b) <==>
            IsManCapture(g, x, y, m) && m.x2 == x + 2 * a && m.y2 == y + 2 * b
  {
  }

  /** The four jumps of the man's capture scan, in order. */
  lemma ManJumpsUnfold(g: Mtx, x: int, y: int)
    requires IsMtx(g) && OnBoard(x, y)
    ensures ManJumpsUpTo(g, x, y, 4) == ManJump(g, x, y, x - 2, y - 2) + ManJump(g, x, y, x - 2, y + 2)
                                      + ManJump(g, x, y, x + 2, y - 2) + ManJump(g, x, y, x + 2, y + 2)
  {
    assert ManJumpsUpTo(g, x, y, 1) == ManJump(g, x, y, x - 2, y - 2);
    assert ManJumpsUpTo(g, x, y, 2) == ManJumpsUpTo(g, x, y, 1) + ManJump(g, x, y, x - 2, y + 2);
    assert ManJumpsUpTo(g, x, y, 3) == ManJumpsUpTo(g, x, y, 2) + ManJump(g, x, y, x + 2, y - 2);
    assert ManJumpsUpTo(g, x, y, 4) == ManJumpsUpTo(g, x, y, 3) + ManJump(g, x, y, x + 2, y + 2);
  }

  /** A man's jumps are exactly the geometric man captures. */
  lemma ManJumpsExact(g: Mtx, x: int, y: int, m: MovePos)
    requires IsMtx(g) && OnBoard(x, y)
    ensures m in ManJumpsUpTo(g, x, y, 4) <==> IsManCapture(g, x, y, m)
  {
    var j0, j1 := ManJump(g, x, y, x - 2, y - 2), ManJump(g, x, y, x - 2, y + 2);
    var j2, j3 := ManJump(g, x, y, x + 2, y - 2), ManJump(g, x, y, x + 2, y + 2);
    ManJumpsUnfold(g, x, y);
    ManJumpExact(g, x, y, -1, -1, m);
    ManJumpExact(g, x, y, -1, 1, m);
    ManJumpExact(g, x, y, 1, -1, m);
    ManJumpExact(g, x, y, 1, 1, m);
    assert m in j0 + j1 + j2 + j3 <==> m in j0 || m in j1 || m in j2 || m in j3;
    if IsManCapture(g, x, y, m) {
      assert m.x2 == x - 2 || m.x2 == x + 2;
      assert m.y2 == y - 2 || m.y2 == y + 2;
    }
  }

  /** A man's steps are exactly the geometric man steps. */
  lemma ManStepsExact(g: Mtx, x: int, y: int, m: MovePos)
    requires IsMtx(g) && OnBoard(x, y)
    ensures m in ManSteps(g, x, y) <==> IsManStep(g, x, y, m)
  {
  }

  /** The captures found for a piece are exactly its geometric captures. */
  lemma CapturesAtExact(g: Mtx, x: int, y: int, m: MovePos)
    requires IsMtx(g) && OnBoard(x, y)
    ensures m in CapturesAt(g, x, y) <==> IsCapture(g, x, y, m)
  {
    if IsMan(g[x][y]) {
      ManJumpsExact(g, x, y, m);
    } else {
      KingMovesUpToExact(g, x, y, 4, true, m);
      DirCovered(m.x2 - x, m.y2 - y);
    }
  }

  /** The simple moves found for a piece are exactly its geometric simple moves. */
  lemma SimpleAtExact(g: Mtx, x: int, y: int, m: MovePos)
    requires IsMtx(g) && OnBoard(x, y)
    ensures m in SimpleAt(g, x, y) <==> IsSimple(g, x, y, m)
  {
    if IsMan(g[x][y]) {
      ManStepsExact(g, x, y, m);
    } else {
      KingMovesUpToExact(g, x, y, 4, false, m);
      DirCovered(m.x2 - x, m.y2 - y);
    }
  }

  /** Per-square exclusivity: a piece that can capture is offered only its
      captures (each with an on-board captured square); one that cannot is
      offered only its simple moves (none recording a capture). */
  lemma TurnsAtExact(g: Mtx, x: int, y: int, m: MovePos)
    requires IsMtx(g) && OnBoard(x, y)
    ensures m in TurnsAt(g, x, y) <==>
            if CapturesAt(g, x, y) != [] then IsCapture(g, x, y, m) else IsSimple(g, x, y, m)
    ensures m in TurnsAt(g, x, y) ==> m.x == x && m.y == y
    ensures m in TurnsAt(g, x, y) ==>
            if CapturesAt(g, x, y) != [] then OnBoard(m.xb, m.yb) else m.xb == -1 && m.yb == -1
  {
    CapturesAtExact(g, x, y, m);
    SimpleAtExact(g, x, y, m);
  }

  // ---------------------------------------------------------------------
  // The moves of one side

  /** The piece on (i, j) belongs to the side the scan of `color` selects:
      a non-empty cell whose parity differs from `color` (so `true` selects
      the even codes, black, and `false` the odd codes, white). */
  predicate SidePiece(g: Mtx, color: bool, i: int, j: int)
    requires IsMtx(g) && OnBoard(i, j)
  {
    g[i][j] != Empty && g[i][j] % 2 != (if color then 1 else 0)
  }

  /** The captures (caps) or simple moves of (i, j) if it is a piece of the side. */
  function PieceMoves(g: Mtx, color: bool, i: int, j: int, caps: bool): seq<MovePos>
    requires IsMtx(g) && OnBoard(i, j)
  {
    if !SidePiece(g, color, i, j) then []
    else if caps then CapturesAt(g, i, j) else SimpleAt(g, i, j)
  }

  /** The moves of every square, as one function of the coordinates. */
  function PieceMoveTable(g: Mtx, color: bool, caps: bool): (int, int) -> seq<MovePos>
    requires IsMtx(g)
  {
    (a: int, b: int) => if OnBoard(a, b) then PieceMoves(g, color, a, b, caps) else []
  }

  /** The concatenation of f over the squares before (i, j) in row-major
      order: rows 0 .. i - 1 and columns 0 .. j - 1 of row i. */
  function RowMajor(f: (int, int) -> seq<MovePos>, i: int, j: int): seq<MovePos>
    requires 0 <= i <= 8 && 0 <= j <= 8 && (i == 8 ==> j == 0)
    decreases i, j
  {
    if j == 0 then (if i == 0 then [] else RowMajor(f, i - 1, 8))
    else RowMajor(f, i, j - 1) + f(i, j - 1)
  }

  /** When every square's moves start on that square, a move is in the
      row-major concatenation up to (i, j) exactly when it starts on a
      square before (i, j) and is one of that square's moves. */
  lemma {:induction false} RowMajorExact(f: (int, int) -> seq<MovePos>, i: int, j: int, m: MovePos)
    requires 0 <= i <= 8 && 0 <= j <= 8 && (i == 8 ==> j == 0)
    requires forall a, b :: m in f(a, b) ==> m.x == a && m.y == b
    ensures m in RowMajor(f, i, j) <==>
            && 0 <= m.x && 0 <= m.y < 8 && (m.x < i || (m.x == i && m.y < j)) && m in f(m.x, m.y)
    decreases i, j
  {
    if j == 0 {
      if i > 0 {
        RowMajorExact(f, i - 1, 8, m);
      }
    } else {
      RowMajorExact(f, i, j - 1, m);
    }
  }

  /** The side's captures (caps) or simple moves over the squares before
      (i, j) in row-major order. */
  function SideUpTo(g: Mtx, color: bool, i: int, j: int, caps: bool): seq<MovePos>
    requires IsMtx(g) && 0 <= i <= 8 && 0 <= j <= 8 && (i == 8 ==> j == 0)
  {
    RowMajor(PieceMoveTable(g, color, caps), i, j)
  }

  function SideCaptures(g: Mtx, color: bool): seq<MovePos>
    requires IsMtx(g)
  {
    SideUpTo(g, color, |g|, 0, true)
  }

  function SideSimple(g: Mtx, color: bool): seq<MovePos>
    requires IsMtx(g)
  {
    SideUpTo(g, color, |g|, 0, false)
  }

  /** The forced-capture rule: the side's captures if it has any, else its
      simple moves (before shuffling). */
  function SideTurns(g: Mtx, color: bool): seq<MovePos>
    requires IsMtx(g)
  {
    if SideCaptures(g, color) != [] then SideCaptures(g, color) else SideSimple(g, color)
  }

  lemma PieceMovesExact(g: Mtx, color: bool, i: int, j: int, caps: bool, m: MovePos)
    requires IsMtx(g) && OnBoard(i, j)
    ensures m in PieceMoves(g, color, i, j, caps) <==>
            SidePiece(g, color, i, j) && if caps then IsCapture(g, i, j, m) else IsSimple(g, i, j, m)
    ensures m in PieceMoves(g, color, i, j, caps) ==> m.x == i && m.y == j
  {
    CapturesAtExact(g, i, j, m);
    SimpleAtExact(g, i, j, m);
  }

  /** A move is collected over the squares before (i, j) exactly when it
      starts on one of them and is a move of that piece. */
  lemma SideUpToExact(g: Mtx, color: bool, i: int, j: int, caps: bool, m: MovePos)
    requires IsMtx(g) && 0 <= i <= 8 && 0 <= j <= 8 && (i == 8 ==> j == 0)
    ensures m in SideUpTo(g, color, i, j, caps) <==>
            && OnBoard(m.x, m.y) && (m.x < i || (m.x == i && m.y < j))
            && m in PieceMoves(g, color, m.x, m.y, caps)
  {
    var f := PieceMoveTable(g, color, caps);
    forall a, b, n | n in f(a, b)
      ensures n.x == a && n.y == b
    {
      PieceMovesExact(g, color, a, b, caps, n);
    }
    RowMajorExact(f, i, j, m);
  }

  /** The side's moves before shuffling: exactly the geometric captures of
      its pieces when it has one, and otherwise exactly the geometric simple
      moves of its pieces. */
  lemma SideTurnsExact(g: Mtx, color: bool, m: MovePos)
    requires IsMtx(g)
    ensures m in SideTurns(g, color) <==>
            && OnBoard(m.x, m.y) && SidePiece(g, color, m.x, m.y)
            && if SideCaptures(g, color) != [] then IsCapture(g, m.x, m.y, m) else IsSimple(g, m.x, m.y, m)
  {
    SideUpToExact(g, color, 8, 0, true, m);
    SideUpToExact(g, color, 8, 0, false, m);
    if OnBoard(m.x, m.y) {
      PieceMovesExact(g, color, m.x, m.y, true, m);
      PieceMovesExact(g, color, m.x, m.y, false, m);
    }
  }

  /** The side is under the forced-capture rule exactly when one of its
      pieces has a geometric capture. */
  lemma SideHasCaptureExact(g: Mtx, color: bool)
    requires IsMtx(g)
    ensures SideCaptures(g, color) != [] <==>
            exists m: MovePos :: OnBoard(m.x, m.y) && SidePiece(g, color, m.x, m.y) && IsCapture(g, m.x, m.y, m)
  {
    if SideCaptures(g, color) != [] {
      var m := SideCaptures(g, color)[0];
      SideUpToExact(g, color, 8, 0, true, m);
      PieceMovesExact(g, color, m.x, m.y, true, m);
    }
    if exists m: MovePos :: OnBoard(m.x, m.y) && SidePiece(g, color, m.x, m.y) && IsCapture(g, m.x, m.y, m) {
      var m: MovePos :| OnBoard(m.x, m.y) && SidePiece(g, color, m.x, m.y) && IsCapture(g, m.x, m.y, m);
      SideUpToExact(g, color, 8, 0, true, m);
      PieceMovesExact(g, color, m.x, m.y, true, m);
    }
  }

  /** One square of the side scan: the flag and the gathered list after
      square (i, j), given their values before it, match the side's moves
      over the squares up to and including (i, j). */
  lemma GatherStep(g: Mtx, color: bool, i: int, j: int, before0: bool, res0: seq<MovePos>,
                    t: seq<MovePos>, hb: bool, before1: bool, res1: seq<MovePos>)
    requires IsMtx(g) && 0 <= i < 8 && 0 <= j < 8
    requires before0 == (SideUpTo(g, color, i, j, true) != [])
    requires res0 == if before0 then SideUpTo(g, color, i, j, true) else SideUpTo(g, color, i, j, false)
    requires SidePiece(g, color, i, j) ==> t == TurnsAt(g, i, j) && hb == (CapturesAt(g, i, j) != [])
    requires !SidePiece(g, color, i, j) ==> before1 == before0 && res1 == res0
    requires SidePiece(g, color, i, j) && hb ==> before1 && res1 == (if before0 then res0 else []) + t
    requires SidePiece(g, color, i, j) && !hb ==> before1 == before0 && res1 == (if before0 then res0 else res0 + t)
    ensures before1 == (SideUpTo(g, color, i, j + 1, true) != [])
    ensures res1 == if before1 then SideUpTo(g, color, i, j + 1, true) else SideUpTo(g, color, i, j + 1, false)
  {
    if !SidePiece(g, color, i, j) {
      assert SideUpTo(g, color, i, j + 1, true) == SideUpTo(g, color, i, j, true) + [];
      assert SideUpTo(g, color, i, j + 1, false) == SideUpTo(g, color, i, j, false) + [];
    } else if hb && !before0 {
      assert [] + CapturesAt(g, i, j) == CapturesAt(g, i, j);
    }
  }

  // ---------------------------------------------------------------------
  // Shuffling

  /** Stands for the standard library's shuffle, whose algorithm and draws
      are unspecified: a Fisher-Yates pass in which step k swaps position
      i = |s| - 1 - k with position draws[k] mod (i + 1) (with i itself once
      the draws run out). Only the permutation property is claimed. */
  method Shuffle(s: seq<MovePos>, draws: seq<nat>) returns (r: seq<MovePos>)
    ensures multiset(r) == multiset(s)
  {
    r := s;
    var i := |r| - 1;
    var k := 0;
    while i > 0
      invariant |r| == |s| && i < |r|
      invariant multiset(r) == multiset(s)
    {
      var j := if k < |draws| then draws[k] % (i + 1) else i;
      r := r[i := r[j]][j := r[i]];
      i, k := i - 1, k + 1;
    }
  }

  // ---------------------------------------------------------------------
  // The best-move chain

  /** The continuation table: next_move and next_best_state have equal,
      non-zero length, and each successor is -1 or a later state. */
  predicate TableOk(nextMove: seq<MovePos>, nextBestState: seq<int>) {
    && |nextMove| == |nextBestState| > 0
    && forall k :: 0 <= k < |nextBestState| ==> nextBestState[k] == -1 || k < nextBestState[k] < |nextBestState|
  }

  /** The walk ends after state k when its successor is -1 or holds the
      "no move" record (x == -1). */
  predicate Ends(nextMove: seq<MovePos>, nextBestState: seq<int>, k: int)
    requires TableOk(nextMove, nextBestState) && 0 <= k < |nextMove|
  {
    nextBestState[k] == -1 || nextMove[nextBestState[k]].x == -1
  }

  /** The states visited from state k. */
  function Visited(nextMove: seq<MovePos>, nextBestState: seq<int>, k: int): (path: seq<int>)
    requires TableOk(nextMove, nextBestState) && 0 <= k < |nextMove|
    ensures path != [] && path[0] == k
    ensures forall n :: 0 <= n < |path| ==> k <= path[n] < |nextMove|
    decreases |nextMove| - k
  {
    if Ends(nextMove, nextBestState, k) then [k]
    else [k] + Visited(nextMove, nextBestState, nextBestState[k])
  }

  /** `path` is a walk of the table from state k: each state is the
      successor of the previous one, every state after the first holds a
      real move, and the walk stops at the first state whose successor
      ends it. */
  ghost predicate IsChain(nextMove: seq<MovePos>, nextBestState: seq<int>, k: int, path: seq<int>)
    requires TableOk(nextMove, nextBestState)
  {
    && path != [] && path[0] == k
    && (forall n :: 0 <= n < |path| ==> 0 <= path[n] < |nextMove|)
    && (forall n :: 0 <= n < |path| - 1 ==>
          !Ends(nextMove, nextBestState, path[n]) && path[n + 1] == nextBestState[path[n]])
    && Ends(nextMove, nextBestState, path[|path| - 1])
  }

  /** The visited states form the one and only chain from state k. */
  lemma {:induction false} VisitedIsTheChain(nextMove: seq<MovePos>, nextBestState: seq<int>, k: int, path: seq<int>)
    requires TableOk(nextMove, nextBestState) && 0 <= k < |nextMove|
    ensures IsChain(nextMove, nextBestState, k, path) <==> path == Visited(nextMove, nextBestState, k)
    decreases |nextMove| - k
  {
    var v := Visited(nextMove, nextBestState, k);
    if Ends(nextMove, nextBestState, k) {
    } else {
      var s := nextBestState[k];
      if path != [] && |path| > 1 {
        VisitedIsTheChain(nextMove, nextBestState, s, path[1..]);
        if IsChain(nextMove, nextBestState, k, path) {
          assert IsChain(nextMove, nextBestState, s, path[1..]) by {
            forall n | 0 <= n < |path[1..]| - 1
              ensures !Ends(nextMove, nextBestState, path[1..][n]) && path[1..][n + 1] == nextBestState[path[1..][n]]
            {
              assert path[1..][n] == path[n + 1] && path[1..][n + 1] == path[n + 2];
            }
          }
          assert path == [k] + path[1..];
        }
        if path == v {
          assert path[1..] == Visited(nextMove, nextBestState, s);
          VisitedIsTheChain(nextMove, nextBestState, s, path[1..]);
          assert IsChain(nextMove, nextBestState, k, path) by {
            forall n | 0 <= n < |path| - 1
              ensures !Ends(nextMove, nextBestState, path[n]) && path[n + 1] == nextBestState[path[n]]
            {
              if n > 0 {
                assert path[n] == path[1..][n - 1] && path[n + 1] == path[1..][n];
              }
            }
          }
        }
      }
    }
  }

  /** The moves recorded at the visited states, in order. */
  function BestLine(nextMove: seq<MovePos>, nextBestState: seq<int>, k: int): (r: seq<MovePos>)
    requires TableOk(nextMove, nextBestState) && 0 <= k < |nextMove|
    ensures r != [] && r[0] == nextMove[k]
    ensures forall n :: 1 <= n < |r| ==> r[n].x != -1
    decreases |nextMove| - k
  {
    if Ends(nextMove, nextBestState, k) then [nextMove[k]]
    else [nextMove[k]] + BestLine(nextMove, nextBestState, nextBestState[k])
  }

  /** The best line lists, position by position, the moves stored at the
      states of the chain. */
  lemma {:induction false} BestLineFollowsChain(nextMove: seq<MovePos>, nextBestState: seq<int>, k: int)
    requires TableOk(nextMove, nextBestState) && 0 <= k < |nextMove|
    ensures |BestLine(nextMove, nextBestState, k)| == |Visited(nextMove, nextBestState, k)|
    ensures forall n :: 0 <= n < |Visited(nextMove, nextBestState, k)| ==>
              BestLine(nextMove, nextBestState, k)[n] == nextMove[Visited(nextMove, nextBestState, k)[n]]
    decreases |nextMove| - k
  {
    if !Ends(nextMove, nextBestState, k) {
      BestLineFollowsChain(nextMove, nextBestState, nextBestState[k]);
    }
  }

  /** The best line: starting at state 0, emit the state's move and follow
      next_best_state until it is -1 or names the "no move" record. */
  method FindBestTurns(nextMove: seq<MovePos>, nextBestState: seq<int>) returns (res: seq<MovePos>)
    requires TableOk(nextMove, nextBestState)
    ensures res == BestLine(nextMove, nextBestState, 0)
  {
    var curState := 0;
    res := [];
    while true
      invariant 0 <= curState < |nextMove|
      invariant res + BestLine(nextMove, nextBestState, curState) == BestLine(nextMove, nextBestState, 0)
      decreases |nextMove| - curState
    {
      res := res + [nextMove[curState]];
      var next := nextBestState[curState];
      if next == -1 || nextMove[next].x == -1 {
        break;
      }
      assert res + BestLine(nextMove, nextBestState, next) == BestLine(nextMove, nextBestState, 0);
      curState := next;
    }
  }

  // ---------------------------------------------------------------------
  // The scans along one ray

  /** An empty square extends an empty stretch of the ray. */
  lemma EmptyOnRayNext(g: Mtx, x: int, y: int, di: int, dj: int, lo: int, d: int)
    requires IsMtx(g) && EmptyOnRay(g, x, y, di, dj, lo, d)
    requires OnBoard(Ray(x, di, d), Ray(y, dj, d)) && g[Ray(x, di, d)][Ray(y, dj, d)] == Empty
    ensures EmptyOnRay(g, x, y, di, dj, lo, d + 1)
  {
  }

  /** No capture on the ray when the first square met off the empty
      stretch is off the board or holds a piece of the mover's parity. */
  lemma CaptureRayNone(g: Mtx, x: int, y: int, di: int, dj: int, d: nat)
    requires IsMtx(g) && OnBoard(x, y) && 1 <= d
    requires EmptyOnRay(g, x, y, di, dj, 1, d)
    requires !OnBoard(Ray(x, di, d), Ray(y, dj, d))
             || (g[Ray(x, di, d)][Ray(y, dj, d)] != Empty && g[Ray(x, di, d)][Ray(y, dj, d)] % 2 == g[x][y] % 2)
    ensures CaptureRay(g, x, y, di, dj) == []
  {
    StopIs(g, x, y, di, dj, 1, d);
  }

  /** The captures on the ray once the foe at distance k1 and the end of
      the landing stretch at distance d are known. */
  lemma CaptureRayFound(g: Mtx, x: int, y: int, di: int, dj: int, k1: nat, d: nat)
    requires IsMtx(g) && OnBoard(x, y) && 1 <= k1 < d
    requires k1 == Stop(g, x, y, di, dj, 1)
    requires OnBoard(Ray(x, di, k1), Ray(y, dj, k1)) && g[Ray(x, di, k1)][Ray(y, dj, k1)] % 2 != g[x][y] % 2
    requires EmptyOnRay(g, x, y, di, dj, k1 + 1, d)
    requires !OnBoard(Ray(x, di, d), Ray(y, dj, d)) || g[Ray(x, di, d)][Ray(y, dj, d)] != Empty
    ensures CaptureRay(g, x, y, di, dj) == Landings(x, y, di, dj, k1 + 1, d, Ray(x, di, k1), Ray(y, dj, k1))
  {
    StopIs(g, x, y, di, dj, k1 + 1, d);
    assert CaptureRay(g, x, y, di, dj) == CaptureFrom(g, x, y, di, dj, k1);
  }

  /** Walks the ray from (x, y) along (di, dj) while it stays on the
      board. The first piece met ends the walk unless it is a foe; a foe
      becomes the captured piece, the empty squares after it are landings,
      and the next piece ends the walk. */
  method ScanCaptureRay(g: Mtx, x: int, y: int, di: int, dj: int) returns (found: seq<MovePos>)
    requires IsMtx(g) && OnBoard(x, y) && IsDir(di) && IsDir(dj)
    ensures found == CaptureRay(g, x, y, di, dj)
  {
    found := [];
    var xb, yb := -1, -1;
    var i2, j2 := x + di, y + dj;
    ghost var d := 1;
    ghost var k1 := 0;
    while i2 != 8 && j2 != 8 && i2 != -1 && j2 != -1
      invariant 1 <= d <= 8
      invariant i2 == Ray(x, di, d) && j2 == Ray(y, dj, d)
      invariant -1 <= i2 <= 8 && -1 <= j2 <= 8
      invariant xb == -1 ==> EmptyOnRay(g, x, y, di, dj, 1, d) && found == []
      invariant xb != -1 ==>
        && 1 <= k1 < d && k1 == Stop(g, x, y, di, dj, 1)
        && xb == Ray(x, di, k1) && yb == Ray(y, dj, k1) && OnBoard(xb, yb)
        && g[xb][yb] % 2 != g[x][y] % 2
        && EmptyOnRay(g, x, y, di, dj, k1 + 1, d)
        && found == Landings(x, y, di, dj, k1 + 1, d, xb, yb)
      decreases 8 - d
    {
      if g[i2][j2] != Empty {
        if g[i2][j2] % 2 == g[x][y] % 2 || xb != -1 {
          if xb == -1 {
            CaptureRayNone(g, x, y, di, dj, d);
          } else {
            CaptureRayFound(g, x, y, di, dj, k1, d);
          }
          return;
        }
        StopIs(g, x, y, di, dj, 1, d);
        LandingsNone(x, y, di, dj, d + 1, i2, j2);
        xb, yb := i2, j2;
        k1 := d;
      } else {
        EmptyOnRayNext(g, x, y, di, dj, if xb == -1 then 1 else k1 + 1, d);
      }
      if xb != -1 && xb != i2 {
        LandingsSnoc(x, y, di, dj, k1 + 1, d, xb, yb);
        found := found + [MovePos(x, y, i2, j2, xb, yb)];
      }
      i2, j2 := i2 + di, j2 + dj;
      d := d + 1;
    }
    if xb == -1 {
      CaptureRayNone(g, x, y, di, dj, d);
    } else {
      CaptureRayFound(g, x, y, di, dj, k1, d);
    }
  }

  /** Walks the ray from (x, y) along (di, dj), collecting every empty
      square up to the first piece or the edge. */
  method ScanSlideRay(g: Mtx, x: int, y: int, di: int, dj: int) returns (found: seq<MovePos>)
    requires IsMtx(g) && OnBoard(x, y) && IsDir(di) && IsDir(dj)
    ensures found == SlideRay(g, x, y, di, dj)
  {
    found := [];
    var i2, j2 := x + di, y + dj;
    ghost var d := 1;
    while i2 != 8 && j2 != 8 && i2 != -1 && j2 != -1
      invariant 1 <= d <= 8
      invariant i2 == Ray(x, di, d) && j2 == Ray(y, dj, d)
      invariant -1 <= i2 <= 8 && -1 <= j2 <= 8
      invariant EmptyOnRay(g, x, y, di, dj, 1, d)
      invariant found == Landings(x, y, di, dj, 1, d, -1, -1)
      decreases 8 - d
    {
      if g[i2][j2] != Empty {
        StopIs(g, x, y, di, dj, 1, d);
        return;
      }
      LandingsSnoc(x, y, di, dj, 1, d, -1, -1);
      found := found + [Step(x, y, i2, j2)];
      i2, j2 := i2 + di, j2 + dj;
      d := d + 1;
    }
    StopIs(g, x, y, di, dj, 1, d);
  }

  /** The next jump of the man's capture scan. */
  lemma ManJumpsNext(g: Mtx, x: int, y: int, n: nat, i: int, j: int)
    requires IsMtx(g) && OnBoard(x, y) && n < 4
    requires i == x + 2 * DirX(n) && j == y + 2 * DirY(n)
    ensures ManJumpsUpTo(g, x, y, n + 1) == ManJumpsUpTo(g, x, y, n) + ManJump(g, x, y, i, j)
  {
  }

  /** The man's capture scan: the four jumps in the order (x-2,y-2),
      (x-2,y+2), (x+2,y-2), (x+2,y+2), each kept when its target is on the
      board and empty and the square between holds a foe. */
  method ScanManJumps(mtx: Mtx, x: int, y: int) returns (found: seq<MovePos>)
    requires IsMtx(mtx) && OnBoard(x, y)
    ensures found == ManJumpsUpTo(mtx, x, y, 4)
  {
    found := [];
    var kind := mtx[x][y];
    ghost var n := 0;
    var i := x - 2;
    while i <= x + 2
      invariant n == 0 || n == 2 || n == 4
      invariant i == x - 2 + 2 * n
      invariant found == ManJumpsUpTo(mtx, x, y, n)
    {
      var j := y - 2;
      ghost var n0 := n;
      while j <= y + 2
        invariant (n0 == 0 || n0 == 2) && i == x - 2 + 2 * n0
        invariant n == n0 || n == n0 + 1 || n == n0 + 2
        invariant j == (if n == n0 then y - 2 else if n == n0 + 1 then y + 2 else y + 6)
        invariant found == ManJumpsUpTo(mtx, x, y, n)
      {
        assert DirX(n) == (if n0 == 0 then -1 else 1) && DirY(n) == (if n == n0 then -1 else 1);
        ManJumpsNext(mtx, x, y, n, i, j);
        if 0 <= i <= 7 && 0 <= j <= 7 {
          var xb, yb := (x + i) / 2, (y + j) / 2;
          if !(mtx[i][j] != Empty || mtx[xb][yb] == Empty || mtx[xb][yb] % 2 == kind % 2) {
            found := found + [MovePos(x, y, i, j, xb, yb)];
          }
        }
        j := j + 4;
        n := n + 1;
      }
      i := i + 4;
    }
  }

  /** The king's scan over the four rays in the order (-1,-1), (-1,1),
      (1,-1), (1,1): captures when `caps`, slides otherwise. */
  method ScanKingRays(mtx: Mtx, x: int, y: int, caps: bool) returns (found: seq<MovePos>)
    requires IsMtx(mtx) && OnBoard(x, y)
    ensures found == KingMovesUpTo(mtx, x, y, 4, caps)
  {
    found := [];
    var i := -1;
    while i <= 1
      invariant i == -1 || i == 1 || i == 3
      invariant found == KingMovesUpTo(mtx, x, y, if i == -1 then 0 else if i == 1 then 2 else 4, caps)
    {
      var j := -1;
      while j <= 1
        invariant j == -1 || j == 1 || j == 3
        invariant found == KingMovesUpTo(mtx, x, y, (if i == -1 then 0 else 2) + (if j == -1 then 0 else if j == 1 then 1 else 2), caps)
      {
        ghost var n := (if i == -1 then 0 else 2) + (if j == -1 then 0 else 1);
        assert i == DirX(n) && j == DirY(n);
        assert KingMovesUpTo(mtx, x, y, n + 1, caps) == KingMovesUpTo(mtx, x, y, n, caps) + RayMoves(mtx, x, y, n, caps);
        var ray;
        if caps {
          ray := ScanCaptureRay(mtx, x, y, i, j);
        } else {
          ray := ScanSlideRay(mtx, x, y, i, j);
        }
        found := found + ray;
        j := j + 2;
      }
      i := i + 2;
    }
  }

  /** The man's simple moves: one row forward (towards row 0 for white,
      row 7 for black), to column y - 1 and then y + 1, when the square is
      on the board and empty. */
  method ScanManSteps(mtx: Mtx, x: int, y: int) returns (found: seq<MovePos>)
    requires IsMtx(mtx) && OnBoard(x, y)
    ensures found == ManSteps(mtx, x, y)
  {
    found := [];
    var i := if mtx[x][y] % 2 == 1 then x - 1 else x + 1;
    var j := y - 1;
    while j <= y + 1
      invariant j == y - 1 || j == y + 1 || j == y + 3
      invariant found == if j == y - 1 then [] else if j == y + 1 then ManStep(mtx, x, y, i, y - 1) else ManSteps(mtx, x, y)
    {
      if !(i < 0 || i > 7 || j < 0 || j > 7 || mtx[i][j] != Empty) {
        found := found + [Step(x, y, i, j)];
      }
      j := j + 2;
    }
  }

  /** The moves of the piece on (x, y): its captures when it has any
      (flagged as captures), otherwise its simple moves. A code other than
      a man's is scanned as a king. */
  method SquareTurns(x: int, y: int, mtx: Mtx) returns (turns: seq<MovePos>, haveBeats: bool)
    requires IsMtx(mtx) && OnBoard(x, y)
    ensures turns == TurnsAt(mtx, x, y)
    ensures haveBeats == (CapturesAt(mtx, x, y) != [])
  {
    haveBeats := false;
    var kind := mtx[x][y];
    if kind == WhiteMan || kind == BlackMan {
      turns := ScanManJumps(mtx, x, y);
    } else {
      turns := ScanKingRays(mtx, x, y, true);
    }
    if turns != [] {
      haveBeats := true;
      return;
    }
    if kind == WhiteMan || kind == BlackMan {
      turns := ScanManSteps(mtx, x, y);
    } else {
      turns := ScanKingRays(mtx, x, y, false);
    }
  }

  /** The side scan over row i, from column 0 to 7: a piece of the side
      contributes the moves of the single-square scan; the first capture
      found discards the simple moves gathered so far, and once a capture
      has been found only captures are gathered. */
  method GatherRow(color: bool, mtx: Mtx, i: int, before: bool, res: seq<MovePos>)
      returns (haveBeatsBefore: bool, resTurns: seq<MovePos>)
    requires IsMtx(mtx) && 0 <= i < 8
    requires before == (SideUpTo(mtx, color, i, 0, true) != [])
    requires res == if before then SideUpTo(mtx, color, i, 0, true) else SideUpTo(mtx, color, i, 0, false)
    ensures haveBeatsBefore == (SideUpTo(mtx, color, i, 8, true) != [])
    ensures resTurns == if haveBeatsBefore then SideUpTo(mtx, color, i, 8, true) else SideUpTo(mtx, color, i, 8, false)
  {
    haveBeatsBefore, resTurns := before, res;
    var j := 0;
    while j < 8
      invariant 0 <= j <= 8
      invariant haveBeatsBefore == (SideUpTo(mtx, color, i, j, true) != [])
      invariant resTurns == if haveBeatsBefore then SideUpTo(mtx, color, i, j, true) else SideUpTo(mtx, color, i, j, false)
    {
      ghost var before0, res0 := haveBeatsBefore, resTurns;
      ghost var t: seq<MovePos>, hb := [], false;
      if mtx[i][j] != Empty && mtx[i][j] % 2 != (if color then 1 else 0) {
        var pieceTurns, pieceBeats := SquareTurns(i, j, mtx);
        t, hb := pieceTurns, pieceBeats;
        if pieceBeats && !haveBeatsBefore {
          haveBeatsBefore := true;
          resTurns := [];
        }
        if (haveBeatsBefore && pieceBeats) || !haveBeatsBefore {
          resTurns := resTurns + pieceTurns;
        }
      }
      GatherStep(mtx, color, i, j, before0, res0, t, hb, haveBeatsBefore, resTurns);
      j := j + 1;
    }
  }

  /** The side scan before shuffling: the rows 0 to 7 in turn. */
  method GatherSide(color: bool, mtx: Mtx) returns (haveBeatsBefore: bool, resTurns: seq<MovePos>)
    requires IsMtx(mtx)
    ensures resTurns == SideTurns(mtx, color)
    ensures haveBeatsBefore == (SideCaptures(mtx, color) != [])
  {
    resTurns := [];
    haveBeatsBefore := false;
    var i := 0;
    while i < 8
      invariant 0 <= i <= 8
      invariant haveBeatsBefore == (SideUpTo(mtx, color, i, 0, true) != [])
      invariant resTurns == if haveBeatsBefore then SideUpTo(mtx, color, i, 0, true) else SideUpTo(mtx, color, i, 0, false)
    {
      haveBeatsBefore, resTurns := GatherRow(color, mtx, i, haveBeatsBefore, resTurns);
      assert SideUpTo(mtx, color, i + 1, 0, true) == SideUpTo(mtx, color, i, 8, true);
      assert SideUpTo(mtx, color, i + 1, 0, false) == SideUpTo(mtx, color, i, 8, false);
      i := i + 1;
    }
  }

  // ---------------------------------------------------------------------
  // The move generator

  /** The move generator's state: the moves found by the last scan and
      whether they are captures. */
  class Logic {
    var turns: seq<MovePos>
    var haveBeats: bool

    constructor ()
      ensures turns == [] && !haveBeats
    {
      turns := [];
      haveBeats := false;
    }

    /** Sets the moves and the capture flag to those of the piece on (x, y). */
    method FindSquareTurns(x: int, y: int, mtx: Mtx)
      requires IsMtx(mtx) && OnBoard(x, y)
      modifies this
      ensures turns == TurnsAt(mtx, x, y)
      ensures haveBeats == (CapturesAt(mtx, x, y) != [])
    {
      turns, haveBeats := SquareTurns(x, y, mtx);
    }

    /** The moves of the side `color` selects, under the forced-capture
        rule, in shuffled order, and whether they are captures. */
    method FindSideTurns(color: bool, mtx: Mtx, draws: seq<nat>)
      requires IsMtx(mtx)
      modifies this
      ensures multiset(turns) == multiset(SideTurns(mtx, color))
      ensures haveBeats == (SideCaptures(mtx, color) != [])
    {
      var haveBeatsBefore, resTurns := GatherSide(color, mtx);
      var shuffled := Shuffle(resTurns, draws);
      assert multiset(shuffled) == multiset(SideTurns(mtx, color));
      turns := shuffled;
      haveBeats := haveBeatsBefore;
    }
  }
}
