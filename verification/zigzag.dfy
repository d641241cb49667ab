/** The zigzag scan of a square block: a small state machine over
    `(i, j, forward)` that walks the block along its anti-diagonals in the
    order of ITU-T T.81 Figure A.6, followed by trimming the trailing zeros
    of the values it read. The machine moves before it reads, so the DC
    cell `(0, 0)` is never read. */
module Zigzag {
  import opened Matrix

  /** A cell of the block. */
  datatype Cell = Cell(i: int, j: int)

  /** The loop state: the current cell and whether the current run goes
      up-right (`forward`) or down-left. */
  datatype Cursor = Cursor(i: int, j: int, forward: bool)

  function At(c: Cursor): Cell
  {
    Cell(c.i, c.j)
  }

  /** One move of the loop body, for a block of the given height and width.
      An up-right run turns at row 0 (right, or down in the last column) and
      at the last column (down); a down-left run turns at the last row and at
      column 0. The last-row branch re-tests the condition it is in, as the
      loop does, so its inner "down" arm is dead. */
  function Step(height: int, width: int, c: Cursor): (d: Cursor)
    ensures At(d) in {Cell(c.i, c.j + 1), Cell(c.i + 1, c.j), Cell(c.i - 1, c.j + 1), Cell(c.i + 1, c.j - 1)}
    ensures d.forward == c.forward ==> d.i + d.j == c.i + c.j
    ensures d.forward != c.forward ==> d.i + d.j == c.i + c.j + 1
  {
    if c.forward then
      if c.i == 0 then
        (if c.j == width - 1 then Cursor(c.i + 1, c.j, false) else Cursor(c.i, c.j + 1, false))
      else if c.j == width - 1 then Cursor(c.i + 1, c.j, false)
      else Cursor(c.i - 1, c.j + 1, true)
    else
      if c.i == height - 1 then
        (if c.i == height - 1 then Cursor(c.i, c.j + 1, true) else Cursor(c.i + 1, c.j, true))
      else if c.j == 0 then Cursor(c.i + 1, c.j, true)
      else Cursor(c.i + 1, c.j - 1, false)
  }

  /** The loop condition: go on until the bottom-right corner is reached. */
  predicate Continues(height: int, width: int, c: Cursor)
  {
    c.i < height - 1 || c.j < width - 1
  }

  predicate InBlock(n: int, c: Cell)
  {
    0 <= c.i < n && 0 <= c.j < n
  }

  /** A reachable state of an `n`-by-`n` walk: inside the block, running
      up-right exactly on even anti-diagonals. */
  predicate Valid(n: int, c: Cursor)
  {
    InBlock(n, At(c)) && (c.forward <==> (c.i + c.j) % 2 == 0)
  }

  /** In a down-left run on the last row the move is always one step right. */
  lemma LastRowMovesRight(n: int, c: Cursor)
    requires !c.forward && c.i == n - 1
    ensures At(Step(n, n, c)) == Cell(c.i, c.j + 1) && Step(n, n, c).forward
  {
  }

  /** From a valid state short of the corner, one move of a block with at
      least two rows stays valid. A 1-by-1 block would step to `(1, 0)`. */
  lemma StepValid(n: int, c: Cursor)
    requires n >= 2 && Valid(n, c) && Continues(n, n, c)
    ensures Valid(n, Step(n, n, c))
  {
  }

  /** The cells read, in order, from state `c` on. */
  function WalkFrom(n: int, c: Cursor): (w: seq<Cell>)
    requires n >= 2 && Valid(n, c) && Continues(n, n, c)
    ensures |w| > 0 && w[0] == At(Step(n, n, c))
    ensures forall k :: 0 <= k < |w| ==> InBlock(n, w[k])
    decreases 2 * n - c.i - c.j, if c.forward then c.i else n - c.i
  {
    var d := Step(n, n, c);
    StepValid(n, c);
    [At(d)] + if Continues(n, n, d) then WalkFrom(n, d) else []
  }

  /** The cells the scan reads, starting from `(0, 0)` going up-right. */
  function Walk(n: int): (w: seq<Cell>)
    requires n >= 2
    ensures forall k :: 0 <= k < |w| ==> InBlock(n, w[k])
  {
    WalkFrom(n, Cursor(0, 0, true))
  }

  // -------------------------------------------------------- diagonal ranks

  /** Lowest and highest row of anti-diagonal `d` inside an `n`-by-`n` block. */
  function Lo(n: int, d: int): int
  {
    if d < n then 0 else d - (n - 1)
  }

  function Hi(n: int, d: int): int
  {
    if d < n then d else n - 1
  }

  function DiagLen(n: int, d: int): int
  {
    Hi(n, d) - Lo(n, d) + 1
  }

  /** Number of cells on the anti-diagonals before `d`. */
  function Before(n: int, d: nat): int
  {
    if d == 0 then 0 else Before(n, d - 1) + DiagLen(n, d - 1)
  }

  /** Position of a cell in the T.81 zigzag order: all earlier anti-diagonals
      first; even diagonals are read with the row falling, odd ones with the
      row rising. */
  function Rank(n: int, c: Cell): int
    requires InBlock(n, c)
  {
    var d := c.i + c.j;
    Before(n, d) + if d % 2 == 0 then Hi(n, d) - c.i else c.i - Lo(n, d)
  }

  lemma {:induction false} BeforeLow(n: int, d: nat)
    requires d <= n
    ensures 2 * Before(n, d) == d * (d + 1)
  {
    if d > 0 {
      BeforeLow(n, d - 1);
      assert DiagLen(n, d - 1) == d;
      assert (d - 1) * d + 2 * d == d * (d + 1);
    }
  }

  /** Twice the number of cells on the anti-diagonals from `d` on. */
  function Tail(n: int, d: int): int
  {
    (2 * n - d) * (2 * n - d - 1)
  }

  lemma TailStep(n: int, d: int)
    ensures Tail(n, d - 1) == Tail(n, d) + 2 * (2 * n - d)
  {
    var e := 2 * n - d;
    assert Tail(n, d - 1) == (e + 1) * e;
    assert Tail(n, d) == e * (e - 1);
  }

  lemma TailMiddle(n: int)
    ensures n * (n + 1) + Tail(n, n) == 2 * (n * n)
  {
    assert Tail(n, n) == n * (n - 1);
  }

  lemma TailEnd(n: int)
    ensures Tail(n, 2 * n - 1) == 0
  {
    assert 2 * n - (2 * n - 1) - 1 == 0;
  }

  lemma {:induction false} BeforeHigh(n: int, d: nat)
    requires n >= 1 && n <= d <= 2 * n - 1
    ensures 2 * Before(n, d) + Tail(n, d) == 2 * (n * n)
  {
    if d == n {
      BeforeLow(n, n);
      TailMiddle(n);
    } else {
      BeforeHigh(n, d - 1);
      assert DiagLen(n, d - 1) == 2 * n - d;
      TailStep(n, d);
    }
  }

  /** The anti-diagonals of an `n`-by-`n` block hold `n²` cells. */
  lemma BeforeTotal(n: int)
    requires n >= 1
    ensures Before(n, 2 * n - 1) == n * n
  {
    BeforeHigh(n, 2 * n - 1);
    TailEnd(n);
  }

  lemma {:induction false} BeforeMonotone(n: int, d1: nat, d2: nat)
    requires n >= 1 && d1 <= d2 <= 2 * n - 1
    ensures Before(n, d1) <= Before(n, d2)
    decreases d2 - d1
  {
    if d1 < d2 {
      BeforeMonotone(n, d1, d2 - 1);
    }
  }

  /** A cell's rank lies in its anti-diagonal's window. */
  lemma RankWindow(n: int, c: Cell)
    requires InBlock(n, c)
    ensures Before(n, c.i + c.j) <= Rank(n, c) < Before(n, c.i + c.j + 1)
  {
  }

  /** Ranks run from 0 to `n² - 1`. */
  lemma RankBound(n: int, c: Cell)
    requires n >= 1 && InBlock(n, c)
    ensures 0 <= Rank(n, c) < n * n
  {
    RankWindow(n, c);
    BeforeMonotone(n, 0, c.i + c.j);
    BeforeMonotone(n, c.i + c.j + 1, 2 * n - 1);
    BeforeTotal(n);
  }

  /** A cell of lower rank lies on the same or an earlier anti-diagonal. */
  lemma RankOrdersDiagonals(n: int, a: Cell, b: Cell)
    requires n >= 1 && InBlock(n, a) && InBlock(n, b) && Rank(n, a) <= Rank(n, b)
    ensures a.i + a.j <= b.i + b.j
  {
    RankWindow(n, a);
    RankWindow(n, b);
    if b.i + b.j < a.i + a.j {
      BeforeMonotone(n, b.i + b.j + 1, a.i + a.j);
    }
  }

  /** Different cells have different ranks. */
  lemma RankInjective(n: int, a: Cell, b: Cell)
    requires n >= 1 && InBlock(n, a) && InBlock(n, b) && Rank(n, a) == Rank(n, b)
    ensures a == b
  {
    RankOrdersDiagonals(n, a, b);
    RankOrdersDiagonals(n, b, a);
  }

  lemma CornerRanks(n: int)
    requires n >= 1
    ensures Rank(n, Cell(0, 0)) == 0
    ensures Rank(n, Cell(n - 1, n - 1)) == n * n - 1
  {
    BeforeTotal(n);
  }

  /** Every move raises the rank by exactly one. */
  lemma StepRank(n: int, c: Cursor)
    requires n >= 2 && Valid(n, c) && Continues(n, n, c)
    ensures Valid(n, Step(n, n, c))
    ensures Rank(n, At(Step(n, n, c))) == Rank(n, At(c)) + 1
  {
    StepValid(n, c);
  }

  /** The cells read from state `c` on are those of ranks `Rank(c) + 1` up to
      `n² - 1`, in order. */
  lemma {:induction false} WalkFromRanks(n: int, c: Cursor)
    requires n >= 2 && Valid(n, c) && Continues(n, n, c)
    ensures |WalkFrom(n, c)| == n * n - 1 - Rank(n, At(c))
    ensures forall k :: 0 <= k < |WalkFrom(n, c)| ==>
      InBlock(n, WalkFrom(n, c)[k]) && Rank(n, WalkFrom(n, c)[k]) == Rank(n, At(c)) + k + 1
    decreases 2 * n - c.i - c.j, if c.forward then c.i else n - c.i
  {
    var d := Step(n, n, c);
    StepRank(n, c);
    var w := WalkFrom(n, c);
    if Continues(n, n, d) {
      WalkFromRanks(n, d);
      assert w == [At(d)] + WalkFrom(n, d);
    } else {
      CornerRanks(n);
      assert w == [At(d)];
    }
  }

  /** The walk reads `n² - 1` cells, the `k`-th being the cell of rank `k + 1`. */
  lemma WalkRanks(n: int)
    requires n >= 2
    ensures |Walk(n)| == n * n - 1
    ensures forall k :: 0 <= k < |Walk(n)| ==> InBlock(n, Walk(n)[k]) && Rank(n, Walk(n)[k]) == k + 1
  {
    var start := Cursor(0, 0, true);
    StartRank(n);
    WalkFromRanks(n, start);
  }

  /** The scan starts at the DC cell, of rank 0, going up-right. */
  lemma StartRank(n: int)
    requires n >= 2
    ensures Valid(n, Cursor(0, 0, true)) && Continues(n, n, Cursor(0, 0, true))
    ensures Rank(n, At(Cursor(0, 0, true))) == 0
  {
  }

  /** Each cell is read at most once, and the DC cell is never read. */
  lemma WalkDistinct(n: int)
    requires n >= 2
    ensures forall k1, k2 :: 0 <= k1 < k2 < |Walk(n)| ==> Walk(n)[k1] != Walk(n)[k2]
    ensures Cell(0, 0) !in Walk(n)
  {
    WalkRanks(n);
    CornerRanks(n);
  }

  /** Every cell other than the DC cell is read. */
  lemma WalkCovers(n: int, c: Cell)
    requires n >= 2 && InBlock(n, c) && c != Cell(0, 0)
    ensures c in Walk(n)
    ensures 1 <= Rank(n, c) <= |Walk(n)| && Walk(n)[Rank(n, c) - 1] == c
  {
    WalkRanks(n);
    RankBound(n, c);
    CornerRanks(n);
    if Rank(n, c) == 0 {
      RankInjective(n, c, Cell(0, 0));
    }
    var w := Walk(n)[Rank(n, c) - 1];
    RankInjective(n, w, c);
  }

  /** The loop stops right after reading the bottom-right corner. */
  lemma WalkEndsAtCorner(n: int)
    requires n >= 2
    ensures Walk(n)[|Walk(n)| - 1] == Cell(n - 1, n - 1)
    ensures forall k :: 0 <= k < |Walk(n)| - 1 ==> Walk(n)[k] != Cell(n - 1, n - 1)
  {
    var w, corner := Walk(n), Cell(n - 1, n - 1);
    WalkRanks(n);
    CornerRanks(n);
    WalkCovers(n, corner);
    assert w[|w| - 1] == corner;
    forall k | 0 <= k < |w| - 1
      ensures w[k] != corner
    {
      assert Rank(n, w[k]) == k + 1;
    }
  }

  /** `i + j` never decreases along the walk, and rises by at most one. */
  lemma WalkDiagonals(n: int)
    requires n >= 2
    ensures forall k :: 0 < k < |Walk(n)| ==>
      Walk(n)[k - 1].i + Walk(n)[k - 1].j <= Walk(n)[k].i + Walk(n)[k].j <= Walk(n)[k - 1].i + Walk(n)[k - 1].j + 1
  {
    var w := Walk(n);
    WalkRanks(n);
    forall k | 0 < k < |w|
      ensures w[k - 1].i + w[k - 1].j <= w[k].i + w[k].j <= w[k - 1].i + w[k - 1].j + 1
    {
      ConsecutiveRanks(n, w[k - 1], w[k]);
    }
  }

  /** Cells of consecutive ranks lie on the same or adjacent anti-diagonals. */
  lemma ConsecutiveRanks(n: int, a: Cell, b: Cell)
    requires n >= 1 && InBlock(n, a) && InBlock(n, b) && Rank(n, b) == Rank(n, a) + 1
    ensures a.i + a.j <= b.i + b.j <= a.i + a.j + 1
  {
    RankOrdersDiagonals(n, a, b);
    RankWindow(n, a);
    RankWindow(n, b);
    var d := a.i + a.j;
    if b.i + b.j > d + 1 {
      BeforeMonotone(n, d + 2, b.i + b.j);
    }
  }

  // ------------------------------------------------ the T.81 reference order

  /** Anti-diagonal `d` in T.81 order: row falling on even diagonals, rising
      on odd ones. */
  function Diagonal(n: int, d: int): (s: seq<Cell>)
    requires 0 <= d <= 2 * n - 2
    ensures |s| == DiagLen(n, d)
  {
    seq(DiagLen(n, d), t requires 0 <= t < DiagLen(n, d) =>
      if d % 2 == 0 then Cell(Hi(n, d) - t, d - Hi(n, d) + t) else Cell(Lo(n, d) + t, d - Lo(n, d) - t))
  }

  /** The first `count` anti-diagonals, concatenated. */
  function Diagonals(n: int, count: nat): seq<Cell>
    requires count <= 2 * n - 1
  {
    if count == 0 then [] else Diagonals(n, count - 1) + Diagonal(n, count - 1)
  }

  /** The zigzag sequence of ITU-T T.81 Figure A.6 for an `n`-by-`n` block. */
  function ZigzagOrder(n: int): seq<Cell>
    requires n >= 1
  {
    Diagonals(n, 2 * n - 1)
  }

  /** Entry `k` of the concatenated diagonals is the cell of rank `k`. */
  lemma {:induction false} DiagonalsRanks(n: int, count: nat)
    requires n >= 1 && count <= 2 * n - 1
    ensures |Diagonals(n, count)| == Before(n, count)
    ensures forall k :: 0 <= k < |Diagonals(n, count)| ==>
      InBlock(n, Diagonals(n, count)[k]) && Rank(n, Diagonals(n, count)[k]) == k
  {
    if count > 0 {
      var d := count - 1;
      DiagonalsRanks(n, d);
      var front, last := Diagonals(n, d), Diagonal(n, d);
      var all := Diagonals(n, count);
      assert all == front + last;
      forall k | 0 <= k < |all|
        ensures InBlock(n, all[k]) && Rank(n, all[k]) == k
      {
        if k >= |front| {
          assert all[k] == last[k - |front|];
        }
      }
    }
  }

  /** The walk reads the block in T.81 zigzag order, less its first (DC) cell. */
  lemma WalkIsZigzagOrder(n: int)
    requires n >= 2
    ensures |ZigzagOrder(n)| == n * n
    ensures Walk(n) == ZigzagOrder(n)[1..]
  {
    DiagonalsRanks(n, 2 * n - 1);
    BeforeTotal(n);
    WalkRanks(n);
    var w, z := Walk(n), ZigzagOrder(n);
    forall k | 0 <= k < |w|
      ensures w[k] == z[k + 1]
    {
      RankInjective(n, w[k], z[k + 1]);
    }
  }

  // ----------------------------------------------------- values and trimming

  /** The block values at the given cells. */
  predicate Inside(m: Mat, cells: seq<Cell>)
  {
    forall k :: 0 <= k < |cells| ==> 0 <= cells[k].i < |m| && 0 <= cells[k].j < |m[cells[k].i]|
  }

  function Values(m: Mat, cells: seq<Cell>): (v: seq<real>)
    requires Inside(m, cells)
    ensures |v| == |cells|
    ensures forall k :: 0 <= k < |cells| ==> v[k] == m[cells[k].i][cells[k].j]
  {
    seq(|cells|, k requires 0 <= k < |cells| => m[cells[k].i][cells[k].j])
  }

  /** Drops trailing zeros: the result is the longest prefix not ending in
      zero that leaves only zeros behind. */
  function TrimTrailingZeros(s: seq<real>): (t: seq<real>)
    ensures t <= s
    ensures |t| > 0 ==> t[|t| - 1] != 0.0
    ensures forall k :: |t| <= k < |s| ==> s[k] == 0.0
    ensures t == [] <==> forall k :: 0 <= k < |s| ==> s[k] == 0.0
  {
    if |s| > 0 && s[|s| - 1] == 0.0 then TrimTrailingZeros(s[..|s| - 1]) else s
  }

  /** A square block of side at least two. */
  predicate SquareBlock(m: Mat)
  {
    Rectangular(m) && Height(m) == Width(m) >= 2
  }

  /** The zigzag scan: the values along the walk, trailing zeros trimmed. At
      most `n² - 1` values, never the DC value. */
  function ZigzagRun(m: Mat): (r: seq<real>)
    requires SquareBlock(m)
    ensures |r| <= Height(m) * Height(m) - 1
    ensures r <= Values(m, Walk(Height(m)))
    ensures |r| > 0 ==> r[|r| - 1] != 0.0
  {
    var n := Height(m);
    WalkRanks(n);
    TrimTrailingZeros(Values(m, Walk(n)))
  }

  /** The scan is empty exactly when every entry other than the DC entry is
      zero. */
  lemma ZigzagRunEmpty(m: Mat)
    requires SquareBlock(m)
    ensures ZigzagRun(m) == [] <==>
      forall i, j :: 0 <= i < Height(m) && 0 <= j < Height(m) && (i, j) != (0, 0) ==> m[i][j] == 0.0
  {
    var n := Height(m);
    WalkRanks(n);
    WalkDistinct(n);
    var v := Values(m, Walk(n));
    if ZigzagRun(m) == [] {
      forall i, j | 0 <= i < n && 0 <= j < n && (i, j) != (0, 0)
        ensures m[i][j] == 0.0
      {
        WalkCovers(n, Cell(i, j));
      }
    }
  }

  /** The walk from `c` is the cell moved to, then the walk from there. */
  lemma WalkFromStep(n: int, c: Cursor)
    requires n >= 2 && Valid(n, c) && Continues(n, n, c)
    ensures var next := Step(n, n, c);
      Valid(n, next) &&
      WalkFrom(n, c) == [At(next)] + if Continues(n, n, next) then WalkFrom(n, next) else []
  {
    StepValid(n, c);
  }

  /** Reading one more cell appends its value. */
  lemma ValuesSnoc(m: Mat, cells: seq<Cell>, x: Cell)
    requires Inside(m, cells) && 0 <= x.i < |m| && 0 <= x.j < |m[x.i]|
    ensures Inside(m, cells + [x])
    ensures Values(m, cells + [x]) == Values(m, cells) + [m[x.i][x.j]]
  {
  }

  lemma AppendAssociative<T>(a: seq<T>, b: seq<T>, c: seq<T>)
    ensures a + (b + c) == (a + b) + c
  {
  }

  /** The scan as the loop runs it: move, read, and repeat until the corner
      has been read; then pop zeros off the end. It computes `ZigzagRun`. */
  method ZigzagRunLoop(m: Mat) returns (ret: seq<real>)
    requires SquareBlock(m)
    ensures ret == ZigzagRun(m)
  {
    ret := ScanLoop(m);
    ret := PopZeros(ret);
  }

  /** The reading loop: the values along the walk, in walk order. */
  method ScanLoop(m: Mat) returns (ret: seq<real>)
    requires SquareBlock(m)
    ensures Inside(m, Walk(Height(m))) && ret == Values(m, Walk(Height(m)))
  {
    var n := Height(m);
    ret := [];
    var c := Cursor(0, 0, true);
    var going := true;
    ghost var read: seq<Cell> := [];
    while going
      invariant Valid(n, c)
      invariant Inside(m, read) && ret == Values(m, read)
      invariant going ==> Continues(n, n, c) && read + WalkFrom(n, c) == Walk(n)
      invariant !going ==> read == Walk(n)
      decreases going, 2 * n - c.i - c.j, if c.forward then c.i else n - c.i
    {
      WalkFromStep(n, c);
      var next := Step(n, n, c);
      ghost var rest := if Continues(n, n, next) then WalkFrom(n, next) else [];
      AppendAssociative(read, [At(next)], rest);
      ValuesSnoc(m, read, At(next));
      read := read + [At(next)];
      ret := ret + [m[next.i][next.j]];
      going := Continues(n, n, next);
      c := next;
    }
  }

  /** The trimming loop: pop zeros off the end while there are any. */
  method PopZeros(s: seq<real>) returns (ret: seq<real>)
    ensures ret == TrimTrailingZeros(s)
  {
    ret := s;
    while |ret| > 0 && ret[|ret| - 1] == 0.0
      invariant TrimTrailingZeros(ret) == TrimTrailingZeros(s)
    {
      ret := ret[..|ret| - 1];
    }
  }
}
