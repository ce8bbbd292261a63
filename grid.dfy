/**
 * The board of the snake game: an n-by-n grid of cells with toroidal
 * movement (leaving one edge re-enters at the opposite one), and the
 * counting facts about it that decide whether a free cell is left.
 */
module Grid {

  datatype Cell = Cell(x: int, y: int)

  datatype Direction = Up | Down | Left | Right

  predicate InGrid(c: Cell, n: nat) {
    0 <= c.x < n && 0 <= c.y < n
  }

  predicate AllInGrid(s: seq<Cell>, n: nat) {
    forall i :: 0 <= i < |s| ==> InGrid(s[i], n)
  }

  /** No cell occurs twice. */
  predicate Distinct(s: seq<Cell>) {
    forall i, j :: 0 <= i < j < |s| ==> s[i] != s[j]
  }

  /**
   * Python's `v % n` for a positive modulus (it agrees with Dafny's `%`):
   * a value already on the board is left alone, one step past either edge
   * lands on the opposite edge.
   */
  function Wrap(v: int, n: nat): (r: int)
    requires n > 0
    ensures 0 <= r < n
    ensures 0 <= v < n ==> r == v
    ensures v == n ==> r == 0
    ensures v == -1 ==> r == n - 1
  {
    v % n
  }

  /**
   * The cell the head moves to: one step along the axis of `d`, wrapping
   * around the edge, the other coordinate unchanged.
   */
  function NextHead(c: Cell, d: Direction, n: nat): (r: Cell)
    requires n > 0 && InGrid(c, n)
    ensures InGrid(r, n)
    ensures d == Up ==> r.x == c.x && (r.y == c.y - 1 || (c.y == 0 && r.y == n - 1))
    ensures d == Down ==> r.x == c.x && (r.y == c.y + 1 || (c.y == n - 1 && r.y == 0))
    ensures d == Left ==> r.y == c.y && (r.x == c.x - 1 || (c.x == 0 && r.x == n - 1))
    ensures d == Right ==> r.y == c.y && (r.x == c.x + 1 || (c.x == n - 1 && r.x == 0))
  {
    match d
    case Up => Cell(c.x, Wrap(c.y - 1, n))
    case Down => Cell(c.x, Wrap(c.y + 1, n))
    case Left => Cell(Wrap(c.x - 1, n), c.y)
    case Right => Cell(Wrap(c.x + 1, n), c.y)
  }

  /** On a board at least two cells wide the head always leaves its cell. */
  lemma NextHeadMoves(c: Cell, d: Direction, n: nat)
    requires n >= 2 && InGrid(c, n)
    ensures NextHead(c, d, n) != c
  {
  }

  /** Moving right off the last column of a 20-cell board re-enters at column 0. */
  lemma NextHeadWrapsRight()
    ensures NextHead(Cell(19, 0), Right, 20) == Cell(0, 0)
  {
  }

  // ---------------------------------------------------------------------
  // Counting cells

  /** Row `y` of the board, left to right. */
  function Row(y: int, n: nat): (r: seq<Cell>)
    ensures |r| == n
    ensures forall c :: c in r <==> c.y == y && 0 <= c.x < n
  {
    var r := seq(n, i requires 0 <= i < n => Cell(i, y));
    assert forall c: Cell :: c.y == y && 0 <= c.x < n ==> r[c.x] == c;
    r
  }

  /** The first `k` rows of the board, top to bottom. */
  function Rows(k: nat, n: nat): (r: seq<Cell>)
    ensures |r| == k * n
    ensures forall c :: c in r <==> 0 <= c.y < k && 0 <= c.x < n
  {
    if k == 0 then [] else Rows(k - 1, n) + Row(k - 1, n)
  }

  /** Every cell of the board. */
  function AllCells(n: nat): (r: seq<Cell>)
    ensures |r| == n * n
    ensures forall c :: c in r <==> InGrid(c, n)
  {
    Rows(n, n)
  }

  lemma DistinctAppend(a: seq<Cell>, b: seq<Cell>)
    requires Distinct(a) && Distinct(b)
    requires forall c :: c in a ==> c !in b
    ensures Distinct(a + b)
  {
    var s := a + b;
    forall i, j | 0 <= i < j < |s|
      ensures s[i] != s[j]
    {
      if j >= |a| {
        assert s[j] == b[j - |a|];
        if i < |a| {
          assert s[i] == a[i] && a[i] in a;
        } else {
          assert s[i] == b[i - |a|];
        }
      }
    }
  }

  lemma {:induction false} RowsDistinct(k: nat, n: nat)
    ensures Distinct(Rows(k, n))
  {
    if k > 0 {
      RowsDistinct(k - 1, n);
      DistinctAppend(Rows(k - 1, n), Row(k - 1, n));
    }
  }

  lemma AllCellsDistinct(n: nat)
    ensures Distinct(AllCells(n))
  {
    RowsDistinct(n, n);
  }

  /** `t` with every occurrence of `x` taken out. */
  function Without(t: seq<Cell>, x: Cell): (r: seq<Cell>)
    ensures forall c :: c in r <==> c in t && c != x
    ensures |r| <= |t|
  {
    if t == [] then []
    else (if t[0] == x then [] else [t[0]]) + Without(t[1..], x)
  }

  lemma DistinctTail(t: seq<Cell>)
    requires |t| > 0 && Distinct(t)
    ensures Distinct(t[1..]) && t[0] !in t[1..]
  {
  }

  lemma DistinctCons(a: Cell, t: seq<Cell>)
    requires a !in t && Distinct(t)
    ensures Distinct([a] + t)
  {
  }

  lemma {:induction false} WithoutDistinct(t: seq<Cell>, x: Cell)
    requires Distinct(t)
    ensures Distinct(Without(t, x))
    ensures |Without(t, x)| == if x in t then |t| - 1 else |t|
  {
    if t != [] {
      DistinctTail(t);
      WithoutDistinct(t[1..], x);
      var rest := Without(t[1..], x);
      assert t == [t[0]] + t[1..];
      if t[0] != x {
        DistinctCons(t[0], rest);
      }
    }
  }

  /**
   * Pigeonhole: a sequence of distinct cells longer than `s` has a member
   * that `s` does not hold.
   */
  lemma {:induction false} Pigeonhole(t: seq<Cell>, s: seq<Cell>)
    requires Distinct(t) && |t| > |s|
    ensures exists c :: c in t && c !in s
    decreases |s|
  {
    if s == [] {
      assert t[0] in t;
    } else {
      var x := s[0];
      var t' := Without(t, x);
      WithoutDistinct(t, x);
      Pigeonhole(t', s[1..]);
      var c :| c in t' && c !in s[1..];
      assert s == [x] + s[1..];
      assert c in t && c !in s;
    }
  }

  /** Distinct cells of the board number at most n * n. */
  lemma DistinctBound(t: seq<Cell>, n: nat)
    requires Distinct(t) && AllInGrid(t, n)
    ensures |t| <= n * n
  {
    if |t| > n * n {
      Pigeonhole(t, AllCells(n));
    }
  }

  /** Fewer than n * n cells, distinct or not, always leave a cell free. */
  lemma FreeCellExists(s: seq<Cell>, n: nat)
    requires |s| < n * n
    ensures exists c :: InGrid(c, n) && c !in s
  {
    AllCellsDistinct(n);
    Pigeonhole(AllCells(n), s);
  }

  /** n * n distinct cells of the board cover all of it. */
  lemma FullCover(t: seq<Cell>, n: nat)
    requires Distinct(t) && AllInGrid(t, n) && |t| == n * n
    ensures forall c :: InGrid(c, n) ==> c in t
  {
    forall c | InGrid(c, n)
      ensures c in t
    {
      if c !in t {
        DistinctCons(c, t);
        assert AllInGrid([c] + t, n);
        DistinctBound([c] + t, n);
      }
    }
  }
}
