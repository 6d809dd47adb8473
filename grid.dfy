/** The border-padded occupancy grid of the automaton and its Moore-neighbourhood
    queries (CellAutomata.isEmptyCell, isFriendlyCell, isEmptyNeighborhood,
    isFriendlyNeighborhood and calcFriendsEnemies). Cell value 0 is empty, 1 is
    population A and 2 is population B. */
module Grid {

  /** A cell index (row, column) into the padded grid. */
  datatype Pos = Pos(row: int, col: int)

  /** A displacement along both axes. */
  datatype Offset = Offset(dr: int, dc: int)

  function Add(p: Pos, d: Offset): Pos {
    Pos(p.row + d.dr, p.col + d.dc)
  }

  /** The number of move attempts an agent makes (Agent.mur). */
  const Mur: nat := 8

  /** The direction table, in the order n, s, w, e, nw, ne, se, sw. */
  const Dirs: seq<Offset> := [Offset(-1, 0), Offset(1, 0), Offset(0, -1), Offset(0, 1),
                             Offset(-1, -1), Offset(-1, 1), Offset(1, 1), Offset(1, -1)]

  /** The grid: rows of cell values. */
  type Cells = seq<seq<int>>

  /** A rectangular grid with at least one row. */
  predicate IsGrid(g: Cells) {
    |g| > 0 && forall i :: 0 <= i < |g| ==> |g[i]| == |g[0]|
  }

  function Cols(g: Cells): nat
    requires |g| > 0
  {
    |g[0]|
  }

  predicate InBounds(g: Cells, p: Pos)
    requires IsGrid(g)
  {
    0 <= p.row < |g| && 0 <= p.col < Cols(g)
  }

  /** Inside the one-cell border ring. */
  predicate Interior(g: Cells, p: Pos)
    requires IsGrid(g)
  {
    1 <= p.row < |g| - 1 && 1 <= p.col < Cols(g) - 1
  }

  function At(g: Cells, p: Pos): int
    requires IsGrid(g) && InBounds(g, p)
  {
    g[p.row][p.col]
  }

  /** The cell at offset (x, y) from an interior position. */
  function Nb(g: Cells, p: Pos, x: int, y: int): int
    requires IsGrid(g) && Interior(g, p) && -1 <= x <= 1 && -1 <= y <= 1
  {
    g[p.row + x][p.col + y]
  }

  /** A grid of the given shape with every cell 0 (np.zeros). */
  function Zeros(rows: nat, cols: nat): (g: Cells)
    ensures |g| == rows && forall i :: 0 <= i < rows ==> |g[i]| == cols
    ensures forall i, j :: 0 <= i < rows && 0 <= j < cols ==> g[i][j] == 0
  {
    seq(rows, i => seq(cols, j => 0))
  }

  /** The grid with one cell overwritten (`cells[i, j] = v`). */
  function SetCell(g: Cells, p: Pos, v: int): (h: Cells)
    requires IsGrid(g) && InBounds(g, p)
    ensures IsGrid(h) && |h| == |g| && Cols(h) == Cols(g)
    ensures forall i, j :: 0 <= i < |g| && 0 <= j < Cols(g) ==>
              h[i][j] == if i == p.row && j == p.col then v else g[i][j]
  {
    g[p.row := g[p.row][p.col := v]]
  }

  // ---------------------------------------------------------------------------
  // Single-cell queries

  /** isEmptyCell: the cell holds 0. */
  predicate IsEmptyCell(g: Cells, p: Pos)
    requires IsGrid(g) && InBounds(g, p)
  {
    g[p.row][p.col] == 0
  }

  /** isFriendlyCell: the cell holds `val`. */
  predicate IsFriendlyCell(g: Cells, val: int, p: Pos)
    requires IsGrid(g) && InBounds(g, p)
  {
    g[p.row][p.col] == val
  }

  // ---------------------------------------------------------------------------
  // Reference meanings of the neighbourhood queries

  /** All eight Moore neighbours hold 0 (the centre is not considered). */
  predicate MooreEmpty(g: Cells, p: Pos)
    requires IsGrid(g) && Interior(g, p)
  {
    forall x, y | -1 <= x <= 1 && -1 <= y <= 1 && (x != 0 || y != 0) :: Nb(g, p, x, y) == 0
  }

  /** Every cell of the 3x3 block (centre included) holds 0 or `val`. */
  predicate FriendlyBlock(g: Cells, val: int, p: Pos)
    requires IsGrid(g) && Interior(g, p)
  {
    forall x, y | -1 <= x <= 1 && -1 <= y <= 1 :: Nb(g, p, x, y) == 0 || Nb(g, p, x, y) == val
  }

  // ---------------------------------------------------------------------------
  // isEmptyNeighborhood, written as the three slice tests of the source

  /** `not any(row[lo:hi] != 0)`. */
  predicate ZeroSpan(row: seq<int>, lo: int, hi: int)
    requires 0 <= lo <= hi <= |row|
  {
    forall k | lo <= k < hi :: row[k] == 0
  }

  /** isEmptyNeighborhood: the row above, the row below, then left and right. */
  function IsEmptyNeighborhood(g: Cells, p: Pos): bool
    requires IsGrid(g) && Interior(g, p)
  {
    var i, j := p.row, p.col;
    if !ZeroSpan(g[i - 1], j - 1, j + 2) then false
    else if !ZeroSpan(g[i + 1], j - 1, j + 2) then false
    else if g[i][j - 1] != 0 || g[i][j + 1] != 0 then false
    else true
  }

  /** The slice tests decide exactly "all eight Moore neighbours are 0". */
  lemma EmptyNeighborhoodMeaning(g: Cells, p: Pos)
    requires IsGrid(g) && Interior(g, p)
    ensures IsEmptyNeighborhood(g, p) <==> MooreEmpty(g, p)
  {
    var i, j := p.row, p.col;
    if MooreEmpty(g, p) {
      assert Nb(g, p, -1, -1) == 0 && Nb(g, p, -1, 0) == 0 && Nb(g, p, -1, 1) == 0;
      assert Nb(g, p, 1, -1) == 0 && Nb(g, p, 1, 0) == 0 && Nb(g, p, 1, 1) == 0;
      assert Nb(g, p, 0, -1) == 0 && Nb(g, p, 0, 1) == 0;
    }
    if IsEmptyNeighborhood(g, p) {
      forall x, y | -1 <= x <= 1 && -1 <= y <= 1 && (x != 0 || y != 0) ensures Nb(g, p, x, y) == 0 {
        if x == -1 {
          assert g[i - 1][j + y] == 0;
        } else if x == 1 {
          assert g[i + 1][j + y] == 0;
        }
      }
    }
  }

  /** The centre cell does not influence isEmptyNeighborhood. */
  lemma EmptyNeighborhoodIgnoresCentre(g: Cells, p: Pos, v: int)
    requires IsGrid(g) && Interior(g, p)
    ensures IsEmptyNeighborhood(SetCell(g, p, v), p) == IsEmptyNeighborhood(g, p)
  {
    var h := SetCell(g, p, v);
    EmptyNeighborhoodMeaning(g, p);
    EmptyNeighborhoodMeaning(h, p);
    forall x, y | -1 <= x <= 1 && -1 <= y <= 1 && (x != 0 || y != 0)
      ensures Nb(h, p, x, y) == Nb(g, p, x, y)
    {
    }
  }

  // ---------------------------------------------------------------------------
  // isFriendlyNeighborhood: nested loop over the 3x3 block with an early exit

  method IsFriendlyNeighborhood(g: Cells, val: int, p: Pos) returns (r: bool)
    requires IsGrid(g) && Interior(g, p)
    ensures r <==> FriendlyBlock(g, val, p)
  {
    for x := -1 to 2
      invariant forall x', y | -1 <= x' < x && -1 <= y <= 1 :: Nb(g, p, x', y) == 0 || Nb(g, p, x', y) == val
    {
      for y := -1 to 2
        invariant forall x', y' | -1 <= x' < x && -1 <= y' <= 1 :: Nb(g, p, x', y') == 0 || Nb(g, p, x', y') == val
        invariant forall y' | -1 <= y' < y :: Nb(g, p, x, y') == 0 || Nb(g, p, x, y') == val
      {
        var c := g[p.row + x][p.col + y];
        if c != val && c != 0 {
          assert Nb(g, p, x, y) == c;
          return false;
        }
      }
    }
    return true;
  }

  // ---------------------------------------------------------------------------
  // calcFriendsEnemies

  /** The nine cells of the 3x3 block in the loop order of the source
      (row offset outer, column offset inner). */
  function BlockValues(g: Cells, p: Pos): (s: seq<int>)
    requires IsGrid(g) && Interior(g, p)
    ensures |s| == 9
  {
    seq(9, k requires 0 <= k < 9 => Nb(g, p, k / 3 - 1, k % 3 - 1))
  }

  lemma BlockValuesAt(g: Cells, p: Pos, x: int, y: int)
    requires IsGrid(g) && Interior(g, p) && -1 <= x <= 1 && -1 <= y <= 1
    ensures BlockValues(g, p)[3 * (x + 1) + (y + 1)] == Nb(g, p, x, y)
  {
    var k := 3 * (x + 1) + (y + 1);
    assert k / 3 - 1 == x && k % 3 - 1 == y;
  }

  /** Number of entries equal to `v`. */
  function CountEq(s: seq<int>, v: int): nat
  {
    if s == [] then 0 else CountEq(s[..|s| - 1], v) + (if s[|s| - 1] == v then 1 else 0)
  }

  /** Number of entries that are non-zero and differ from `v`. */
  function CountEnemies(s: seq<int>, v: int): nat
  {
    if s == [] then 0
    else CountEnemies(s[..|s| - 1], v) + (if s[|s| - 1] != v && s[|s| - 1] != 0 then 1 else 0)
  }

  /** The (friends, enemies) pair the source reports for the block around p. */
  function FriendsEnemies(g: Cells, val: int, p: Pos): (int, int)
    requires IsGrid(g) && Interior(g, p)
  {
    (CountEq(BlockValues(g, p), val) - 1, CountEnemies(BlockValues(g, p), val))
  }

  /** The (friends + 1, enemies) counts over the first n cells of the block. */
  function Tally(s: seq<int>, v: int, n: nat): (int, int)
    requires n <= |s|
  {
    (CountEq(s[..n], v), CountEnemies(s[..n], v))
  }

  /** The counts of a prefix one entry longer. */
  lemma TallyNext(s: seq<int>, v: int, n: nat)
    requires n < |s|
    ensures Tally(s, v, n + 1) ==
            (Tally(s, v, n).0 + (if s[n] == v then 1 else 0),
             Tally(s, v, n).1 + (if s[n] != v && s[n] != 0 then 1 else 0))
  {
    assert s[..n + 1][..n] == s[..n];
  }

  method CalcFriendsEnemies(g: Cells, val: int, p: Pos) returns (fr: int, en: int)
    requires IsGrid(g) && Interior(g, p)
    ensures (fr, en) == FriendsEnemies(g, val, p)
  {
    ghost var s := BlockValues(g, p);
    ghost var n := 0;  // cells of the block visited so far
    fr, en := 0, 0;
    for x := -1 to 2
      invariant n == x + x + x + 3 && (fr, en) == Tally(s, val, n)
    {
      for y := -1 to 2
        invariant n == x + x + x + y + 4 && (fr, en) == Tally(s, val, n)
      {
        BlockValuesAt(g, p, x, y);
        TallyNext(s, val, n);
        var c := g[p.row + x][p.col + y];
        assert c == s[n];
        if c != val && c != 0 {
          en := en + 1;
        } else if c == val {
          fr := fr + 1;
        }
        n := n + 1;
      }
    }
    assert s[..9] == s;
    fr := fr - 1;
  }

  lemma {:induction false} CountsBounded(s: seq<int>, v: int)
    ensures CountEq(s, v) + CountEnemies(s, v) <= |s|
  {
    if s != [] {
      CountsBounded(s[..|s| - 1], v);
    }
  }

  lemma {:induction false} CountEqPositive(s: seq<int>, v: int, k: int)
    requires 0 <= k < |s| && s[k] == v
    ensures CountEq(s, v) >= 1
  {
    if k < |s| - 1 {
      CountEqPositive(s[..|s| - 1], v, k);
    }
  }

  lemma {:induction false} NoEnemiesIff(s: seq<int>, v: int)
    ensures CountEnemies(s, v) == 0 <==> forall k :: 0 <= k < |s| ==> s[k] == 0 || s[k] == v
  {
    if s != [] {
      NoEnemiesIff(s[..|s| - 1], v);
      assert forall k :: 0 <= k < |s| - 1 ==> s[..|s| - 1][k] == s[k];
    }
  }

  /** With `val` in the centre: friends are at least 0, together with enemies at
      most 8, and there are no enemies exactly when the block is friendly. */
  lemma FriendsEnemiesFacts(g: Cells, val: int, p: Pos)
    requires IsGrid(g) && Interior(g, p) && At(g, p) == val
    ensures FriendsEnemies(g, val, p).0 >= 0
    ensures FriendsEnemies(g, val, p).0 + FriendsEnemies(g, val, p).1 <= 8
    ensures FriendsEnemies(g, val, p).1 == 0 <==> FriendlyBlock(g, val, p)
  {
    var s := BlockValues(g, p);
    assert s[4] == Nb(g, p, 0, 0) == val;
    CountEqPositive(s, val, 4);
    CountsBounded(s, val);
    NoEnemiesIff(s, val);
    if FriendlyBlock(g, val, p) {
      forall k | 0 <= k < 9 ensures s[k] == 0 || s[k] == val {
        assert s[k] == Nb(g, p, k / 3 - 1, k % 3 - 1);
      }
    }
    if CountEnemies(s, val) == 0 {
      forall x, y | -1 <= x <= 1 && -1 <= y <= 1 ensures Nb(g, p, x, y) == 0 || Nb(g, p, x, y) == val {
        BlockValuesAt(g, p, x, y);
      }
    }
  }
}
