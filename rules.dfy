/** The per-agent rules: the edge reflection of a direction (Agent._sideCellCase,
    and the identical _sideCells of the move-only variant), the bounded sequence of
    move attempts (Agent._updatePosition, _moveEmptyCase, _moveFriendlyCase), the
    combat-bearing decision rule (Agent.update) and the move-only rule (Agent.move).
    The random direction draws and the 1-vs-1 coin are explicit inputs. */
module Rules {
  import opened Grid

  /** One agent's random inputs for a turn: up to Mur direction indices (one per
      move attempt, `random.choice` over the direction table) and the coin of the
      isolated 1-vs-1 fight (`np.random.choice((True, False))`). */
  datatype Draw = Draw(tries: seq<nat>, coin: bool)

  predicate ValidTries(tries: seq<nat>) {
    forall k :: 0 <= k < |tries| ==> tries[k] < |Dirs|
  }

  predicate DrawOk(d: Draw) {
    |d.tries| == Mur && ValidTries(d.tries)
  }

  /** A unit step: each component in {-1, 0, 1}, not both 0. */
  predicate IsUnit(d: Offset) {
    -1 <= d.dr <= 1 && -1 <= d.dc <= 1 && (d.dr != 0 || d.dc != 0)
  }

  /** The direction table holds exactly the eight unit steps. */
  lemma DirsAreMoore()
    ensures |Dirs| == Mur
    ensures forall t :: 0 <= t < |Dirs| ==> IsUnit(Dirs[t])
    ensures forall d :: IsUnit(d) ==> d in Dirs
  {
    forall d | IsUnit(d) ensures d in Dirs {
      if d.dr == -1 {
        assert d == Dirs[0] || d == Dirs[4] || d == Dirs[5];
      } else if d.dr == 0 {
        assert d == Dirs[2] || d == Dirs[3];
      } else {
        assert d == Dirs[1] || d == Dirs[6] || d == Dirs[7];
      }
    }
  }

  /** _sideCellCase: on a grid of `rows` x `cols` cells (border included), a
      component is negated when the agent is in the first interior line and it
      points outwards (-1), or in the last interior line and it points outwards (+1). */
  function Reflect(rows: int, cols: int, p: Pos, d: Offset): (r: Offset)
    ensures r.dr == d.dr || r.dr == -d.dr
    ensures r.dc == d.dc || r.dc == -d.dc
    ensures r.dr != d.dr <==> (p.row < 2 && d.dr == -1) || (p.row >= rows - 2 && d.dr == 1)
    ensures r.dc != d.dc <==> (p.col < 2 && d.dc == -1) || (p.col >= cols - 2 && d.dc == 1)
    ensures IsUnit(d) ==> IsUnit(r)
  {
    var dr := if (p.row < 2 && d.dr == -1) || (p.row >= rows - 2 && d.dr == 1) then -d.dr else d.dr;
    var dc := if (p.col < 2 && d.dc == -1) || (p.col >= cols - 2 && d.dc == 1) then -d.dc else d.dc;
    Offset(dr, dc)
  }

  /** On a grid with at least two interior lines per axis, the reflected step
      from an interior cell lands on an interior cell: no move enters the border. */
  lemma ReflectStaysInterior(rows: int, cols: int, p: Pos, d: Offset)
    requires rows >= 4 && cols >= 4
    requires 1 <= p.row <= rows - 2 && 1 <= p.col <= cols - 2
    requires IsUnit(d)
    ensures var q := Add(p, Reflect(rows, cols, p, d));
            1 <= q.row <= rows - 2 && 1 <= q.col <= cols - 2
  {
  }

  /** With a single interior row the rule pushes the agent onto the border ring. */
  lemma ReflectLeavesNarrowGrid()
    ensures Add(Pos(1, 1), Reflect(3, 4, Pos(1, 1), Offset(-1, 0))) == Pos(2, 1)
  {
  }

  /** Same or neighbouring cell along each axis. */
  predicate Near(p: Pos, q: Pos) {
    -1 <= q.row - p.row <= 1 && -1 <= q.col - p.col <= 1
  }

  /** The cell tried on an attempt with direction index t: a neighbour of p inside
      the grid, and inside the border ring when each axis has two interior lines. */
  function Candidate(g: Cells, p: Pos, t: nat): (c: Pos)
    requires IsGrid(g) && Interior(g, p) && t < |Dirs|
    ensures InBounds(g, c) && Near(p, c) && c != p
    ensures |g| >= 4 && Cols(g) >= 4 ==> Interior(g, c)
  {
    DirsAreMoore();
    var c := Add(p, Reflect(|g|, Cols(g), p, Dirs[t]));
    if |g| >= 4 && Cols(g) >= 4 then
      ReflectStaysInterior(|g|, Cols(g), p, Dirs[t]);
      c
    else c
  }

  /** The outcome of the bounded move attempts (_updatePosition): the first
      candidate that is empty is taken; if none is, the agent stays. A taken cell
      held 0, neighbours the start and is not the start. */
  function TryMoves(g: Cells, p: Pos, tries: seq<nat>): (r: Pos)
    requires IsGrid(g) && Interior(g, p) && ValidTries(tries)
    ensures r == p || (InBounds(g, r) && At(g, r) == 0 && Near(p, r) && r != p)
    ensures r != p && |g| >= 4 && Cols(g) >= 4 ==> Interior(g, r)
    decreases |tries|
  {
    if tries == [] then p
    else
      var c := Candidate(g, p, tries[0]);
      if IsEmptyCell(g, c) then c else TryMoves(g, p, tries[1..])
  }

  /** The k-th attempt is taken when it is the first empty candidate. */
  lemma {:induction false} TryMovesFirstEmpty(g: Cells, p: Pos, tries: seq<nat>, k: nat)
    requires IsGrid(g) && Interior(g, p) && ValidTries(tries) && k < |tries|
    requires forall j :: 0 <= j < k ==> !IsEmptyCell(g, Candidate(g, p, tries[j]))
    requires IsEmptyCell(g, Candidate(g, p, tries[k]))
    ensures TryMoves(g, p, tries) == Candidate(g, p, tries[k])
  {
    if k > 0 {
      var rest := tries[1..];
      assert ValidTries(rest) by {
        forall j | 0 <= j < |rest| ensures rest[j] < |Dirs| {
          assert rest[j] == tries[j + 1];
        }
      }
      forall j | 0 <= j < k - 1
        ensures !IsEmptyCell(g, Candidate(g, p, rest[j]))
      {
        assert rest[j] == tries[j + 1];
      }
      TryMovesFirstEmpty(g, p, rest, k - 1);
      assert !IsEmptyCell(g, Candidate(g, p, tries[0]));
      assert TryMoves(g, p, tries) == TryMoves(g, p, rest);
    }
  }

  /** If no candidate is empty the agent does not move. */
  lemma {:induction false} TryMovesNoneEmpty(g: Cells, p: Pos, tries: seq<nat>)
    requires IsGrid(g) && Interior(g, p) && ValidTries(tries)
    requires forall j :: 0 <= j < |tries| ==> !IsEmptyCell(g, Candidate(g, p, tries[j]))
    ensures TryMoves(g, p, tries) == p
  {
    if tries != [] {
      var rest := tries[1..];
      assert ValidTries(rest) by {
        forall j | 0 <= j < |rest| ensures rest[j] < |Dirs| {
          assert rest[j] == tries[j + 1];
        }
      }
      forall j | 0 <= j < |rest|
        ensures !IsEmptyCell(g, Candidate(g, p, rest[j]))
      {
        assert rest[j] == tries[j + 1];
      }
      TryMovesNoneEmpty(g, p, rest);
      assert !IsEmptyCell(g, Candidate(g, p, tries[0]));
      assert TryMoves(g, p, tries) == TryMoves(g, p, rest);
    }
  }

  // ---------------------------------------------------------------------------
  // The combat-bearing decision rule (agent.py)

  /** An agent's position and alive flag after its turn. */
  datatype Outcome = Outcome(pos: Pos, alive: bool)

  /** Agent.update: empty neighbourhood, then friendly neighbourhood, move;
      otherwise fight: an isolated 1-vs-1 is decided by the coin, being
      outnumbered is death, and anything else leaves the flag as it was. */
  function Decide(g: Cells, val: int, p: Pos, alive: bool, d: Draw): Outcome
    requires IsGrid(g) && Interior(g, p) && DrawOk(d)
  {
    if IsEmptyNeighborhood(g, p) then Outcome(TryMoves(g, p, d.tries), alive)
    else if FriendlyBlock(g, val, p) then Outcome(TryMoves(g, p, d.tries), alive)
    else
      var (friends, enemies) := FriendsEnemies(g, val, p);
      if friends == 0 && enemies == 1 then Outcome(p, d.coin)
      else if enemies > friends then Outcome(p, false)
      else Outcome(p, alive)
  }

  /** First rule: with all eight neighbours empty the agent tries to move. */
  lemma DecideEmpty(g: Cells, val: int, p: Pos, alive: bool, d: Draw)
    requires IsGrid(g) && Interior(g, p) && DrawOk(d)
    requires MooreEmpty(g, p)
    ensures Decide(g, val, p, alive, d) == Outcome(TryMoves(g, p, d.tries), alive)
  {
    EmptyNeighborhoodMeaning(g, p);
  }

  /** Second rule: some neighbour is occupied but none by the other population. */
  lemma DecideFriendly(g: Cells, val: int, p: Pos, alive: bool, d: Draw)
    requires IsGrid(g) && Interior(g, p) && DrawOk(d)
    requires !MooreEmpty(g, p) && FriendlyBlock(g, val, p)
    ensures Decide(g, val, p, alive, d) == Outcome(TryMoves(g, p, d.tries), alive)
  {
    EmptyNeighborhoodMeaning(g, p);
  }

  /** Third rule: combat never moves the agent and settles its flag by the
      friends/enemies counts. */
  lemma DecideCombat(g: Cells, val: int, p: Pos, alive: bool, d: Draw)
    requires IsGrid(g) && Interior(g, p) && DrawOk(d)
    requires !MooreEmpty(g, p) && !FriendlyBlock(g, val, p)
    ensures var (fr, en) := FriendsEnemies(g, val, p);
            Decide(g, val, p, alive, d) ==
              Outcome(p, if fr == 0 && en == 1 then d.coin else if en > fr then false else alive)
  {
    EmptyNeighborhoodMeaning(g, p);
  }

  /** An agent with its own value in its cell dies only in its own cell and only
      when at least one enemy is adjacent; a living agent with no enemy around
      survives its turn. */
  lemma DecideDeathNeedsEnemy(g: Cells, val: int, p: Pos, d: Draw)
    requires IsGrid(g) && Interior(g, p) && DrawOk(d) && At(g, p) == val
    requires !Decide(g, val, p, true, d).alive
    ensures Decide(g, val, p, true, d).pos == p
    ensures FriendsEnemies(g, val, p).1 >= 1
  {
    FriendsEnemiesFacts(g, val, p);
  }

  /** A committed move lands on a neighbouring cell that held 0; on a grid with at
      least two interior lines per axis it stays inside the border ring. */
  lemma DecideMoveLegal(g: Cells, val: int, p: Pos, alive: bool, d: Draw)
    requires IsGrid(g) && Interior(g, p) && DrawOk(d)
    ensures var q := Decide(g, val, p, alive, d).pos;
            q == p || (InBounds(g, q) && At(g, q) == 0 && Near(p, q))
    ensures |g| >= 4 && Cols(g) >= 4 ==> Interior(g, Decide(g, val, p, alive, d).pos)
  {
  }

  // ---------------------------------------------------------------------------
  // The move-only rule (main.py)

  /** Agent.move of the move-only variant: move when the neighbourhood is empty
      (_moveEmptyCase) or friendly (_moveFriendlyCase), otherwise do nothing. */
  function MoveRule(g: Cells, val: int, p: Pos, tries: seq<nat>): Pos
    requires IsGrid(g) && Interior(g, p) && ValidTries(tries)
  {
    if IsEmptyNeighborhood(g, p) then TryMoves(g, p, tries)
    else if FriendlyBlock(g, val, p) then TryMoves(g, p, tries)
    else p
  }

  /** A move of the move-only rule lands on a neighbouring cell that held 0; on a
      grid with at least two interior lines per axis it stays inside the border
      ring. */
  lemma MoveRuleLegal(g: Cells, val: int, p: Pos, tries: seq<nat>)
    requires IsGrid(g) && Interior(g, p) && ValidTries(tries)
    ensures var q := MoveRule(g, val, p, tries);
            q == p || (InBounds(g, q) && At(g, q) == 0 && Near(p, q))
    ensures |g| >= 4 && Cols(g) >= 4 ==> Interior(g, MoveRule(g, val, p, tries))
  {
  }

  /** The move-only rule moves exactly when the block holds no enemy. */
  lemma MoveRuleMeaning(g: Cells, val: int, p: Pos, tries: seq<nat>)
    requires IsGrid(g) && Interior(g, p) && ValidTries(tries) && At(g, p) == val
    ensures MoveRule(g, val, p, tries) ==
              if FriendsEnemies(g, val, p).1 == 0 then TryMoves(g, p, tries) else p
  {
    EmptyNeighborhoodMeaning(g, p);
    FriendsEnemiesFacts(g, val, p);
    if MooreEmpty(g, p) {
      assert FriendlyBlock(g, val, p);
    }
  }
}
