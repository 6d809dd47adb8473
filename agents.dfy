/** The agent of both variants. agent.py's Agent and the Agent of main.py have the
    same state (name tag, cell value, position, alive flag), the same constructor
    and the same equality on agents; they differ only in their rule, so the one
    class here carries both: Update (agent.py, with combat) and Move (main.py,
    move only). The owning automaton's grid, which the source reads through the
    `_parent` reference, is passed to each rule as an argument. */
module Agents {
  import opened Grid
  import opened Rules
  import opened World
  import opened Lists

  datatype Option<T> = None | Some(value: T)

  class Agent {
    const name: char
    const value: int
    var position: Pos
    var isAlive: bool

    /** A new agent is alive. */
    constructor (name: char, value: int, pos: Pos)
      ensures this.name == name && this.value == value && position == pos && isAlive
    {
      this.name := name;
      this.value := value;
      position := pos;
      isAlive := true;
    }

    ghost function State(): AgentState
      reads this
    {
      AgentState(name, value, position, isAlive)
    }

    /** __eq__ against another agent: the same instance or the same position. */
    predicate Equals(other: Agent)
      reads this, other
    {
      this == other || position == other.position
    }

    /** __eq__ against a bare position array (agent.py only): equal when the
        positions agree; otherwise the source goes on to read `other.position`,
        which an array does not have, and fails (None). */
    function EqualsArray(p: Pos): (r: Option<bool>)
      reads this
      ensures r.Some? <==> position == p
      ensures r != Some(false)
    {
      if position == p then Some(true) else None
    }

    /** _updatePosition: up to Mur attempts; each tries the reflected neighbour for
        its direction index and the first one that is empty is taken. */
    method UpdatePosition(g: Cells, tries: seq<nat>)
      requires IsGrid(g) && Interior(g, position) && |tries| == Mur && ValidTries(tries)
      modifies this
      ensures position == TryMoves(g, old(position), tries)
      ensures isAlive == old(isAlive)
    {
      var k := 0;
      while k < Mur
        invariant 0 <= k <= Mur
        invariant position == old(position) && isAlive == old(isAlive)
        invariant TryMoves(g, position, tries) == TryMoves(g, position, tries[k..])
      {
        var c := Candidate(g, position, tries[k]);
        assert tries[k..][1..] == tries[k + 1..];
        if IsEmptyCell(g, c) {
          position := c;
          return;
        }
        k := k + 1;
      }
    }

    /** Agent.update of agent.py: move when the neighbourhood is empty, else move
        when it is friendly, else fight. */
    method Update(g: Cells, d: Draw)
      requires IsGrid(g) && Interior(g, position) && DrawOk(d)
      modifies this
      ensures Outcome(position, isAlive) == Decide(g, value, old(position), old(isAlive), d)
    {
      if IsEmptyNeighborhood(g, position) {
        UpdatePosition(g, d.tries);
      } else {
        var friendly := IsFriendlyNeighborhood(g, value, position);
        if friendly {
          UpdatePosition(g, d.tries);
        } else {
          var friends, enemies := CalcFriendsEnemies(g, value, position);
          if friends == 0 && enemies == 1 {
            isAlive := d.coin;
          } else if enemies > friends {
            isAlive := false;
          }
        }
      }
    }

    /** Agent.move of main.py: _moveEmptyCase when the neighbourhood is empty,
        _moveFriendlyCase when it is friendly (both are the loop of
        UpdatePosition), nothing otherwise; the alive flag is never touched. */
    method Move(g: Cells, tries: seq<nat>)
      requires IsGrid(g) && Interior(g, position) && |tries| == Mur && ValidTries(tries)
      modifies this
      ensures position == MoveRule(g, value, old(position), tries)
      ensures isAlive == old(isAlive)
    {
      if IsEmptyNeighborhood(g, position) {
        UpdatePosition(g, tries);
      } else {
        var friendly := IsFriendlyNeighborhood(g, value, position);
        if friendly {
          UpdatePosition(g, tries);
        }
      }
    }
  }

  /** The states of a list of agents. */
  ghost function States(xs: seq<Agent>): (r: seq<AgentState>)
    reads xs
    ensures |r| == |xs| && forall k :: 0 <= k < |xs| ==> r[k] == xs[k].State()
  {
    seq(|xs|, k requires 0 <= k < |xs| reads xs => xs[k].State())
  }

  lemma StatesSnoc(xs: seq<Agent>, a: Agent)
    ensures States(xs + [a]) == States(xs) + [a.State()]
  {
  }

  /** The states of a filtered list are the filtered states. */
  lemma {:induction false} StatesPick(xs: seq<Agent>, m: seq<bool>)
    requires |xs| == |m|
    ensures States(Pick(xs, m)) == Pick(States(xs), m)
  {
    if xs != [] {
      var n := |xs| - 1;
      StatesPick(xs[..n], m[..n]);
      assert States(xs)[..n] == States(xs[..n]);
      var a := Pick(xs[..n], m[..n]);
      if m[n] {
        assert Pick(xs, m) == a + [xs[n]];
        StatesSnoc(a, xs[n]);
      } else {
        assert Pick(xs, m) == a;
      }
    }
  }

  /** A filter of agents on distinct cells keeps them on distinct cells. */
  lemma StatesPickDistinct(xs: seq<Agent>, m: seq<bool>)
    requires |xs| == |m| && Distinct(States(xs))
    ensures Distinct(States(Pick(xs, m)))
  {
    StatesPick(xs, m);
    DistinctPick(States(xs), m);
  }

  /** Agents at pairwise distinct positions are pairwise distinct instances, and
      for them __eq__ is identity. */
  lemma EqualsIsIdentity(xs: seq<Agent>)
    requires Distinct(States(xs))
    ensures Unique(xs)
    ensures forall k, l :: 0 <= k < |xs| && 0 <= l < |xs| ==> (xs[k].Equals(xs[l]) <==> k == l)
  {
    forall k, l | 0 <= k < |xs| && 0 <= l < |xs| && k != l ensures xs[k] != xs[l] && !xs[k].Equals(xs[l]) {
      if k < l {
        assert States(xs)[k].pos != States(xs)[l].pos;
      } else {
        assert States(xs)[l].pos != States(xs)[k].pos;
      }
    }
  }

  lemma StatesAppend(xs: seq<Agent>, ys: seq<Agent>)
    ensures States(xs + ys) == States(xs) + States(ys)
  {
  }

  /** The agents created for one cell: none, or one new agent whose state is the
      one the scan prescribes. */
  method CreateAt(g: Cells, i: int, j: int) returns (created: seq<Agent>)
    requires 0 <= i < |g| && 0 <= j < |g[i]|
    ensures States(created) == ScanCell(g, i, j)
    ensures |created| <= 1 && forall k :: 0 <= k < |created| ==> fresh(created[k])
  {
    var val := g[i][j];
    if val == 1 {
      var a := new Agent('A', val, Pos(i, j));
      created := [a];
    } else if val == 2 {
      var a := new Agent('B', val, Pos(i, j));
      created := [a];
    } else {
      created := [];
    }
  }

  /** The agents created for the interior cells of row i, left to right. */
  method CreateRow(g: Cells, i: int) returns (row: seq<Agent>)
    requires IsGrid(g) && 0 <= i < |g| && Cols(g) >= 2
    ensures States(row) == ScanRow(g, i, Cols(g) - 1)
    ensures forall k :: 0 <= k < |row| ==> fresh(row[k])
  {
    row := [];
    for j := 1 to Cols(g) - 1
      invariant States(row) == ScanRow(g, i, j)
      invariant forall k :: 0 <= k < |row| ==> fresh(row[k])
    {
      var created := CreateAt(g, i, j);
      StatesAppend(row, created);
      assert ScanRow(g, i, j + 1) == ScanRow(g, i, j) + ScanCell(g, i, j);
      row := row + created;
    }
  }

  /** Agent creation (_initAgents of both variants): scanning the interior in
      row-major order, a new agent 'A' for every cell holding 1 and 'B' for every
      cell holding 2. */
  method CreateAgents(g: Cells) returns (agents: seq<Agent>)
    requires IsGrid(g) && |g| >= 2 && Cols(g) >= 2
    ensures States(agents) == Scan(g)
    ensures Unique(agents) && forall k :: 0 <= k < |agents| ==> fresh(agents[k])
  {
    agents := [];
    for i := 1 to |g| - 1
      invariant States(agents) == ScanRows(g, i)
      invariant forall k :: 0 <= k < |agents| ==> fresh(agents[k])
    {
      var row := CreateRow(g, i);
      StatesAppend(agents, row);
      assert ScanRows(g, i + 1) == ScanRows(g, i) + ScanRow(g, i, Cols(g) - 1);
      agents := agents + row;
    }
    ScanFacts(g);
    EqualsIsIdentity(agents);
  }

  /** `list.remove(x)` on a list of agents: the first element that __eq__ x is
      dropped; for agents on distinct cells that is x itself. */
  method Remove(xs: seq<Agent>, x: Agent) returns (r: seq<Agent>)
    requires x in xs && Distinct(States(xs))
    ensures r == Without(xs, x)
  {
    EqualsIsIdentity(xs);
    ghost var idx :| 0 <= idx < |xs| && xs[idx] == x;
    var j := 0;
    while !xs[j].Equals(x)
      invariant 0 <= j <= idx
      decreases idx - j
    {
      j := j + 1;
    }
    WithoutAt(xs, j);
    r := xs[..j] + xs[j + 1..];
  }
}
