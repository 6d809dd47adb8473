/** The move-only variant (main.py). Its agents never fight and never die: on its
    turn an agent moves when its neighbourhood is empty or friendly and otherwise
    stays. update(iters) makes `iters` passes over the agent list in list order;
    after every move the grid is rebuilt from all agents and nothing is removed.

    As for the combat variant, a pass is first defined on values (MoveAt, Pass,
    Passes) and its invariants are proved there; the class CellAutomata below holds
    the mutable state and its methods are proved to compute exactly those values. */
module MoveOnly {
  import opened Grid
  import opened Rules
  import opened Lists
  import opened World
  import opened Agents

  // ---------------------------------------------------------------------------
  // Passes on values

  /** The random inputs of one pass: Mur direction indices for each of the n
      listed agents (`random.choice` over the direction table). */
  predicate PassInputs(n: int, tries: seq<seq<nat>>) {
    |tries| == n && forall k :: 0 <= k < |tries| ==> |tries[k]| == Mur && ValidTries(tries[k])
  }

  /** The random inputs of update(iters): one pass's inputs per iteration. */
  predicate UpdateInputs(n: int, moves: seq<seq<seq<nat>>>) {
    forall i :: 0 <= i < |moves| ==> PassInputs(n, moves[i])
  }

  /** Agent i is moved to p; nobody else changes. */
  function MoveAt(ws: seq<AgentState>, i: nat, p: Pos): seq<AgentState>
    requires i < |ws|
  {
    ws[i := AgentState(ws[i].name, ws[i].value, p, ws[i].alive)]
  }

  /** The first k moves of a pass: agent k - 1 applies Agent.move to the grid the
      first k - 1 moves left. The whole pass is Pass(..., |ws|). */
  function Pass(rows: nat, cols: nat, ws: seq<AgentState>, tries: seq<seq<nat>>, k: nat): (r: seq<AgentState>)
    requires rows >= 4 && cols >= 4 && AllPlaced(rows, cols, ws) && PassInputs(|ws|, tries) && k <= |ws|
    ensures |r| == |ws| && AllPlaced(rows, cols, r)
    decreases k, 2
  {
    if k == 0 then ws
    else MoveAt(Pass(rows, cols, ws, tries, k - 1), k - 1, Step(rows, cols, ws, tries, k))
  }

  /** Where the k-th move of a pass takes agent k - 1. It never leaves the
      interior. */
  function Step(rows: nat, cols: nat, ws: seq<AgentState>, tries: seq<seq<nat>>, k: nat): (p: Pos)
    requires rows >= 4 && cols >= 4 && AllPlaced(rows, cols, ws) && PassInputs(|ws|, tries) && 0 < k <= |ws|
    ensures 1 <= p.row <= rows - 2 && 1 <= p.col <= cols - 2
    decreases k, 1
  {
    var a := Pass(rows, cols, ws, tries, k - 1)[k - 1];
    var g := Board(rows, cols, ws, tries, k);
    MoveRuleLegal(g, a.value, a.pos, tries[k - 1]);
    MoveRule(g, a.value, a.pos, tries[k - 1])
  }

  /** The grid the k-th move sees: the rebuild the first k - 1 moves leave. */
  function Board(rows: nat, cols: nat, ws: seq<AgentState>, tries: seq<seq<nat>>, k: nat): (g: Cells)
    requires rows >= 4 && cols >= 4 && AllPlaced(rows, cols, ws) && PassInputs(|ws|, tries) && 0 < k <= |ws|
    ensures IsGrid(g) && |g| == rows && Cols(g) == cols
    decreases k, 0
  {
    Paint(rows, cols, Pass(rows, cols, ws, tries, k - 1))
  }

  /** The states after the first k moves of a pass (Pass, named for the
      invariants of the loop that performs the pass). */
  function After(rows: nat, cols: nat, ws: seq<AgentState>, tries: seq<seq<nat>>, k: nat): seq<AgentState>
    requires rows >= 4 && cols >= 4 && AllPlaced(rows, cols, ws) && PassInputs(|ws|, tries) && k <= |ws|
  {
    Pass(rows, cols, ws, tries, k)
  }

  /** The (k + 1)-th move applies Agent.move of agent k to the grid the first k
      moves leave. */
  lemma PassNext(rows: nat, cols: nat, ws: seq<AgentState>, tries: seq<seq<nat>>, k: nat)
    requires rows >= 4 && cols >= 4 && AllPlaced(rows, cols, ws) && PassInputs(|ws|, tries) && k < |ws|
    ensures var w := Pass(rows, cols, ws, tries, k);
            var a, g := w[k], Paint(rows, cols, w);
            Interior(g, a.pos) &&
            Pass(rows, cols, ws, tries, k + 1) == MoveAt(w, k, MoveRule(g, a.value, a.pos, tries[k]))
  {
    assert Board(rows, cols, ws, tries, k + 1) == Paint(rows, cols, Pass(rows, cols, ws, tries, k));
  }

  /** The k-th move leaves its agent where it is or takes it to a neighbouring
      cell that is empty on the grid it sees. */
  lemma StepLegal(rows: nat, cols: nat, ws: seq<AgentState>, tries: seq<seq<nat>>, k: nat)
    requires rows >= 4 && cols >= 4 && AllPlaced(rows, cols, ws) && PassInputs(|ws|, tries) && 0 < k <= |ws|
    ensures var w, p := Pass(rows, cols, ws, tries, k - 1), Step(rows, cols, ws, tries, k);
            p == w[k - 1].pos || (PaintAt(w, p) == 0 && Near(w[k - 1].pos, p))
  {
    var w := Pass(rows, cols, ws, tries, k - 1);
    var a := w[k - 1];
    assert Board(rows, cols, ws, tries, k) == Paint(rows, cols, w);
    MoveRuleLegal(Paint(rows, cols, w), a.value, a.pos, tries[k - 1]);
  }

  /** Moves never change an agent's name, side or alive flag, and an agent whose
      turn has not come is exactly as it was. */
  lemma {:induction false} PassKeeps(rows: nat, cols: nat, ws: seq<AgentState>, tries: seq<seq<nat>>, k: nat)
    requires rows >= 4 && cols >= 4 && AllPlaced(rows, cols, ws) && PassInputs(|ws|, tries) && k <= |ws|
    ensures var r := Pass(rows, cols, ws, tries, k);
            (forall j :: 0 <= j < |ws| ==>
               r[j].name == ws[j].name && r[j].value == ws[j].value && r[j].alive == ws[j].alive) &&
            (forall j :: k <= j < |ws| ==> r[j] == ws[j])
  {
    if k > 0 {
      PassKeeps(rows, cols, ws, tries, k - 1);
      var s := Pass(rows, cols, ws, tries, k - 1);
      var r := MoveAt(s, k - 1, Step(rows, cols, ws, tries, k));
      assert Pass(rows, cols, ws, tries, k) == r;
      forall j | 0 <= j < |ws| ensures r[j].name == s[j].name && r[j].value == s[j].value && r[j].alive == s[j].alive {
      }
    }
  }

  /** A move onto a cell that is empty on the rebuild of a healthy list keeps the
      list healthy. */
  lemma MoveAtHealthy(rows: nat, cols: nat, ws: seq<AgentState>, i: nat, p: Pos)
    requires Healthy(rows, cols, ws) && i < |ws|
    requires 1 <= p.row <= rows - 2 && 1 <= p.col <= cols - 2
    requires p == ws[i].pos || PaintAt(ws, p) == 0
    ensures Healthy(rows, cols, MoveAt(ws, i, p))
  {
    var r := MoveAt(ws, i, p);
    if p != ws[i].pos {
      PickAll(ws, Alive(ws));
      EmptyMeansNoLiveAgent(ws, p);
    }
    forall k, l | 0 <= k < l < |r| ensures r[k].pos != r[l].pos {
      if k != i && l != i {
        assert r[k] == ws[k] && r[l] == ws[l];
      }
    }
  }

  /** Every prefix of a pass over a healthy list leaves it healthy: all alive,
      interior, valued 1 or 2, on distinct cells. */
  lemma {:induction false} PassHealthy(rows: nat, cols: nat, ws: seq<AgentState>, tries: seq<seq<nat>>, k: nat)
    requires rows >= 4 && cols >= 4 && Healthy(rows, cols, ws) && PassInputs(|ws|, tries) && k <= |ws|
    ensures Healthy(rows, cols, Pass(rows, cols, ws, tries, k))
  {
    if k > 0 {
      PassHealthy(rows, cols, ws, tries, k - 1);
      StepLegal(rows, cols, ws, tries, k);
      MoveAtHealthy(rows, cols, Pass(rows, cols, ws, tries, k - 1), k - 1, Step(rows, cols, ws, tries, k));
    }
  }

  /** The first i iterations of update(iters). */
  function Passes(rows: nat, cols: nat, ws: seq<AgentState>, moves: seq<seq<seq<nat>>>, i: nat): (r: seq<AgentState>)
    requires rows >= 4 && cols >= 4 && AllPlaced(rows, cols, ws) && UpdateInputs(|ws|, moves) && i <= |moves|
    ensures |r| == |ws| && AllPlaced(rows, cols, r)
  {
    if i == 0 then ws
    else
      var w := Passes(rows, cols, ws, moves, i - 1);
      Pass(rows, cols, w, moves[i - 1], |w|)
  }

  /** The states after i passes (Passes, named for the invariant of update's
      loop). */
  function Done(rows: nat, cols: nat, ws: seq<AgentState>, moves: seq<seq<seq<nat>>>, i: nat): seq<AgentState>
    requires rows >= 4 && cols >= 4 && AllPlaced(rows, cols, ws) && UpdateInputs(|ws|, moves) && i <= |moves|
  {
    Passes(rows, cols, ws, moves, i)
  }

  /** Over any number of iterations the list stays healthy and every agent keeps
      its name, side and alive flag. */
  lemma {:induction false} PassesKeep(rows: nat, cols: nat, ws: seq<AgentState>, moves: seq<seq<seq<nat>>>, i: nat)
    requires rows >= 4 && cols >= 4 && Healthy(rows, cols, ws) && UpdateInputs(|ws|, moves) && i <= |moves|
    ensures var r := Passes(rows, cols, ws, moves, i);
            Healthy(rows, cols, r) &&
            forall j :: 0 <= j < |ws| ==> r[j].name == ws[j].name && r[j].value == ws[j].value && r[j].alive == ws[j].alive
  {
    if i > 0 {
      PassesKeep(rows, cols, ws, moves, i - 1);
      var w := Passes(rows, cols, ws, moves, i - 1);
      PassHealthy(rows, cols, w, moves[i - 1], |w|);
      PassKeeps(rows, cols, w, moves[i - 1], |w|);
    }
  }

  /** So both populations keep their sizes, and the grid has exactly one occupied
      cell per agent. */
  lemma PassesCounts(rows: nat, cols: nat, ws: seq<AgentState>, moves: seq<seq<seq<nat>>>, i: nat)
    requires rows >= 4 && cols >= 4 && Healthy(rows, cols, ws) && UpdateInputs(|ws|, moves) && i <= |moves|
    ensures var r := Passes(rows, cols, ws, moves, i);
            Population(r, 1) == Population(ws, 1) && Population(r, 2) == Population(ws, 2) &&
            CountNonzero(Paint(rows, cols, r)) == |ws|
  {
    var r := Passes(rows, cols, ws, moves, i);
    PassesKeep(rows, cols, ws, moves, i);
    PopulationSameValues(r, ws, 1);
    PopulationSameValues(r, ws, 2);
    CountPainted(rows, cols, r);
  }

  // ---------------------------------------------------------------------------
  // The automaton

  class CellAutomata {
    /** Grid shape, border included (size + 2 in the source). */
    const rows: nat
    const cols: nat
    var cells: Cells
    var agents: seq<Agent>

    /** The grid is the rebuild of the agent list, and the list is healthy. */
    ghost predicate Valid()
      reads this, agents
    {
      rows >= 4 && cols >= 4 && |cells| == rows && IsGrid(cells) && Cols(cells) == cols &&
      Healthy(rows, cols, States(agents)) && cells == Paint(rows, cols, States(agents))
    }

    /** __init__ with size (height, width) and n agents per side; picksA and picksB
        are the n cells drawn for each side (`random.randint(1, size)` per axis,
        bounds included, so every interior row and column of the padded grid). A
        side's later pick overwrites an earlier one on the same cell, and B's picks
        overwrite A's. */
    constructor (n: nat, height: nat, width: nat, picksA: seq<Pos>, picksB: seq<Pos>)
      requires height >= 2 && width >= 2 && |picksA| == n && |picksB| == n
      requires forall k :: 0 <= k < n ==> 1 <= picksA[k].row <= height && 1 <= picksA[k].col <= width
      requires forall k :: 0 <= k < n ==> 1 <= picksB[k].row <= height && 1 <= picksB[k].col <= width
      ensures Valid() && rows == height + 2 && cols == width + 2
      ensures cells == Initial(rows, cols, picksA, picksB) && States(agents) == Scan(cells)
      ensures forall k :: 0 <= k < |agents| ==> fresh(agents[k])
    {
      var r, c := height + 2, width + 2;
      assert InteriorPicks(r, c, picksA) && InteriorPicks(r, c, picksB);
      var g := InitCells(r, c, picksA, picksB);
      InitialHealthy(r, c, picksA, picksB);
      assert Healthy(r, c, Scan(g)) && Paint(r, c, Scan(g)) == g;
      var created := CreateAgents(g);
      rows, cols := r, c;
      cells := g;
      agents := created;
      new;
      assert States(agents) == Scan(g);
      assert Healthy(rows, cols, States(agents)) && cells == Paint(rows, cols, States(agents));
    }

    /** The size property: the shape of the grid. */
    function Size(): (r: (nat, nat))
      reads this, agents
      requires Valid()
      ensures r.0 == rows && r.1 == cols
    {
      (|cells|, Cols(cells))
    }

    /** _updateCells: each agent's value written at its cell on a zero grid, in list
        order, whatever its alive flag (every agent of this variant is alive, so
        this is the rebuild of its states); the list is left as it is. */
    method UpdateCells()
      requires rows > 0
      requires forall k :: 0 <= k < |agents| ==>
                 agents[k].isAlive && 0 <= agents[k].position.row < rows && 0 <= agents[k].position.col < cols
      modifies this
      ensures cells == Paint(rows, cols, States(agents))
      ensures agents == old(agents) && States(agents) == old(States(agents))
    {
      var A := agents;
      ghost var S := States(A);
      var g := Zeros(rows, cols);
      PaintEmpty(rows, cols);
      var k := 0;
      while k != |A|
        invariant k <= |A| && g == Paint(rows, cols, S[..k]) && agents == A
      {
        var a := A[k];
        PaintPrefix(rows, cols, S, k);
        g := SetCell(g, a.position, a.value);
        k := k + 1;
      }
      assert S[..k] == S;
      cells := g;
    }

    /** How far a pass has got after k moves: `all` is the list being iterated, its
        agents are in the states of the first k moves of a pass from ws0, and the
        grid is their rebuild. */
    ghost predicate Stage(all: seq<Agent>, ws0: seq<AgentState>, tries: seq<seq<nat>>, k: nat)
      reads this, all
    {
      rows >= 4 && cols >= 4 && Healthy(rows, cols, ws0) && PassInputs(|ws0|, tries) &&
      Unique(all) && k <= |ws0| && agents == all &&
      States(all) == After(rows, cols, ws0, tries, k) && cells == Paint(rows, cols, States(all))
    }

    /** `agent.move()` for the (k + 1)-th listed agent: its rule, on the current
        grid; the list and the grid do not change. */
    method Act(all: seq<Agent>, ghost ws0: seq<AgentState>, tries: seq<seq<nat>>, k: nat)
      requires Stage(all, ws0, tries, k) && k < |ws0|
      modifies all[k]
      ensures States(all) == Pass(rows, cols, ws0, tries, k + 1)
    {
      PassNext(rows, cols, ws0, tries, k);
      all[k].Move(cells, tries[k]);
    }

    /** One pass of update's inner loop: the (k + 1)-th agent moves, then
        _updateCells. */
    method Turn(all: seq<Agent>, ghost ws0: seq<AgentState>, tries: seq<seq<nat>>, k: nat)
      requires Stage(all, ws0, tries, k) && k < |ws0|
      modifies this, all[k]
      ensures Stage(all, ws0, tries, k + 1)
    {
      Act(all, ws0, tries, k);
      PassKeeps(rows, cols, ws0, tries, k + 1);
      UpdateCells();
    }

    /** The body of the inner loop of update: the j-th move of the pass, from the
        stage the first j - 1 moves reach to the next. */
    method Advance(all: seq<Agent>, ghost ws0: seq<AgentState>, tries: seq<seq<nat>>, j: nat)
      requires 0 < j <= |ws0| && Stage(all, ws0, tries, j - 1)
      modifies this, all[j - 1]
      ensures Stage(all, ws0, tries, j)
    {
      Turn(all, ws0, tries, j - 1);
    }

    /** The inner loop of update: every listed agent in turn moves and the grid is
        rebuilt. */
    method Moves(all: seq<Agent>, ghost ws0: seq<AgentState>, tries: seq<seq<nat>>)
      requires |all| == |ws0| && Stage(all, ws0, tries, 0)
      modifies this, all
      ensures Stage(all, ws0, tries, |ws0|)
    {
      var k := 0;
      while k != |all|
        invariant k <= |all| && Stage(all, ws0, tries, k)
      {
        k := k + 1;
        Advance(all, ws0, tries, k);
      }
    }

    /** One iteration of update's outer loop: a pass over the list. */
    method MovePass(tries: seq<seq<nat>>)
      requires Valid() && PassInputs(|agents|, tries)
      modifies this, agents
      ensures Valid() && agents == old(agents)
      ensures States(agents) == Pass(rows, cols, old(States(agents)), tries, |agents|)
    {
      ghost var ws0 := States(agents);
      EqualsIsIdentity(agents);
      Moves(agents, ws0, tries);
      PassHealthy(rows, cols, ws0, tries, |ws0|);
    }

    /** The body of update's loop: the j-th pass, from the states j - 1 passes
        leave to those j passes leave. */
    method Iterate(ghost ws0: seq<AgentState>, moves: seq<seq<seq<nat>>>, j: nat)
      requires Valid() && AllPlaced(rows, cols, ws0) && UpdateInputs(|ws0|, moves) && 0 < j <= |moves|
      requires |agents| == |ws0| && States(agents) == Done(rows, cols, ws0, moves, j - 1)
      modifies this, agents
      ensures Valid() && agents == old(agents)
      ensures States(agents) == Done(rows, cols, ws0, moves, j)
    {
      MovePass(moves[j - 1]);
    }

    /** update(iters): iters passes, none when iters is not positive (the agent
        list itself never changes). */
    method Update(iters: int, moves: seq<seq<seq<nat>>>)
      requires Valid() && |moves| == (if iters < 0 then 0 else iters) && UpdateInputs(|agents|, moves)
      modifies this, agents
      ensures Valid() && agents == old(agents)
      ensures States(agents) == Passes(rows, cols, old(States(agents)), moves, |moves|)
    {
      ghost var ws0 := States(agents);
      var n := if iters < 0 then 0 else iters;
      var i := 0;
      while i != n
        invariant i <= n && Valid() && agents == old(agents)
        invariant States(agents) == Done(rows, cols, ws0, moves, i)
      {
        i := i + 1;
        Iterate(ws0, moves, i);
      }
    }
  }
}
