/** The combat variant (automata.py with the Agent of agent.py). One tick of
    CellAutomata.update visits every agent once, in a shuffled order; each visit
    applies the agent's rule to the grid as the previous visit left it and then
    rebuilds the grid from the agent list and drops the agents that died.

    The tick is first defined on values (Visit, Run) and its invariants are proved
    there; the class CellAutomata below holds the mutable state of the source and
    its methods are proved to compute exactly those values. */
module Automata {
  import opened Grid
  import opened Rules
  import opened Lists
  import opened World
  import opened Agents

  // ---------------------------------------------------------------------------
  // One tick on values

  /** The random inputs of a tick: visit order and draws are well formed for a
      list of n agents. */
  predicate TickInputs(n: int, order: seq<nat>, draws: seq<Draw>) {
    |order| == |draws| &&
    (forall k :: 0 <= k < |order| ==> order[k] < n) &&
    (forall k :: 0 <= k < |draws| ==> DrawOk(draws[k]))
  }

  /** The grid an agent sees on its turn: the rebuild of the agents still listed. */
  function Seen(rows: nat, cols: nat, ws: seq<AgentState>): Cells {
    Paint(rows, cols, Live(ws))
  }

  /** Agent i takes the outcome of its rule; nobody else changes. */
  function Visit(ws: seq<AgentState>, i: nat, o: Outcome): seq<AgentState>
    requires i < |ws|
  {
    ws[i := AgentState(ws[i].name, ws[i].value, o.pos, o.alive)]
  }

  /** What a rule may do to agent i: leave it where it is, or move it to a
      neighbouring interior cell that is empty on the grid it sees. */
  predicate Legal(rows: nat, cols: nat, ws: seq<AgentState>, i: nat, o: Outcome)
    requires i < |ws|
  {
    1 <= o.pos.row <= rows - 2 && 1 <= o.pos.col <= cols - 2 &&
    (o.pos == ws[i].pos || (PaintAt(Live(ws), o.pos) == 0 && Near(ws[i].pos, o.pos)))
  }

  /** The first k visits of the order: each visit's rule sees the grid the
      previous visits left. The whole tick is Run(..., |order|). */
  function Run(rows: nat, cols: nat, ws: seq<AgentState>, order: seq<nat>, draws: seq<Draw>, k: nat): (r: seq<AgentState>)
    requires rows >= 4 && cols >= 4 && AllPlaced(rows, cols, ws) && TickInputs(|ws|, order, draws) && k <= |order|
    ensures |r| == |ws| && AllPlaced(rows, cols, r)
    decreases k, 2
  {
    if k == 0 then ws
    else
      var w := Run(rows, cols, ws, order, draws, k - 1);
      Visit(w, order[k - 1], Decision(rows, cols, ws, order, draws, k))
  }

  /** The outcome of the k-th visit: Agent.update of agent order[k - 1] on the grid
      that visit sees. It never leaves the interior. */
  function Decision(rows: nat, cols: nat, ws: seq<AgentState>, order: seq<nat>, draws: seq<Draw>, k: nat): (o: Outcome)
    requires rows >= 4 && cols >= 4 && AllPlaced(rows, cols, ws) && TickInputs(|ws|, order, draws) && 0 < k <= |order|
    ensures 1 <= o.pos.row <= rows - 2 && 1 <= o.pos.col <= cols - 2
    decreases k, 1
  {
    var a := Run(rows, cols, ws, order, draws, k - 1)[order[k - 1]];
    var g := View(rows, cols, ws, order, draws, k);
    DecideMoveLegal(g, a.value, a.pos, a.alive, draws[k - 1]);
    Decide(g, a.value, a.pos, a.alive, draws[k - 1])
  }

  /** The grid the k-th visit sees: the rebuild the first k - 1 visits leave. */
  function View(rows: nat, cols: nat, ws: seq<AgentState>, order: seq<nat>, draws: seq<Draw>, k: nat): (g: Cells)
    requires rows >= 4 && cols >= 4 && AllPlaced(rows, cols, ws) && TickInputs(|ws|, order, draws) && 0 < k <= |order|
    ensures IsGrid(g) && |g| == rows && Cols(g) == cols
    decreases k, 0
  {
    Seen(rows, cols, Run(rows, cols, ws, order, draws, k - 1))
  }

  /** The (k + 1)-th visit applies Agent.update of agent order[k] to the grid the
      first k visits leave. */
  lemma RunNext(rows: nat, cols: nat, ws: seq<AgentState>, order: seq<nat>, draws: seq<Draw>, k: nat)
    requires rows >= 4 && cols >= 4 && AllPlaced(rows, cols, ws) && TickInputs(|ws|, order, draws) && k < |order|
    ensures var w := Run(rows, cols, ws, order, draws, k);
            var a, g := w[order[k]], Seen(rows, cols, w);
            Interior(g, a.pos) &&
            Run(rows, cols, ws, order, draws, k + 1) == Visit(w, order[k], Decide(g, a.value, a.pos, a.alive, draws[k]))
  {
    assert View(rows, cols, ws, order, draws, k + 1) == Seen(rows, cols, Run(rows, cols, ws, order, draws, k));
  }

  /** The outcome of every visit is legal. */
  lemma DecisionLegal(rows: nat, cols: nat, ws: seq<AgentState>, order: seq<nat>, draws: seq<Draw>, k: nat)
    requires rows >= 4 && cols >= 4 && AllPlaced(rows, cols, ws) && TickInputs(|ws|, order, draws) && 0 < k <= |order|
    ensures Legal(rows, cols, Run(rows, cols, ws, order, draws, k - 1), order[k - 1], Decision(rows, cols, ws, order, draws, k))
  {
    var w := Run(rows, cols, ws, order, draws, k - 1);
    var a := w[order[k - 1]];
    assert View(rows, cols, ws, order, draws, k) == Seen(rows, cols, w);
    DecideMoveLegal(Seen(rows, cols, w), a.value, a.pos, a.alive, draws[k - 1]);
  }

  /** A legal outcome for a living agent moves it only onto a cell no living agent
      holds, so living agents stay on distinct cells, and nobody comes back to
      life. */
  lemma VisitFacts(rows: nat, cols: nat, ws: seq<AgentState>, i: nat, o: Outcome)
    requires AllPlaced(rows, cols, ws) && i < |ws| && Legal(rows, cols, ws, i, o)
    requires ws[i].alive && DistinctOn(ws, Alive(ws))
    ensures var r := Visit(ws, i, o);
            DistinctOn(r, Alive(ws)) && DistinctOn(r, Alive(r)) &&
            forall k :: 0 <= k < |ws| && r[k].alive ==> ws[k].alive
  {
    var r := Visit(ws, i, o);
    if o.pos != ws[i].pos {
      EmptyMeansNoLiveAgent(ws, o.pos);
    }
    forall k, l | 0 <= k < l < |r| && Alive(ws)[k] && Alive(ws)[l] ensures r[k].pos != r[l].pos {
      if k != i && l != i {
        assert r[k] == ws[k] && r[l] == ws[l];
      }
    }
  }

  /** Visits never change an agent's name or side, and an agent not yet visited is
      exactly as it was. */
  lemma {:induction false} RunKeeps(rows: nat, cols: nat, ws: seq<AgentState>, order: seq<nat>, draws: seq<Draw>, k: nat)
    requires rows >= 4 && cols >= 4 && AllPlaced(rows, cols, ws) && TickInputs(|ws|, order, draws) && k <= |order|
    ensures var r := Run(rows, cols, ws, order, draws, k);
            (forall j :: 0 <= j < |ws| ==> r[j].name == ws[j].name && r[j].value == ws[j].value) &&
            (forall j :: 0 <= j < |ws| && j !in order[..k] ==> r[j] == ws[j])
  {
    if k > 0 {
      RunKeeps(rows, cols, ws, order, draws, k - 1);
      PrefixGrow(order, k);
      var s, i := Run(rows, cols, ws, order, draws, k - 1), order[k - 1];
      var r := Visit(s, i, Decision(rows, cols, ws, order, draws, k));
      assert Run(rows, cols, ws, order, draws, k) == r;
      forall j | 0 <= j < |ws| ensures r[j].name == ws[j].name && r[j].value == ws[j].value {
        assert r[j].name == s[j].name && r[j].value == s[j].value;
      }
    }
  }

  /** Over the first k visits of an order without repetitions, living agents stay
      on distinct cells, and an agent that is dead was visited. */
  lemma {:induction false} RunFacts(rows: nat, cols: nat, ws: seq<AgentState>, order: seq<nat>, draws: seq<Draw>, k: nat)
    requires rows >= 4 && cols >= 4 && Healthy(rows, cols, ws) && TickInputs(|ws|, order, draws)
    requires Unique(order) && k <= |order|
    ensures var r := Run(rows, cols, ws, order, draws, k);
            DistinctOn(r, Alive(r)) && forall j :: 0 <= j < |ws| && !r[j].alive ==> j in order[..k]
  {
    if k > 0 {
      RunFacts(rows, cols, ws, order, draws, k - 1);
      var s := Run(rows, cols, ws, order, draws, k - 1);
      UniqueFresh(order, k - 1);
      DecisionLegal(rows, cols, ws, order, draws, k);
      VisitFacts(rows, cols, s, order[k - 1], Decision(rows, cols, ws, order, draws, k));
      PrefixGrow(order, k);
    } else {
      forall i, j | 0 <= i < j < |ws| ensures ws[i].pos != ws[j].pos {
      }
    }
  }

  /** When its turn comes, the (k + 1)-th agent of an order without repetitions is
      still alive, and the living agents are on distinct cells. */
  lemma TurnReady(rows: nat, cols: nat, ws: seq<AgentState>, order: seq<nat>, draws: seq<Draw>, k: nat)
    requires rows >= 4 && cols >= 4 && Healthy(rows, cols, ws) && TickInputs(|ws|, order, draws)
    requires Unique(order) && k < |order|
    ensures var w := Run(rows, cols, ws, order, draws, k);
            w[order[k]].alive && DistinctOn(w, Alive(w))
  {
    RunFacts(rows, cols, ws, order, draws, k);
    UniqueFresh(order, k);
  }

  /** After a tick whose order visits each agent once, the surviving list is again
      healthy: all alive, interior, valued 1 or 2, on distinct cells. */
  lemma TickHealthy(rows: nat, cols: nat, ws: seq<AgentState>, order: seq<nat>, draws: seq<Draw>)
    requires rows >= 4 && cols >= 4 && Healthy(rows, cols, ws) && TickInputs(|ws|, order, draws) && Unique(order)
    ensures Healthy(rows, cols, Live(Run(rows, cols, ws, order, draws, |order|)))
  {
    var r := Run(rows, cols, ws, order, draws, |order|);
    RunFacts(rows, cols, ws, order, draws, |order|);
    LiveAlive(r);
    AllPlacedPick(rows, cols, r, Alive(r));
    DistinctPick(r, Alive(r));
  }

  /** Agents never change side and none is created: no population grows. */
  lemma TickPopulation(rows: nat, cols: nat, ws: seq<AgentState>, order: seq<nat>, draws: seq<Draw>, v: int)
    requires rows >= 4 && cols >= 4 && AllPlaced(rows, cols, ws) && TickInputs(|ws|, order, draws)
    ensures Population(Live(Run(rows, cols, ws, order, draws, |order|)), v) <= Population(ws, v)
  {
    var r := Run(rows, cols, ws, order, draws, |order|);
    RunKeeps(rows, cols, ws, order, draws, |order|);
    PopulationPick(r, Alive(r), v);
    PopulationSameValues(r, ws, v);
  }

  /** What the rebuild after a visit finds: a list whose agents are those with
      flags m0, on distinct cells, among them every agent still alive. Pruning its
      dead leaves the live agents, and its rebuild is theirs. */
  lemma PruneFacts(rows: nat, cols: nat, S: seq<AgentState>, m0: seq<bool>)
    requires |S| == |m0| && DistinctOn(S, m0)
    requires forall j :: 0 <= j < |S| && S[j].alive ==> m0[j]
    ensures Distinct(Pick(S, m0))
    ensures Alive(Pick(S, m0)) == Pick(Alive(S), m0)
    ensures Pick(Pick(S, m0), Pick(Alive(S), m0)) == Live(S)
    ensures Paint(rows, cols, Pick(S, m0)) == Paint(rows, cols, Live(S))
  {
    DistinctPick(S, m0);
    AlivePick(S, m0);
    PickPick(S, m0, Alive(S));
    PaintLive(rows, cols, Pick(S, m0));
  }

  /** The test of update: every agent carries the value of the first. */
  predicate OnePopulation(ws: seq<AgentState>)
    requires |ws| > 0
  {
    forall k :: 0 <= k < |ws| ==> ws[k].value == ws[0].value
  }

  /** With values 1 and 2 only, the test holds exactly when one population is
      extinct. */
  lemma OnePopulationMeaning(ws: seq<AgentState>)
    requires |ws| > 0 && forall k :: 0 <= k < |ws| ==> ws[k].value == 1 || ws[k].value == 2
    ensures OnePopulation(ws) <==> Population(ws, 1) == 0 || Population(ws, 2) == 0
  {
    PopulationZero(ws, 1);
    PopulationZero(ws, 2);
    if ws[0].value == 1 {
      assert Population(ws, 1) != 0;
    } else {
      assert Population(ws, 2) != 0;
    }
  }

  /** `np.random.randint(1, shape - 2)` excludes its upper bound, so the initial
      placement of this variant never reaches the last interior row or column. */
  lemma InitialSkipsLastLines(height: nat, width: nat, picksA: seq<Pos>, picksB: seq<Pos>)
    requires height >= 2 && width >= 2
    requires forall k :: 0 <= k < |picksA| ==> 1 <= picksA[k].row < height && 1 <= picksA[k].col < width
    requires forall k :: 0 <= k < |picksB| ==> 1 <= picksB[k].row < height && 1 <= picksB[k].col < width
    ensures var g := Initial(height + 2, width + 2, picksA, picksB);
            (forall j :: 0 <= j < width + 2 ==> g[height][j] == 0) &&
            (forall i :: 0 <= i < height + 2 ==> g[i][width] == 0)
  {
    var r, c := height + 2, width + 2;
    assert InteriorPicks(r, c, picksA) && InteriorPicks(r, c, picksB);
    InitialFacts(r, c, picksA, picksB);
    var g := Initial(r, c, picksA, picksB);
    forall j | 0 <= j < c ensures g[height][j] == 0 {
      assert Pos(height, j) !in picksA && Pos(height, j) !in picksB;
    }
    forall i | 0 <= i < r ensures g[i][width] == 0 {
      assert Pos(i, width) !in picksA && Pos(i, width) !in picksB;
    }
  }

  // ---------------------------------------------------------------------------
  // The automaton

  /** The first loop of _updateCells: the rebuilt grid and the dead agents, in
      list order. */
  method Rebuild(rows: nat, cols: nat, A: seq<Agent>) returns (g: Cells, deads: seq<Agent>)
    requires rows > 0
    requires forall k :: 0 <= k < |A| ==> 0 <= A[k].position.row < rows && 0 <= A[k].position.col < cols
    ensures g == Paint(rows, cols, States(A))
    ensures deads == Pick(A, Not(Alive(States(A))))
  {
    ghost var S := States(A);
    ghost var m := Not(Alive(S));
    deads := [];
    g := Zeros(rows, cols);
    PaintEmpty(rows, cols);
    for k := 0 to |A|
      invariant g == Paint(rows, cols, S[..k])
      invariant deads == Pick(A[..k], m[..k])
    {
      var a := A[k];
      PaintPrefix(rows, cols, S, k);
      PickPrefix(A, m, k);
      if a.isAlive {
        g := SetCell(g, a.position, a.value);
      } else {
        g := SetCell(g, a.position, 0);
      }
      if !a.isAlive {
        deads := deads + [a];
      }
    }
    assert S[..|A|] == S && A[..|A|] == A && m[..|A|] == m;
  }

  /** The second loop of _updateCells: each dead agent in turn is removed from the
      list; what remains are the living agents, in their order. */
  method RemoveAll(A: seq<Agent>, deads: seq<Agent>) returns (list: seq<Agent>)
    requires Distinct(States(A)) && deads == Pick(A, Not(Alive(States(A))))
    ensures list == Pick(A, Alive(States(A)))
  {
    ghost var S := States(A);
    EqualsIsIdentity(A);
    KeptNone(A, Alive(S));
    list := A;
    var t := 0;
    while t != |deads|
      invariant t <= |deads| && list == Pick(A, Kept(A, Alive(S), deads[..t]))
    {
      RemoveNext(A, Alive(S), t);
      StatesPickDistinct(A, Kept(A, Alive(S), deads[..t]));
      list := Remove(list, deads[t]);
      t := t + 1;
    }
    KeptAll(A, Alive(S), t);
  }

  class CellAutomata {
    /** Grid shape, border included (size + 2 in the source). */
    const rows: nat
    const cols: nat
    var iter: nat
    var cells: Cells
    var agents: seq<Agent>

    /** The grid is the rebuild of the agent list, and the list is healthy. */
    ghost predicate Valid()
      reads this, agents
    {
      rows >= 4 && cols >= 4 && |cells| == rows && IsGrid(cells) && Cols(cells) == cols &&
      Healthy(rows, cols, States(agents)) && cells == Paint(rows, cols, States(agents))
    }

    /** __init__ with size (height, width) and n agents per side; picksA and picksB
        are the n cells drawn for each side (`np.random.randint(1, size)` per axis,
        so rows 1 .. height - 1 and columns 1 .. width - 1 of the padded grid).
        A side's later pick overwrites an earlier one on the same cell, and B's
        picks overwrite A's. */
    constructor (n: nat, height: nat, width: nat, picksA: seq<Pos>, picksB: seq<Pos>)
      requires height >= 2 && width >= 2 && |picksA| == n && |picksB| == n
      requires forall k :: 0 <= k < n ==> 1 <= picksA[k].row < height && 1 <= picksA[k].col < width
      requires forall k :: 0 <= k < n ==> 1 <= picksB[k].row < height && 1 <= picksB[k].col < width
      ensures Valid() && iter == 0 && rows == height + 2 && cols == width + 2
      ensures cells == Initial(rows, cols, picksA, picksB) && States(agents) == Scan(cells)
      ensures forall k :: 0 <= k < |agents| ==> fresh(agents[k])
    {
      var r, c := height + 2, width + 2;
      assert InteriorPicks(r, c, picksA) && InteriorPicks(r, c, picksB);
      var g := InitCells(r, c, picksA, picksB);
      InitialHealthy(r, c, picksA, picksB);
      assert Healthy(r, c, Scan(g)) && Paint(r, c, Scan(g)) == g;
      var created := CreateAgents(g);
      rows, cols := r, c;
      iter := 0;
      cells := g;
      agents := created;
      new;
      assert States(agents) == Scan(g);
      assert Healthy(rows, cols, States(agents)) && cells == Paint(rows, cols, States(agents));
    }

    /** The size property: the shape of the grid. */
    function Size(): (r: (nat, nat))
      reads this, agents
      requires Valid()
      ensures r.0 == rows && r.1 == cols
    {
      (|cells|, Cols(cells))
    }

    /** The totalIters property. */
    function TotalIters(): (r: nat)
      reads this
      ensures r == iter
    {
      iter
    }

    /** _updateCells: rebuild the grid from the agent list on a zero grid, then
        remove the agents found dead (`list.remove`, which drops the first agent
        equal to the dead one). */
    method UpdateCells()
      requires rows > 0 && Distinct(States(agents))
      requires forall k :: 0 <= k < |agents| ==> 0 <= agents[k].position.row < rows && 0 <= agents[k].position.col < cols
      modifies this
      ensures cells == Paint(rows, cols, old(States(agents)))
      ensures agents == Pick(old(agents), Alive(old(States(agents))))
      ensures iter == old(iter)
    {
      var g, deads := Rebuild(rows, cols, agents);
      var list := RemoveAll(agents, deads);
      cells, agents := g, list;
    }

    /** How far a tick has got after k visits: `all` is the shuffled copy of the
        list the tick started from (states ws0), its agents are in the states of
        the first k visits, the list holds those of them still alive and the grid
        is their rebuild. */
    ghost predicate Stage(all: seq<Agent>, ws0: seq<AgentState>, perm: seq<nat>, draws: seq<Draw>, k: nat)
      reads this, all
    {
      rows >= 4 && cols >= 4 && Healthy(rows, cols, ws0) && TickInputs(|ws0|, perm, draws) &&
      Unique(perm) && Unique(all) && k <= |perm| &&
      States(all) == Run(rows, cols, ws0, perm, draws, k) &&
      agents == Pick(all, Alive(States(all))) && cells == Seen(rows, cols, States(all))
    }

    /** `agent.move()` for the (k + 1)-th agent of the shuffled copy: its rule, on
        the current grid; the list and the grid do not change. */
    method Act(all: seq<Agent>, ghost ws0: seq<AgentState>, perm: seq<nat>, draws: seq<Draw>, k: nat)
      requires Stage(all, ws0, perm, draws, k) && k < |perm|
      modifies all[perm[k]]
      ensures States(all) == Run(rows, cols, ws0, perm, draws, k + 1)
    {
      RunNext(rows, cols, ws0, perm, draws, k);
      all[perm[k]].Update(cells, draws[k]);
    }

    /** _updateCells after a visit: the list held the agents of `all` with flags
        m0, which include every agent still alive; afterwards it holds exactly the
        live ones and the grid is their rebuild. */
    method Prune(all: seq<Agent>, ghost m0: seq<bool>)
      requires rows > 0 && |m0| == |all| && agents == Pick(all, m0)
      requires AllPlaced(rows, cols, States(all)) && DistinctOn(States(all), m0)
      requires forall j :: 0 <= j < |all| && all[j].isAlive ==> m0[j]
      modifies this
      ensures agents == Pick(all, Alive(States(all)))
      ensures cells == Paint(rows, cols, Live(States(all)))
      ensures iter == old(iter) && States(all) == old(States(all))
    {
      ghost var S := States(all);
      PruneFacts(rows, cols, S, m0);
      StatesPick(all, m0);
      AllPlacedPick(rows, cols, S, m0);
      ghost var P := Pick(S, m0);
      assert States(agents) == P;
      UpdateCells();
      assert States(all) == S;
      assert cells == Paint(rows, cols, P);
      assert agents == Pick(Pick(all, m0), Pick(Alive(S), m0));
      PickPick(all, m0, Alive(S));
    }

    /** One pass of update's loop: the (k + 1)-th agent of the shuffled copy acts,
        then _updateCells. */
    method Turn(all: seq<Agent>, ghost ws0: seq<AgentState>, perm: seq<nat>, draws: seq<Draw>, k: nat)
      requires Stage(all, ws0, perm, draws, k) && k < |perm|
      modifies this, all[perm[k]]
      ensures Stage(all, ws0, perm, draws, k + 1) && iter == old(iter)
    {
      ghost var w := States(all);
      TurnReady(rows, cols, ws0, perm, draws, k);
      Act(all, ws0, perm, draws, k);
      DecisionLegal(rows, cols, ws0, perm, draws, k + 1);
      VisitFacts(rows, cols, w, perm[k], Decision(rows, cols, ws0, perm, draws, k + 1));
      Prune(all, Alive(w));
    }

    /** The loop of update: each agent of the shuffled copy in turn acts and the
        list is pruned. */
    method Turns(all: seq<Agent>, ghost ws0: seq<AgentState>, perm: seq<nat>, draws: seq<Draw>)
      requires Stage(all, ws0, perm, draws, 0)
      modifies this, all
      ensures Stage(all, ws0, perm, draws, |perm|) && iter == old(iter)
    {
      var k := 0;
      while k != |perm|
        invariant k <= |perm| && Stage(all, ws0, perm, draws, k) && iter == old(iter)
      {
        Turn(all, ws0, perm, draws, k);
        k := k + 1;
      }
    }

    /** The body of update once both sides are present: the agents are visited in
        the order of a shuffled copy of the list (perm), each applying its rule
        with its draws, and after every visit the grid is rebuilt and the dead are
        pruned; the tick counter grows by one (here before the visits, which never
        read it). */
    method Tick(perm: seq<nat>, draws: seq<Draw>)
      requires Valid() && |perm| == |agents| && Unique(perm) && TickInputs(|agents|, perm, draws)
      modifies this, agents
      ensures Valid() && iter == old(iter) + 1
      ensures agents == Pick(old(agents), Alive(Run(rows, cols, old(States(agents)), perm, draws, |perm|)))
      ensures States(agents) == Live(Run(rows, cols, old(States(agents)), perm, draws, |perm|))
    {
      var all := agents;
      ghost var ws0 := States(all);
      EqualsIsIdentity(all);
      PickAll(all, Alive(ws0));
      PickAll(ws0, Alive(ws0));
      iter := iter + 1;
      Turns(all, ws0, perm, draws);
      ghost var W := States(all);
      StatesPick(all, Alive(W));
      TickHealthy(rows, cols, ws0, perm, draws);
    }

    /** update: when every agent carries the value of the first nothing happens
        and the result is false; otherwise one tick and the result is true. */
    method Update(perm: seq<nat>, draws: seq<Draw>) returns (running: bool)
      requires Valid() && |agents| > 0
      requires |perm| == |agents| && Unique(perm) && TickInputs(|agents|, perm, draws)
      modifies this, agents
      ensures Valid()
      ensures running <==> !OnePopulation(old(States(agents)))
      ensures !running ==> iter == old(iter) && agents == old(agents) && cells == old(cells) &&
                           States(agents) == old(States(agents))
      ensures running ==> iter == old(iter) + 1 &&
                          agents == Pick(old(agents), Alive(Run(rows, cols, old(States(agents)), perm, draws, |perm|))) &&
                          States(agents) == Live(Run(rows, cols, old(States(agents)), perm, draws, |perm|))
    {
      var same := forall k :: 0 <= k < |agents| ==> agents[k].value == agents[0].value;
      if same {
        return false;
      }
      Tick(perm, draws);
      running := true;
    }
  }
}
