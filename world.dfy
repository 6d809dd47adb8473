/** Agents as values and the value-level bookkeeping shared by both variants:
    the grid rebuild (CellAutomata._updateCells writes each agent's value, or 0 for
    a dead one, onto a zero grid in list order), order-preserving filters, population
    counts and the row-major creation scan of CellAutomata._initAgents. */
module World {
  import opened Grid
  import opened Lists

  /** An agent's observable state: name tag, cell value, position, alive flag. */
  datatype AgentState = AgentState(name: char, value: int, pos: Pos, alive: bool)

  // ---------------------------------------------------------------------------
  // Grid rebuild

  /** The value the rebuild leaves at p: that of the last agent in the list at p
      (its value when alive, 0 when dead), or 0 when no agent is at p. */
  function PaintAt(ws: seq<AgentState>, p: Pos): int
  {
    if ws == [] then 0
    else if ws[|ws| - 1].pos == p then (if ws[|ws| - 1].alive then ws[|ws| - 1].value else 0)
    else PaintAt(ws[..|ws| - 1], p)
  }

  /** The rebuilt grid of the given shape. */
  function Paint(rows: nat, cols: nat, ws: seq<AgentState>): (g: Cells)
    ensures |g| == rows && forall i :: 0 <= i < rows ==> |g[i]| == cols
    ensures rows > 0 ==> IsGrid(g) && Cols(g) == cols
    ensures forall i, j :: 0 <= i < rows && 0 <= j < cols ==> g[i][j] == PaintAt(ws, Pos(i, j))
  {
    seq(rows, i => seq(cols, j => PaintAt(ws, Pos(i, j))))
  }

  /** Painting one more agent overwrites one cell of the grid. */
  lemma PaintSnoc(rows: nat, cols: nat, ws: seq<AgentState>, a: AgentState)
    requires rows > 0 && 0 <= a.pos.row < rows && 0 <= a.pos.col < cols
    ensures IsGrid(Paint(rows, cols, ws))
    ensures Paint(rows, cols, ws + [a]) ==
              SetCell(Paint(rows, cols, ws), a.pos, if a.alive then a.value else 0)
  {
    var g, h := Paint(rows, cols, ws), Paint(rows, cols, ws + [a]);
    assert (ws + [a])[..|ws|] == ws;
    var s := SetCell(g, a.pos, if a.alive then a.value else 0);
    assert |h| == |s|;
    forall i | 0 <= i < rows ensures h[i] == s[i] {
      assert |h[i]| == |s[i]|;
    }
  }

  /** Painting one more prefix element. */
  lemma PaintPrefix(rows: nat, cols: nat, ws: seq<AgentState>, k: nat)
    requires rows > 0 && k < |ws| && 0 <= ws[k].pos.row < rows && 0 <= ws[k].pos.col < cols
    ensures IsGrid(Paint(rows, cols, ws[..k]))
    ensures Paint(rows, cols, ws[..k + 1]) ==
              SetCell(Paint(rows, cols, ws[..k]), ws[k].pos, if ws[k].alive then ws[k].value else 0)
  {
    PaintSnoc(rows, cols, ws[..k], ws[k]);
    assert ws[..k + 1] == ws[..k] + [ws[k]];
  }

  /** Distinct positions. */
  predicate Distinct(ws: seq<AgentState>) {
    forall k, l :: 0 <= k < l < |ws| ==> ws[k].pos != ws[l].pos
  }

  /** The positions occupied by a list of agents. */
  function PosSet(ws: seq<AgentState>): set<Pos>
  {
    if ws == [] then {} else PosSet(ws[..|ws| - 1]) + {ws[|ws| - 1].pos}
  }

  lemma {:induction false} PosSetMeaning(ws: seq<AgentState>, p: Pos)
    ensures p in PosSet(ws) <==> exists k :: 0 <= k < |ws| && ws[k].pos == p
  {
    if ws != [] {
      var n := |ws| - 1;
      PosSetMeaning(ws[..n], p);
      if p in PosSet(ws[..n]) {
        var k :| 0 <= k < n && ws[..n][k].pos == p;
        assert ws[k].pos == p;
      }
      if k :| 0 <= k < |ws| && ws[k].pos == p {
        if k < n {
          assert ws[..n][k].pos == p;
        }
      }
    }
  }

  lemma {:induction false} PosSetAppend(a: seq<AgentState>, b: seq<AgentState>)
    ensures PosSet(a + b) == PosSet(a) + PosSet(b)
  {
    if b != [] {
      var n := |b| - 1;
      assert (a + b)[..|a + b| - 1] == a + b[..n];
      PosSetAppend(a, b[..n]);
    } else {
      assert a + b == a;
    }
  }

  lemma {:induction false} PaintAtNone(ws: seq<AgentState>, p: Pos)
    requires forall k :: 0 <= k < |ws| ==> ws[k].pos != p
    ensures PaintAt(ws, p) == 0
  {
    if ws != [] {
      PaintAtNone(ws[..|ws| - 1], p);
    }
  }

  lemma {:induction false} PaintAtUnique(ws: seq<AgentState>, k: nat, p: Pos)
    requires Distinct(ws) && k < |ws| && ws[k].pos == p
    ensures PaintAt(ws, p) == if ws[k].alive then ws[k].value else 0
  {
    if k < |ws| - 1 {
      PaintAtUnique(ws[..|ws| - 1], k, p);
    }
  }

  // ---------------------------------------------------------------------------
  // Live agents

  /** The alive flags of a list of agents. */
  function Alive(ws: seq<AgentState>): (m: seq<bool>)
    ensures |m| == |ws| && forall i :: 0 <= i < |ws| ==> m[i] == ws[i].alive
  {
    seq(|ws|, i requires 0 <= i < |ws| => ws[i].alive)
  }

  /** The live agents, in list order. */
  function Live(ws: seq<AgentState>): seq<AgentState>
  {
    Pick(ws, Alive(ws))
  }

  lemma LiveSnoc(ws: seq<AgentState>, a: AgentState)
    ensures Live(ws + [a]) == Live(ws) + (if a.alive then [a] else [])
  {
    assert Alive(ws + [a]) == Alive(ws) + [a.alive];
    PickSnoc(ws, Alive(ws), a, a.alive);
  }

  /** Where no agent stands, neither the list nor its live part paints anything. */
  lemma NoneHere(ws: seq<AgentState>, p: Pos)
    requires forall k :: 0 <= k < |ws| ==> ws[k].pos != p
    ensures PaintAt(ws, p) == 0 && PaintAt(Live(ws), p) == 0
  {
    PaintAtNone(ws, p);
    var lv := Live(ws);
    forall k | 0 <= k < |lv| ensures lv[k].pos != p {
      PickMember(ws, Alive(ws), k);
    }
    PaintAtNone(lv, p);
  }

  /** Under distinct positions only the live agents matter to the rebuild: a dead
      agent's 0 never hides a live one. */
  lemma {:induction false} PaintIgnoresDead(ws: seq<AgentState>, p: Pos)
    requires Distinct(ws)
    ensures PaintAt(ws, p) == PaintAt(Live(ws), p)
  {
    if ws != [] {
      var n := |ws| - 1;
      var a, init := ws[n], ws[..n];
      assert ws == init + [a];
      LiveSnoc(init, a);
      var lv := Live(init);
      if a.alive {
        assert Live(ws) == lv + [a] && (lv + [a])[..|lv|] == lv;
        if a.pos != p {
          PaintIgnoresDead(init, p);
        }
      } else if a.pos != p {
        assert Live(ws) == lv;
        PaintIgnoresDead(init, p);
      } else {
        assert Live(ws) == lv;
        forall k | 0 <= k < n ensures init[k].pos != p {
          assert ws[k].pos != ws[n].pos;
        }
        NoneHere(init, p);
      }
    }
  }

  /** An empty cell of the rebuilt grid of live agents with non-zero values has no
      live agent on it. */
  lemma {:induction false} EmptyMeansNoLiveAgent(ws: seq<AgentState>, p: Pos)
    requires forall k :: 0 <= k < |ws| ==> ws[k].value != 0
    requires PaintAt(Live(ws), p) == 0
    ensures forall k :: 0 <= k < |ws| && ws[k].alive ==> ws[k].pos != p
  {
    if ws != [] {
      var n := |ws| - 1;
      var a := ws[n];
      assert ws == ws[..n] + [a];
      LiveSnoc(ws[..n], a);
      var lv := Live(ws[..n]);
      if a.alive {
        assert Live(ws) == lv + [a];
        assert (lv + [a])[..|lv|] == lv;
        assert a.value != 0;
        assert PaintAt(Live(ws), p) == if a.pos == p then a.value else PaintAt(lv, p);
      } else {
        assert Live(ws) == lv;
      }
      assert forall k :: 0 <= k < n ==> ws[..n][k].value != 0;
      EmptyMeansNoLiveAgent(ws[..n], p);
      assert forall k :: 0 <= k < n ==> ws[..n][k] == ws[k];
    }
  }

  // ---------------------------------------------------------------------------
  // Population counts

  /** The number of agents with cell value v. */
  function Population(ws: seq<AgentState>, v: int): nat
  {
    if ws == [] then 0 else Population(ws[..|ws| - 1], v) + (if ws[|ws| - 1].value == v then 1 else 0)
  }

  /** Filtering never increases a population. */
  lemma {:induction false} PopulationPick(ws: seq<AgentState>, m: seq<bool>, v: int)
    requires |ws| == |m|
    ensures Population(Pick(ws, m), v) <= Population(ws, v)
  {
    if ws != [] {
      var n := |ws| - 1;
      PopulationPick(ws[..n], m[..n], v);
      var a := Pick(ws[..n], m[..n]);
      assert Population(ws, v) == Population(ws[..n], v) + (if ws[n].value == v then 1 else 0);
      if m[n] {
        assert Pick(ws, m) == a + [ws[n]];
        assert (a + [ws[n]])[..|a|] == a;
        assert Population(a + [ws[n]], v) == Population(a, v) + (if ws[n].value == v then 1 else 0);
      } else {
        assert Pick(ws, m) == a;
      }
    }
  }

  /** Lists with the same values position by position have the same populations. */
  lemma {:induction false} PopulationSameValues(ws: seq<AgentState>, us: seq<AgentState>, v: int)
    requires |ws| == |us| && forall i :: 0 <= i < |ws| ==> ws[i].value == us[i].value
    ensures Population(ws, v) == Population(us, v)
  {
    if ws != [] {
      PopulationSameValues(ws[..|ws| - 1], us[..|us| - 1], v);
    }
  }

  /** A population is empty exactly when no agent carries its value. */
  lemma {:induction false} PopulationZero(ws: seq<AgentState>, v: int)
    ensures Population(ws, v) == 0 <==> forall k :: 0 <= k < |ws| ==> ws[k].value != v
  {
    if ws != [] {
      var n := |ws| - 1;
      PopulationZero(ws[..n], v);
      assert forall k :: 0 <= k < n ==> ws[..n][k] == ws[k];
    }
  }

  /** Agents of value v at distinct positions, all within S, are at most |S|. */
  lemma {:induction false} PopulationWithin(ws: seq<AgentState>, v: int, S: set<Pos>)
    requires Distinct(ws)
    requires forall k :: 0 <= k < |ws| && ws[k].value == v ==> ws[k].pos in S
    ensures Population(ws, v) <= |S|
  {
    if ws != [] {
      var n := |ws| - 1;
      var a := ws[n];
      if a.value == v {
        forall k | 0 <= k < n && ws[..n][k].value == v ensures ws[..n][k].pos in S - {a.pos} {
          assert ws[k].pos != ws[n].pos;
        }
        PopulationWithin(ws[..n], v, S - {a.pos});
      } else {
        PopulationWithin(ws[..n], v, S);
      }
    }
  }

  lemma {:induction false} SetOfSeqBound<T>(s: seq<T>)
    ensures |set x | x in s| <= |s|
  {
    if s != [] {
      var n := |s| - 1;
      SetOfSeqBound(s[..n]);
      assert (set x | x in s) == (set x | x in s[..n]) + {s[n]};
    }
  }

  // ---------------------------------------------------------------------------
  // Grid well-formedness of a state

  /** Interior and a population value. */
  predicate Placed(rows: int, cols: int, a: AgentState) {
    1 <= a.pos.row <= rows - 2 && 1 <= a.pos.col <= cols - 2 && (a.value == 1 || a.value == 2)
  }

  /** A cell value of the automaton: 0, 1 or 2. */
  predicate CellValues(g: Cells) {
    forall i, j :: 0 <= i < |g| && 0 <= j < |g[i]| ==> 0 <= g[i][j] <= 2
  }

  /** The border ring holds 0. */
  predicate BorderZero(g: Cells)
    requires IsGrid(g)
  {
    forall i, j :: 0 <= i < |g| && 0 <= j < Cols(g) && !Interior(g, Pos(i, j)) ==> g[i][j] == 0
  }

  lemma {:induction false} PaintAtRange(ws: seq<AgentState>, p: Pos)
    requires forall k :: 0 <= k < |ws| ==> ws[k].value == 1 || ws[k].value == 2
    ensures 0 <= PaintAt(ws, p) <= 2
  {
    if ws != [] {
      PaintAtRange(ws[..|ws| - 1], p);
    }
  }

  lemma PaintAtOutside(ws: seq<AgentState>, p: Pos)
    requires p !in PosSet(ws)
    ensures PaintAt(ws, p) == 0
  {
    PosSetMeaning(ws, p);
    PaintAtNone(ws, p);
  }

  /** The rebuilt grid is the projection of the agents: each agent's cell holds
      its value if it is alive, every other cell (border included) holds 0. */
  lemma ProjectionMeaning(rows: nat, cols: nat, ws: seq<AgentState>)
    requires rows > 0 && Distinct(ws) && forall k :: 0 <= k < |ws| ==> Placed(rows, cols, ws[k])
    ensures IsGrid(Paint(rows, cols, ws)) && Cols(Paint(rows, cols, ws)) == cols
    ensures CellValues(Paint(rows, cols, ws)) && BorderZero(Paint(rows, cols, ws))
    ensures forall k :: 0 <= k < |ws| ==> PaintAt(ws, ws[k].pos) == if ws[k].alive then ws[k].value else 0
    ensures forall i, j :: 0 <= i < rows && 0 <= j < cols && Pos(i, j) !in PosSet(ws) ==>
              Paint(rows, cols, ws)[i][j] == 0
  {
    var g := Paint(rows, cols, ws);
    forall k | 0 <= k < |ws| ensures PaintAt(ws, ws[k].pos) == if ws[k].alive then ws[k].value else 0 {
      PaintAtUnique(ws, k, ws[k].pos);
    }
    forall i, j | 0 <= i < rows && 0 <= j < cols ensures 0 <= g[i][j] <= 2 {
      PaintAtRange(ws, Pos(i, j));
    }
    forall i, j | 0 <= i < rows && 0 <= j < cols && Pos(i, j) !in PosSet(ws) ensures g[i][j] == 0 {
      PaintAtOutside(ws, Pos(i, j));
    }
    forall i, j | 0 <= i < rows && 0 <= j < cols && !Interior(g, Pos(i, j)) ensures g[i][j] == 0 {
      assert Pos(i, j) !in PosSet(ws) by {
        PosSetMeaning(ws, Pos(i, j));
      }
      PaintAtOutside(ws, Pos(i, j));
    }
  }

  /** Every agent sits on an interior cell and carries a population value. */
  predicate AllPlaced(rows: int, cols: int, ws: seq<AgentState>) {
    forall k :: 0 <= k < |ws| ==> Placed(rows, cols, ws[k])
  }

  /** What the automaton keeps between steps: every listed agent is alive, placed,
      and no two share a cell. */
  predicate Healthy(rows: int, cols: int, ws: seq<AgentState>) {
    (forall k :: 0 <= k < |ws| ==> ws[k].alive) && AllPlaced(rows, cols, ws) && Distinct(ws)
  }

  lemma AllPlacedPick(rows: int, cols: int, ws: seq<AgentState>, m: seq<bool>)
    requires |ws| == |m| && AllPlaced(rows, cols, ws)
    ensures AllPlaced(rows, cols, Pick(ws, m))
  {
    forall k | 0 <= k < |Pick(ws, m)| ensures Placed(rows, cols, Pick(ws, m)[k]) {
      PickMember(ws, m, k);
    }
  }

  /** The agents with a set flag are at pairwise distinct positions. */
  predicate DistinctOn(ws: seq<AgentState>, m: seq<bool>)
    requires |ws| == |m|
  {
    forall k, l :: 0 <= k < l < |ws| && m[k] && m[l] ==> ws[k].pos != ws[l].pos
  }

  lemma {:induction false} DistinctPick(ws: seq<AgentState>, m: seq<bool>)
    requires |ws| == |m| && DistinctOn(ws, m)
    ensures Distinct(Pick(ws, m))
  {
    if ws != [] {
      var n := |ws| - 1;
      DistinctPick(ws[..n], m[..n]);
      var a := Pick(ws[..n], m[..n]);
      if m[n] {
        forall k | 0 <= k < |a| ensures a[k].pos != ws[n].pos {
          PickMember(ws[..n], m[..n], k);
        }
        var r := a + [ws[n]];
        assert Pick(ws, m) == r;
        forall k, l | 0 <= k < l < |r| ensures r[k].pos != r[l].pos {
          if l < |a| {
            assert r[k] == a[k] && r[l] == a[l];
          }
        }
      } else {
        assert Pick(ws, m) == a;
      }
    }
  }

  /** The live agents are alive. */
  lemma LiveAlive(ws: seq<AgentState>)
    ensures forall k :: 0 <= k < |Live(ws)| ==> Live(ws)[k].alive
  {
    forall k | 0 <= k < |Live(ws)| ensures Live(ws)[k].alive {
      PickMember(ws, Alive(ws), k);
    }
  }

  /** The flags of a filtered list are the filtered flags. */
  lemma {:induction false} AlivePick(ws: seq<AgentState>, m: seq<bool>)
    requires |ws| == |m|
    ensures Alive(Pick(ws, m)) == Pick(Alive(ws), m)
  {
    if ws != [] {
      var n := |ws| - 1;
      AlivePick(ws[..n], m[..n]);
      assert Alive(ws)[..n] == Alive(ws[..n]);
      var a := Pick(ws[..n], m[..n]);
      if m[n] {
        assert Pick(ws, m) == a + [ws[n]];
        assert Alive(a + [ws[n]]) == Alive(a) + [ws[n].alive];
      } else {
        assert Pick(ws, m) == a;
      }
    }
  }

  /** The rebuild of no agents is the zero grid. */
  lemma PaintEmpty(rows: nat, cols: nat)
    ensures Paint(rows, cols, []) == Zeros(rows, cols)
  {
    var g, z := Paint(rows, cols, []), Zeros(rows, cols);
    forall i | 0 <= i < rows ensures g[i] == z[i] {
    }
  }

  /** Under distinct positions the rebuild of a list equals that of its live part. */
  lemma PaintLive(rows: nat, cols: nat, ws: seq<AgentState>)
    requires Distinct(ws)
    ensures Paint(rows, cols, ws) == Paint(rows, cols, Live(ws))
  {
    var g, h := Paint(rows, cols, ws), Paint(rows, cols, Live(ws));
    forall i | 0 <= i < rows ensures g[i] == h[i] {
      forall j | 0 <= j < cols ensures g[i][j] == h[i][j] {
        PaintIgnoresDead(ws, Pos(i, j));
      }
    }
  }

  // ---------------------------------------------------------------------------
  // Initial placement (_fillCells)

  /** _fillCells: v written at each picked cell in turn; a later pick of the same
      cell overwrites an earlier one. */
  function Fill(g: Cells, v: int, picks: seq<Pos>): (h: Cells)
    requires IsGrid(g) && forall k :: 0 <= k < |picks| ==> InBounds(g, picks[k])
    ensures IsGrid(h) && |h| == |g| && Cols(h) == Cols(g)
    ensures forall i, j :: 0 <= i < |g| && 0 <= j < Cols(g) ==>
              h[i][j] == if Pos(i, j) in picks then v else g[i][j]
    decreases |picks|
  {
    if picks == [] then g
    else
      var n := |picks| - 1;
      assert forall k :: 0 <= k < n ==> picks[..n][k] == picks[k];
      assert picks == picks[..n] + [picks[n]];
      var h0 := Fill(g, v, picks[..n]);
      assert InBounds(g, picks[n]);
      assert |h0| == |g| && Cols(h0) == Cols(g);
      assert InBounds(h0, picks[n]);
      SetCell(h0, picks[n], v)
  }

  /** The loop of _fillCells. */
  method FillCells(g: Cells, v: int, picks: seq<Pos>) returns (h: Cells)
    requires IsGrid(g) && forall k :: 0 <= k < |picks| ==> InBounds(g, picks[k])
    ensures h == Fill(g, v, picks)
  {
    h := g;
    for k := 0 to |picks|
      invariant h == Fill(g, v, picks[..k])
    {
      assert picks[..k + 1][..k] == picks[..k];
      h := SetCell(h, picks[k], v);
    }
    assert picks[..|picks|] == picks;
  }

  /** The grid of __init__: a zero grid, 1 at the picks for A, then 2 at the picks
      for B. */
  function Initial(rows: nat, cols: nat, picksA: seq<Pos>, picksB: seq<Pos>): (g: Cells)
    requires rows > 0
    requires forall k :: 0 <= k < |picksA| ==> 0 <= picksA[k].row < rows && 0 <= picksA[k].col < cols
    requires forall k :: 0 <= k < |picksB| ==> 0 <= picksB[k].row < rows && 0 <= picksB[k].col < cols
    ensures IsGrid(g) && |g| == rows && Cols(g) == cols
  {
    var z := Zeros(rows, cols);
    assert IsGrid(z) && Cols(z) == cols;
    Fill(Fill(z, 1, picksA), 2, picksB)
  }

  predicate InteriorPicks(rows: int, cols: int, picks: seq<Pos>) {
    forall k :: 0 <= k < |picks| ==> 1 <= picks[k].row <= rows - 2 && 1 <= picks[k].col <= cols - 2
  }

  /** _initCells followed by _fillCells for A (value 1) and for B (value 2). */
  method InitCells(rows: nat, cols: nat, picksA: seq<Pos>, picksB: seq<Pos>) returns (g: Cells)
    requires rows >= 2 && cols >= 2 && InteriorPicks(rows, cols, picksA) && InteriorPicks(rows, cols, picksB)
    ensures g == Initial(rows, cols, picksA, picksB)
  {
    var z := Zeros(rows, cols);
    assert IsGrid(z) && Cols(z) == cols;
    assert forall k :: 0 <= k < |picksA| ==> InBounds(z, picksA[k]);
    var g1 := FillCells(z, 1, picksA);
    assert forall k :: 0 <= k < |picksB| ==> InBounds(g1, picksB[k]);
    g := FillCells(g1, 2, picksB);
  }

  /** The initial grid holds only 0, 1 and 2, a zero border, a 2 exactly at the
      picks for B and a 1 exactly at the picks for A that no pick for B overwrote. */
  lemma InitialFacts(rows: nat, cols: nat, picksA: seq<Pos>, picksB: seq<Pos>)
    requires rows >= 2 && cols >= 2 && InteriorPicks(rows, cols, picksA) && InteriorPicks(rows, cols, picksB)
    ensures var g := Initial(rows, cols, picksA, picksB);
            CellValues(g) && BorderZero(g) &&
            forall i, j :: 0 <= i < rows && 0 <= j < cols ==>
              (g[i][j] == 2 <==> Pos(i, j) in picksB) &&
              (g[i][j] == 1 <==> Pos(i, j) in picksA && Pos(i, j) !in picksB)
  {
    var g := Initial(rows, cols, picksA, picksB);
    forall i, j | 0 <= i < rows && 0 <= j < cols && !Interior(g, Pos(i, j)) ensures g[i][j] == 0 {
      assert Pos(i, j) !in picksA && Pos(i, j) !in picksB;
    }
  }

  /** Placement overwrites collisions, so each population starts with at most as
      many agents as picks. */
  lemma InitialPopulations(rows: nat, cols: nat, picksA: seq<Pos>, picksB: seq<Pos>)
    requires rows >= 2 && cols >= 2 && InteriorPicks(rows, cols, picksA) && InteriorPicks(rows, cols, picksB)
    ensures Population(Scan(Initial(rows, cols, picksA, picksB)), 1) <= |picksA|
    ensures Population(Scan(Initial(rows, cols, picksA, picksB)), 2) <= |picksB|
  {
    var g := Initial(rows, cols, picksA, picksB);
    InitialFacts(rows, cols, picksA, picksB);
    var s := Scan(g);
    ScanFacts(g);
    forall k | 0 <= k < |s| && s[k].value == 1 ensures s[k].pos in (set x | x in picksA) {
      assert Created(g, s[k]);
    }
    forall k | 0 <= k < |s| && s[k].value == 2 ensures s[k].pos in (set x | x in picksB) {
      assert Created(g, s[k]);
    }
    PopulationWithin(s, 1, set x | x in picksA);
    PopulationWithin(s, 2, set x | x in picksB);
    SetOfSeqBound(picksA);
    SetOfSeqBound(picksB);
  }

  /** The agents created from the initial grid are healthy and the rebuild from
      them gives that grid back. */
  lemma InitialHealthy(rows: nat, cols: nat, picksA: seq<Pos>, picksB: seq<Pos>)
    requires rows >= 2 && cols >= 2 && InteriorPicks(rows, cols, picksA) && InteriorPicks(rows, cols, picksB)
    ensures var g := Initial(rows, cols, picksA, picksB);
            Healthy(rows, cols, Scan(g)) && Paint(rows, cols, Scan(g)) == g
  {
    var g := Initial(rows, cols, picksA, picksB);
    InitialFacts(rows, cols, picksA, picksB);
    ScanFacts(g);
    PaintScan(g);
    var s := Scan(g);
    forall k | 0 <= k < |s| ensures s[k].alive && Placed(rows, cols, s[k]) {
      assert Created(g, s[k]);
    }
  }

  // ---------------------------------------------------------------------------
  // Counting occupied cells

  function CountNonzeroRow(r: seq<int>): nat
  {
    if r == [] then 0 else CountNonzeroRow(r[..|r| - 1]) + (if r[|r| - 1] != 0 then 1 else 0)
  }

  /** The number of non-zero cells of the grid. */
  function CountNonzero(g: Cells): nat
  {
    if g == [] then 0 else CountNonzero(g[..|g| - 1]) + CountNonzeroRow(g[|g| - 1])
  }

  lemma {:induction false} CountNonzeroRowSet(r: seq<int>, j: nat, v: int)
    requires j < |r| && r[j] == 0 && v != 0
    ensures CountNonzeroRow(r[j := v]) == CountNonzeroRow(r) + 1
  {
    var n := |r| - 1;
    assert r[j := v][..n] == if j < n then r[..n][j := v] else r[..n];
    if j < n {
      CountNonzeroRowSet(r[..n], j, v);
    }
  }

  lemma {:induction false} CountNonzeroSet(g: Cells, p: Pos, v: int)
    requires IsGrid(g) && InBounds(g, p) && At(g, p) == 0 && v != 0
    ensures CountNonzero(SetCell(g, p, v)) == CountNonzero(g) + 1
  {
    var n := |g| - 1;
    var h := SetCell(g, p, v);
    assert h == g[p.row := g[p.row][p.col := v]];
    CountNonzeroRowSet(g[p.row], p.col, v);
    if p.row < n {
      assert h[..n] == g[..n][p.row := g[p.row][p.col := v]];
      assert IsGrid(g[..n]);
      CountNonzeroSet(g[..n], p, v);
      assert SetCell(g[..n], p, v) == h[..n];
    } else {
      assert h[..n] == g[..n];
    }
  }

  /** Live agents at distinct in-grid positions with non-zero values occupy exactly
      as many cells of the rebuilt grid as there are agents. */
  lemma {:induction false} CountPainted(rows: nat, cols: nat, ws: seq<AgentState>)
    requires rows > 0 && Distinct(ws)
    requires forall k :: 0 <= k < |ws| ==>
               ws[k].alive && ws[k].value != 0 && 0 <= ws[k].pos.row < rows && 0 <= ws[k].pos.col < cols
    ensures CountNonzero(Paint(rows, cols, ws)) == |ws|
  {
    if ws == [] {
      var g := Paint(rows, cols, ws);
      forall i | 0 <= i < rows ensures CountNonzeroRow(g[i]) == 0 {
        ZeroRowCount(g[i]);
      }
      ZeroGridCount(g);
    } else {
      var n := |ws| - 1;
      var a := ws[n];
      assert ws == ws[..n] + [a];
      CountPainted(rows, cols, ws[..n]);
      PaintSnoc(rows, cols, ws[..n], a);
      forall k | 0 <= k < n ensures ws[..n][k].pos != a.pos {
        assert ws[k].pos != ws[n].pos;
      }
      PaintAtNone(ws[..n], a.pos);
      CountNonzeroSet(Paint(rows, cols, ws[..n]), a.pos, a.value);
    }
  }

  lemma {:induction false} ZeroRowCount(r: seq<int>)
    requires forall j :: 0 <= j < |r| ==> r[j] == 0
    ensures CountNonzeroRow(r) == 0
  {
    if r != [] {
      ZeroRowCount(r[..|r| - 1]);
    }
  }

  lemma {:induction false} ZeroGridCount(g: Cells)
    requires forall i :: 0 <= i < |g| ==> CountNonzeroRow(g[i]) == 0
    ensures CountNonzero(g) == 0
  {
    if g != [] {
      ZeroGridCount(g[..|g| - 1]);
    }
  }

  // ---------------------------------------------------------------------------
  // Creation scan (_initAgents)

  /** The agent created for cell (i, j), if any: 'A' for value 1, 'B' for 2. */
  function ScanCell(g: Cells, i: int, j: int): seq<AgentState>
    requires 0 <= i < |g| && 0 <= j < |g[i]|
  {
    if g[i][j] == 1 then [AgentState('A', 1, Pos(i, j), true)]
    else if g[i][j] == 2 then [AgentState('B', 2, Pos(i, j), true)]
    else []
  }

  /** The agents created for columns 1 .. j-1 of row i. */
  function ScanRow(g: Cells, i: int, j: int): seq<AgentState>
    requires IsGrid(g) && 0 <= i < |g| && 1 <= j < Cols(g)
    decreases j
  {
    if j == 1 then [] else ScanRow(g, i, j - 1) + ScanCell(g, i, j - 1)
  }

  /** The agents created for interior rows 1 .. i-1. */
  function ScanRows(g: Cells, i: int): seq<AgentState>
    requires IsGrid(g) && 1 <= i < |g| && Cols(g) >= 2
    decreases i
  {
    if i == 1 then [] else ScanRows(g, i - 1) + ScanRow(g, i - 1, Cols(g) - 1)
  }

  /** The agents _initAgents creates: one per interior cell holding 1 or 2, in
      row-major order. */
  function Scan(g: Cells): seq<AgentState>
    requires IsGrid(g) && |g| >= 2 && Cols(g) >= 2
  {
    ScanRows(g, |g| - 1)
  }

  /** Strict row-major order. */
  predicate Before(p: Pos, q: Pos) {
    p.row < q.row || (p.row == q.row && p.col < q.col)
  }

  predicate RowMajor(ws: seq<AgentState>) {
    forall k, l :: 0 <= k < l < |ws| ==> Before(ws[k].pos, ws[l].pos)
  }

  /** What the scan creates for a cell: a live agent whose value is that of its
      cell and whose name matches the value. */
  predicate Created(g: Cells, a: AgentState)
    requires IsGrid(g)
  {
    Interior(g, a.pos) && a.alive && At(g, a.pos) == a.value &&
    ((a.value == 1 && a.name == 'A') || (a.value == 2 && a.name == 'B'))
  }

  lemma {:induction false} ScanRowShape(g: Cells, i: int, j: int)
    requires IsGrid(g) && 1 <= i < |g| - 1 && 1 <= j < Cols(g)
    ensures var s := ScanRow(g, i, j);
            RowMajor(s) &&
            forall k :: 0 <= k < |s| ==> Created(g, s[k]) && s[k].pos.row == i && s[k].pos.col < j
  {
    if j > 1 {
      ScanRowShape(g, i, j - 1);
    }
  }

  lemma {:induction false} ScanRowComplete(g: Cells, i: int, j: int)
    requires IsGrid(g) && 1 <= i < |g| - 1 && 1 <= j < Cols(g)
    ensures forall c :: 1 <= c < j && (g[i][c] == 1 || g[i][c] == 2) ==> Pos(i, c) in PosSet(ScanRow(g, i, j))
  {
    if j > 1 {
      ScanRowComplete(g, i, j - 1);
      var a, b := ScanRow(g, i, j - 1), ScanCell(g, i, j - 1);
      PosSetAppend(a, b);
      assert b != [] ==> b == [b[0]] && b[0].pos == Pos(i, j - 1);
    }
  }

  lemma {:induction false} RowMajorAppend(a: seq<AgentState>, b: seq<AgentState>, r: int)
    requires RowMajor(a) && RowMajor(b)
    requires forall k :: 0 <= k < |a| ==> a[k].pos.row < r
    requires forall k :: 0 <= k < |b| ==> b[k].pos.row == r
    ensures RowMajor(a + b)
  {
    var s := a + b;
    forall k, l | 0 <= k < l < |s| ensures Before(s[k].pos, s[l].pos) {
      if l < |a| {
        assert s[k] == a[k] && s[l] == a[l];
      } else if k >= |a| {
        assert s[k] == b[k - |a|] && s[l] == b[l - |a|];
      } else {
        assert s[k] == a[k] && s[l] == b[l - |a|];
      }
    }
  }

  lemma {:induction false} ScanRowsShape(g: Cells, i: int)
    requires IsGrid(g) && 1 <= i < |g| && Cols(g) >= 2
    ensures var s := ScanRows(g, i);
            RowMajor(s) && forall k :: 0 <= k < |s| ==> Created(g, s[k]) && s[k].pos.row < i
  {
    if i > 1 {
      ScanRowsShape(g, i - 1);
      ScanRowShape(g, i - 1, Cols(g) - 1);
      var a, b := ScanRows(g, i - 1), ScanRow(g, i - 1, Cols(g) - 1);
      RowMajorAppend(a, b, i - 1);
      var s := a + b;
      forall k | 0 <= k < |s| ensures Created(g, s[k]) && s[k].pos.row < i {
        if k < |a| {
          assert s[k] == a[k];
        } else {
          assert s[k] == b[k - |a|];
        }
      }
    }
  }

  lemma {:induction false} ScanRowsComplete(g: Cells, i: int)
    requires IsGrid(g) && 1 <= i < |g| && Cols(g) >= 2
    ensures forall r, c :: 1 <= r < i && 1 <= c < Cols(g) - 1 && (g[r][c] == 1 || g[r][c] == 2) ==>
              Pos(r, c) in PosSet(ScanRows(g, i))
  {
    if i > 1 {
      ScanRowsComplete(g, i - 1);
      ScanRowComplete(g, i - 1, Cols(g) - 1);
      PosSetAppend(ScanRows(g, i - 1), ScanRow(g, i - 1, Cols(g) - 1));
    }
  }

  /** _initAgents: the created agents are in strict row-major order (so at pairwise
      distinct positions), each is a live agent on an interior cell whose value it
      carries, named 'A' for 1 and 'B' for 2, and every interior cell holding 1 or 2
      has one. */
  lemma ScanFacts(g: Cells)
    requires IsGrid(g) && |g| >= 2 && Cols(g) >= 2
    ensures var s := Scan(g);
            RowMajor(s) && Distinct(s) &&
            (forall k :: 0 <= k < |s| ==> Created(g, s[k])) &&
            (forall p :: Interior(g, p) && (At(g, p) == 1 || At(g, p) == 2) ==> p in PosSet(s))
  {
    ScanRowsShape(g, |g| - 1);
    ScanRowsComplete(g, |g| - 1);
  }

  /** Rebuilding from the scanned agents reproduces a grid of values 0, 1, 2 with a
      zero border. */
  lemma PaintScan(g: Cells)
    requires IsGrid(g) && |g| >= 2 && Cols(g) >= 2 && CellValues(g) && BorderZero(g)
    ensures Paint(|g|, Cols(g), Scan(g)) == g
  {
    var s := Scan(g);
    ScanFacts(g);
    var h := Paint(|g|, Cols(g), s);
    forall i, j | 0 <= i < |g| && 0 <= j < Cols(g) ensures h[i][j] == g[i][j] {
      var p := Pos(i, j);
      if Interior(g, p) && (At(g, p) == 1 || At(g, p) == 2) {
        PosSetMeaning(s, p);
        var k :| 0 <= k < |s| && s[k].pos == p;
        PaintAtUnique(s, k, p);
      } else {
        forall k | 0 <= k < |s| ensures s[k].pos != p {
          assert Created(g, s[k]);
        }
        PaintAtNone(s, p);
      }
    }
    assert |h| == |g|;
    forall i | 0 <= i < |g| ensures h[i] == g[i] {
    }
  }
}
