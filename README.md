# Two-population cellular automaton, modelled in Dafny

The system is a cellular automaton on a grid with a one-cell border: 0 is an
empty cell, 1 a cell of population A and 2 a cell of population B. Each agent
owns one cell. The repository has two variants of it.

- **The combat variant (automata.py with agent.py).**
  - On each call of `update`, as long as both populations are present, every
    agent is visited once, in the order of a shuffled copy of the list.
  - A visited agent whose Moore neighbourhood is empty or friendly makes up to
    eight random move attempts. Each attempt reflects the direction at the
    edges of the interior.
  - Otherwise the agent fights:
    - an isolated one-against-one is decided by a coin;
    - an outnumbered agent dies;
    - anything else leaves it as it was.
  - After every visit the grid is rebuilt from the agent list, and the dead
    agents are removed with `list.remove`.
- **The move-only variant (main.py).** Agents never fight. `update(iters)`
  makes `iters` passes over the list in list order, and the grid is rebuilt
  after every move.

The model has seven modules:

- `Grid`: the grid and its neighbourhood queries.
- `Rules`: edge reflection, the bounded move attempts and both agents' rules.
- `World`: agents as values, the grid rebuild, filters, population counts and
  the row-major creation scan.
- `Lists`: order-preserving filters and `list.remove`.
- `Agents`: the mutable `Agent` class.
- `Automata`: the combat `CellAutomata`.
- `MoveOnly`: the move-only `CellAutomata`.

The classes hold the fields the source mutates. Their methods are proved to
compute exactly what pure functions of the inputs and the old state describe:
`Decide`, `MoveRule`, `TryMoves`, `Run`, `Pass`, `Passes`, `Paint` and `Scan`.
The lemmas prove what the source promises about those functions.

Randomness becomes explicit inputs:

- the drawn cells of `_fillCells` (`picksA`, `picksB`);
- the shuffle (`perm`, a list of distinct indices covering the agent list);
- each agent's eight direction indices and its fight coin (`Draw`).

`isEmptyCell` and `isFriendlyCell` are the predicates `Grid.IsEmptyCell` and
`Grid.IsFriendlyCell`. `Agent.__eq__` is `Agents.Agent.Equals`. `Agent.mur` and
`Agent.dirs` are `Grid.Mur` and `Grid.Dirs`.

Where the two variants share code (`_initAgents`, `_sideCellCase`/`_sideCells`,
the neighbourhood queries, `Agent.__init__`), one definition serves both. Each
row below cites one copy; the other copy is the same code. Two shared members
differ between the copies:

- `_fillCells`: automata.py:24-25 draws with `np.random.randint`, whose upper
  bound is excluded; main.py:108-109 draws with `random.randint`, whose upper
  bound is included. Both fill the grid the same way (`World.Fill`); the two
  constructors differ only in the range they require of the picks.
- `__eq__`: agent.py:23-31 also accepts a bare position array (the
  `np.ndarray` branch, `Agents.Agent.EqualsArray`); main.py:25-30 compares
  only with another agent. Between two agents both copies are identity or
  equal positions (`Agents.Agent.Equals`).

Two details of the code are followed as written:

- automata.py:49 calls `agent.move()`, but agent.py's `Agent` defines
  `update()` and no `move()`. The combat variant takes that call to be
  `Agent.update` (`Agents.Agent.Update`).
- The combat variant's `_fillCells` uses `np.random.randint`, which excludes
  its upper bound. So its picks lie in rows 1 .. height-1 and columns
  1 .. width-1 of the padded grid, and
  `Automata.InitialSkipsLastLines` proves the last interior row and the last
  interior column start empty. The move-only variant uses `random.randint`,
  which includes the bound.

## Model

| member | source | states |
|---|---|---|
| Grid.Zeros | automata.py:19-20 | `np.zeros`: a grid of the requested shape with every cell 0 |
| Grid.SetCell | automata.py:26 | `cells[i, j] = v` changes that one cell and keeps the shape |
| Grid.IsEmptyNeighborhood | automata.py:67-79 | the three slice tests of isEmptyNeighborhood, in the source's order; Grid.EmptyNeighborhoodMeaning proves they decide "all eight Moore neighbours hold 0" |
| Grid.IsEmptyCell | automata.py:93-101 | isEmptyCell: the cell holds 0 |
| Grid.IsFriendlyCell | automata.py:103-112 | isFriendlyCell: the cell holds `val` |
| Grid.EmptyNeighborhoodMeaning | automata.py:67-79 | the three slice tests of isEmptyNeighborhood answer true exactly when all eight Moore neighbours hold 0 |
| Grid.EmptyNeighborhoodIgnoresCentre | automata.py:72-79 | the agent's own cell plays no part in isEmptyNeighborhood |
| Grid.IsFriendlyNeighborhood | automata.py:81-91 | the nested loop with early return answers true exactly when every cell of the 3x3 block, centre included, holds 0 or `val` |
| Grid.CalcFriendsEnemies | automata.py:114-122 | the nested loop returns the number of `val` cells of the block minus one, and the number of non-zero cells different from `val` |
| Grid.FriendsEnemiesFacts | automata.py:114-122 | with `val` in the centre: friends >= 0, friends + enemies <= 8, and no enemies exactly when the block is friendly |
| Rules.DirsAreMoore | agent.py:7-11 | the direction table has 8 entries, each a unit step, and contains every unit step |
| Rules.Reflect | agent.py:84-88 | a component is negated exactly when the agent is in the first interior line and it points outwards, or in the last interior line and it points outwards; a unit step stays a unit step |
| Rules.ReflectStaysInterior | agent.py:84-88 | with at least two interior lines per axis, the reflected step from an interior cell lands on an interior cell |
| Rules.ReflectLeavesNarrowGrid | agent.py:84-88 | with a single interior row, the reflection sends an agent moving north from (1, 1) onto border cell (2, 1) |
| Rules.Candidate | agent.py:77-80 | the cell tried on an attempt is an in-grid neighbour different from the start, and interior on grids with two interior lines per axis |
| Rules.TryMoves | agent.py:75-82 | the outcome of the attempts is the start cell, or a neighbouring cell that held 0 |
| Rules.TryMovesFirstEmpty | agent.py:76-82 | when attempt k is the first whose candidate is empty, the agent ends on that candidate |
| Rules.TryMovesNoneEmpty | agent.py:76-82 | when no candidate is empty, the agent stays |
| Rules.Decide | agent.py:62-73 | Agent.update's outcome: move attempts when the neighbourhood is empty or friendly, otherwise the fight rule; its branches are stated by Rules.DecideEmpty, Rules.DecideFriendly and Rules.DecideCombat |
| Rules.DecideEmpty | agent.py:64-65 | with all eight neighbours empty, the agent makes its move attempts and keeps its flag |
| Rules.DecideFriendly | agent.py:66-67 | with an occupied but friendly block, the agent makes its move attempts and keeps its flag |
| Rules.DecideCombat | agent.py:68-73 | otherwise it does not move: (0 friends, 1 enemy) takes the coin, more enemies than friends kills it, anything else keeps the flag |
| Rules.DecideDeathNeedsEnemy | agent.py:62-73 | a living agent dies only in place, and only with at least one enemy in its block |
| Rules.DecideMoveLegal | agent.py:62-82 | a move of Agent.update lands on a neighbouring cell that held 0, inside the interior on grids with two interior lines per axis |
| Rules.MoveRule | main.py:61-65 | Agent.move's outcome: move attempts when the neighbourhood is empty or friendly, otherwise stay; stated by Rules.MoveRuleLegal and Rules.MoveRuleMeaning |
| Rules.MoveRuleLegal | main.py:61-91 | the same for Agent.move of the move-only variant |
| Rules.MoveRuleMeaning | main.py:61-65 | the move-only agent tries to move exactly when its block holds no enemy, and otherwise stays |
| World.PaintAt | automata.py:57-62 | the value the rebuild leaves at a cell: that of the last listed agent on it (its value if alive, 0 if dead), or 0 when none is |
| World.Paint | automata.py:57-62 | the rebuilt grid has the requested shape and each cell holds PaintAt of the list (the same loop without the dead branch is main.py:147-149) |
| World.PaintSnoc | automata.py:58-62 | painting one more agent overwrites exactly its cell, with its value if alive and 0 if dead |
| World.PaintAtUnique | automata.py:58-62 | when positions are distinct, an agent's cell of the rebuild shows its value if it is alive and 0 if it is dead |
| World.PaintIgnoresDead | automata.py:58-63 | when positions are distinct, dropping the dead does not change any cell of the rebuild |
| World.PaintEmpty | automata.py:57 | the rebuild of no agents is the zero grid of the same shape |
| World.PaintLive | automata.py:55-65 | when positions are distinct, the rebuild of the list equals the rebuild of its live agents |
| World.ProjectionMeaning | automata.py:55-62 | the rebuild of placed agents holds only 0, 1 and 2 and has a zero border; each agent's cell holds its value or 0 when it is dead, and every other cell holds 0 |
| World.EmptyMeansNoLiveAgent | automata.py:93-101 | a cell that is 0 on the rebuild of the live agents holds no live agent |
| World.PopulationPick | automata.py:64-65 | removing agents never increases a population |
| World.PopulationWithin | automata.py:22-26 | agents of one value on distinct cells, all within a set of cells, are at most as many as the set |
| World.Initial | automata.py:13-15 | the grid of __init__ is a rectangular grid of the padded shape; its contents are stated by World.InitialFacts |
| World.Fill | automata.py:22-26 | after the picks, a cell holds `val` exactly when it was picked, and otherwise keeps its old value |
| World.FillCells | automata.py:22-26 | the loop of _fillCells computes Fill |
| World.InitCells | automata.py:13-15 | _initCells followed by _fillCells for 1 and for 2 computes Initial |
| World.InitialFacts | automata.py:13-15 | the initial grid holds only 0, 1 and 2 and has a zero border; it holds 2 exactly at B's picks, and 1 exactly at A's picks that B did not overwrite |
| World.InitialPopulations | automata.py:13-17 | overwriting collisions means each side starts with at most as many agents as picks |
| World.InitialHealthy | automata.py:13-17 | the agents created from the initial grid are alive, interior and on distinct cells, and rebuilding from them gives the grid back |
| World.CountPainted | main.py:146-149 | live agents on distinct cells with non-zero values occupy exactly as many cells of the rebuild as there are agents |
| World.Scan | automata.py:28-37 | the agents _initAgents creates, row by row and column by column over the interior; stated by World.ScanFacts |
| World.ScanFacts | automata.py:28-37 | the created agents are in strict row-major order, each alive on an interior cell whose value it carries, named 'A' for 1 and 'B' for 2, and every interior 1 or 2 cell has one |
| World.PaintScan | automata.py:28-37 | rebuilding from the scanned agents gives back a grid of values 0, 1, 2 with a zero border |
| Lists.WithoutAt | automata.py:64-65 | `list.remove` of an element first occurring at j drops exactly index j |
| Lists.PickRemove | automata.py:64-65 | in a list without repetitions, removing a flagged element from the filtered list is filtering with its flag cleared |
| Lists.RemoveNext | automata.py:64-65 | removing the dead one by one: the next dead agent is still present, and removing it clears exactly its flag |
| Agents.Agent.constructor | agent.py:13-18 | a new agent has the given name, value and position, and is alive |
| Agents.Agent.Equals | agent.py:23-31 | `__eq__` between two agents: the same instance or the same position; Agents.EqualsIsIdentity shows it is identity for agents on distinct cells |
| Agents.Agent.EqualsArray | agent.py:23-31 | `__eq__` against a bare position is true when the positions agree, and otherwise fails reading `other.position` (None); it is never plain false |
| Agents.EqualsIsIdentity | agent.py:23-31 | for agents on distinct cells, `__eq__` holds exactly between an agent and itself |
| Agents.Agent.UpdatePosition | agent.py:75-82 | the attempt loop moves the agent to TryMoves of its start cell and leaves its flag alone |
| Agents.Agent.Update | agent.py:62-73 | Agent.update leaves position and flag as Decide prescribes |
| Agents.Agent.Move | main.py:61-91 | Agent.move leaves the position MoveRule prescribes and never touches the flag |
| Agents.CreateAt | automata.py:32-36 | one new agent for a 1 or 2 cell, none otherwise |
| Agents.CreateRow | automata.py:31-36 | the inner loop creates the scan of one row, all new |
| Agents.CreateAgents | automata.py:28-37 | _initAgents creates new agents, one per list slot, whose states are Scan of the grid |
| Agents.Remove | automata.py:65 | `list.remove` by `__eq__` on agents on distinct cells drops the first occurrence of that agent |
| Automata.Run | automata.py:46-50 | every prefix of a tick keeps the list length and every agent interior |
| Automata.RunNext | automata.py:48-50 | the (k+1)-th visit applies Agent.update of agent perm[k] to the grid the first k visits leave |
| Automata.DecisionLegal | automata.py:48-50 | every visit's outcome keeps the agent in place or moves it to an adjacent cell that is 0 on the rebuild of the agents still alive |
| Automata.VisitFacts | automata.py:48-50 | a legal visit keeps living agents on distinct cells and brings nobody back to life |
| Automata.RunKeeps | automata.py:46-50 | visits never change names or sides, and an agent not yet visited is unchanged |
| Automata.RunFacts | automata.py:46-50 | with a shuffle of distinct indices, living agents stay on distinct cells and every dead agent has been visited |
| Automata.TurnReady | automata.py:48-49 | each agent is still alive when its turn comes |
| Automata.TickHealthy | automata.py:44-52 | after a tick the surviving list is all alive, interior, valued 1 or 2, and on distinct cells |
| Automata.TickPopulation | automata.py:44-52 | no population grows during a tick |
| Automata.PruneFacts | automata.py:55-65 | after a visit, pruning the dead from the list leaves exactly the live agents, and the rebuild is theirs |
| Automata.OnePopulation | automata.py:44-45 | the test of update: every agent carries the value of the first; Automata.OnePopulationMeaning states what it means |
| Automata.OnePopulationMeaning | automata.py:44-45 | the test of update holds exactly when one population is extinct |
| Automata.InitialSkipsLastLines | automata.py:22-26 | with numpy's exclusive bound, the last interior row and column of the initial grid are empty |
| Automata.Rebuild | automata.py:56-63 | the first loop of _updateCells yields the rebuild of the list's states and the dead agents in list order |
| Automata.RemoveAll | automata.py:64-65 | the second loop leaves exactly the live agents, in their order |
| Automata.CellAutomata.constructor | automata.py:10-17 | __init__ builds the initial grid from the picks, and agents whose states are its scan; the automaton is valid and iter is 0 |
| Automata.CellAutomata.Size | automata.py:124-127 | the grid's shape, border included; the constructor makes it (height + 2, width + 2) |
| Automata.CellAutomata.TotalIters | automata.py:129-131 | the tick counter |
| Automata.CellAutomata.UpdateCells | automata.py:55-65 | the grid becomes the rebuild of the old list, and the list keeps exactly its live agents |
| Automata.CellAutomata.Act | automata.py:49 | the visited agent's state becomes the one Run prescribes for that visit |
| Automata.CellAutomata.Prune | automata.py:50 | _updateCells after a visit leaves the live agents of the copy and their rebuild |
| Automata.CellAutomata.Turn | automata.py:48-50 | one loop body takes the stage after k visits to the stage after k+1 |
| Automata.CellAutomata.Turns | automata.py:46-50 | the loop over the shuffled copy reaches the stage after all visits |
| Automata.CellAutomata.Tick | automata.py:46-52 | a tick leaves the live agents of Run, in list order, a valid automaton and iter + 1 |
| Automata.CellAutomata.Update | automata.py:39-53 | returns false exactly when every agent carries the value of the first, and then leaves the list, every agent's state, the grid and the counter unchanged; otherwise does one tick and returns true |
| MoveOnly.Pass | main.py:125-127 | every prefix of a pass keeps the list length and every agent interior |
| MoveOnly.PassNext | main.py:125-127 | the (k+1)-th move applies Agent.move of agent k to the grid the first k moves leave |
| MoveOnly.StepLegal | main.py:126 | each move keeps the agent or takes it to an adjacent cell that is empty on the grid it sees |
| MoveOnly.PassKeeps | main.py:125-127 | moves never change names, sides or flags, and an agent whose turn has not come is unchanged |
| MoveOnly.MoveAtHealthy | main.py:126-127 | a move onto a cell that is empty on the rebuild keeps the list healthy |
| MoveOnly.PassHealthy | main.py:125-127 | every prefix of a pass over a healthy list leaves it healthy |
| MoveOnly.Passes | main.py:123-127 | any number of passes keeps the list length and every agent interior |
| MoveOnly.PassesKeep | main.py:123-127 | over any number of passes the list stays healthy and agents keep names, sides and flags |
| MoveOnly.PassesCounts | main.py:123-149 | the populations never change, and the grid has exactly one occupied cell per agent |
| MoveOnly.CellAutomata.constructor | main.py:95-121 | __init__ with inclusive picks builds the initial grid and agents whose states are its scan; the automaton is valid |
| MoveOnly.CellAutomata.Size | main.py:174-176 | the grid's shape, border included; the constructor makes it (height + 2, width + 2) |
| MoveOnly.CellAutomata.UpdateCells | main.py:146-149 | the grid becomes the rebuild of the agents' states, and the list is unchanged |
| MoveOnly.CellAutomata.Act | main.py:126 | the moving agent's state becomes the one Pass prescribes |
| MoveOnly.CellAutomata.Turn | main.py:126-127 | one move and a rebuild take the stage after k moves to the stage after k+1 |
| MoveOnly.CellAutomata.Advance | main.py:125-127 | the inner loop body advances the stage by one move |
| MoveOnly.CellAutomata.Moves | main.py:125-127 | the inner loop reaches the stage after all moves of the pass |
| MoveOnly.CellAutomata.MovePass | main.py:125-127 | one pass leaves the states Pass prescribes and a valid automaton with the same list |
| MoveOnly.CellAutomata.Iterate | main.py:124-127 | the outer loop body advances from j-1 passes to j |
| MoveOnly.CellAutomata.Update | main.py:123-127 | update(iters) leaves the states of max(iters, 0) passes with the same list and a valid automaton |

## Left out

- Plotting, animation, `show`, `showAnimated`, `animate`, `main`, the npz file
  and the visualizer: these are I/O and do not affect the automaton's state.
- `getCells` is not modelled; it returns the grid array by reference. `__repr__`
  is not modelled either; it only formats text.
- `random.seed(1251)` and every draw are not modelled as a generator. The drawn
  values are inputs. A draw sequence of length 8 is always supplied, even when
  an earlier attempt succeeds and the rest go unused.
- The default arguments `n_agents=1` (automata.py:10, main.py:95) and
  `iters=1` (main.py:123) are not modelled: both constructors take `n`, and
  MoveOnly.CellAutomata.Update takes `iters`, explicitly.
- The automaton's size is given as two naturals of at least 2. The default
  100 x 100 and the numpy shape array are not modelled.
- Automata.CellAutomata.Tick: the counter is incremented before the visits rather
  than after them. No visit reads it, so the final state is the same.
- Automata.CellAutomata.Update: requires a non-empty agent list. On an empty
  list the source fails reading `self._agents[0]`, and that failure is not
  modelled.
- Agents.Agent.EqualsArray: only the outcomes are modelled (true, or the
  failure as None). The exception itself is not.
- MoveOnly.CellAutomata.UpdateCells: requires every agent to be alive. Every
  agent of this variant is alive; a dead agent would still have its value
  written.
- Agents.Remove: requires the agents to be on distinct cells. The model proves
  that always holds where `list.remove` is called. On shared cells, `__eq__`
  could match another agent first.
- The combat and move-only rules are stated for grids with at least two interior
  rows and columns (`rows >= 4 && cols >= 4` in the loop invariants). On a
  narrower grid the reflection can push an agent onto the border, as
  Rules.ReflectLeavesNarrowGrid shows.
- Integer width is not an issue here: all values are small counts and indices,
  and Dafny's unbounded `int` matches Python's integers.
