# Worms cellular automaton: a verified model of the `Automaton` engine

The `Automaton` class keeps a fixed-size integer grid. A cell value greater
than zero is alive, and zero is dead. The class has three seeding routines
(`initialize_top_mid`, `initialize_middle`, `initialize_with_noise`), a bounds
check, a liveness test, two guarded writers (`revive_cell`, `kill_cell`), a
step counter and `update()`. `update()` sweeps every cell in `np.ndenumerate`
order and applies the one rule the code contains, the "worms" rule. At each
live cell it looks at the two horizontal neighbours. It then revives or kills
cells that sit a few places away, offset by a counter. That counter lives in
the automaton and carries over between cells and between calls.

The model is written in Dafny, mostly as pure functions over immutable values:

- `grid.dfy` (module `Grid`): the grid as `seq<seq<int>>` indexed `[x][y]`,
  `is_within_bounds` (over Python's `range`), `is_alive`, and the two guarded
  writers.
- `automaton.dfy` (module `Automata`): the automaton state (width, height,
  cells, steps, counter), the constructor, the three seeding routines and
  `update_steps`.
- `worms.dfy` (module `Worms`): the worms rule at one cell, the row-major
  sweep, `update`, repeated updates, and the lemmas about them.
- `in_place.dfy` (module `InPlace`): `update` as the source writes it. One
  mutable `array2<int>` is swept by two nested loops and written through the
  guarded writers, with the counter in a local variable. It is proved equal
  to the functional `Worms.Update`.
- `source_shape.dfy` (module `SourceShape`): the array shape the constructor
  actually builds, against the shape the bounds check assumes (see Findings).

Modelling choices:

- **One buffer.** `update()` reads and writes the same array. Each visit sees
  the writes of earlier visits in the same sweep. `np.ndenumerate` reads
  each element when it reaches it, so the visited cell's own value is read
  then too. `Worms.SweepSeesEarlierWrites` shows a revival caused by a cell
  that was dead when the sweep began.
- **Sweep order.** The sweep is row-major, with the first index `x` as the
  outer loop.
- **Counter wrap at 3.** At each live cell the counter is first reset to 0
  if it equals 3. It then grows by one when the right-neighbour branch fires.
  It therefore stays in `[0, 3]`. The right branch uses it only after the
  reset, when it is in `{0, 1, 2}`. The left branch may use the value 3.
- **Only the worms rule.** `update()` applies one rule; the example rule at
  `Automaton.py:109-114` is commented out and is not modelled.
- **Grid shape.** The model uses `width` columns of `height` cells, indexed
  `[x][y]` with `x < width`. This is the shape the bounds check and every
  index assume. The constructor actually builds `h` rows of `w`, which agrees
  only when `w == h` (see Findings).
- **Colour function.** `color_func` is a parameter `(int, int) -> int` of
  every operation that revives. It may return 0 or a negative value, so a
  revived cell need not be alive (`Grid.ReviveAliveIffColourPositive`).
- **Counter when nothing fires.** Suppose no live cell has a live horizontal
  neighbour. Then `update()` leaves the grid unchanged, but not always the
  counter: a counter of 3 is reset to 0 at the first live cell the sweep
  reaches. `Worms.UpdateQuiet` states exactly this. On the all-dead grid
  nothing changes but the step count (`Worms.UpdateAllDead`).
- **Bounds safety.** Every sequence and array index in the model is checked
  by the verifier. Neighbour reads pass only because of the bounds guard in
  front of them (`Grid.LiveAt`, `Grid.GuardedIndexSafe`). All writes go
  through `Grid.Revive` and `Grid.Kill`.

## Model

| member | source | states |
|---|---|---|
| `Grid.RangeMembership` | Automaton.py:91 | `v in range(lo, hi)` holds exactly when `lo <= v < hi` |
| `Grid.IsWithinBounds` | Automaton.py:85-92 | the answer is `True` exactly when `0 <= x < width` and `0 <= y < height`, and is `None` (never `False`, never an error) otherwise |
| `Grid.IsAlive` | Automaton.py:82-83 | a cell value is alive exactly when it is greater than 0 |
| `Grid.LiveAt` | Automaton.py:119-124 | the guarded neighbour read holds exactly when the coordinate is inside the grid and the cell there is greater than 0; outside the grid it is false and reads nothing |
| `Grid.GuardedIndexSafe` | Automaton.py:119-124 | a coordinate the bounds check admits is a valid index of any grid of that width and height, so the guarded neighbour reads stay in bounds |
| `Grid.Revive` | Automaton.py:135-142 | inside the grid, the target cell takes `color_func(x, y)` and every other cell keeps its value; outside the grid no cell changes; the shape is kept |
| `Grid.Kill` | Automaton.py:144-151 | inside the grid, the target cell becomes 0 and every other cell keeps its value; outside the grid no cell changes; the shape is kept |
| `Grid.OutOfBoundsWritesAreNoOps` | Automaton.py:141-151 | a revive or kill outside the grid returns the grid unchanged |
| `Grid.ReviveAliveIffColourPositive` | Automaton.py:141-142 | a revived cell is alive exactly when the colour function is positive there |
| `Grid.KillMakesDead` | Automaton.py:150-151 | a killed in-bounds cell is dead |
| `Automata.New` | Automaton.py:28-47 | a new automaton has the requested dimensions, every cell 0, step count 0 and counter 0, and satisfies the state invariant |
| `Automata.Half` | Automaton.py:53 | `int(n / 2)` is the midpoint: twice it is at most `n` and `n` is less than twice it plus two |
| `Automata.InitializeTopMid` | Automaton.py:49-53 | on a non-empty grid only cell `(width / 2, 0)` changes and becomes 255; an empty grid raises `IndexError` |
| `Automata.InitializeMiddle` | Automaton.py:55-59 | on a non-empty grid only cell `(width / 2, height / 2)` changes and becomes 255; an empty grid raises `IndexError` |
| `Automata.NoiseChoices` | Automaton.py:67-71 | the draw list has `2 + intensity` entries (2 for a negative intensity), exactly one 255 at index 1 and zeros everywhere else |
| `Automata.InitializeWithNoise` | Automaton.py:61-74 | given a draw index inside the list for every cell, every cell is overwritten with 0 or 255, and a cell is alive exactly when its draw picks index 1, the single 255 entry; nothing but the cells changes |
| `Automata.NoiseReachesEveryBinaryGrid` | Automaton.py:67-74 | conversely, every grid of the right shape whose cells are all 0 or 255 results from some choice of in-range draws, for any intensity |
| `Automata.UpdateSteps` | Automaton.py:131-133 | the step count grows by exactly one, the new count is returned, and nothing else changes |
| `Worms.VisitCell` | Automaton.py:101-126 | a visit keeps the grid's shape and the counter within `[0, 3]`, and at a dead cell changes nothing |
| `Worms.RightNeighbourRule` | Automaton.py:119-122 | when the right neighbour is in bounds and alive, only cell `(x + c, y + 1)` changes, to its colour, and the counter advances by one; otherwise nothing changes |
| `Worms.LeftNeighbourRule` | Automaton.py:123-126 | when the left neighbour is in bounds and alive, cell `(x + c, y - 2)` becomes 0, cell `(x - c, y - 1)` takes its colour, and every other cell is unchanged; otherwise nothing changes |
| `Worms.SweepFrom` | Automaton.py:101 | a sweep from any position keeps the dimensions, the step count and the state invariant, so the counter stays in `[0, 3]` |
| `Worms.Update` | Automaton.py:94-129 | `update` keeps the dimensions and the invariant, and answers a step count one more than before, equal to the new stored count |
| `Worms.Run` | Automaton.py:129-133 | after `n` calls the step count has grown by exactly `n` and the dimensions are unchanged |
| `Worms.NthUpdateAnswersN` | Automaton.py:129-133 | from a step count of 0, the `n`-th call of `update` answers `n` |
| `Worms.VisitWrites` | Automaton.py:116-126 | one visit never changes its own line `y`; a changed cell one line down is a revival 0 to 2 places right (so the counter used there is at most 2); one line up, a revival 0 to 3 places left; two lines up, a kill 0 to 3 places right |
| `Worms.VisitCounter` | Automaton.py:117-122 | at a live cell the counter becomes its value modulo 3, plus one exactly when the right neighbour is alive |
| `Worms.VisitQuiet` | Automaton.py:101-126 | on a grid with no two horizontally adjacent live cells a visit writes nothing, and the counter changes only by the 3-to-0 wrap at a live cell |
| `Worms.SweepQuiet` | Automaton.py:101-126 | on such a grid a sweep leaves every cell unchanged; the counter is unchanged unless it is 3 and a live cell remains to be visited, in which case it ends at 0 |
| `Worms.UpdateQuiet` | Automaton.py:99-129 | on such a grid `update` leaves every cell unchanged, and the counter is unchanged unless it was 3 and some cell is alive, in which case it becomes 0 |
| `Worms.UpdateAllDead` | Automaton.py:99-129 | on the all-dead grid `update` changes nothing but the step count |
| `Worms.SweepSeesEarlierWrites` | Automaton.py:99-126 | visits in one sweep see earlier writes: a cell that was dead when the sweep began, once revived, drives a revival at the very next visit |
| `InPlace.ReviveCell` | Automaton.py:135-142 | the array writer leaves the array equal to `Grid.Revive` of its previous contents |
| `InPlace.KillCell` | Automaton.py:144-151 | the array writer leaves the array equal to `Grid.Kill` of its previous contents |
| `InPlace.RightNeighbourInPlace` | Automaton.py:119-122 | the right-neighbour branch on the array agrees with `Worms.RightNeighbourRule`, array contents and counter |
| `InPlace.LeftNeighbourInPlace` | Automaton.py:123-126 | the left-neighbour branch on the array agrees with `Worms.LeftNeighbourRule` |
| `InPlace.VisitInPlace` | Automaton.py:101-126 | the loop body at one cell agrees with `Worms.VisitCell`, grid and counter |
| `InPlace.UpdateInPlace` | Automaton.py:94-129 | the nested-loop sweep over one mutable array, followed by the step increment, answers exactly what `Worms.Update` answers |
| `SourceShape.SourceGrid` | Automaton.py:36-38 | the constructor's array has `h` rows of `w` zeros |
| `SourceShape.SourceGridShapedIffSquare` | Automaton.py:37-43 | that array has the shape the bounds check assumes exactly when `w == h` |
| `SourceShape.GuardAdmitsReadOutsideSourceArray` | Automaton.py:119-120 | for `w = 3`, `h = 2`, the bounds check admits `x = 2` while the array has only 2 rows |
| `SourceShape.CorrectedGridGuardsEveryIndex` | Automaton.py:91-92 | the corrected constructor builds exactly the shape the bounds check assumes, so every coordinate the check admits indexes the grid |

## Left out

- `Viewer.py`: pygame display, event polling, text rendering and surface scaling are I/O with no algorithmic content. Repeated `update` calls from its frame loop are modelled by `Worms.Run`.
- The module-level `color_function` (`Automaton.py:156-164`): it uses floating-point `math.sin` and `random.randint`. It is replaced by the colour-function parameter, which the model treats as a pure function of the coordinates.
- Randomness in `initialize_with_noise`: the index `random.choice` picks for each cell is the oracle parameter `draw`, required to lie inside the draw list. Probabilities and the live-cell density are not modelled.
- The module-level wiring that builds an automaton and a viewer (`Automaton.py:167-177`), the unused `time` import, and the commented-out `time.sleep`.
- numpy's conversion of colour values to the array's integer type: the colour function returns an `int` directly.
- Negative `w` or `h` in the constructor: the model takes natural numbers.
- `int(w / 2)` goes through a float; the model uses exact integer halving, which differs only for widths beyond 2^53.
- The colour function is passed to each operation instead of being stored in the automaton. The source fixes it at construction, so the two are the same function on every call.
- `update` on a non-square grid built by the constructor (`IndexError` or unvisited cells) is shown only by `SourceShape`. The rest of the model uses the corrected shape.

## Findings

| source | as written | input that shows it | evidently intended | confidence | as-written member | corrected member |
|---|---|---|---|---|---|---|
| Automaton.py:37 | the grid is built as `h` rows of `w` cells, but `is_within_bounds` (line 91) and every index treat the first index `x` as ranging over the width | `w = 3`, `h = 2`, cell `(1, 0)` alive: `update` finds `is_within_bounds(2, 0)` true and reads `image[2][0]` from an array with 2 rows (`IndexError`) | `w` columns of `h` cells, so that every coordinate the bounds check admits is an index of the array | medium; not executed | `SourceShape.GuardAdmitsReadOutsideSourceArray` | `SourceShape.CorrectedGridGuardsEveryIndex` |
