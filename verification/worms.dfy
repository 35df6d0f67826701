/**
 The `update` step: one in-place, row-major sweep of the grid applying the
 worms rule at every live cell, followed by the step-count increment.

 There is no second buffer. Each visit reads the grid as the earlier visits
 of the same sweep left it, and the worms counter carries over from one
 visit to the next and from one `update` call to the next.
 */
module Worms {
  import opened Grid
  import opened Automata

  /**
   The worms rule at the cell `(x, y)`, reading the grid as it stands now.
   A dead cell is skipped. At a live cell the counter first wraps from 3 to
   0; then, if the right neighbour is alive, the cell `counter` places to the
   right one line down is revived and the counter grows by one; then, if the
   left neighbour is alive, the cell `counter` places to the left one line up
   is revived and the cell `counter` places to the right two lines up is
   killed.
   */
  function VisitCell(a: Automaton, x: int, y: int, color: (int, int) -> int): (b: Automaton)
    requires a.Valid() && 0 <= x < a.width && 0 <= y < a.height
    ensures b.Valid()
    ensures b.width == a.width && b.height == a.height && b.steps == a.steps
    ensures !IsAlive(a.cells[x][y]) ==> b == a
  {
    if !IsAlive(a.cells[x][y]) then a
    else
      var c := if a.counter == 3 then 0 else a.counter;
      var (g1, c1) := RightNeighbourRule(a.cells, a.width, a.height, x, y, c, color);
      a.(cells := LeftNeighbourRule(g1, a.width, a.height, x, y, c1, color), counter := c1)
  }

  /**
   The right-neighbour half of the worms rule: when `(x + 1, y)` is alive,
   revive `(x + c, y + 1)` and advance the counter `c` by one.
   */
  function RightNeighbourRule(g: Cells, w: nat, h: nat, x: int, y: int, c: int, color: (int, int) -> int): (r: (Cells, int))
    requires Shaped(g, w, h)
    ensures Shaped(r.0, w, h)
    ensures r.1 == if LiveAt(g, w, h, x + 1, y) then c + 1 else c
    ensures forall i, j :: 0 <= i < w && 0 <= j < h ==>
      r.0[i][j] == if LiveAt(g, w, h, x + 1, y) && i == x + c && j == y + 1 then color(i, j) else g[i][j]
  {
    if LiveAt(g, w, h, x + 1, y) then (Revive(g, w, h, x + c, y + 1, color), c + 1) else (g, c)
  }

  /**
   The left-neighbour half of the worms rule: when `(x - 1, y)` is alive,
   revive `(x - c, y - 1)`, then kill `(x + c, y - 2)`.
   */
  function LeftNeighbourRule(g: Cells, w: nat, h: nat, x: int, y: int, c: int, color: (int, int) -> int): (r: Cells)
    requires Shaped(g, w, h)
    ensures Shaped(r, w, h)
    ensures !LiveAt(g, w, h, x - 1, y) ==> r == g
    ensures forall i, j :: 0 <= i < w && 0 <= j < h ==>
      r[i][j] == if !LiveAt(g, w, h, x - 1, y) then g[i][j]
                 else if i == x + c && j == y - 2 then 0
                 else if i == x - c && j == y - 1 then color(i, j)
                 else g[i][j]
  {
    if LiveAt(g, w, h, x - 1, y) then Kill(Revive(g, w, h, x - c, y - 1, color), w, h, x + c, y - 2) else g
  }

  /**
   The sweep from `(x, y)` to the end of the grid in `np.ndenumerate` order:
   row-major, with the first index `x` as the outer loop.
   */
  function SweepFrom(a: Automaton, x: nat, y: nat, color: (int, int) -> int): (b: Automaton)
    requires a.Valid() && x <= a.width && y <= a.height
    ensures b.Valid()
    ensures b.width == a.width && b.height == a.height && b.steps == a.steps
    decreases a.width - x, a.height - y
  {
    if x == a.width then a
    else if y == a.height then SweepFrom(a, x + 1, 0, color)
    else SweepFrom(VisitCell(a, x, y, color), x, y + 1, color)
  }

  /** `update`: sweep the whole grid, then count the step; answers the new grid and step count. */
  function Update(a: Automaton, color: (int, int) -> int): (r: (Automaton, nat))
    requires a.Valid()
    ensures r.0.Valid()
    ensures r.0.width == a.width && r.0.height == a.height
    ensures r.1 == r.0.steps == a.steps + 1
  {
    UpdateSteps(SweepFrom(a, 0, 0, color))
  }

  /** `n` consecutive `update` calls. */
  function Run(a: Automaton, n: nat, color: (int, int) -> int): (b: Automaton)
    requires a.Valid()
    ensures b.Valid()
    ensures b.width == a.width && b.height == a.height
    ensures b.steps == a.steps + n
  {
    if n == 0 then a else Update(Run(a, n - 1, color), color).0
  }

  /** Started from a step count of 0 (a fresh automaton, seeded or not), the `n`-th `update` call answers `n`. */
  lemma NthUpdateAnswersN(a: Automaton, n: nat, color: (int, int) -> int)
    requires a.Valid() && a.steps == 0 && n >= 1
    ensures Update(Run(a, n - 1, color), color).1 == n
  {
  }

  // ----- one visit -----

  /**
   Where a visit may write. Cells on the visited line `y` never change; a
   changed cell one line down was revived at most 2 places to the right (the
   counter is at most 2 when it is used there); one line up it was revived at
   most 3 places to the left; two lines up it was killed at most 3 places to
   the right.
   */
  lemma VisitWrites(a: Automaton, x: int, y: int, color: (int, int) -> int)
    requires a.Valid() && 0 <= x < a.width && 0 <= y < a.height
    ensures var b := VisitCell(a, x, y, color);
      forall i, j :: 0 <= i < a.width && 0 <= j < a.height && b.cells[i][j] != a.cells[i][j] ==>
        || (j == y + 1 && x <= i <= x + 2 && b.cells[i][j] == color(i, j))
        || (j == y - 1 && x - 3 <= i <= x && b.cells[i][j] == color(i, j))
        || (j == y - 2 && x <= i <= x + 3 && b.cells[i][j] == 0)
  {
  }

  /**
   The counter across one visit at a live cell: it wraps 3 to 0, then grows
   by one exactly when the right neighbour is alive, so it stays in [0, 3].
   */
  lemma VisitCounter(a: Automaton, x: int, y: int, color: (int, int) -> int)
    requires a.Valid() && 0 <= x < a.width && 0 <= y < a.height
    requires IsAlive(a.cells[x][y])
    ensures var b := VisitCell(a, x, y, color);
      && (b.counter == a.counter % 3 || b.counter == a.counter % 3 + 1)
      && (b.counter == a.counter % 3 + 1 <==> LiveAt(a.cells, a.width, a.height, x + 1, y))
  {
    var c := if a.counter == 3 then 0 else a.counter;
    assert c == a.counter % 3;
    assert VisitCell(a, x, y, color).counter == RightNeighbourRule(a.cells, a.width, a.height, x, y, c, color).1;
  }

  // ----- sweeps over grids with no horizontally adjacent live cells -----

  /**
   No live cell has a live horizontal neighbour. The neighbour's index is
   bound as `j` with `j == i + 1` rather than written `i + 1`, so that the
   quantifier has the trigger `g[i][y], g[j][y]` (arithmetic cannot appear in
   a trigger).
   */
  ghost predicate NoLiveHorizontalPair(g: Cells, w: nat, h: nat)
    requires Shaped(g, w, h)
  {
    forall i, j, y :: 0 <= i && j == i + 1 && j < w && 0 <= y < h ==> !(IsAlive(g[i][y]) && IsAlive(g[j][y]))
  }

  /** Every cell at or after `(x, y)` in sweep order is dead. */
  predicate DeadFrom(g: Cells, w: nat, h: nat, x: int, y: int)
    requires Shaped(g, w, h)
  {
    forall i, j :: 0 <= i < w && 0 <= j < h && (x < i || (x == i && y <= j)) ==> !IsAlive(g[i][j])
  }

  /** Every cell is dead. */
  predicate AllDead(g: Cells, w: nat, h: nat)
    requires Shaped(g, w, h)
  {
    forall i, j :: 0 <= i < w && 0 <= j < h ==> !IsAlive(g[i][j])
  }

  /** A visit on such a grid writes nothing; only the counter may wrap from 3 to 0. */
  lemma VisitQuiet(a: Automaton, x: int, y: int, color: (int, int) -> int)
    requires a.Valid() && 0 <= x < a.width && 0 <= y < a.height
    requires NoLiveHorizontalPair(a.cells, a.width, a.height)
    ensures var b := VisitCell(a, x, y, color);
      && b.cells == a.cells
      && b.counter == if IsAlive(a.cells[x][y]) then a.counter % 3 else a.counter
  {
  }

  /**
   A sweep over a grid with no live horizontal pair leaves every cell as it
   was; the counter is unchanged, except that a counter of 3 wraps to 0 at
   the first live cell the sweep visits.
   */
  lemma {:induction false} SweepQuiet(a: Automaton, x: nat, y: nat, color: (int, int) -> int)
    requires a.Valid() && x <= a.width && y <= a.height
    requires NoLiveHorizontalPair(a.cells, a.width, a.height)
    ensures var b := SweepFrom(a, x, y, color);
      && b.cells == a.cells
      && b.counter == if a.counter == 3 && !DeadFrom(a.cells, a.width, a.height, x, y) then 0 else a.counter
    decreases a.width - x, a.height - y
  {
    var w, h := a.width, a.height;
    if x == w {
    } else if y == h {
      SweepQuiet(a, x + 1, 0, color);
      assert DeadFrom(a.cells, w, h, x, y) == DeadFrom(a.cells, w, h, x + 1, 0);
    } else {
      var b := VisitCell(a, x, y, color);
      VisitQuiet(a, x, y, color);
      SweepQuiet(b, x, y + 1, color);
      assert DeadFrom(a.cells, w, h, x, y) <==> !IsAlive(a.cells[x][y]) && DeadFrom(a.cells, w, h, x, y + 1);
    }
  }

  /**
   `update` on a grid where no live cell has a live horizontal neighbour
   leaves the grid as it was; the counter keeps its value unless it is 3 and
   some cell is alive, in which case it wraps to 0.
   */
  lemma UpdateQuiet(a: Automaton, color: (int, int) -> int)
    requires a.Valid()
    requires NoLiveHorizontalPair(a.cells, a.width, a.height)
    ensures var b := Update(a, color).0;
      && b.cells == a.cells
      && b.counter == if a.counter == 3 && !AllDead(a.cells, a.width, a.height) then 0 else a.counter
  {
    SweepQuiet(a, 0, 0, color);
    assert DeadFrom(a.cells, a.width, a.height, 0, 0) == AllDead(a.cells, a.width, a.height);
  }

  /** On the all-dead grid `update` changes neither the grid nor the counter. */
  lemma UpdateAllDead(a: Automaton, color: (int, int) -> int)
    requires a.Valid()
    requires AllDead(a.cells, a.width, a.height)
    ensures Update(a, color).0 == a.(steps := a.steps + 1)
  {
    UpdateQuiet(a, color);
  }

  // ----- the sweep sees its own writes -----

  /**
   Visits within one sweep see earlier writes. With `(x, y)`, `(x + 1, y)`
   and `(x + 1, y + 1)` alive, `(x, y + 1)` dead and the counter at 0, the
   visit to `(x, y)` revives `(x, y + 1)`; when the colour there is positive
   the very next visit finds `(x, y + 1)` alive and revives `(x + 1, y + 2)`,
   although `(x, y + 1)` was dead when the sweep began.
   */
  lemma SweepSeesEarlierWrites(a: Automaton, x: int, y: int, color: (int, int) -> int)
    requires a.Valid() && 0 <= x && x + 1 < a.width && 0 <= y && y + 2 < a.height
    requires a.counter == 0
    requires IsAlive(a.cells[x][y]) && IsAlive(a.cells[x + 1][y]) && IsAlive(a.cells[x + 1][y + 1])
    requires !IsAlive(a.cells[x][y + 1])
    requires color(x, y + 1) > 0
    ensures var b := VisitCell(VisitCell(a, x, y, color), x, y + 1, color);
      && IsAlive(b.cells[x][y + 1])
      && b.cells[x + 1][y + 2] == color(x + 1, y + 2)
      && b.counter == 2
  {
  }
}
