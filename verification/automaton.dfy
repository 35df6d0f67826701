/**
 The automaton's state and its construction and seeding routines.

 The state mirrors the fields the automaton keeps: the grid dimensions, the
 current grid, the step count and the worms counter. The colour function is
 not stored; every operation that revives cells takes it as a parameter.
 */
module Automata {
  import opened Grid

  datatype Automaton = Automaton(width: nat, height: nat, cells: Cells, steps: nat, counter: int)
  {
    /** The grid has the declared shape and the worms counter lies in [0, 3]. */
    predicate Valid() {
      Shaped(cells, width, height) && 0 <= counter <= 3
    }
  }

  /** The only fault the seeding routines can raise: indexing an empty array. */
  datatype Result<T> = Ok(value: T) | IndexError

  /** `Automaton(w, h, color_func)`: an all-dead `w` by `h` grid, no steps taken, counter 0. */
  function New(w: nat, h: nat): (a: Automaton)
    ensures a.Valid()
    ensures a.width == w && a.height == h && a.steps == 0 && a.counter == 0
    ensures forall x, y :: 0 <= x < w && 0 <= y < h ==> a.cells[x][y] == 0
  {
    Automaton(w, h, seq(w, _ => seq(h, _ => 0)), 0, 0)
  }

  /** `int(n / 2)` on a non-negative integer: the midpoint index, inside `[0, n)` whenever `n > 0`. */
  function Half(n: nat): (r: nat)
    ensures 2 * r <= n < 2 * r + 2
  {
    n / 2
  }

  /** Sets the single cell `(x, y)` to 255; an empty grid has no such cell and raises `IndexError`. */
  function Seed(a: Automaton, x: nat, y: nat): (r: Result<Automaton>)
    requires a.Valid()
    requires x < a.width || a.width == 0
    requires y < a.height || a.height == 0
    ensures r.IndexError? <==> a.width == 0 || a.height == 0
    ensures r.Ok? ==> r.value == a.(cells := r.value.cells) && r.value.Valid()
    ensures r.Ok? ==> r.value.cells[x][y] == 255
    ensures r.Ok? ==> forall i, j :: 0 <= i < a.width && 0 <= j < a.height && (i != x || j != y) ==>
      r.value.cells[i][j] == a.cells[i][j]
  {
    if a.width == 0 || a.height == 0 then IndexError
    else Ok(a.(cells := Write(a.cells, a.width, a.height, x, y, 255)))
  }

  /** `initialize_top_mid`: the cell `(width / 2, 0)` becomes 255 and no other cell changes. */
  function InitializeTopMid(a: Automaton): (r: Result<Automaton>)
    requires a.Valid()
    ensures r.IndexError? <==> a.width == 0 || a.height == 0
    ensures r.Ok? ==> r.value.Valid() && r.value == a.(cells := r.value.cells)
    ensures r.Ok? ==> r.value.cells[a.width / 2][0] == 255
    ensures r.Ok? ==> forall i, j :: 0 <= i < a.width && 0 <= j < a.height && (i != a.width / 2 || j != 0) ==>
      r.value.cells[i][j] == a.cells[i][j]
  {
    Seed(a, Half(a.width), 0)
  }

  /** `initialize_middle`: the cell `(width / 2, height / 2)` becomes 255 and no other cell changes. */
  function InitializeMiddle(a: Automaton): (r: Result<Automaton>)
    requires a.Valid()
    ensures r.IndexError? <==> a.width == 0 || a.height == 0
    ensures r.Ok? ==> r.value.Valid() && r.value == a.(cells := r.value.cells)
    ensures r.Ok? ==> r.value.cells[a.width / 2][a.height / 2] == 255
    ensures r.Ok? ==> forall i, j ::
      0 <= i < a.width && 0 <= j < a.height && (i != a.width / 2 || j != a.height / 2) ==>
      r.value.cells[i][j] == a.cells[i][j]
  {
    Seed(a, Half(a.width), Half(a.height))
  }

  /**
   The list `initialize_with_noise` draws from: `[0, 255]` followed by one
   more 0 per unit of intensity (none for a negative intensity, as
   `range(intensity)` is then empty).
   */
  function NoiseChoices(intensity: int): (r: seq<int>)
    ensures |r| == 2 + if intensity < 0 then 0 else intensity
    ensures r[0] == 0 && r[1] == 255
    ensures multiset(r)[255] == 1
    ensures multiset(r)[0] == |r| - 1
    ensures forall i :: 0 <= i < |r| && i != 1 ==> r[i] == 0
    decreases intensity
  {
    if intensity <= 0 then [0, 255] else NoiseChoices(intensity - 1) + [0]
  }

  /**
   `initialize_with_noise`: every cell is overwritten by a draw from
   `NoiseChoices(intensity)`. The random source is the oracle `draw`: its
   answer at `(x, y)` is the index `random.choice` picks for that cell, so it
   lies inside the list.
   */
  function InitializeWithNoise(a: Automaton, intensity: int, draw: (int, int) -> nat): (r: Automaton)
    requires a.Valid()
    requires forall x, y :: 0 <= x < a.width && 0 <= y < a.height ==> draw(x, y) < |NoiseChoices(intensity)|
    ensures r.Valid() && r == a.(cells := r.cells)
    ensures forall x, y :: 0 <= x < a.width && 0 <= y < a.height ==>
      r.cells[x][y] == 0 || r.cells[x][y] == 255
    ensures forall x, y :: 0 <= x < a.width && 0 <= y < a.height ==>
      (IsAlive(r.cells[x][y]) <==> draw(x, y) == 1)
  {
    var choices := NoiseChoices(intensity);
    a.(cells := seq(a.width, x requires 0 <= x < a.width =>
      seq(a.height, y requires 0 <= y < a.height => choices[draw(x, y)])))
  }

  /**
   Conversely, every grid of the right shape whose cells are all 0 or 255 is
   produced by some choice of random draws, whatever the intensity.
   */
  lemma NoiseReachesEveryBinaryGrid(a: Automaton, intensity: int, target: Cells)
    requires a.Valid()
    requires Shaped(target, a.width, a.height)
    requires forall x, y :: 0 <= x < a.width && 0 <= y < a.height ==> target[x][y] == 0 || target[x][y] == 255
    ensures exists draw: (int, int) -> nat ::
      && (forall x, y :: 0 <= x < a.width && 0 <= y < a.height ==> draw(x, y) < |NoiseChoices(intensity)|)
      && InitializeWithNoise(a, intensity, draw).cells == target
  {
    var draw: (int, int) -> nat := (x, y) =>
      if 0 <= x < |target| && 0 <= y < |target[x]| && target[x][y] == 255 then 1 else 0;
    assert forall x, y :: 0 <= x < a.width && 0 <= y < a.height ==> draw(x, y) < |NoiseChoices(intensity)|;
    var r := InitializeWithNoise(a, intensity, draw);
    forall x | 0 <= x < a.width
      ensures r.cells[x] == target[x]
    {
      forall y | 0 <= y < a.height
        ensures r.cells[x][y] == target[x][y]
      {
        assert draw(x, y) == if target[x][y] == 255 then 1 else 0;
      }
    }
    assert r.cells == target;
  }

  /** `update_steps`: the step count grows by one and the new count is returned; nothing else changes. */
  function UpdateSteps(a: Automaton): (r: (Automaton, nat))
    ensures r.1 == a.steps + 1 && r.0.steps == r.1
    ensures r.0.width == a.width && r.0.height == a.height
    ensures r.0.cells == a.cells && r.0.counter == a.counter
  {
    var b := a.(steps := a.steps + 1);
    (b, b.steps)
  }
}
