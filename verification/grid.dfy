/**
 The cell grid of the automaton and its bounds-checked primitives.

 A grid is a sequence of `width` columns, each holding `height` integer cell
 values, and is indexed `g[x][y]` with `0 <= x < width` and `0 <= y < height`.
 A cell value greater than zero is alive; zero (or anything below) is dead.
 Reads and writes at coordinates outside the grid are guarded: a write there
 does nothing, and a neighbour outside the grid is never read.
 */
module Grid {

  /** Python's `True`-or-`None` answers: `Some(true)` stands for `True`, `None` for `None`. */
  datatype Option<T> = None | Some(value: T)

  type Cells = seq<seq<int>>

  /** `g` has `width` columns of `height` cells each. */
  predicate Shaped(g: Cells, width: nat, height: nat) {
    |g| == width && forall x :: 0 <= x < width ==> |g[x]| == height
  }

  /** Python's `range(lo, hi)`: the integers `lo, lo + 1, ..., hi - 1`, empty when `hi <= lo`. */
  function Range(lo: int, hi: int): (r: seq<int>)
    ensures |r| == if lo < hi then hi - lo else 0
    decreases hi - lo
  {
    if hi <= lo then [] else [lo] + Range(lo + 1, hi)
  }

  /** Membership in `range(lo, hi)` is exactly the half-open interval test. */
  lemma {:induction false} RangeMembership(lo: int, hi: int, v: int)
    ensures v in Range(lo, hi) <==> lo <= v < hi
    decreases hi - lo
  {
    if lo < hi {
      RangeMembership(lo + 1, hi, v);
      assert Range(lo, hi) == [lo] + Range(lo + 1, hi);
    }
  }

  /**
   `is_within_bounds`: answers `True` when `x in range(0, width)` and
   `y in range(0, height)`, and otherwise falls off the end of the method,
   which answers `None` rather than `False` or an error.
   */
  function IsWithinBounds(width: nat, height: nat, x: int, y: int): (r: Option<bool>)
    ensures r == Some(true) || r == None
    ensures r.Some? <==> 0 <= x < width && 0 <= y < height
  {
    RangeMembership(0, width, x);
    RangeMembership(0, height, y);
    if x in Range(0, width) && y in Range(0, height) then Some(true) else None
  }

  /** Python truthiness of an `is_within_bounds` answer. */
  predicate Truthy(r: Option<bool>) {
    r == Some(true)
  }

  /** `is_alive`: a cell value is alive when it is greater than zero. */
  predicate IsAlive(v: int) {
    v > 0
  }

  /** A truthy bounds answer makes `g[x][y]` a valid index of every grid of that shape. */
  lemma GuardedIndexSafe(g: Cells, width: nat, height: nat, x: int, y: int)
    requires Shaped(g, width, height)
    requires Truthy(IsWithinBounds(width, height, x, y))
    ensures 0 <= x < |g| && 0 <= y < |g[x]|
  {
  }

  /**
   The guarded read used for neighbours: the cell `(x, y)` is inside the grid
   and alive. Outside the grid the answer is "not alive" and nothing is read.
   */
  predicate LiveAt(g: Cells, width: nat, height: nat, x: int, y: int)
    requires Shaped(g, width, height)
    ensures LiveAt(g, width, height, x, y) <==> 0 <= x < width && 0 <= y < height && g[x][y] > 0
  {
    Truthy(IsWithinBounds(width, height, x, y)) && IsAlive(g[x][y])
  }

  /** Overwrites the single in-bounds cell `(x, y)` with `v`. */
  function Write(g: Cells, width: nat, height: nat, x: int, y: int, v: int): (r: Cells)
    requires Shaped(g, width, height)
    requires 0 <= x < width && 0 <= y < height
    ensures Shaped(r, width, height)
    ensures r[x][y] == v
    ensures forall i, j :: 0 <= i < width && 0 <= j < height && (i != x || j != y) ==> r[i][j] == g[i][j]
  {
    g[x := g[x][y := v]]
  }

  /**
   `revive_cell`: inside the grid the cell `(x, y)` takes the colour
   `color(x, y)` (which need not be positive); outside it nothing happens.
   */
  function Revive(g: Cells, width: nat, height: nat, x: int, y: int, color: (int, int) -> int): (r: Cells)
    requires Shaped(g, width, height)
    ensures Shaped(r, width, height)
    ensures forall i, j :: 0 <= i < width && 0 <= j < height ==>
      r[i][j] == if i == x && j == y then color(x, y) else g[i][j]
  {
    if Truthy(IsWithinBounds(width, height, x, y)) then Write(g, width, height, x, y, color(x, y)) else g
  }

  /** `kill_cell`: inside the grid the cell `(x, y)` becomes 0; outside it nothing happens. */
  function Kill(g: Cells, width: nat, height: nat, x: int, y: int): (r: Cells)
    requires Shaped(g, width, height)
    ensures Shaped(r, width, height)
    ensures forall i, j :: 0 <= i < width && 0 <= j < height ==>
      r[i][j] == if i == x && j == y then 0 else g[i][j]
  {
    if Truthy(IsWithinBounds(width, height, x, y)) then Write(g, width, height, x, y, 0) else g
  }

  /** A write outside the grid leaves it exactly as it was, for both writers. */
  lemma OutOfBoundsWritesAreNoOps(g: Cells, width: nat, height: nat, x: int, y: int, color: (int, int) -> int)
    requires Shaped(g, width, height)
    requires !(0 <= x < width && 0 <= y < height)
    ensures Revive(g, width, height, x, y, color) == g
    ensures Kill(g, width, height, x, y) == g
  {
  }

  /**
   After a revival inside the grid the cell is alive exactly when the colour
   is positive: where the colour function answers 0, the "revived" cell stays dead.
   */
  lemma ReviveAliveIffColourPositive(g: Cells, width: nat, height: nat, x: int, y: int, color: (int, int) -> int)
    requires Shaped(g, width, height)
    requires 0 <= x < width && 0 <= y < height
    ensures IsAlive(Revive(g, width, height, x, y, color)[x][y]) <==> color(x, y) > 0
  {
  }

  /** After a kill inside the grid the cell is dead. */
  lemma KillMakesDead(g: Cells, width: nat, height: nat, x: int, y: int)
    requires Shaped(g, width, height)
    requires 0 <= x < width && 0 <= y < height
    ensures !IsAlive(Kill(g, width, height, x, y)[x][y])
  {
  }
}
