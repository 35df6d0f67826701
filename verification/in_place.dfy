/**
 `update` as the source writes it: one mutable 2-D array, swept row-major by
 two nested loops, written through guarded revive and kill operations, with
 the counter held in a local variable. Each method is proved to compute the
 same thing as the functional definitions in `Grid` and `Worms`.
 */
module InPlace {
  import opened Grid
  import opened Automata
  import opened Worms

  /** The array's contents as a grid of `Length0` columns of `Length1` cells. */
  function Contents(image: array2<int>): (g: Cells)
    reads image
    ensures Shaped(g, image.Length0, image.Length1)
    ensures forall i, j :: 0 <= i < image.Length0 && 0 <= j < image.Length1 ==> g[i][j] == image[i, j]
  {
    seq(image.Length0, i requires 0 <= i < image.Length0 reads image =>
      seq(image.Length1, j requires 0 <= j < image.Length1 reads image => image[i, j]))
  }

  /** Two grids of one shape that agree cell by cell are equal. */
  lemma SameCells(g: Cells, g': Cells, w: nat, h: nat)
    requires Shaped(g, w, h) && Shaped(g', w, h)
    requires forall i, j :: 0 <= i < w && 0 <= j < h ==> g[i][j] == g'[i][j]
    ensures g == g'
  {
    forall i | 0 <= i < w
      ensures g[i] == g'[i]
    {
    }
  }

  /** `revive_cell` on the array: agrees with `Grid.Revive`. */
  method ReviveCell(image: array2<int>, x: int, y: int, color: (int, int) -> int)
    modifies image
    ensures Contents(image) == Revive(old(Contents(image)), image.Length0, image.Length1, x, y, color)
  {
    ghost var before := Contents(image);
    if Truthy(IsWithinBounds(image.Length0, image.Length1, x, y)) {
      image[x, y] := color(x, y);
    }
    SameCells(Contents(image), Revive(before, image.Length0, image.Length1, x, y, color), image.Length0, image.Length1);
  }

  /** `kill_cell` on the array: agrees with `Grid.Kill`. */
  method KillCell(image: array2<int>, x: int, y: int)
    modifies image
    ensures Contents(image) == Kill(old(Contents(image)), image.Length0, image.Length1, x, y)
  {
    ghost var before := Contents(image);
    if Truthy(IsWithinBounds(image.Length0, image.Length1, x, y)) {
      image[x, y] := 0;
    }
    SameCells(Contents(image), Kill(before, image.Length0, image.Length1, x, y), image.Length0, image.Length1);
  }

  /** The right-neighbour half of the rule on the array, agreeing with `Worms.RightNeighbourRule`. */
  method RightNeighbourInPlace(image: array2<int>, x: int, y: int, counter: int, color: (int, int) -> int)
    returns (counter': int)
    modifies image
    ensures (Contents(image), counter') ==
      RightNeighbourRule(old(Contents(image)), image.Length0, image.Length1, x, y, counter, color)
  {
    counter' := counter;
    if Truthy(IsWithinBounds(image.Length0, image.Length1, x + 1, y)) {
      if IsAlive(image[x + 1, y]) {
        ReviveCell(image, x + counter', y + 1, color);
        counter' := counter' + 1;
      }
    }
  }

  /** The left-neighbour half of the rule on the array, agreeing with `Worms.LeftNeighbourRule`. */
  method LeftNeighbourInPlace(image: array2<int>, x: int, y: int, counter: int, color: (int, int) -> int)
    modifies image
    ensures Contents(image) == LeftNeighbourRule(old(Contents(image)), image.Length0, image.Length1, x, y, counter, color)
  {
    if Truthy(IsWithinBounds(image.Length0, image.Length1, x - 1, y)) {
      if IsAlive(image[x - 1, y]) {
        ReviveCell(image, x - counter, y - 1, color);
        KillCell(image, x + counter, y - 2);
      }
    }
  }

  /**
   The body of the sweep at `(x, y)`: the worms rule on the array, agreeing
   with `Worms.VisitCell` on the state `a` the array and counter represent.
   */
  method VisitInPlace(image: array2<int>, x: int, y: int, counter: int, color: (int, int) -> int, ghost a: Automaton)
    returns (counter': int)
    requires a.Valid() && a.width == image.Length0 && a.height == image.Length1
    requires a.cells == Contents(image) && a.counter == counter
    requires 0 <= x < a.width && 0 <= y < a.height
    modifies image
    ensures Contents(image) == VisitCell(a, x, y, color).cells && counter' == VisitCell(a, x, y, color).counter
  {
    counter' := counter;
    var element := image[x, y];
    if IsAlive(element) {
      if counter' == 3 {
        counter' := 0;
      }
      counter' := RightNeighbourInPlace(image, x, y, counter', color);
      LeftNeighbourInPlace(image, x, y, counter', color);
    }
  }

  /**
   `update` on a mutable array: the grid is copied into a fresh array, swept
   in place, and read back. The answer is the functional `Worms.Update`.
   */
  method UpdateInPlace(a: Automaton, color: (int, int) -> int) returns (b: Automaton, n: nat)
    requires a.Valid()
    ensures (b, n) == Update(a, color)
  {
    var image := new int[a.width, a.height]((i, j) requires 0 <= i < a.width && 0 <= j < a.height => a.cells[i][j]);
    SameCells(Contents(image), a.cells, a.width, a.height);
    var counter := a.counter;
    ghost var cur := a;
    var x := 0;
    while x < a.width
      invariant 0 <= x <= a.width
      invariant cur.Valid() && cur.width == a.width && cur.height == a.height && cur.steps == a.steps
      invariant Contents(image) == cur.cells && counter == cur.counter
      invariant SweepFrom(cur, x, 0, color) == SweepFrom(a, 0, 0, color)
    {
      var y := 0;
      while y < a.height
        invariant 0 <= y <= a.height
        invariant cur.Valid() && cur.width == a.width && cur.height == a.height && cur.steps == a.steps
        invariant Contents(image) == cur.cells && counter == cur.counter
        invariant SweepFrom(cur, x, y, color) == SweepFrom(a, 0, 0, color)
      {
        counter := VisitInPlace(image, x, y, counter, color, cur);
        cur := VisitCell(cur, x, y, color);
        y := y + 1;
      }
      x := x + 1;
    }
    var r := UpdateSteps(Automaton(a.width, a.height, Contents(image), a.steps, counter));
    b, n := r.0, r.1;
  }
}
