/**
  The procedural grid architect of src/utils/generator.js
  (`createProceduralTemplate`): a root number placed near the centre of a
  9x9 grid, then numbers branching perpendicular from random existing
  numbers, each overlapping the earlier ones only at the cell it branches
  from.
 */
module Topology {
  import opened Wrappers
  import opened Choice

  const GridSize: nat := 9
  /** Outer attempts before the fixed fallback shape is returned. */
  const MaxAttempts: nat := 100
  /** Failed branch placements tolerated within one attempt. */
  const MaxFailures: nat := 50

  /** A number: a straight run of cells, with its origin row `r`, column `c` and length. */
  datatype NumberDef = NumberDef(id: nat, indices: seq<int>, vertical: bool, r: int, c: int, len: nat)

  /** The grid shape. `activeCells` is the set of cells the numbers cover. */
  datatype Template = Template(rows: nat, cols: nat, numbers: seq<NumberDef>, activeCells: set<int>)

  /** `isValid(r, c)`. */
  predicate InBounds(r: int, c: int) {
    0 <= r < GridSize && 0 <= c < GridSize
  }

  function RowAt(r: int, i: int, vertical: bool): int { if vertical then r + i else r }

  function ColAt(c: int, i: int, vertical: bool): int { if vertical then c else c + i }

  /** The linear indices of a run of `len` cells from row `r`, column `c`, on a grid `cols` wide. */
  function Span(r: int, c: int, len: nat, vertical: bool, cols: nat): seq<int> {
    seq(len, i => RowAt(r, i, vertical) * cols + ColAt(c, i, vertical))
  }

  /** Every cell of the run lies on a `rows` x `cols` grid. */
  predicate Fits(r: int, c: int, len: nat, vertical: bool, rows: nat, cols: nat) {
    forall i :: 0 <= i < len ==> 0 <= RowAt(r, i, vertical) < rows && 0 <= ColAt(c, i, vertical) < cols
  }

  /**
    `getIndices(r, c, len, isVert)`: null as soon as a cell leaves the grid,
    otherwise the `len` cells from `r * 9 + c`, one row (9) or one column (1)
    apart.
   */
  method GetIndices(r: int, c: int, len: nat, isVert: bool) returns (idxs: Option<seq<int>>)
    ensures idxs.None? <==> !Fits(r, c, len, isVert, GridSize, GridSize)
    ensures idxs.Some? ==> idxs.value == Span(r, c, len, isVert, GridSize)
    ensures idxs.Some? ==> (|idxs.value| == len &&
      forall i :: 0 <= i < len ==> idxs.value[i] == r * GridSize + c + i * (if isVert then GridSize else 1))
  {
    var acc: seq<int> := [];
    var i := 0;
    while i < len
      invariant 0 <= i <= len
      invariant acc == Span(r, c, i, isVert, GridSize)
      invariant Fits(r, c, i, isVert, GridSize, GridSize)
    {
      var nr := RowAt(r, i, isVert);
      var nc := ColAt(c, i, isVert);
      if !InBounds(nr, nc) {
        return None;
      }
      acc := acc + [nr * GridSize + nc];
      i := i + 1;
    }
    return Some(acc);
  }

  /** The cells of a run that fits are pairwise distinct. */
  lemma SpanInjective(r: int, c: int, len: nat, vertical: bool, rows: nat, cols: nat, i: nat, j: nat)
    requires Fits(r, c, len, vertical, rows, cols)
    requires i < j < len
    ensures Span(r, c, len, vertical, cols)[i] != Span(r, c, len, vertical, cols)[j]
  {
    assert 0 <= ColAt(c, i, vertical) < cols;
    if vertical {
      var d := j - i;
      assert (r + j) * cols == (r + i) * cols + d * cols;
      MulPositive(d, cols);
    }
  }

  lemma MulPositive(a: int, b: int)
    requires a > 0 && b > 0
    ensures a * b > 0
  {
  }

  /** The cells of a number. */
  function Cells(n: NumberDef): set<int> {
    set x | x in n.indices
  }

  /** The cells covered by a sequence of numbers (`occupied` and `activeCells`). */
  function Occupied(ns: seq<NumberDef>): set<int> {
    if ns == [] then {} else Occupied(ns[..|ns| - 1]) + Cells(ns[|ns| - 1])
  }

  /** A cell is occupied exactly when some number covers it. */
  lemma {:induction false} OccupiedIff(ns: seq<NumberDef>, x: int)
    ensures x in Occupied(ns) <==> exists j :: 0 <= j < |ns| && x in ns[j].indices
  {
    if ns != [] {
      var init := ns[..|ns| - 1];
      OccupiedIff(init, x);
      if x in Occupied(init) {
        var j :| 0 <= j < |init| && x in init[j].indices;
        assert ns[j] == init[j];
      }
      if j :| 0 <= j < |ns| && x in ns[j].indices {
        if j < |init| {
          assert ns[j] == init[j];
        }
      }
    }
  }

  /** The cells of an earlier number are occupied. */
  lemma OccupiedHas(ns: seq<NumberDef>, j: nat, x: int)
    requires j < |ns| && x in ns[j].indices
    ensures x in Occupied(ns)
  {
    OccupiedIff(ns, x);
  }

  /** Appending a number adds its cells to the occupied ones. */
  lemma OccupiedSnoc(ns: seq<NumberDef>, n: NumberDef)
    ensures Occupied(ns + [n]) == Occupied(ns) + Cells(n)
  {
    assert (ns + [n])[..|ns|] == ns;
  }

  /**
    `n` branches from `prev[j]` at its own `k`-th cell: it is perpendicular
    to `prev[j]`, its `k`-th cell is a cell of `prev[j]`, and none of its
    other cells is occupied by `prev`.
   */
  ghost predicate BranchesFrom(prev: seq<NumberDef>, n: NumberDef, j: nat, k: nat) {
    && j < |prev|
    && prev[j].vertical != n.vertical
    && k < |n.indices|
    && n.indices[k] in prev[j].indices
    && forall m :: 0 <= m < |n.indices| && m != k ==> n.indices[m] !in Occupied(prev)
  }

  /** `n` branches from some number of `prev`. */
  ghost predicate BranchesFromSome(prev: seq<NumberDef>, n: NumberDef) {
    exists j: nat, k: nat :: BranchesFrom(prev, n, j, k)
  }

  /** Every number after the first branches from an earlier one. */
  ghost predicate Branching(ns: seq<NumberDef>) {
    forall i :: 0 < i < |ns| ==> BranchesFromSome(ns[..i], ns[i])
  }

  /** A number is a straight run of 3 to 5 cells that lies on the grid. */
  ghost predicate RunShape(n: NumberDef, rows: nat, cols: nat) {
    && 3 <= n.len <= 5
    && n.indices == Span(n.r, n.c, n.len, n.vertical, cols)
    && Fits(n.r, n.c, n.len, n.vertical, rows, cols)
  }

  /** The invariants of the numbers of a template. */
  ghost predicate WellShaped(ns: seq<NumberDef>, rows: nat, cols: nat) {
    && |ns| > 0
    && (forall i :: 0 <= i < |ns| ==> ns[i].id == i + 1 && RunShape(ns[i], rows, cols))
    && Branching(ns)
  }

  /** A template: square grid, well-shaped numbers with ids 1..n, active cells = the cells the numbers cover. */
  ghost predicate WellFormed(t: Template) {
    && 0 < t.rows == t.cols
    && WellShaped(t.numbers, t.rows, t.cols)
    && t.activeCells == Occupied(t.numbers)
  }

  /** The fixed 5x5 shape returned when every attempt fails: "6,7,8" across and "2,7,12" down. */
  function Fallback(): Template {
    Template(5, 5,
      [NumberDef(1, [6, 7, 8], false, 1, 1, 3), NumberDef(2, [2, 7, 12], true, 0, 2, 3)],
      {6, 7, 8, 2, 12})
  }

  lemma FallbackWellFormed()
    ensures WellFormed(Fallback())
  {
    var ns := Fallback().numbers;
    assert ns[0].indices == Span(1, 1, 3, false, 5);
    assert ns[1].indices == Span(0, 2, 3, true, 5);
    assert Occupied(ns[..1]) == {6, 7, 8} by {
      assert ns[..1][..0] == [];
    }
    assert BranchesFrom(ns[..1], ns[1], 0, 1);
    assert ns[..|ns| - 1] == ns[..1];
  }

  /** Appending a number that branches from the earlier ones keeps the numbers branching. */
  lemma BranchingExtend(ns: seq<NumberDef>, n: NumberDef, j: nat, k: nat)
    requires Branching(ns) && BranchesFrom(ns, n, j, k)
    ensures Branching(ns + [n])
  {
    var ns' := ns + [n];
    forall i | 0 < i < |ns'| ensures BranchesFromSome(ns'[..i], ns'[i]) {
      if i < |ns| {
        var j', k' :| BranchesFrom(ns[..i], ns[i], j', k');
        assert ns'[..i] == ns[..i] && ns'[i] == ns[i];
        assert BranchesFrom(ns'[..i], ns'[i], j', k');
      } else {
        assert ns'[..i] == ns;
        assert BranchesFrom(ns'[..i], ns'[i], j, k);
      }
    }
  }

  /**
    A branch that passed the bounds and collision checks keeps the
    invariants: it crosses its anchor at its `intersectAt`-th cell and
    overlaps nothing else.
   */
  lemma BranchAccepted(numbers: seq<NumberDef>, anchor: nat, at: nat, newNum: NumberDef, intersectAt: nat)
    requires WellShaped(numbers, GridSize, GridSize)
    requires anchor < |numbers| && at < |numbers[anchor].indices|
    requires newNum.id == |numbers| + 1 && 3 <= newNum.len <= 5 && intersectAt < newNum.len
    requires newNum.vertical == !numbers[anchor].vertical
    requires var x := numbers[anchor].indices[at];
      && newNum.r == (if newNum.vertical then x / GridSize - intersectAt else x / GridSize)
      && newNum.c == (if newNum.vertical then x % GridSize else x % GridSize - intersectAt)
    requires Fits(newNum.r, newNum.c, newNum.len, newNum.vertical, GridSize, GridSize)
    requires newNum.indices == Span(newNum.r, newNum.c, newNum.len, newNum.vertical, GridSize)
    requires forall q :: 0 <= q < |newNum.indices| ==>
      newNum.indices[q] == numbers[anchor].indices[at] || newNum.indices[q] !in Occupied(numbers)
    ensures WellShaped(numbers + [newNum], GridSize, GridSize)
    ensures BranchesFrom(numbers, newNum, anchor, intersectAt)
  {
    var x := numbers[anchor].indices[at];
    var cells := newNum.indices;
    assert x == (x / GridSize) * GridSize + x % GridSize;
    assert cells[intersectAt] == x;
    forall q | 0 <= q < |cells| && q != intersectAt ensures cells[q] !in Occupied(numbers) {
      if q < intersectAt {
        SpanInjective(newNum.r, newNum.c, newNum.len, newNum.vertical, GridSize, GridSize, q, intersectAt);
      } else {
        SpanInjective(newNum.r, newNum.c, newNum.len, newNum.vertical, GridSize, GridSize, intersectAt, q);
      }
    }
    assert BranchesFrom(numbers, newNum, anchor, intersectAt);
    BranchingExtend(numbers, newNum, anchor, intersectAt);
  }

  /** Some cell of `cells` other than `crossing` is in `occupied`. */
  predicate Blocked(cells: seq<int>, crossing: int, occupied: set<int>) {
    exists q :: 0 <= q < |cells| && cells[q] != crossing && cells[q] in occupied
  }

  /**
    The collision check of a candidate branch: some cell other than the
    branching cell `crossing` is already occupied.
   */
  method Collides(cells: seq<int>, crossing: int, occupied: set<int>) returns (collision: bool)
    ensures collision <==> Blocked(cells, crossing, occupied)
  {
    collision := false;
    var m := 0;
    while m < |cells|
      invariant 0 <= m <= |cells|
      invariant forall q :: 0 <= q < m ==> cells[q] == crossing || cells[q] !in occupied
    {
      if cells[m] != crossing && cells[m] in occupied {
        collision := true;
        break;
      }
      m := m + 1;
    }
  }

  /**
    `createProceduralTemplate(numCount)`. Up to 100 attempts: place a root
    number of length 3..5 at row and column 2..6, then grow branches until
    `numCount` numbers exist or 50 branch placements have failed; a
    placement fails when a cell leaves the grid or a cell other than the
    branching cell is already occupied. If no attempt reaches `numCount`
    numbers, the fixed fallback shape is returned. Draws are taken from
    `rand` from `tick0` on; `tick` is the next unused draw.
   */
  method CreateTemplate(numCount: int, rand: Source, tick0: nat) returns (t: Template, tick: nat)
    ensures (t, tick) == Retry(Attempt(numCount, rand), tick0, MaxAttempts)
    ensures t == Fallback() <==> AllFail(Attempt(numCount, rand), tick0, MaxAttempts)
    ensures WellFormed(t)
    ensures t.rows == GridSize ==> |t.numbers| == numCount
    ensures t.rows != GridSize ==> t == Fallback()
    ensures tick >= tick0
  {
    ghost var goal := Retry(Attempt(numCount, rand), tick0, MaxAttempts);
    FallbackIffAllFail(Attempt(numCount, rand), tick0, MaxAttempts);
    ghost var left := MaxAttempts;
    tick := tick0;
    var attempts := 0;
    while attempts < MaxAttempts
      invariant left == MaxAttempts - attempts
      invariant goal == Retry(Attempt(numCount, rand), tick, left)
      invariant tick >= tick0
    {
      ghost var start, remaining := tick, left;
      attempts, left := attempts + 1, left - 1;
      var root;
      root, tick := PlaceRoot(rand, tick);
      if root.None? {
        RootRefused(numCount, rand, start, remaining, tick, left);
        continue;
      }
      var numbers, occupied;
      numbers, occupied, tick := GrowBranches(numCount, root.value, rand, tick);
      RootGrown(numCount, rand, start, remaining, numbers, tick, left);

      if |numbers| == numCount {
        return Template(GridSize, GridSize, numbers, occupied), tick;
      }
    }
    FallbackWellFormed();
    return Fallback(), tick;
  }

  /**
    Step 2 of an attempt: grow branches from the root until `numCount`
    numbers exist or 50 placements have failed. Draws are taken from
    `tick0` on; the result is the growing loop replayed on them.
   */
  method GrowBranches(numCount: int, root: NumberDef, rand: Source, tick0: nat)
    returns (numbers: seq<NumberDef>, occupied: set<int>, tick: nat)
    requires root.id == 1 && RunShape(root, GridSize, GridSize)
    ensures (numbers, tick) == Grow(numCount, [root], 0, rand, tick0)
    ensures WellShaped(numbers, GridSize, GridSize) && occupied == Occupied(numbers)
  {
    numbers, occupied, tick := [root], Cells(root), tick0;
    assert numbers[..|numbers| - 1] == [];
    ghost var goal := Grow(numCount, numbers, 0, rand, tick0);
    var failCount := 0;
    while |numbers| < numCount && failCount < MaxFailures
      invariant WellShaped(numbers, GridSize, GridSize)
      invariant occupied == Occupied(numbers)
      invariant failCount <= MaxFailures && Drawable(numbers)
      invariant goal == Grow(numCount, numbers, failCount, rand, tick)
      decreases (if numCount > |numbers| then numCount - |numbers| else 0) + MaxFailures - failCount
    {
      var branch;
      ghost var before, grown, failed := tick, numbers, failCount;
      branch, tick := TryBranch(numbers, occupied, rand, tick);
      if branch.None? {
        failCount := failCount + 1;
      } else {
        OccupiedSnoc(numbers, branch.value);
        numbers := numbers + [branch.value];
        occupied := occupied + Cells(branch.value);
      }
      GrowStep(numCount, grown, failed, rand, before, branch, numbers, failCount, tick);
    }
  }

  /**
    The growing loop replayed on the draws from `tick` on: the numbers it
    ends with and the next unused draw. A drawn branch that leaves the grid
    or is blocked counts a failure; any other is appended.
   */
  ghost function Grow(numCount: int, numbers: seq<NumberDef>, failCount: nat, rand: Source, tick: nat): (g: (seq<NumberDef>, nat))
    requires Drawable(numbers) && failCount <= MaxFailures
    ensures g.1 >= tick && |g.0| >= |numbers|
    ensures |numbers| < numCount && failCount < MaxFailures ==> g.1 > tick
    decreases (if numCount > |numbers| then numCount - |numbers| else 0) + MaxFailures - failCount
  {
    if |numbers| >= numCount || failCount >= MaxFailures then (numbers, tick)
    else
      var d := BranchDraw(numbers, rand, tick);
      if !Fits(d.0.r, d.0.c, d.0.len, d.0.vertical, GridSize, GridSize) || Blocked(d.0.indices, d.1, Occupied(numbers)) then
        Grow(numCount, numbers, failCount + 1, rand, tick + 4)
      else
        Grow(numCount, numbers + [d.0], failCount, rand, tick + 4)
  }

  /**
    One attempt replayed on the draws from `tick` on: the numbers when its
    root fits and growing reaches `numCount` numbers, and the next unused draw.
   */
  ghost function AttemptOnce(numCount: int, rand: Source, tick: nat): (a: (Option<seq<NumberDef>>, nat))
    ensures a.1 > tick
  {
    var root := RootDraw(rand, tick);
    if !Fits(root.r, root.c, root.len, root.vertical, GridSize, GridSize) then (None, tick + 4)
    else
      var g := Grow(numCount, [root], 0, rand, tick + 4);
      if |g.0| == numCount then (Some(g.0), g.1) else (None, g.1)
  }

  /** An attempt whose root leaves the grid fails and uses four draws. */
  lemma RootRefused(numCount: int, rand: Source, tick: nat, left: nat, next: nat, rest: nat)
    requires left == rest + 1 && next == tick + 4
    requires var root := RootDraw(rand, tick); !Fits(root.r, root.c, root.len, root.vertical, GridSize, GridSize)
    ensures Retry(Attempt(numCount, rand), tick, left) == Retry(Attempt(numCount, rand), next, rest)
  {
    RetryStep(Attempt(numCount, rand), tick, left, None, next, rest);
  }

  /** The first of `left` attempts: a success ends the retry loop, a failure passes on to the `rest`. */
  lemma RetryStep(attempt: AttemptFrom, tick: nat, left: nat, found: Option<seq<NumberDef>>, next: nat, rest: nat)
    requires left == rest + 1 && attempt(tick) == (found, next)
    ensures Retry(attempt, tick, left) ==
      if found.Some? then (Template(GridSize, GridSize, found.value, Occupied(found.value)), next)
      else Retry(attempt, next, rest)
  {
  }

  /**
    One pass of the growing loop is one step of `Grow`: a refused branch
    counts a failure, an accepted one is appended; either uses four draws.
   */
  lemma GrowStep(numCount: int, numbers: seq<NumberDef>, failCount: nat, rand: Source, tick: nat,
                 branch: Option<NumberDef>, numbers': seq<NumberDef>, failCount': nat, next: nat)
    requires Drawable(numbers) && |numbers| < numCount && failCount < MaxFailures
    requires var d := BranchDraw(numbers, rand, tick);
      branch.None? <==>
        !Fits(d.0.r, d.0.c, d.0.len, d.0.vertical, GridSize, GridSize) || Blocked(d.0.indices, d.1, Occupied(numbers))
    requires branch.Some? ==> branch.value == BranchDraw(numbers, rand, tick).0
    requires branch.None? ==> numbers' == numbers && failCount' == failCount + 1
    requires branch.Some? ==> numbers' == numbers + [branch.value] && failCount' == failCount
    requires next == tick + 4
    ensures Drawable(numbers') && failCount' <= MaxFailures
    ensures Grow(numCount, numbers, failCount, rand, tick) == Grow(numCount, numbers', failCount', rand, next)
  {
    if branch.None? {
      assert Grow(numCount, numbers, failCount, rand, tick) == Grow(numCount, numbers, failCount + 1, rand, tick + 4);
    } else {
      assert numbers'[|numbers|] == BranchDraw(numbers, rand, tick).0;
      assert Grow(numCount, numbers, failCount, rand, tick) == Grow(numCount, numbers + [branch.value], failCount, rand, tick + 4);
    }
  }

  /**
    An attempt whose root fits ends where growing from that root ends: with
    the template when growing reached `numCount` numbers, otherwise with
    the remaining attempts.
   */
  lemma RootGrown(numCount: int, rand: Source, tick: nat, left: nat, numbers: seq<NumberDef>, next: nat, rest: nat)
    requires left == rest + 1
    requires var root := RootDraw(rand, tick); Fits(root.r, root.c, root.len, root.vertical, GridSize, GridSize)
    requires Grow(numCount, [RootDraw(rand, tick)], 0, rand, tick + 4) == (numbers, next)
    ensures Retry(Attempt(numCount, rand), tick, left) ==
      if |numbers| == numCount then (Template(GridSize, GridSize, numbers, Occupied(numbers)), next)
      else Retry(Attempt(numCount, rand), next, rest)
  {
    var found := if |numbers| == numCount then Some(numbers) else None;
    assert Attempt(numCount, rand)(tick) == (found, next);
    RetryStep(Attempt(numCount, rand), tick, left, found, next, rest);
  }

  /** An attempt run from a given draw: its numbers when it succeeds, and the next unused draw. */
  type AttemptFrom = nat -> (Option<seq<NumberDef>>, nat)

  /** The attempts of `createProceduralTemplate` for `numCount` numbers, on the draws of `rand`. */
  ghost function Attempt(numCount: int, rand: Source): AttemptFrom {
    t => AttemptOnce(numCount, rand, t)
  }

  /**
    The retry loop of `createProceduralTemplate` with `left` attempts
    remaining, the first from draw `tick`: the first attempt that succeeds
    gives the template on the 9x9 grid; when none is left, the fallback.
   */
  ghost function Retry(attempt: AttemptFrom, tick: nat, left: nat): (r: (Template, nat))
    decreases left
  {
    if left == 0 then (Fallback(), tick)
    else
      var a := attempt(tick);
      if a.0.Some? then (Template(GridSize, GridSize, a.0.value, Occupied(a.0.value)), a.1)
      else Retry(attempt, a.1, left - 1)
  }

  /** None of `left` attempts, the first from draw `tick`, succeeds. */
  ghost predicate AllFail(attempt: AttemptFrom, tick: nat, left: nat)
    decreases left
  {
    left == 0 || (attempt(tick).0.None? && AllFail(attempt, attempt(tick).1, left - 1))
  }

  /**
    The retry loop gives either the fallback or a template on the 9x9 grid,
    and the fallback's 5x5 grid exactly when every attempt fails.
   */
  lemma {:induction false} RetryRows(attempt: AttemptFrom, tick: nat, left: nat)
    ensures var t := Retry(attempt, tick, left).0;
      && (t.rows == GridSize || t == Fallback())
      && (t.rows != GridSize <==> AllFail(attempt, tick, left))
    decreases left
  {
    if left > 0 {
      RetryRows(attempt, attempt(tick).1, left - 1);
    }
  }

  /** The fallback is returned exactly when every attempt fails. */
  lemma FallbackIffAllFail(attempt: AttemptFrom, tick: nat, left: nat)
    ensures Retry(attempt, tick, left).0 == Fallback() <==> AllFail(attempt, tick, left)
  {
    RetryRows(attempt, tick, left);
    assert Fallback().rows != GridSize;
  }

  /** With one number asked for, an attempt whose root fits gives the 9x9 template of that root. */
  lemma FirstRootSuffices(rand: Source, tick: nat, left: nat)
    requires left > 0
    requires var root := RootDraw(rand, tick); Fits(root.r, root.c, root.len, root.vertical, GridSize, GridSize)
    ensures var root := RootDraw(rand, tick);
      Retry(Attempt(1, rand), tick, left) == (Template(GridSize, GridSize, [root], Cells(root)), tick + 4)
  {
    var root := RootDraw(rand, tick);
    assert Occupied([root]) == Cells(root) by {
      assert [root][..0] == [];
    }
  }

  /** No attempt can end with fewer than one number, so asking for none always gives the fallback. */
  lemma {:induction false} NoNumbersFallback(numCount: int, rand: Source, tick: nat, left: nat)
    requires numCount < 1
    ensures Retry(Attempt(numCount, rand), tick, left).0 == Fallback()
    decreases left
  {
    if left > 0 {
      var a := AttemptOnce(numCount, rand, tick);
      assert Attempt(numCount, rand)(tick) == a;
      NoNumbersFallback(numCount, rand, a.1, left - 1);
    }
  }


  /**
    The root number the draws at `tick0` to `tick0 + 3` describe: length
    3..5, vertical on a coin showing heads, row and column in 2..6.
   */
  function RootDraw(rand: Source, tick0: nat): (n: NumberDef)
    ensures n.id == 1 && 3 <= n.len <= 5 && 2 <= n.r <= 6 && 2 <= n.c <= 6
    ensures n.indices == Span(n.r, n.c, n.len, n.vertical, GridSize)
  {
    var len, vertical := Between(rand, tick0, 3, 5), Coin(rand, tick0 + 1);
    var r, c := Between(rand, tick0 + 2, 2, 6), Between(rand, tick0 + 3, 2, 6);
    NumberDef(1, Span(r, c, len, vertical, GridSize), vertical, r, c, len)
  }

  /**
    Step 1 of an attempt: the drawn root number, refused exactly when it
    leaves the grid.
   */
  method PlaceRoot(rand: Source, tick0: nat) returns (root: Option<NumberDef>, tick: nat)
    ensures tick == tick0 + 4
    ensures var n := RootDraw(rand, tick0);
      root.None? <==> !Fits(n.r, n.c, n.len, n.vertical, GridSize, GridSize)
    ensures root.Some? ==> root.value == RootDraw(rand, tick0) && RunShape(root.value, GridSize, GridSize)
  {
    var startLen := Between(rand, tick0, 3, 5);
    var isVert := Coin(rand, tick0 + 1);
    var startR := Between(rand, tick0 + 2, 2, 6);
    var startC := Between(rand, tick0 + 3, 2, 6);
    tick := tick0 + 4;
    var indices := GetIndices(startR, startC, startLen, isVert);
    if indices.None? {
      return None, tick;
    }
    root := Some(NumberDef(1, indices.value, isVert, startR, startC, startLen));
  }

  /** There is a number to branch from, and each number has a cell to branch at. */
  predicate Drawable(numbers: seq<NumberDef>) {
    |numbers| > 0 && forall i :: 0 <= i < |numbers| ==> numbers[i].indices != []
  }

  /**
    The branch the draws at `tick0` to `tick0 + 3` describe, paired with
    the cell of its anchor it branches at: an anchor number and one of its
    cells, a length 3..5 and the position of that cell in the new run,
    which is perpendicular to the anchor and passes through that cell.
   */
  function BranchDraw(numbers: seq<NumberDef>, rand: Source, tick0: nat): (d: (NumberDef, int))
    requires Drawable(numbers)
    ensures d.0.id == |numbers| + 1 && 3 <= d.0.len <= 5
    ensures d.0.indices == Span(d.0.r, d.0.c, d.0.len, d.0.vertical, GridSize)
    ensures exists j :: 0 <= j < |numbers| && d.1 in numbers[j].indices && numbers[j].vertical != d.0.vertical
    ensures d.1 in d.0.indices
  {
    var anchor := Below(rand, tick0, |numbers|);
    var target := numbers[anchor];
    var at := Below(rand, tick0 + 1, |target.indices|);
    var x := target.indices[at];
    var len := Between(rand, tick0 + 2, 3, 5);
    var intersectAt := Between(rand, tick0 + 3, 0, len - 1);
    var vertical := !target.vertical;
    var r := if vertical then x / GridSize - intersectAt else x / GridSize;
    var c := if vertical then x % GridSize else x % GridSize - intersectAt;
    var cells := Span(r, c, len, vertical, GridSize);
    assert cells[intersectAt] == x;
    (NumberDef(|numbers| + 1, cells, vertical, r, c, len), x)
  }

  /**
    One pass of the growing loop: the drawn branch, refused exactly when it
    leaves the grid or a cell other than the branching cell is occupied.
   */
  method TryBranch(numbers: seq<NumberDef>, occupied: set<int>, rand: Source, tick0: nat)
    returns (branch: Option<NumberDef>, tick: nat)
    requires WellShaped(numbers, GridSize, GridSize) && occupied == Occupied(numbers)
    ensures tick == tick0 + 4
    ensures var d := BranchDraw(numbers, rand, tick0);
      branch.None? <==>
        !Fits(d.0.r, d.0.c, d.0.len, d.0.vertical, GridSize, GridSize) || Blocked(d.0.indices, d.1, occupied)
    ensures branch.Some? ==> branch.value == BranchDraw(numbers, rand, tick0).0
    ensures branch.Some? ==> WellShaped(numbers + [branch.value], GridSize, GridSize) && BranchesFromSome(numbers, branch.value)
  {
    var anchor := Below(rand, tick0, |numbers|);
    var targetNum := numbers[anchor];
    var at := Below(rand, tick0 + 1, |targetNum.indices|);
    var intersectIdxGlobal := targetNum.indices[at];
    var intersectR := intersectIdxGlobal / GridSize;
    var intersectC := intersectIdxGlobal % GridSize;
    var newIsVert := !targetNum.vertical;
    var newLen := Between(rand, tick0 + 2, 3, 5);
    var intersectAt := Between(rand, tick0 + 3, 0, newLen - 1);
    tick := tick0 + 4;

    var startRNew := if newIsVert then intersectR - intersectAt else intersectR;
    var startCNew := if newIsVert then intersectC else intersectC - intersectAt;
    ghost var drawn := BranchDraw(numbers, rand, tick0);
    assert drawn.1 == intersectIdxGlobal;
    assert drawn.0 == NumberDef(|numbers| + 1, drawn.0.indices, newIsVert, startRNew, startCNew, newLen);
    var newIndices := GetIndices(startRNew, startCNew, newLen, newIsVert);
    if newIndices.None? {
      return None, tick;
    }
    var cells := newIndices.value;

    var collision := Collides(cells, intersectIdxGlobal, occupied);
    if collision {
      return None, tick;
    }

    var newNum := NumberDef(|numbers| + 1, cells, newIsVert, startRNew, startCNew, newLen);
    BranchAccepted(numbers, anchor, at, newNum, intersectAt);
    return Some(newNum), tick;
  }

  /** Two numbers of a well-shaped template share at most one cell. */
  lemma SharedCell(ns: seq<NumberDef>, rows: nat, cols: nat, j: nat, i: nat, x: int, y: int)
    requires WellShaped(ns, rows, cols) && j < i < |ns|
    requires x in ns[i].indices && x in ns[j].indices
    requires y in ns[i].indices && y in ns[j].indices
    ensures x == y
  {
    assert BranchesFromSome(ns[..i], ns[i]);
    var a: nat, k: nat :| BranchesFrom(ns[..i], ns[i], a, k);
    assert ns[..i][j] == ns[j];
    OccupiedHas(ns[..i], j, x);
    OccupiedHas(ns[..i], j, y);
    var mx :| 0 <= mx < |ns[i].indices| && ns[i].indices[mx] == x;
    var my :| 0 <= my < |ns[i].indices| && ns[i].indices[my] == y;
    assert mx == k && my == k;
  }

  /** The cells left of, right of, above and below `x` on a grid `cols` wide. */
  function Neighbours(x: int, cols: nat): set<int> {
    {x - 1, x + 1, x - cols, x + cols}
  }

  /** Every cell of a run has a neighbour in the same run. */
  lemma RunHasNeighbour(n: NumberDef, rows: nat, cols: nat, x: int)
    requires RunShape(n, rows, cols) && x in n.indices
    ensures exists y :: y in n.indices && y in Neighbours(x, cols) && y != x
  {
    var m :| 0 <= m < |n.indices| && n.indices[m] == x;
    if m + 1 < n.len {
      SpanStep(n.r, n.c, n.len, n.vertical, cols, m);
      assert n.indices[m + 1] in Neighbours(x, cols);
    } else {
      SpanStep(n.r, n.c, n.len, n.vertical, cols, m - 1);
      assert n.indices[m - 1] in Neighbours(x, cols);
    }
  }

  /** Consecutive cells of a run are one column (across) or one row (down) apart. */
  lemma SpanStep(r: int, c: int, len: nat, vertical: bool, cols: nat, m: nat)
    requires m + 1 < len
    ensures Span(r, c, len, vertical, cols)[m + 1] == Span(r, c, len, vertical, cols)[m] + (if vertical then cols else 1)
  {
    if vertical {
      assert (r + (m + 1)) * cols == (r + m) * cols + cols;
    }
  }

  /** A set is empty or has an element. */
  lemma Inhabited(s: set<int>)
    ensures s == {} || exists y :: y in s
  {
    if forall y :: y !in s {
      assert s == {};
    }
  }

  /** Number `q` of `ns` covers cell `y`, a cell other than `x`. */
  predicate CoversBeside(ns: seq<NumberDef>, q: int, y: int, x: int) {
    0 <= q < |ns| && y in ns[q].indices && y != x
  }

  /**
    Numbers in `qs` that each cover a cell of `ys` besides `x`, no cell
    covered by two of them, are no more numerous than `ys`.
   */
  lemma {:induction false} CountByWitness(qs: set<int>, ys: set<int>, ns: seq<NumberDef>, x: int)
    requires forall q :: q in qs ==> exists y :: y in ys && CoversBeside(ns, q, y, x)
    requires forall q1, q2, y :: q1 in qs && q2 in qs && y in ys && CoversBeside(ns, q1, y, x) && CoversBeside(ns, q2, y, x) ==> q1 == q2
    ensures |qs| <= |ys|
    decreases |qs|
  {
    if qs != {} {
      Inhabited(qs);
      var q :| q in qs;
      var y :| y in ys && CoversBeside(ns, q, y, x);
      forall q' | q' in qs - {q} ensures exists y' :: y' in ys - {y} && CoversBeside(ns, q', y', x) {
        var y' :| y' in ys && CoversBeside(ns, q', y', x);
      }
      CountByWitness(qs - {q}, ys - {y}, ns, x);
    }
  }

  /** Every number through `x` also covers a neighbour of `x`. */
  lemma OwnersBeside(ns: seq<NumberDef>, rows: nat, cols: nat, owners: set<int>, x: int)
    requires WellShaped(ns, rows, cols)
    requires forall q :: q in owners ==> 0 <= q < |ns| && x in ns[q].indices
    ensures forall q :: q in owners ==> exists y :: y in Neighbours(x, cols) && CoversBeside(ns, q, y, x)
  {
    forall q | q in owners ensures exists y :: y in Neighbours(x, cols) && CoversBeside(ns, q, y, x) {
      RunHasNeighbour(ns[q], rows, cols, x);
    }
  }

  /** Two numbers through `x` cover no other cell in common. */
  lemma OwnersApart(ns: seq<NumberDef>, rows: nat, cols: nat, owners: set<int>, x: int, ys: set<int>)
    requires WellShaped(ns, rows, cols)
    requires forall q :: q in owners ==> 0 <= q < |ns| && x in ns[q].indices
    ensures forall q1, q2, y :: q1 in owners && q2 in owners && y in ys && CoversBeside(ns, q1, y, x) && CoversBeside(ns, q2, y, x) ==> q1 == q2
  {
    forall q1, q2, y | q1 in owners && q2 in owners && y in ys && CoversBeside(ns, q1, y, x) && CoversBeside(ns, q2, y, x)
      ensures q1 == q2
    {
      if q1 < q2 {
        SharedCell(ns, rows, cols, q1, q2, x, y);
      } else if q2 < q1 {
        SharedCell(ns, rows, cols, q2, q1, x, y);
      }
    }
  }

  /**
    At most three earlier numbers cover a cell of a later one: each number
    through the cell also covers one of its four neighbours, and no two
    numbers share a cell besides their crossing.
   */
  lemma CrossingOwners(ns: seq<NumberDef>, rows: nat, cols: nat, i: nat, x: int)
    requires WellShaped(ns, rows, cols) && i < |ns| && x in ns[i].indices
    ensures |set q | 0 <= q < i && x in ns[q].indices| <= 3
  {
    var earlier := set q | 0 <= q < i && x in ns[q].indices;
    var owners := earlier + {i};
    var nbs := Neighbours(x, cols);
    OwnersBeside(ns, rows, cols, owners, x);
    OwnersApart(ns, rows, cols, owners, x, nbs);
    CountByWitness(owners, nbs, ns, x);
    assert |nbs| <= 4;
    assert i !in earlier;
  }
}
