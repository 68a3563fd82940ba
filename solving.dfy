/**
  Step 4 of `generatePuzzle` in src/utils/generator.js: the numbers of a
  template are solved in creation order, each constrained by the digits the
  earlier numbers already wrote into the shared cell→digit map `solution`.
 */
module Solving {
  import opened Wrappers
  import opened Choice
  import opened Digits
  import opened Topology
  import opened Solver

  /** `a.find(idx => b.includes(idx))`, as the position of the first element of `a` that occurs in `b`. */
  function FirstShared(a: seq<int>, b: seq<int>): (m: Option<nat>)
    ensures m.Some? ==> m.value < |a| && a[m.value] in b && forall q :: 0 <= q < m.value ==> a[q] !in b
    ensures m.None? ==> forall q :: 0 <= q < |a| ==> a[q] !in b
  {
    if a == [] then None
    else if a[0] in b then Some(0)
    else match FirstShared(a[1..], b)
      case None => None
      case Some(m) => Some(m + 1)
  }

  /** `a.indexOf(x)`: the first position of `x` in `a`. */
  function IndexOf(a: seq<int>, x: int): (m: Option<nat>)
    ensures m.Some? ==> m.value < |a| && a[m.value] == x && forall q :: 0 <= q < m.value ==> a[q] != x
    ensures m.None? ==> x !in a
  {
    if a == [] then None
    else if a[0] == x then Some(0)
    else match IndexOf(a[1..], x)
      case None => None
      case Some(m) => Some(m + 1)
  }

  /** The first cell of `a` shared with `b` has no earlier copy in `a`. */
  lemma IndexOfFirstShared(a: seq<int>, b: seq<int>, m: nat)
    requires FirstShared(a, b) == Some(m)
    ensures IndexOf(a, a[m]) == Some(m)
  {
  }

  /**
    The constraints `n` receives from the numbers `prev`, in order: one for
    each earlier number sharing a cell with `n`, fixing the first shared
    cell's position to the digit already written there.
   */
  function ConstraintsFrom(n: NumberDef, prev: seq<NumberDef>, solution: map<int, int>): seq<Constraint>
    requires Occupied(prev) <= solution.Keys
  {
    if prev == [] then []
    else
      var init := prev[..|prev| - 1];
      var last := prev[|prev| - 1];
      var earlier := ConstraintsFrom(n, init, solution);
      match FirstShared(n.indices, last.indices)
      case None => earlier
      case Some(m) =>
        OccupiedHas(prev, |prev| - 1, n.indices[m]);
        earlier + [Constraint(m, solution[n.indices[m]])]
  }

  /**
    The constraint-collection loop: for each earlier number, in id order,
    the first of `n`'s cells it covers, that cell's position in `n` and the
    digit already written there.
   */
  method CollectConstraints(n: NumberDef, prev: seq<NumberDef>, solution: map<int, int>) returns (constraints: seq<Constraint>)
    requires Occupied(prev) <= solution.Keys
    ensures constraints == ConstraintsFrom(n, prev, solution)
  {
    constraints := [];
    OccupiedPrefix(prev, 0);
    for p := 0 to |prev|
      invariant Occupied(prev[..p]) <= solution.Keys
      invariant constraints == ConstraintsFrom(n, prev[..p], solution)
    {
      OccupiedPrefix(prev, p + 1);
      assert prev[..p + 1][..p] == prev[..p];
      var prevDef := prev[p];
      var intersect := FirstShared(n.indices, prevDef.indices);
      if intersect.Some? {
        var intersectIdx := n.indices[intersect.value];
        OccupiedHas(prev, p, intersectIdx);
        var existingValue := solution[intersectIdx];
        IndexOfFirstShared(n.indices, prevDef.indices, intersect.value);
        var localIndex := IndexOf(n.indices, intersectIdx).value;
        constraints := constraints + [Constraint(localIndex, existingValue)];
      }
    }
    assert prev[..|prev|] == prev;
  }

  /** The cells of a prefix of the numbers are occupied. */
  lemma OccupiedPrefix(prev: seq<NumberDef>, p: nat)
    requires p <= |prev|
    ensures Occupied(prev[..p]) <= Occupied(prev)
  {
    forall x | x in Occupied(prev[..p]) ensures x in Occupied(prev) {
      OccupiedIff(prev[..p], x);
      var j :| 0 <= j < p && x in prev[..p][j].indices;
      OccupiedHas(prev, j, x);
    }
  }

  /** The earlier numbers that cover cell `x`. */
  function Owners(prev: seq<NumberDef>, x: int): set<nat> {
    set q: nat | q < |prev| && x in prev[q].indices
  }

  /** Every constraint of `cs` fixes position `k` to the digit the solution holds at cell `x`. */
  ghost predicate AllFix(cs: seq<Constraint>, k: nat, solution: map<int, int>, x: int) {
    forall q :: 0 <= q < |cs| ==> cs[q].localIndex == k && x in solution && cs[q].value == solution[x]
  }

  /**
    When only `n`'s `k`-th cell can be occupied by `prev`, every constraint
    fixes position `k` to the digit of that cell, and there is one
    constraint per earlier number covering it.
   */
  lemma {:induction false} ConstraintsAt(n: NumberDef, prev: seq<NumberDef>, solution: map<int, int>, k: nat)
    requires Occupied(prev) <= solution.Keys && k < |n.indices|
    requires forall m :: 0 <= m < |n.indices| && m != k ==> n.indices[m] !in Occupied(prev)
    ensures |ConstraintsFrom(n, prev, solution)| == |Owners(prev, n.indices[k])|
    ensures AllFix(ConstraintsFrom(n, prev, solution), k, solution, n.indices[k])
  {
    var x := n.indices[k];
    if prev == [] {
      assert Owners(prev, x) == {};
    } else {
      ConstraintsStep(n, prev, solution, k);
      ConstraintsAt(n, prev[..|prev| - 1], solution, k);
      ConstraintsAtStep(n, prev, solution, k);
    }
  }

  /** The inductive step of `ConstraintsAt`: its conclusion for all numbers but the last gives it for all of them. */
  lemma ConstraintsAtStep(n: NumberDef, prev: seq<NumberDef>, solution: map<int, int>, k: nat)
    requires prev != [] && Occupied(prev) <= solution.Keys && k < |n.indices|
    requires forall m :: 0 <= m < |n.indices| && m != k ==> n.indices[m] !in Occupied(prev)
    requires Occupied(prev[..|prev| - 1]) <= solution.Keys
    requires |ConstraintsFrom(n, prev[..|prev| - 1], solution)| == |Owners(prev[..|prev| - 1], n.indices[k])|
    requires AllFix(ConstraintsFrom(n, prev[..|prev| - 1], solution), k, solution, n.indices[k])
    ensures |ConstraintsFrom(n, prev, solution)| == |Owners(prev, n.indices[k])|
    ensures AllFix(ConstraintsFrom(n, prev, solution), k, solution, n.indices[k])
  {
    var x := n.indices[k];
    var init := prev[..|prev| - 1];
    ConstraintsStep(n, prev, solution, k);
    OwnersStep(prev, x);
    var cs, earlier := ConstraintsFrom(n, prev, solution), ConstraintsFrom(n, init, solution);
    if x in prev[|prev| - 1].indices {
      var c := Constraint(k, solution[x]);
      assert cs == earlier + [c];
      forall q | 0 <= q < |cs| ensures cs[q].localIndex == k && x in solution && cs[q].value == solution[x] {
        if q < |earlier| {
          assert cs[q] == earlier[q];
        } else {
          assert cs[q] == c;
        }
      }
    } else {
      assert cs == earlier;
    }
  }

  /**
    One step of `ConstraintsFrom` under the premises of `ConstraintsAt`: the
    last number adds a constraint on position `k` exactly when it covers
    that cell.
   */
  lemma ConstraintsStep(n: NumberDef, prev: seq<NumberDef>, solution: map<int, int>, k: nat)
    requires prev != [] && Occupied(prev) <= solution.Keys && k < |n.indices|
    requires forall m :: 0 <= m < |n.indices| && m != k ==> n.indices[m] !in Occupied(prev)
    ensures var init := prev[..|prev| - 1];
      && Occupied(init) <= solution.Keys
      && (forall m :: 0 <= m < |n.indices| && m != k ==> n.indices[m] !in Occupied(init))
    ensures n.indices[k] in prev[|prev| - 1].indices ==> n.indices[k] in solution
    ensures ConstraintsFrom(n, prev, solution) == ConstraintsFrom(n, prev[..|prev| - 1], solution) +
      if n.indices[k] in prev[|prev| - 1].indices then [Constraint(k, solution[n.indices[k]])] else []
  {
    var init := prev[..|prev| - 1];
    var last := prev[|prev| - 1];
    assert Occupied(prev) == Occupied(init) + Cells(last);
    match FirstShared(n.indices, last.indices)
    case None =>
    case Some(m) =>
      OccupiedHas(prev, |prev| - 1, n.indices[m]);
  }

  /** The owners of a cell among `prev` are its owners among all but the last, and the last if it covers the cell. */
  lemma OwnersStep(prev: seq<NumberDef>, x: int)
    requires prev != []
    ensures |Owners(prev, x)| == |Owners(prev[..|prev| - 1], x)| + if x in prev[|prev| - 1].indices then 1 else 0
  {
    var init := prev[..|prev| - 1];
    assert forall q :: 0 <= q < |init| ==> init[q] == prev[q];
    if x in prev[|prev| - 1].indices {
      assert Owners(prev, x) == Owners(init, x) + {|prev| - 1};
    } else {
      assert Owners(prev, x) == Owners(init, x);
    }
  }

  /** The digits a solution holds for a run of cells. */
  function Reads(solution: map<int, int>, cells: seq<int>): seq<int>
    requires forall m :: 0 <= m < |cells| ==> cells[m] in solution
  {
    seq(|cells|, m requires 0 <= m < |cells| && cells[m] in solution => solution[cells[m]])
  }

  /** Every cell of `n` is solved and `n` reads as the canonical arrangement of its digits for `rule`. */
  ghost predicate ReadsCanonical(solution: map<int, int>, n: NumberDef, rule: Rule) {
    && (forall m :: 0 <= m < |n.indices| ==> n.indices[m] in solution)
    && Reads(solution, n.indices) == FormatDigits(Reads(solution, n.indices), rule)
  }

  /**
    A partial solution for `ns` solved under `rules`: it covers exactly
    their cells with digits, and each number reads as the canonical
    arrangement of its digits for its rule.
   */
  ghost predicate Solved(ns: seq<NumberDef>, rules: seq<Rule>, solution: map<int, int>) {
    && |rules| == |ns|
    && solution.Keys == Occupied(ns)
    && (forall x :: x in solution ==> IsDigit(solution[x]))
    && forall p :: 0 <= p < |ns| ==> ReadsCanonical(solution, ns[p], rules[p])
  }

  /** The solution after writing `digits[m]` into `cells[m]` for each `m` in order; a later write to the same cell wins. */
  ghost function Written(solution: map<int, int>, cells: seq<int>, digits: seq<int>): (w: map<int, int>)
    requires |digits| >= |cells|
    ensures w.Keys == solution.Keys + set y | y in cells
  {
    if cells == [] then solution
    else
      var init := cells[..|cells| - 1];
      assert (set y | y in cells) == (set y | y in init) + {cells[|cells| - 1]} by {
        assert cells == init + [cells[|cells| - 1]];
      }
      Written(solution, init, digits)[cells[|cells| - 1] := digits[|cells| - 1]]
  }

  /**
    `numDef.indices.forEach((idx, k) => solution[idx] = digits[k])`: the
    cells of the number are written, every other cell keeps its digit.
   */
  method Commit(solution: map<int, int>, cells: seq<int>, digits: seq<int>) returns (updated: map<int, int>)
    requires |digits| >= |cells|
    ensures updated == Written(solution, cells, digits)
    ensures updated.Keys == solution.Keys + set y | y in cells
    ensures forall y :: y in solution && y !in cells ==> updated[y] == solution[y]
    ensures Distinct(cells) ==> forall m :: 0 <= m < |cells| ==> updated[cells[m]] == digits[m]
  {
    updated := solution;
    for k := 0 to |cells|
      invariant updated == Written(solution, cells[..k], digits)
      invariant updated.Keys == solution.Keys + set y | y in cells[..k]
      invariant forall y :: y in solution && y !in cells[..k] ==> updated[y] == solution[y]
      invariant Distinct(cells) ==> forall m :: 0 <= m < k ==> updated[cells[m]] == digits[m]
    {
      assert cells[..k + 1] == cells[..k] + [cells[k]];
      assert cells[..k + 1][..k] == cells[..k];
      updated := updated[cells[k] := digits[k]];
    }
    assert cells[..|cells|] == cells;
  }

  /** The cells of a run that fits are distinct. */
  lemma RunDistinct(n: NumberDef, rows: nat, cols: nat)
    requires RunShape(n, rows, cols)
    ensures Distinct(n.indices)
  {
    forall i, j | 0 <= i < j < |n.indices| ensures n.indices[i] != n.indices[j] {
      SpanInjective(n.r, n.c, n.len, n.vertical, rows, cols, i, j);
    }
  }

  /**
    The constraints `cs` of a number `n` all fix its `k`-th cell, the only
    one already solved, to the digit there; there are at most three of
    them, and at least one when that cell is solved.
   */
  ghost predicate CrossingConstraints(n: NumberDef, cs: seq<Constraint>, solution: map<int, int>, k: nat) {
    && k < |n.indices|
    && (forall m :: 0 <= m < |n.indices| && m != k ==> n.indices[m] !in solution)
    && |cs| <= 3
    && (n.indices[k] in solution ==> 1 <= |cs|)
    && forall q :: 0 <= q < |cs| ==>
      cs[q].localIndex == k && n.indices[k] in solution && cs[q].value == solution[n.indices[k]]
  }

  /** A number branching from `prev[j]` at its `k`-th cell gets one constraint per earlier number through that cell. */
  lemma BranchConstraints(n: NumberDef, prev: seq<NumberDef>, solution: map<int, int>, j: nat, k: nat)
    requires BranchesFrom(prev, n, j, k) && solution.Keys == Occupied(prev)
    requires |Owners(prev, n.indices[k])| <= 3
    ensures CrossingConstraints(n, ConstraintsFrom(n, prev, solution), solution, k)
  {
    var x := n.indices[k];
    ConstraintsAt(n, prev, solution, k);
    var cs := ConstraintsFrom(n, prev, solution);
    assert j in Owners(prev, x);
    OccupiedHas(prev, j, x);
    assert 1 <= |cs| <= 3;
    assert forall m :: 0 <= m < |n.indices| && m != k ==> n.indices[m] !in solution;
    assert forall q :: 0 <= q < |cs| ==> cs[q].localIndex == k && cs[q].value == solution[x];
  }

  /** At most three earlier numbers pass through a cell of a number of a well-shaped template. */
  lemma OwnersBound(ns: seq<NumberDef>, rows: nat, cols: nat, i: nat, x: int)
    requires WellShaped(ns, rows, cols) && i < |ns| && x in ns[i].indices
    ensures |Owners(ns[..i], x)| <= 3
  {
    assert Owners(ns[..i], x) == set q | 0 <= q < i && x in ns[q].indices;
    CrossingOwners(ns, rows, cols, i, x);
  }

  /**
    The constraints of a number of a well-shaped template: none for the
    first number, and for a later one between one and three, all fixing its
    crossing cell to the digit already there.
   */
  lemma ConstraintsOfNumber(ns: seq<NumberDef>, rows: nat, cols: nat, i: nat, solution: map<int, int>)
    returns (k: nat)
    requires WellShaped(ns, rows, cols) && i < |ns| && solution.Keys == Occupied(ns[..i])
    ensures CrossingConstraints(ns[i], ConstraintsFrom(ns[i], ns[..i], solution), solution, k)
  {
    var n := ns[i];
    if i == 0 {
      k := 0;
      assert ns[..0] == [];
    } else {
      assert BranchesFromSome(ns[..i], n);
      var j: nat, k' :| BranchesFrom(ns[..i], n, j, k');
      k := k';
      OwnersBound(ns, rows, cols, i, n.indices[k]);
      BranchConstraints(n, ns[..i], solution, j, k);
    }
  }

  /**
    Committing the digits generated for number `i` changes no cell already
    solved: the only such cell is the crossing, and the constraint put the
    same digit there.
   */
  lemma CommitAgrees(n: NumberDef, cs: seq<Constraint>, solution: map<int, int>, k: nat, digits: seq<int>, updated: map<int, int>)
    requires CrossingConstraints(n, cs, solution, k)
    requires forall q :: 0 <= q < |cs| ==> Satisfies(digits, cs[q])
    requires updated.Keys == solution.Keys + set y | y in n.indices
    requires forall y :: y in solution && y !in n.indices ==> updated[y] == solution[y]
    requires |digits| >= |n.indices|
    requires forall m :: 0 <= m < |n.indices| ==> updated[n.indices[m]] == digits[m]
    ensures forall y :: y in solution ==> updated[y] == solution[y]
  {
    forall y | y in solution ensures updated[y] == solution[y] {
      if y in n.indices {
        var m :| 0 <= m < |n.indices| && n.indices[m] == y;
        assert m == k;
        assert Satisfies(digits, cs[0]);
      }
    }
  }

  /** Adding a number whose cells read as canonical digits, without changing earlier cells, keeps the solution solved. */
  lemma SolvedExtend(ns: seq<NumberDef>, rules: seq<Rule>, i: nat, solution: map<int, int>, digits: seq<int>, updated: map<int, int>)
    requires i < |ns| && |rules| == |ns| && Solved(ns[..i], rules[..i], solution)
    requires updated.Keys == solution.Keys + set y | y in ns[i].indices
    requires forall y :: y in solution ==> updated[y] == solution[y]
    requires |digits| == |ns[i].indices| && AllDigits(digits) && digits == FormatDigits(digits, rules[i])
    requires forall m :: 0 <= m < |ns[i].indices| ==> updated[ns[i].indices[m]] == digits[m]
    ensures Solved(ns[..i + 1], rules[..i + 1], updated)
  {
    SliceSnoc(ns, i);
    SliceSnoc(rules, i);
    SolvedSnoc(ns[..i], rules[..i], ns[i], rules[i], solution, digits, updated);
  }

  /** A prefix one longer is the prefix followed by the next element. */
  lemma SliceSnoc<T>(s: seq<T>, i: nat)
    requires i < |s|
    ensures s[..i + 1] == s[..i] + [s[i]]
  {
  }

  /** `SolvedExtend` for the numbers `olds` followed by `n`. */
  lemma SolvedSnoc(olds: seq<NumberDef>, oldRules: seq<Rule>, n: NumberDef, rule: Rule,
                   solution: map<int, int>, digits: seq<int>, updated: map<int, int>)
    requires Solved(olds, oldRules, solution)
    requires updated.Keys == solution.Keys + set y | y in n.indices
    requires forall y :: y in solution ==> updated[y] == solution[y]
    requires |digits| == |n.indices| && AllDigits(digits) && digits == FormatDigits(digits, rule)
    requires forall m :: 0 <= m < |n.indices| ==> updated[n.indices[m]] == digits[m]
    ensures Solved(olds + [n], oldRules + [rule], updated)
  {
    assert (olds + [n])[..|olds|] == olds;
    assert Occupied(olds + [n]) == Occupied(olds) + Cells(n);
    WrittenDigits(solution, updated, n.indices, digits);
    forall m | 0 <= m < |n.indices| ensures n.indices[m] in updated {
      assert n.indices[m] in Cells(n);
    }
    ExtendReads(olds, oldRules, n, rule, solution, digits, updated);
  }

  /** Writing digits over some cells of a map of digits leaves a map of digits. */
  lemma WrittenDigits(solution: map<int, int>, updated: map<int, int>, cells: seq<int>, digits: seq<int>)
    requires forall x :: x in solution ==> IsDigit(solution[x])
    requires updated.Keys == solution.Keys + set y | y in cells
    requires forall y :: y in solution ==> updated[y] == solution[y]
    requires |digits| == |cells| && AllDigits(digits)
    requires forall m :: 0 <= m < |cells| ==> updated[cells[m]] == digits[m]
    ensures forall x :: x in updated ==> IsDigit(updated[x])
  {
    forall x | x in updated ensures IsDigit(updated[x]) {
      if x !in solution {
        var m :| 0 <= m < |cells| && cells[m] == x;
      }
    }
  }

  /** Every number solved before still reads canonically, and so does the one just written. */
  lemma ExtendReads(olds: seq<NumberDef>, oldRules: seq<Rule>, n: NumberDef, rule: Rule,
                    solution: map<int, int>, digits: seq<int>, updated: map<int, int>)
    requires |olds| == |oldRules|
    requires forall p :: 0 <= p < |olds| ==> ReadsCanonical(solution, olds[p], oldRules[p])
    requires solution.Keys <= updated.Keys
    requires forall y :: y in solution ==> updated[y] == solution[y]
    requires |digits| == |n.indices| && digits == FormatDigits(digits, rule)
    requires forall m :: 0 <= m < |n.indices| ==> n.indices[m] in updated && updated[n.indices[m]] == digits[m]
    ensures forall p :: 0 <= p < |olds + [n]| ==> ReadsCanonical(updated, (olds + [n])[p], (oldRules + [rule])[p])
  {
    forall p | 0 <= p < |olds + [n]| ensures ReadsCanonical(updated, (olds + [n])[p], (oldRules + [rule])[p]) {
      if p < |olds| {
        assert (olds + [n])[p] == olds[p] && (oldRules + [rule])[p] == oldRules[p];
        ReadsUnchanged(solution, updated, olds[p].indices);
      } else {
        ReadsWritten(updated, n.indices, digits);
      }
    }
  }

  /** A number whose cells were just written with `digits` reads as `digits`. */
  lemma ReadsWritten(updated: map<int, int>, cells: seq<int>, digits: seq<int>)
    requires |digits| == |cells|
    requires forall m :: 0 <= m < |cells| ==> cells[m] in updated && updated[cells[m]] == digits[m]
    ensures Reads(updated, cells) == digits
  {
  }

  /** A number whose cells keep their digits reads the same. */
  lemma ReadsUnchanged(solution: map<int, int>, updated: map<int, int>, cells: seq<int>)
    requires forall m :: 0 <= m < |cells| ==> cells[m] in solution
    requires solution.Keys <= updated.Keys
    requires forall y :: y in solution ==> updated[y] == solution[y]
    ensures Reads(updated, cells) == Reads(solution, cells)
  {
    forall m | 0 <= m < |cells| ensures Reads(updated, cells)[m] == Reads(solution, cells)[m] {
      var y := cells[m];
      assert y in solution;
      assert updated[y] == solution[y];
    }
  }

  /** The constraint values of a crossing are digits of the solution. */
  lemma CrossingValuesDigits(n: NumberDef, cs: seq<Constraint>, solution: map<int, int>, k: nat)
    requires CrossingConstraints(n, cs, solution, k)
    requires forall x :: x in solution ==> IsDigit(solution[x])
    ensures AllDigits(Values(cs))
  {
    forall q | 0 <= q < |cs| ensures IsDigit(Values(cs)[q]) {
      var x := n.indices[k];
      assert cs[q].localIndex == k && x in solution && cs[q].value == solution[x];
      assert Values(cs)[q] == cs[q].value;
      assert IsDigit(solution[x]);
    }
  }

  /** The search for number `i`'s digits, under the constraints of the numbers before it. */
  ghost function NumberTries(ns: seq<NumberDef>, rules: seq<Rule>, rand: Source, i: nat, solution: map<int, int>, tick: nat): (Option<seq<int>>, nat)
    requires i < |ns| && |rules| == |ns| && Occupied(ns[..i]) <= solution.Keys
  {
    Tries(Try(|ns[i].indices|, rules[i], ConstraintsFrom(ns[i], ns[..i], solution), rand), tick, MaxTries)
  }

  /**
    The solving loop replayed from number `i` on: each number's search runs
    from where the previous one left the source, its digits are written
    into the solution, and the first search that fails ends the loop with
    `None`; once every number has its digits the solution is returned.
   */
  ghost function SolveFrom(ns: seq<NumberDef>, rules: seq<Rule>, rand: Source, i: nat, solution: map<int, int>, tick: nat): (Option<map<int, int>>, nat)
    requires i <= |ns| && |rules| == |ns| && Occupied(ns[..i]) <= solution.Keys
    decreases |ns| - i, 1
  {
    if i == |ns| then (Some(solution), tick) else SolveAt(ns, rules, rand, i, solution, tick)
  }

  /** The replayed solving loop at number `i`, which is not the last: its search, then the numbers after it. */
  ghost function SolveAt(ns: seq<NumberDef>, rules: seq<Rule>, rand: Source, i: nat, solution: map<int, int>, tick: nat): (Option<map<int, int>>, nat)
    requires i < |ns| && |rules| == |ns| && Occupied(ns[..i]) <= solution.Keys
    decreases |ns| - i, 0
  {
    var t := NumberTries(ns, rules, rand, i, solution, tick);
    match t.0
    case None => (None, t.1)
    case Some(digits) =>
      TriesLength(ns, rules, rand, i, solution, tick);
      var updated := Written(solution, ns[i].indices, digits);
      WrittenOccupied(ns, i, solution, updated);
      SolveFrom(ns, rules, rand, i + 1, updated, t.1)
  }

  /**
    The first number meets no earlier number, so it has no constraints: its
    search succeeds on the first try, after ten draws, and a solving pass
    can only fail at a later number.
   */
  lemma FirstNumberFound(ns: seq<NumberDef>, rows: nat, cols: nat, rules: seq<Rule>, rand: Source, solution: map<int, int>, tick: nat)
    requires WellShaped(ns, rows, cols) && |rules| == |ns| && solution == map[]
    ensures Occupied(ns[..0]) <= solution.Keys
    ensures NumberTries(ns, rules, rand, 0, solution, tick).0.Some?
    ensures NumberTries(ns, rules, rand, 0, solution, tick).1 == tick + 10
  {
    assert ns[..0] == [];
    var cs := ConstraintsFrom(ns[0], ns[..0], solution);
    assert |cs| == 0;
    assert RunShape(ns[0], rows, cols);
    Unconstrained(|ns[0].indices|, rules[0], cs, rand, tick, MaxTries);
  }

  /** The digits a search finds cover every cell of the number. */
  lemma TriesLength(ns: seq<NumberDef>, rules: seq<Rule>, rand: Source, i: nat, solution: map<int, int>, tick: nat)
    requires i < |ns| && |rules| == |ns| && Occupied(ns[..i]) <= solution.Keys
    ensures var t := NumberTries(ns, rules, rand, i, solution, tick);
      t.0.Some? ==> |t.0.value| >= |ns[i].indices|
  {
    TriesGenerated(|ns[i].indices|, rules[i], ConstraintsFrom(ns[i], ns[..i], solution), rand, tick, MaxTries);
  }

  /** Once number `i`'s cells are written, the cells of the numbers up to `i` are solved. */
  lemma WrittenOccupied(ns: seq<NumberDef>, i: nat, solution: map<int, int>, updated: map<int, int>)
    requires i < |ns| && Occupied(ns[..i]) <= solution.Keys
    requires updated.Keys == solution.Keys + set y | y in ns[i].indices
    ensures Occupied(ns[..i + 1]) <= updated.Keys
  {
    SliceSnoc(ns, i);
    OccupiedSnoc(ns[..i], ns[i]);
  }

  /** One turn of the solving loop: a failed search ends it, a found one writes the digits and moves on. */
  lemma SolveStep(ns: seq<NumberDef>, rules: seq<Rule>, rand: Source, i: nat, solution: map<int, int>, tick: nat,
                  digits: Option<seq<int>>, next: nat, updated: map<int, int>)
    requires i < |ns| && |rules| == |ns| && Occupied(ns[..i]) <= solution.Keys
    requires NumberTries(ns, rules, rand, i, solution, tick).0 == digits
    requires NumberTries(ns, rules, rand, i, solution, tick).1 == next
    requires digits.Some? ==> |digits.value| >= |ns[i].indices| && updated == Written(solution, ns[i].indices, digits.value)
    ensures digits.Some? ==> Occupied(ns[..i + 1]) <= updated.Keys
    ensures digits.None? ==> SolveFrom(ns, rules, rand, i, solution, tick) == (None, next)
    ensures digits.Some? ==> SolveFrom(ns, rules, rand, i, solution, tick) == SolveFrom(ns, rules, rand, i + 1, updated, next)
  {
    var t := SolveAt(ns, rules, rand, i, solution, tick);
    if digits.Some? {
      WrittenOccupied(ns, i, solution, updated);
    }
  }

  /**
    Writing the digits found for number `i` into the solution: only its
    crossing cell was solved before, and the constraints put the same digit
    there, so the numbers up to `i` are solved afterwards.
   */
  method WriteNumber(ns: seq<NumberDef>, rows: nat, cols: nat, rules: seq<Rule>, i: nat, sol: map<int, int>, digits: seq<int>)
    returns (updated: map<int, int>)
    requires WellShaped(ns, rows, cols) && |rules| == |ns| && i < |ns|
    requires Solved(ns[..i], rules[..i], sol)
    requires Generated(digits, |ns[i].indices|, rules[i], ConstraintsFrom(ns[i], ns[..i], sol))
    ensures |digits| >= |ns[i].indices| && updated == Written(sol, ns[i].indices, digits)
    ensures Solved(ns[..i + 1], rules[..i + 1], updated)
  {
    var numDef := ns[i];
    var constraints := ConstraintsFrom(numDef, ns[..i], sol);
    var k := ConstraintsOfNumber(ns, rows, cols, i, sol);
    assert RunShape(numDef, rows, cols);
    RunDistinct(numDef, rows, cols);
    updated := Commit(sol, numDef.indices, digits);
    CommitAgrees(numDef, constraints, sol, k, digits, updated);
    CrossingValuesDigits(numDef, constraints, sol, k);
    SolvedExtend(ns, rules, i, sol, digits, updated);
  }

  /**
    One turn of the solving loop: number `i`'s constraints are collected,
    its digits searched for, and on success written into the solution,
    which then holds the numbers up to `i` solved.
   */
  method SolveNumber(ns: seq<NumberDef>, rows: nat, cols: nat, rules: seq<Rule>, rand: Source, i: nat,
                     sol: map<int, int>, tick: nat)
    returns (digits: Option<seq<int>>, updated: map<int, int>, next: nat)
    requires WellShaped(ns, rows, cols) && |rules| == |ns| && i < |ns|
    requires Solved(ns[..i], rules[..i], sol)
    ensures NumberTries(ns, rules, rand, i, sol, tick).0 == digits
    ensures NumberTries(ns, rules, rand, i, sol, tick).1 == next
    ensures next >= tick
    ensures digits.Some? ==> |digits.value| >= |ns[i].indices| && updated == Written(sol, ns[i].indices, digits.value)
    ensures digits.Some? ==> Solved(ns[..i + 1], rules[..i + 1], updated)
    ensures digits.None? ==> SolveFrom(ns, rules, rand, i, sol, tick) == (None, next)
    ensures digits.Some? ==> SolveFrom(ns, rules, rand, i, sol, tick) == SolveFrom(ns, rules, rand, i + 1, updated, next)
  {
    var constraints := CollectConstraints(ns[i], ns[..i], sol);
    digits, next := GenerateSingleNumber(|ns[i].indices|, rules[i], constraints, rand, tick);
    updated := sol;
    if digits.Some? {
      updated := WriteNumber(ns, rows, cols, rules, i, sol, digits.value);
    }
    SolveStep(ns, rules, rand, i, sol, tick, digits, next, updated);
  }

  /**
    The solving loop of `generatePuzzle`: for each number in turn, collect
    its constraints, generate its digits, and write them into the solution.
    `None` is the unsolvable case in which the source starts over, and it
    comes exactly when the replayed search of some number fails. On success
    every number reads as the canonical arrangement of its digits for its
    rule, and the solution covers exactly the template's cells.
   */
  method SolveNumbers(ns: seq<NumberDef>, rows: nat, cols: nat, rules: seq<Rule>, rand: Source, tick0: nat)
    returns (solution: Option<map<int, int>>, tick: nat)
    requires WellShaped(ns, rows, cols) && |rules| == |ns|
    ensures solution == SolveFrom(ns, rules, rand, 0, map[], tick0).0
    ensures tick == SolveFrom(ns, rules, rand, 0, map[], tick0).1
    ensures tick >= tick0
    ensures solution.Some? ==> Solved(ns, rules, solution.value)
  {
    var sol: map<int, int> := map[];
    tick := tick0;
    assert ns[..0] == [] && rules[..0] == [];
    ghost var goal := SolveFrom(ns, rules, rand, 0, sol, tick);
    for i := 0 to |ns|
      invariant tick >= tick0
      invariant Solved(ns[..i], rules[..i], sol)
      invariant goal == SolveFrom(ns, rules, rand, i, sol, tick)
    {
      var digits, updated;
      digits, updated, tick := SolveNumber(ns, rows, cols, rules, rand, i, sol, tick);
      if digits.None? {
        return None, tick;
      }
      sol := updated;
    }
    assert ns[..|ns|] == ns && rules[..|ns|] == rules;
    return Some(sol), tick;
  }
}
