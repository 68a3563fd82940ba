/**
  `generatePuzzle` of src/utils/generator.js: the level picks how many
  numbers the grid has, a template is built, each number gets a rule, the
  numbers are solved, and the tile inventory, the grid, the clues and the
  rules are assembled from the result. A solving failure starts over with
  a new template.
 */
module Puzzles {
  import opened Wrappers
  import opened Choice
  import opened Digits
  import opened Topology
  import opened Solver
  import opened Solving

  /**
    The number count of a level: 2 unless the level is 3 or 4, which keep
    their own value, or at least 5, which gives 5.
   */
  function NumCount(level: int): (n: nat)
    ensures 2 <= n <= 5
    ensures 3 <= level <= 5 ==> n == level
    ensures level >= 5 ==> n == 5
    ensures level < 3 ==> n == 2
  {
    var n0 := 2;
    var n1 := if level == 3 then 3 else n0;
    var n2 := if level == 4 then 4 else n1;
    if level >= 5 then 5 else n2
  }

  /** More numbers at a higher level, never fewer. */
  lemma NumCountMonotone(a: int, b: int)
    requires a <= b
    ensures NumCount(a) <= NumCount(b)
  {
  }

  /** A grid cell: an unused block or a cell a tile can be dropped on. */
  datatype CellKind = Block | Target

  /** A digit tile of the inventory (`tile-<id>` in the source). */
  datatype Tile = Tile(id: nat, value: int)

  datatype Clue = Clue(id: nat, text: string)

  /** The rule of a number and its cells. */
  datatype RuleDef = RuleDef(rule: Rule, indices: seq<int>)

  datatype Puzzle = Puzzle(
    level: int,
    rows: nat, cols: nat, numbers: seq<NumberDef>, activeCells: set<int>,
    grid: seq<CellKind>,
    inventory: seq<Tile>,
    clues: seq<Clue>,
    rules: map<nat, RuleDef>,
    solution: map<int, int>)

  /** The rules drawn for `count` numbers: `max` on a coin showing heads, `min` otherwise. */
  function ChooseRules(count: nat, rand: Source, k: nat): seq<Rule> {
    seq(count, i requires 0 <= i < count => if Coin(rand, k + i) then Max else Min)
  }

  /** The decimal text of a natural number. */
  function NatText(n: nat): string
    decreases n
  {
    var d := "0123456789"[n % 10];
    if n < 10 then [d] else NatText(n / 10) + [d]
  }

  /** The clue of a number. */
  function ClueText(rule: Rule, length: nat): string {
    "Make the " + (if rule == Max then "greatest" else "smallest") + " " + NatText(length) + "-digit number."
  }

  /** A clue names its rule: the two rules never share a clue text. */
  lemma ClueTextNamesRule(a: nat, b: nat)
    ensures ClueText(Max, a) != ClueText(Min, b)
  {
    assert ClueText(Max, a)[9] == 'g';
    assert ClueText(Min, b)[9] == 's';
  }

  /**
    The keys of a map of cells in `[lo, hi)` in ascending order, the order
    `Object.keys` and `Object.values` list integer keys in.
   */
  function KeysFrom(keys: set<int>, lo: int, hi: int): (r: seq<int>)
    ensures forall x :: x in r <==> lo <= x < hi && x in keys
    decreases hi - lo
  {
    if lo >= hi then []
    else (if lo in keys then [lo] else []) + KeysFrom(keys, lo + 1, hi)
  }

  predicate Ascending(s: seq<int>) {
    forall i, j :: 0 <= i < j < |s| ==> s[i] < s[j]
  }

  /** The keys are listed in strictly ascending order, hence each once. */
  lemma {:induction false} KeysAscending(keys: set<int>, lo: int, hi: int)
    ensures Ascending(KeysFrom(keys, lo, hi))
    decreases hi - lo
  {
    if lo < hi {
      var rest := KeysFrom(keys, lo + 1, hi);
      KeysAscending(keys, lo + 1, hi);
      if lo in keys {
        forall j | 0 <= j < |rest| ensures lo < rest[j] {
          assert rest[j] in rest;
        }
        AscendingCons(lo, rest);
      }
    }
  }

  /** An element below every element of an ascending sequence can lead it. */
  lemma AscendingCons(x: int, rest: seq<int>)
    requires Ascending(rest) && forall j :: 0 <= j < |rest| ==> x < rest[j]
    ensures Ascending([x] + rest)
  {
    var r := [x] + rest;
    forall i, j | 0 <= i < j < |r| ensures r[i] < r[j] {
      assert r[j] == rest[j - 1];
      if i > 0 {
        assert r[i] == rest[i - 1];
      }
    }
  }

  /** The digits of the cells `keys`, in that order (`Object.values(solution)`). */
  function CellValues(solution: map<int, int>, keys: seq<int>): seq<int>
    requires forall i :: 0 <= i < |keys| ==> keys[i] in solution
  {
    seq(|keys|, i requires 0 <= i < |keys| && keys[i] in solution => solution[keys[i]])
  }

  /** `allValues.map((val, i) => ({ id: `tile-${i}`, value: val }))`. */
  function Tiles(values: seq<int>): seq<Tile> {
    seq(|values|, i requires 0 <= i < |values| => Tile(i, values[i]))
  }

  /** The values of a sequence of tiles. */
  function TileValues(tiles: seq<Tile>): seq<int> {
    seq(|tiles|, i requires 0 <= i < |tiles| => tiles[i].value)
  }

  lemma TileValuesAppend(a: seq<Tile>, b: seq<Tile>)
    ensures TileValues(a + b) == TileValues(a) + TileValues(b)
  {
  }

  /** Removing the tile at `i`, leaving `rest`, removes one copy of its value. */
  lemma TileValuesRemove(b: seq<Tile>, i: nat, rest: seq<Tile>)
    requires i < |b| && rest == b[..i] + b[i + 1..]
    ensures multiset(rest) == multiset(b) - multiset{b[i]}
    ensures multiset(TileValues(b)) == multiset(TileValues(rest)) + multiset{b[i].value}
  {
    var left, t, right := b[..i], b[i], b[i + 1..];
    assert b == left + [t] + right;
    TileValuesAppend(left + [t], right);
    TileValuesAppend(left, [t]);
    TileValuesAppend(left, right);
    assert TileValues([t]) == [t.value];
    assert TileValues(b) == TileValues(left) + [t.value] + TileValues(right);
  }

  /** Shuffling the tiles shuffles their values. */
  lemma {:induction false} TileValuesPermutation(a: seq<Tile>, b: seq<Tile>)
    requires multiset(a) == multiset(b)
    ensures multiset(TileValues(a)) == multiset(TileValues(b))
    decreases |a|
  {
    if a != [] {
      var t := a[0];
      assert t in multiset(b);
      var i :| 0 <= i < |b| && b[i] == t;
      var restA, restB := a[1..], b[..i] + b[i + 1..];
      assert a[..0] + a[1..] == restA;
      TileValuesRemove(a, 0, restA);
      TileValuesRemove(b, i, restB);
      assert multiset(restA) == multiset(restB);
      TileValuesPermutation(restA, restB);
    }
  }

  /**
    `Array(size).fill(block)` followed by `activeCells.forEach(idx =>
    grid[idx] = target)`, visiting the cells in any order: a cell is a
    target exactly when it is active.
   */
  method BuildGrid(size: nat, activeCells: set<int>) returns (grid: seq<CellKind>)
    requires forall x :: x in activeCells ==> 0 <= x < size
    ensures |grid| == size
    ensures forall i :: 0 <= i < size ==> (grid[i] == Target <==> i in activeCells)
  {
    grid := seq(size, _ => Block);
    var rest := activeCells;
    while rest != {}
      invariant rest <= activeCells && |grid| == size
      invariant forall i :: 0 <= i < size ==> (grid[i] == Target <==> i in activeCells - rest)
      decreases |rest|
    {
      Inhabited(rest);
      var idx :| idx in rest;
      grid := grid[idx := Target];
      rest := rest - {idx};
    }
  }

  /** `a * cols + b` with `a < rows` and `b < cols` is a cell of a `rows` x `cols` grid. */
  lemma CellBelowSize(a: int, b: int, rows: nat, cols: nat)
    requires 0 <= a < rows && 0 <= b < cols
    ensures 0 <= a * cols + b < rows * cols
  {
    assert a * cols <= (rows - 1) * cols by {
      MulMonotone(a, rows - 1, cols);
    }
    assert (rows - 1) * cols == rows * cols - cols;
  }

  lemma MulMonotone(a: int, b: int, c: nat)
    requires 0 <= a <= b
    ensures a * c <= b * c
  {
  }

  /** Every active cell of a well-formed template is a cell of its grid. */
  lemma ActiveCellsInGrid(t: Template)
    requires WellFormed(t)
    ensures forall x :: x in t.activeCells ==> 0 <= x < t.rows * t.cols
  {
    forall x | x in t.activeCells ensures 0 <= x < t.rows * t.cols {
      OccupiedIff(t.numbers, x);
      var j :| 0 <= j < |t.numbers| && x in t.numbers[j].indices;
      var n := t.numbers[j];
      assert RunShape(n, t.rows, t.cols);
      var m :| 0 <= m < |n.indices| && n.indices[m] == x;
      CellBelowSize(RowAt(n.r, m, n.vertical), ColAt(n.c, m, n.vertical), t.rows, t.cols);
    }
  }

  /** The rules map has one entry per number, keyed by its id, whose rule the solution meets. */
  ghost predicate ValidRules(p: Puzzle) {
    && p.rules.Keys == (set i | 0 <= i < |p.numbers| :: p.numbers[i].id)
    && forall i :: 0 <= i < |p.numbers| ==>
      && p.rules[p.numbers[i].id].indices == p.numbers[i].indices
      && ReadsCanonical(p.solution, p.numbers[i], p.rules[p.numbers[i].id].rule)
  }

  /** The solution fills exactly the active cells, all on the grid, with digits. */
  ghost predicate ValidSolution(p: Puzzle) {
    && p.solution.Keys == p.activeCells
    && (forall x :: x in p.solution ==> IsDigit(p.solution[x]))
    && forall x :: x in p.solution ==> 0 <= x < p.rows * p.cols
  }

  /** One clue per number, naming its rule and its length. */
  ghost predicate ValidClues(p: Puzzle)
    requires ValidRules(p)
  {
    && |p.clues| == |p.numbers|
    && forall i :: 0 <= i < |p.numbers| ==>
      p.clues[i] == Clue(p.numbers[i].id, ClueText(p.rules[p.numbers[i].id].rule, |p.numbers[i].indices|))
  }

  /** The grid marks exactly the active cells as targets. */
  ghost predicate ValidGrid(p: Puzzle) {
    && |p.grid| == p.rows * p.cols
    && forall i :: 0 <= i < |p.grid| ==> (p.grid[i] == Target <==> i in p.activeCells)
  }

  /** The inventory is a shuffle of one tile per solved cell, in key order, carrying the cell's digit. */
  ghost predicate ValidInventory(p: Puzzle) {
    var keys := KeysFrom(p.solution.Keys, 0, p.rows * p.cols);
    && multiset(p.inventory) == multiset(Tiles(CellValues(p.solution, keys)))
    && multiset(TileValues(p.inventory)) == multiset(CellValues(p.solution, keys))
  }

  /** What a generated puzzle satisfies. */
  ghost predicate ValidPuzzle(p: Puzzle) {
    && WellFormed(Template(p.rows, p.cols, p.numbers, p.activeCells))
    && ValidRules(p)
    && ValidSolution(p)
    && ValidClues(p)
    && ValidGrid(p)
    && ValidInventory(p)
  }

  /** No two numbers share an id. */
  predicate DistinctIds(ns: seq<NumberDef>) {
    forall i, j :: 0 <= i < j < |ns| ==> ns[i].id != ns[j].id
  }

  /**
    `template.numbers.forEach(n => rules[n.id] = { type, indices })`: one
    entry per id; with distinct ids, each number's entry holds its own rule
    and cells.
   */
  method BuildRules(ns: seq<NumberDef>, rules: seq<Rule>) returns (ruleDefs: map<nat, RuleDef>)
    requires |rules| == |ns|
    ensures ruleDefs.Keys == (set i | 0 <= i < |ns| :: ns[i].id)
    ensures DistinctIds(ns) ==> forall i :: 0 <= i < |ns| ==> ruleDefs[ns[i].id] == RuleDef(rules[i], ns[i].indices)
  {
    ruleDefs := map[];
    for k := 0 to |ns|
      invariant ruleDefs.Keys == (set i | 0 <= i < k :: ns[i].id)
      invariant DistinctIds(ns) ==> forall i :: 0 <= i < k ==> ruleDefs[ns[i].id] == RuleDef(rules[i], ns[i].indices)
    {
      ruleDefs := ruleDefs[ns[k].id := RuleDef(rules[k], ns[k].indices)];
    }
  }

  /** The ids of well-shaped numbers, 1 to n, are distinct. */
  lemma WellShapedIds(ns: seq<NumberDef>, rows: nat, cols: nat)
    requires WellShaped(ns, rows, cols)
    ensures DistinctIds(ns)
  {
  }

  /** `template.numbers.map(n => ({ id, text }))`: one clue per number. */
  function Clues(ns: seq<NumberDef>, rules: seq<Rule>): seq<Clue>
    requires |rules| == |ns|
  {
    seq(|ns|, i requires 0 <= i < |ns| => Clue(ns[i].id, ClueText(rules[i], |ns[i].indices|)))
  }

  /**
    Step 5 of `generatePuzzle`: the inventory, the grid, the clues and the
    rules built from a template's numbers and active cells and a solution.
   */
  method BuildParts(level: int, rows: nat, cols: nat, ns: seq<NumberDef>, activeCells: set<int>,
                    rules: seq<Rule>, solution: map<int, int>, rand: Source, tick0: nat)
    returns (p: Puzzle, tick: nat)
    requires |rules| == |ns|
    requires forall x :: x in activeCells ==> 0 <= x < rows * cols
    ensures tick >= tick0
    ensures p.level == level && p.rows == rows && p.cols == cols && p.numbers == ns
    ensures p.activeCells == activeCells && p.solution == solution
    ensures |p.grid| == rows * cols
    ensures forall i :: 0 <= i < rows * cols ==> (p.grid[i] == Target <==> i in activeCells)
    ensures p.clues == Clues(ns, rules)
    ensures p.rules.Keys == (set i | 0 <= i < |ns| :: ns[i].id)
    ensures DistinctIds(ns) ==> forall i :: 0 <= i < |ns| ==> p.rules[ns[i].id] == RuleDef(rules[i], ns[i].indices)
    ensures multiset(p.inventory) == multiset(Tiles(CellValues(solution, KeysFrom(solution.Keys, 0, rows * cols))))
  {
    var keys := KeysFrom(solution.Keys, 0, rows * cols);
    var tiles := Tiles(CellValues(solution, keys));
    var grid := BuildGrid(rows * cols, activeCells);
    var ruleDefs := BuildRules(ns, rules);
    var inventory := Shuffle(tiles, rand, tick0);
    tick := tick0 + |tiles|;
    p := Puzzle(level, rows, cols, ns, activeCells, grid, inventory, Clues(ns, rules), ruleDefs, solution);
  }

  /** `generatePuzzle`'s output for a solved template is a valid puzzle. */
  method Assemble(level: int, template: Template, rules: seq<Rule>, solution: map<int, int>, rand: Source, tick0: nat)
    returns (p: Puzzle, tick: nat)
    requires WellFormed(template) && Solved(template.numbers, rules, solution)
    ensures tick >= tick0
    ensures ValidPuzzle(p)
    ensures p.level == level && p.rows == template.rows && p.numbers == template.numbers && p.solution == solution
  {
    ActiveCellsInGrid(template);
    p, tick := BuildParts(level, template.rows, template.cols, template.numbers, template.activeCells,
                          rules, solution, rand, tick0);
    WellShapedIds(template.numbers, template.rows, template.cols);
    AssembledValid(p, rules);
  }

  /** The parts `Assemble` builds make a valid puzzle. */
  lemma AssembledValid(p: Puzzle, rules: seq<Rule>)
    requires WellFormed(Template(p.rows, p.cols, p.numbers, p.activeCells))
    requires Solved(p.numbers, rules, p.solution) && DistinctIds(p.numbers)
    requires |p.grid| == p.rows * p.cols
    requires forall i :: 0 <= i < p.rows * p.cols ==> (p.grid[i] == Target <==> i in p.activeCells)
    requires |rules| == |p.numbers| && p.clues == Clues(p.numbers, rules)
    requires p.rules.Keys == (set i | 0 <= i < |p.numbers| :: p.numbers[i].id)
    requires forall i :: 0 <= i < |p.numbers| ==> p.rules[p.numbers[i].id] == RuleDef(rules[i], p.numbers[i].indices)
    requires forall x :: x in p.activeCells ==> 0 <= x < p.rows * p.cols
    requires multiset(p.inventory) == multiset(Tiles(CellValues(p.solution, KeysFrom(p.solution.Keys, 0, p.rows * p.cols))))
    ensures ValidPuzzle(p)
  {
    assert ValidRules(p);
    assert ValidClues(p);
    AssembledInventory(p, Tiles(CellValues(p.solution, KeysFrom(p.solution.Keys, 0, p.rows * p.cols))));
  }

  /**
    One pass of `generatePuzzle` replayed: the template search from `tick0`,
    one coin per number for its rule, then the solving loop; the solution it
    reaches (`None` when some number cannot be solved) and where it leaves
    the source.
   */
  ghost function PassSolve(level: int, rand: Source, tick0: nat): (Option<map<int, int>>, nat) {
    var made := Retry(Attempt(NumCount(level), rand), tick0, MaxAttempts);
    SolveTemplate(made.0.numbers, rand, made.1)
  }

  /** The rule coins for the numbers `ns` drawn from `tick`, then the solving loop replayed after them. */
  ghost function SolveTemplate(ns: seq<NumberDef>, rand: Source, tick: nat): (Option<map<int, int>>, nat) {
    assert ns[..0] == [];
    SolveFrom(ns, ChooseRules(|ns|, rand, tick), rand, 0, map[], tick + |ns|)
  }

  /** The solving replay of a template, after its rule coins. */
  lemma SolveTemplateParts(ns: seq<NumberDef>, rand: Source, tick: nat, rules: seq<Rule>, start: nat,
                           solved: Option<map<int, int>>, next: nat)
    requires rules == ChooseRules(|ns|, rand, tick) && start == tick + |ns|
    requires SolveFrom(ns, rules, rand, 0, map[], start).0 == solved
    requires SolveFrom(ns, rules, rand, 0, map[], start).1 == next
    ensures SolveTemplate(ns, rand, tick).0 == solved
    ensures SolveTemplate(ns, rand, tick).1 == next
  {
  }

  /** The pass replay is made of the template search, the rule coins and the solving replay, in that order. */
  lemma PassSolveParts(level: int, rand: Source, tick0: nat, template: Template, tick1: nat,
                       solved: Option<map<int, int>>, tick2: nat)
    requires Retry(Attempt(NumCount(level), rand), tick0, MaxAttempts).0 == template
    requires Retry(Attempt(NumCount(level), rand), tick0, MaxAttempts).1 == tick1
    requires SolveTemplate(template.numbers, rand, tick1).0 == solved
    requires SolveTemplate(template.numbers, rand, tick1).1 == tick2
    ensures PassSolve(level, rand, tick0).0 == solved
    ensures PassSolve(level, rand, tick0).1 == tick2
  {
  }

  /**
    One pass of `generatePuzzle`: `None` exactly when the replayed solving
    loop fails, where the source calls itself again; otherwise a valid
    puzzle whose solution is the one the replay reaches.
   */
  method GeneratePuzzleAttempt(level: int, rand: Source, tick0: nat) returns (puzzle: Option<Puzzle>, tick: nat)
    ensures puzzle.None? <==> PassSolve(level, rand, tick0).0.None?
    ensures puzzle.Some? ==> puzzle.value.solution == PassSolve(level, rand, tick0).0.value
    ensures puzzle.None? ==> tick == PassSolve(level, rand, tick0).1
    ensures tick >= tick0
    ensures puzzle.Some? ==> ValidPuzzle(puzzle.value) && puzzle.value.level == level
    ensures puzzle.Some? && puzzle.value.rows == GridSize ==> |puzzle.value.numbers| == NumCount(level)
  {
    var numCount := NumCount(level);
    var template;
    template, tick := CreateTemplate(numCount, rand, tick0);
    ghost var tick1 := tick;
    var ns := template.numbers;
    var rules := ChooseRules(|ns|, rand, tick);
    tick := tick + |ns|;
    ghost var start := tick;

    var solved;
    solved, tick := SolveNumbers(ns, template.rows, template.cols, rules, rand, tick);
    SolveTemplateParts(ns, rand, tick1, rules, start, solved, tick);
    PassSolveParts(level, rand, tick0, template, tick1, solved, tick);
    if solved.None? {
      return None, tick;
    }
    var p;
    p, tick := Assemble(level, template, rules, solved.value, rand, tick);
    return Some(p), tick;
  }

  /** The shuffled tiles of the solution's cells form a valid inventory. */
  lemma AssembledInventory(p: Puzzle, tiles: seq<Tile>)
    requires forall x :: x in p.solution ==> 0 <= x < p.rows * p.cols
    requires tiles == Tiles(CellValues(p.solution, KeysFrom(p.solution.Keys, 0, p.rows * p.cols)))
    requires multiset(p.inventory) == multiset(tiles)
    ensures ValidInventory(p)
  {
    TileValuesPermutation(p.inventory, tiles);
    assert TileValues(tiles) == CellValues(p.solution, KeysFrom(p.solution.Keys, 0, p.rows * p.cols));
  }

  /** A pass started at a tick: the solution it reaches and where it leaves the source. */
  type PassFrom = nat -> (Option<map<int, int>>, nat)

  /** The replayed passes of `generatePuzzle` at `level`. */
  ghost function Pass(level: int, rand: Source): PassFrom {
    t => PassSolve(level, rand, t)
  }

  /** Applying `Pass` is replaying one pass. */
  lemma PassApply(level: int, rand: Source, tick: nat)
    ensures Pass(level, rand)(tick).0 == PassSolve(level, rand, tick).0
    ensures Pass(level, rand)(tick).1 == PassSolve(level, rand, tick).1
  {
  }

  /** Every one of `passes` passes from `tick` on fails to solve its template. */
  ghost predicate AllPassesFail(pass: PassFrom, tick: nat, passes: nat)
    decreases passes
  {
    passes == 0 || (pass(tick).0.None? && AllPassesFail(pass, pass(tick).1, passes - 1))
  }

  /** A failed pass leaves the remaining passes to decide; a successful one settles it. */
  lemma PassStep(pass: PassFrom, tick: nat, passes: nat, found: Option<map<int, int>>, next: nat, rest: nat)
    requires passes == rest + 1 && pass(tick).0 == found && pass(tick).1 == next
    ensures AllPassesFail(pass, tick, passes) == (found.None? && AllPassesFail(pass, next, rest))
  {
  }

  /**
    `generatePuzzle(level, questionIndex)`: passes are repeated until one
    solves every number. The source recurses without bound (with
    `questionIndex + 1`, which nothing reads); here at most `fuel` passes
    are made, and `None` comes exactly when all of them fail.
   */
  method GeneratePuzzle(level: int, questionIndex: int, rand: Source, tick0: nat, fuel: nat)
    returns (puzzle: Option<Puzzle>, tick: nat)
    ensures puzzle.None? <==> AllPassesFail(Pass(level, rand), tick0, fuel)
    ensures tick >= tick0
    ensures puzzle.Some? ==> ValidPuzzle(puzzle.value) && puzzle.value.level == level
    ensures puzzle.Some? && puzzle.value.rows == GridSize ==> |puzzle.value.numbers| == NumCount(level)
  {
    tick := tick0;
    var question := questionIndex;
    ghost var goal := AllPassesFail(Pass(level, rand), tick0, fuel);
    ghost var left := fuel;
    for pass := 0 to fuel
      invariant tick >= tick0
      invariant left == fuel - pass
      invariant goal == AllPassesFail(Pass(level, rand), tick, left)
    {
      ghost var start, remaining := tick, left;
      left := left - 1;
      var attempt;
      attempt, tick := GeneratePuzzleAttempt(level, rand, tick);
      PassApply(level, rand, start);
      ghost var found := PassSolve(level, rand, start).0;
      PassStep(Pass(level, rand), start, remaining, found, PassSolve(level, rand, start).1, left);
      if attempt.Some? {
        return attempt, tick;
      }
      question := question + 1;
    }
    return None, tick;
  }
}
