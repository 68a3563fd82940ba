/**
  The play state of src/components/Game.jsx: which tile sits in which cell,
  the feedback and message shown, and whether the answer was revealed or
  the timer runs. Dragging a tile onto a cell, clicking a cell to clear it,
  revealing the answer and checking the answers change it.
 */
module Play {
  import opened Wrappers
  import opened Digits
  import opened Topology
  import opened Solver
  import opened Solving
  import opened Puzzles
  import opened Validator

  /** No tile sits in two cells. */
  predicate UniqueTiles(placed: map<int, Tile>) {
    forall a, b :: a in placed && b in placed && a != b ==> placed[a].id != placed[b].id
  }

  /** No two tiles of a sequence share an id. */
  predicate UniqueIds(tiles: seq<Tile>) {
    forall i, j :: 0 <= i < j < |tiles| ==> tiles[i].id != tiles[j].id
  }

  /** The cells holding the tile `id`. */
  function Holding(placed: map<int, Tile>, id: nat): set<int> {
    set k | k in placed && placed[k].id == id
  }

  /**
    The update of `handleDrop`: the cell that held the dragged tile is
    cleared and the tile goes to the target, replacing whatever was there;
    every other cell keeps its tile, and no tile ends up in two cells.
   */
  function DropTile(placed: map<int, Tile>, target: int, tile: Tile): (r: map<int, Tile>)
    ensures target in r && r[target] == tile
    ensures forall k :: k != target ==> (k in r <==> k in placed && placed[k].id != tile.id)
    ensures forall k :: k in r && k != target ==> r[k] == placed[k]
    ensures UniqueTiles(placed) ==> UniqueTiles(r)
  {
    (placed - Holding(placed, tile.id))[target := tile]
  }

  /** `findIndex(t => t.value === v)`: the first tile carrying `v`. */
  function FindValue(tiles: seq<Tile>, v: int): (i: Option<nat>)
    ensures i.Some? ==>
      && i.value < |tiles| && tiles[i.value].value == v
      && forall j :: 0 <= j < i.value ==> tiles[j].value != v
    ensures i.None? ==> forall j :: 0 <= j < |tiles| ==> tiles[j].value != v
  {
    if tiles == [] then None
    else if tiles[0].value == v then Some(0)
    else
      match FindValue(tiles[1..], v)
      case Some(i) => Some(i + 1)
      case None => None
  }

  /** `splice(i, 1)`: the tiles without the one at `i`. */
  function Without(tiles: seq<Tile>, i: nat): (r: seq<Tile>)
    requires i < |tiles|
    ensures |r| == |tiles| - 1
    ensures multiset(r) == multiset(tiles) - multiset{tiles[i]}
  {
    assert tiles == tiles[..i] + [tiles[i]] + tiles[i + 1..];
    tiles[..i] + tiles[i + 1..]
  }

  /**
    The `forEach` of `handleReveal` from the cell `keys[0]` on: each cell
    takes the first remaining tile that carries its digit, which leaves
    the remaining tiles; a cell for which none remains stays empty.
   */
  function Match(keys: seq<int>, solution: map<int, int>, avail: seq<Tile>, acc: map<int, Tile>): map<int, Tile>
    requires forall i :: 0 <= i < |keys| ==> keys[i] in solution
    decreases |keys|
  {
    if keys == [] then acc
    else
      match FindValue(avail, solution[keys[0]])
      case Some(i) => Match(keys[1..], solution, Without(avail, i), acc[keys[0] := avail[i]])
      case None => Match(keys[1..], solution, avail, acc)
  }

  /** Matching never clears a cell and only fills the listed ones. */
  lemma {:induction false} MatchKeeps(keys: seq<int>, solution: map<int, int>, avail: seq<Tile>, acc: map<int, Tile>)
    requires forall i :: 0 <= i < |keys| ==> keys[i] in solution
    ensures var r := Match(keys, solution, avail, acc);
      && (forall k :: k in r ==> k in acc || k in keys)
      && (forall k :: k in acc && k !in keys ==> k in r && r[k] == acc[k])
      && (forall k :: k in r ==> (k in acc && r[k] == acc[k]) || r[k] in avail)
    decreases |keys|
  {
    if keys != [] {
      var k0 := keys[0];
      assert forall k :: k in keys[1..] ==> k in keys;
      match FindValue(avail, solution[k0])
      case Some(i) =>
        var avail' := Without(avail, i);
        MatchKeeps(keys[1..], solution, avail', acc[k0 := avail[i]]);
        WithoutSubset(avail, i);
      case None =>
        MatchKeeps(keys[1..], solution, avail, acc);
    }
  }

  /** Removing a tile leaves only tiles that were there. */
  lemma WithoutSubset(tiles: seq<Tile>, i: nat)
    requires i < |tiles|
    ensures forall t :: t in Without(tiles, i) ==> t in tiles
  {
    forall t | t in Without(tiles, i) ensures t in tiles {
      assert t in multiset(Without(tiles, i));
    }
  }

  /** A digit of the cells still to fill is carried by a remaining tile. */
  lemma FindListed(keys: seq<int>, solution: map<int, int>, avail: seq<Tile>)
    requires keys != [] && forall i :: 0 <= i < |keys| ==> keys[i] in solution
    requires multiset(TileValues(avail)) == multiset(CellValues(solution, keys))
    ensures FindValue(avail, solution[keys[0]]).Some?
  {
    var v := solution[keys[0]];
    assert CellValues(solution, keys)[0] == v;
    assert v in multiset(TileValues(avail));
    var j :| 0 <= j < |avail| && TileValues(avail)[j] == v;
    assert avail[j].value == v;
  }

  /** Taking a tile carrying the first cell's digit keeps tiles and cells in step. */
  lemma TakeListed(keys: seq<int>, solution: map<int, int>, avail: seq<Tile>, i: nat)
    requires keys != [] && forall i :: 0 <= i < |keys| ==> keys[i] in solution
    requires multiset(TileValues(avail)) == multiset(CellValues(solution, keys))
    requires i < |avail| && avail[i].value == solution[keys[0]]
    ensures multiset(TileValues(Without(avail, i))) == multiset(CellValues(solution, keys[1..]))
  {
    TileValuesWithout(avail, i);
    CellValuesTail(solution, keys);
  }

  /** Removing a tile removes one copy of its value. */
  lemma TileValuesWithout(avail: seq<Tile>, i: nat)
    requires i < |avail|
    ensures multiset(TileValues(Without(avail, i))) == multiset(TileValues(avail)) - multiset{avail[i].value}
  {
    var pre, post := TileValues(avail[..i]), TileValues(avail[i + 1..]);
    assert avail == avail[..i] + [avail[i]] + avail[i + 1..];
    TileValuesAppend(avail[..i] + [avail[i]], avail[i + 1..]);
    TileValuesAppend(avail[..i], [avail[i]]);
    TileValuesAppend(avail[..i], avail[i + 1..]);
    assert TileValues(Without(avail, i)) == pre + post;
    assert TileValues(avail) == pre + [avail[i].value] + post;
  }

  /** The digits of the cells are the first cell's digit and those of the rest. */
  lemma CellValuesTail(solution: map<int, int>, keys: seq<int>)
    requires keys != [] && forall i :: 0 <= i < |keys| ==> keys[i] in solution
    ensures multiset(CellValues(solution, keys)) == multiset(CellValues(solution, keys[1..])) + multiset{solution[keys[0]]}
  {
    assert CellValues(solution, keys) == [solution[keys[0]]] + CellValues(solution, keys[1..]);
  }

  /**
    When the tiles carry exactly the digits of the cells, each cell, listed
    once, gets a tile carrying its own digit.
   */
  lemma {:induction false} MatchComplete(keys: seq<int>, solution: map<int, int>, avail: seq<Tile>, acc: map<int, Tile>)
    requires forall i :: 0 <= i < |keys| ==> keys[i] in solution
    requires Distinct(keys)
    requires multiset(TileValues(avail)) == multiset(CellValues(solution, keys))
    ensures var r := Match(keys, solution, avail, acc);
      forall i :: 0 <= i < |keys| ==> keys[i] in r && r[keys[i]].value == solution[keys[i]]
    decreases |keys|
  {
    if keys != [] {
      var k0 := keys[0];
      FindListed(keys, solution, avail);
      var i := FindValue(avail, solution[k0]).value;
      TakeListed(keys, solution, avail, i);
      var acc' := acc[k0 := avail[i]];
      MatchComplete(keys[1..], solution, Without(avail, i), acc');
      MatchKeeps(keys[1..], solution, Without(avail, i), acc');
      assert k0 !in keys[1..] by {
        forall m | 0 <= m < |keys[1..]| ensures keys[1..][m] != k0 {
          assert keys[1..][m] == keys[m + 1];
        }
      }
      forall m | 0 <= m < |keys| ensures keys[m] in Match(keys, solution, avail, acc)
        && Match(keys, solution, avail, acc)[keys[m]].value == solution[keys[m]]
      {
        if m > 0 {
          assert keys[m] == keys[1..][m - 1];
        }
      }
    }
  }

  /** Tiles with distinct ids, taken once each, end up in distinct cells. */
  lemma {:induction false} MatchUnique(keys: seq<int>, solution: map<int, int>, avail: seq<Tile>, acc: map<int, Tile>)
    requires forall i :: 0 <= i < |keys| ==> keys[i] in solution
    requires UniqueIds(avail) && UniqueTiles(acc)
    requires forall k, j :: k in acc && 0 <= j < |avail| ==> acc[k].id != avail[j].id
    ensures UniqueTiles(Match(keys, solution, avail, acc))
    decreases |keys|
  {
    if keys != [] {
      var k0 := keys[0];
      match FindValue(avail, solution[k0])
      case Some(i) =>
        var avail' := Without(avail, i);
        var acc' := acc[k0 := avail[i]];
        assert avail' == avail[..i] + avail[i + 1..];
        forall a, b | 0 <= a < b < |avail'| ensures avail'[a].id != avail'[b].id {
          var a0 := if a < i then a else a + 1;
          var b0 := if b < i then b else b + 1;
          assert avail'[a] == avail[a0] && avail'[b] == avail[b0];
        }
        forall k, j | k in acc' && 0 <= j < |avail'| ensures acc'[k].id != avail'[j].id {
          var j0 := if j < i then j else j + 1;
          assert avail'[j] == avail[j0];
        }
        MatchUnique(keys[1..], solution, avail', acc');
      case None =>
        MatchUnique(keys[1..], solution, avail, acc);
    }
  }

  /** `Object.keys(puzzle.solution)`: the solved cells in ascending order. */
  function SolutionKeys(p: Puzzle): seq<int> {
    KeysFrom(p.solution.Keys, 0, p.rows * p.cols)
  }

  /** `Object.keys(puzzle.rules)`: the number ids in ascending order. */
  function RuleKeys(p: Puzzle): (keys: seq<nat>)
    ensures forall i :: 0 <= i < |keys| ==> keys[i] in p.rules
  {
    var r := KeysFrom(p.rules.Keys, 0, |p.numbers| + 1);
    assert forall i :: 0 <= i < |r| ==> r[i] in r;
    r
  }

  /**
    What play needs of a puzzle: the solution lies on the grid, the
    inventory carries its digits, and every rule key is at most the number
    of numbers, so that the rule keys list every rule.
   */
  ghost predicate Playable(p: Puzzle) {
    && ValidSolution(p)
    && ValidInventory(p)
    && forall key :: key in p.rules ==> key <= |p.numbers|
  }

  /** A generated puzzle is playable, and its rule keys list every rule. */
  lemma GeneratedPlayable(p: Puzzle)
    requires ValidPuzzle(p)
    ensures Playable(p)
    ensures forall key :: key in p.rules ==> key in RuleKeys(p)
  {
    forall key | key in p.rules ensures key <= |p.numbers| {
      var i :| 0 <= i < |p.numbers| && p.numbers[i].id == key;
    }
  }

  /**
    Over the rule keys of a playable puzzle, all rules are valid exactly
    when every rule of the puzzle passes, and the message is empty exactly then.
   */
  lemma EveryRulePasses(p: Puzzle, placed: map<int, Tile>)
    requires forall key :: key in p.rules ==> key <= |p.numbers|
    ensures var o := Tally(RuleVerdicts(p.rules, RuleKeys(p), placed));
      && (o.allValid <==> forall key :: key in p.rules ==> CheckRule(key, p.rules[key], placed) == Pass)
      && (o.errorMsg == NoMessage <==> o.allValid)
  {
    var keys := RuleKeys(p);
    RulesOutcome(p.rules, keys, placed);
    forall key | key in p.rules ensures key in keys {
    }
  }

  /** The tiles of a generated puzzle have distinct ids. */
  lemma InventoryIdsUnique(p: Puzzle)
    requires ValidSolution(p) && ValidInventory(p)
    ensures UniqueIds(p.inventory)
  {
    var tiles := Tiles(CellValues(p.solution, SolutionKeys(p)));
    DistinctCounts(tiles);
    forall i, j | 0 <= i < j < |p.inventory| ensures p.inventory[i].id != p.inventory[j].id {
      if p.inventory[i].id == p.inventory[j].id {
        var a, b := p.inventory[i], p.inventory[j];
        assert a in multiset(tiles) && b in multiset(tiles);
        var m :| 0 <= m < |tiles| && tiles[m] == a;
        var n :| 0 <= n < |tiles| && tiles[n] == b;
        assert m == a.id == b.id == n;
        TwiceCounted(p.inventory, i, j);
        assert false;
      }
    }
  }

  /** The placement `handleReveal` computes for a puzzle. */
  function Revealed(p: Puzzle): map<int, Tile>
    requires ValidSolution(p)
  {
    Match(SolutionKeys(p), p.solution, p.inventory, map[])
  }

  /** The revealed placement puts no tile in two cells. */
  lemma RevealedUnique(p: Puzzle)
    requires Playable(p)
    ensures UniqueTiles(Revealed(p))
  {
    RevealFills(p);
  }

  /**
    The loop of `handleReveal`: the cells in the order given, each taking
    the first remaining tile that carries its digit.
   */
  method MatchAll(keys: seq<int>, solution: map<int, int>, inventory: seq<Tile>) returns (items: map<int, Tile>)
    requires forall i :: 0 <= i < |keys| ==> keys[i] in solution
    ensures items == Match(keys, solution, inventory, map[])
  {
    items := map[];
    var avail := inventory;
    for n := 0 to |keys|
      invariant Match(keys, solution, inventory, map[]) == Match(keys[n..], solution, avail, items)
    {
      assert keys[n..][1..] == keys[n + 1..];
      var gridIndex := keys[n];
      var tileIndex := FindValue(avail, solution[gridIndex]);
      if tileIndex.Some? {
        var i := tileIndex.value;
        items := items[gridIndex := avail[i]];
        avail := Without(avail, i);
      }
    }
    assert keys[|keys|..] == [];
  }

  /**
    Revealing a generated puzzle fills exactly the solved cells, each with
    an inventory tile carrying its digit, no tile twice.
   */
  lemma RevealFills(p: Puzzle)
    requires ValidSolution(p) && ValidInventory(p)
    ensures var r := Revealed(p);
      && r.Keys == p.solution.Keys
      && (forall x :: x in r ==> r[x].value == p.solution[x] && r[x] in p.inventory)
      && UniqueTiles(r)
  {
    var keys := SolutionKeys(p);
    KeysAscending(p.solution.Keys, 0, p.rows * p.cols);
    MatchKeeps(keys, p.solution, p.inventory, map[]);
    MatchComplete(keys, p.solution, p.inventory, map[]);
    InventoryIdsUnique(p);
    MatchUnique(keys, p.solution, p.inventory, map[]);
    var r := Revealed(p);
    forall x | x in p.solution ensures x in r && r[x].value == p.solution[x] {
      var m :| 0 <= m < |keys| && keys[m] == x;
    }
    forall x | x in r ensures x in p.solution {
      assert x in keys;
    }
  }

  /** The revealed placement passes the rule check of every number of a generated puzzle. */
  lemma RevealPasses(p: Puzzle)
    requires ValidPuzzle(p)
    ensures forall key :: key in p.rules ==> CheckRule(key, p.rules[key], Revealed(p)) == Pass
  {
    var r := Revealed(p);
    RevealFills(p);
    NonemptyRuns(Template(p.rows, p.cols, p.numbers, p.activeCells));
    forall key | key in p.rules ensures CheckRule(key, p.rules[key], r) == Pass {
      SolvedRule(p, key);
      SolvedRulePasses(key, p.rules[key], r, p.solution);
    }
  }

  /** Every number of a well-formed template covers at least one cell. */
  lemma NonemptyRuns(t: Template)
    requires WellFormed(t)
    ensures forall i :: 0 <= i < |t.numbers| ==> |t.numbers[i].indices| > 0
  {
    forall i | 0 <= i < |t.numbers| ensures |t.numbers[i].indices| > 0 {
      assert RunShape(t.numbers[i], t.rows, t.cols);
    }
  }

  /** A rule of a solved puzzle covers at least one solved cell, and the solution reads canonically there. */
  lemma SolvedRule(p: Puzzle, key: nat)
    requires ValidRules(p) && ValidSolution(p) && key in p.rules
    requires forall i :: 0 <= i < |p.numbers| ==> |p.numbers[i].indices| > 0
    ensures var cells := p.rules[key].indices;
      && |cells| > 0
      && (forall m :: 0 <= m < |cells| ==> cells[m] in p.solution && IsDigit(p.solution[cells[m]]))
      && Reads(p.solution, cells) == FormatDigits(Reads(p.solution, cells), p.rules[key].rule)
  {
    var i :| 0 <= i < |p.numbers| && p.numbers[i].id == key;
    var n, rd := p.numbers[i], p.rules[key];
    assert rd.indices == n.indices && ReadsCanonical(p.solution, n, rd.rule);
    forall m | 0 <= m < |n.indices| ensures n.indices[m] in p.solution && IsDigit(p.solution[n.indices[m]]) {
      var x := n.indices[m];
      assert x in p.solution;
    }
  }

  /** A rule whose cells hold tiles carrying the solution's canonical digits passes. */
  lemma SolvedRulePasses(key: nat, rule: RuleDef, placed: map<int, Tile>, solution: map<int, int>)
    requires |rule.indices| > 0
    requires forall m :: 0 <= m < |rule.indices| ==> rule.indices[m] in solution && IsDigit(solution[rule.indices[m]])
    requires forall x :: x in solution ==> x in placed && placed[x].value == solution[x]
    requires Reads(solution, rule.indices) == FormatDigits(Reads(solution, rule.indices), rule.rule)
    ensures CheckRule(key, rule, placed) == Pass
  {
    var digits := Reads(solution, rule.indices);
    PlacedReads(placed, solution, rule.indices);
    ArrangementPasses(key, rule, placed, digits);
  }

  /** Cells holding tiles that carry the solution's digits read as the solution. */
  lemma PlacedReads(placed: map<int, Tile>, solution: map<int, int>, cells: seq<int>)
    requires forall m :: 0 <= m < |cells| ==> cells[m] in solution && IsDigit(solution[cells[m]])
    requires forall x :: x in solution ==> x in placed && placed[x].value == solution[x]
    ensures Filled(placed, cells) && PlacedValues(placed, cells) == Reads(solution, cells)
    ensures AllDigits(Reads(solution, cells))
  {
    forall m | 0 <= m < |cells| ensures cells[m] in placed && placed[cells[m]].value == solution[cells[m]] {
      var x := cells[m];
      assert x in solution;
    }
  }

  /** The play state of one puzzle. */
  class Board {
    const puzzle: Puzzle
    var placed: map<int, Tile>
    var feedback: Feedback
    var message: Message
    var revealed: bool
    var started: bool
    var timerActive: bool

    /** A playable puzzle, and no tile in two cells. */
    ghost predicate Valid()
      reads this
    {
      Playable(puzzle) && UniqueTiles(placed)
    }

    /** The reset when a new puzzle arrives: nothing placed, no feedback, timer stopped. */
    constructor (p: Puzzle)
      requires Playable(p)
      ensures Valid() && puzzle == p
      ensures placed == map[] && feedback == NoFeedback && message == NoMessage
      ensures !revealed && !started && !timerActive
    {
      puzzle := p;
      placed := map[];
      feedback := NoFeedback;
      message := NoMessage;
      revealed := false;
      started := false;
      timerActive := false;
    }

    /** `handleStartGame`: the game starts and the timer runs. */
    method Start()
      requires Valid()
      modifies this
      ensures Valid() && started && timerActive
      ensures placed == old(placed) && feedback == old(feedback) && message == old(message) && revealed == old(revealed)
    {
      started := true;
      timerActive := true;
    }

    /**
      `handleDrop`: after a reveal, or without a dragged value and id,
      nothing changes; otherwise the tile moves to the target cell.
     */
    method Drop(target: int, value: Option<int>, id: Option<nat>)
      requires Valid()
      modifies this
      ensures Valid()
      ensures old(revealed) || value.None? || id.None? ==> placed == old(placed)
      ensures !old(revealed) && value.Some? && id.Some? ==>
        placed == DropTile(old(placed), target, Tile(id.value, value.value))
      ensures feedback == old(feedback) && message == old(message)
      ensures revealed == old(revealed) && started == old(started) && timerActive == old(timerActive)
    {
      if revealed {
        return;
      }
      if value.None? || id.None? {
        return;
      }
      placed := DropTile(placed, target, Tile(id.value, value.value));
    }

    /** `handleRemove`: unless revealed, the cell is cleared. */
    method Remove(index: int)
      requires Valid()
      modifies this
      ensures Valid()
      ensures placed == if old(revealed) then old(placed) else old(placed) - {index}
      ensures feedback == old(feedback) && message == old(message)
      ensures revealed == old(revealed) && started == old(started) && timerActive == old(timerActive)
    {
      if revealed {
        return;
      }
      placed := placed - {index};
    }

    /**
      `handleReveal`: the timer stops, the feedback clears and each solved
      cell, in key order, takes the first remaining inventory tile carrying
      its digit; the message announces the reveal unless time ran out.
     */
    method Reveal(isTimeUp: bool)
      requires Valid()
      modifies this
      ensures Valid()
      ensures placed == Revealed(puzzle)
      ensures revealed && !timerActive && feedback == NoFeedback
      ensures message == if isTimeUp then old(message) else AnswerRevealed
      ensures started == old(started)
    {
      revealed := true;
      timerActive := false;
      var items := MatchAll(SolutionKeys(puzzle), puzzle.solution, puzzle.inventory);
      RevealedUnique(puzzle);
      placed := items;
      feedback := NoFeedback;
      if !isTimeUp {
        message := AnswerRevealed;
      }
    }

    /** `handleTimeUp`: the timer stops, the answer is revealed and the message says time ran out. */
    method TimeUp()
      requires Valid()
      modifies this
      ensures Valid()
      ensures placed == Revealed(puzzle)
      ensures revealed && !timerActive && feedback == NoFeedback && message == TimesUp
      ensures started == old(started)
    {
      timerActive := false;
      Reveal(true);
      message := TimesUp;
    }

    /**
      `checkAnswers`: after a reveal nothing changes; otherwise a failing
      rule shows `'wrong'` with the message of the last failing rule, and
      when every rule passes the feedback is `'correct'` and the timer stops.
     */
    method CheckAnswers()
      requires Valid()
      modifies this
      ensures Valid()
      ensures placed == old(placed) && revealed == old(revealed) && started == old(started)
      ensures old(revealed) ==> feedback == old(feedback) && message == old(message) && timerActive == old(timerActive)
      ensures !old(revealed) ==>
        var o := Tally(RuleVerdicts(puzzle.rules, RuleKeys(puzzle), placed));
        && (feedback == Correct <==> forall key :: key in puzzle.rules ==> CheckRule(key, puzzle.rules[key], placed) == Pass)
        && feedback != NoFeedback
        && (feedback == Wrong ==> message == o.errorMsg && timerActive == old(timerActive))
        && (feedback == Correct ==> message == Perfect && !timerActive)
    {
      if revealed {
        return;
      }
      var o := Validate(puzzle.rules, RuleKeys(puzzle), placed);
      EveryRulePasses(puzzle, placed);
      if o.errorMsg != NoMessage {
        feedback := Wrong;
        message := o.errorMsg;
      } else if o.allValid {
        feedback := Correct;
        message := Perfect;
        timerActive := false;
      }
    }
  }
}
