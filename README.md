# Cross-number puzzle game: a verified model

This project models the core of a browser number-placement puzzle, in
which the player drags digit tiles into the cells of a small crossword of
"numbers". Each number is a straight run of 3 to 5 cells. Its clue asks
for either the greatest or the smallest number its digits can form, and
the smallest may not start with 0. The model covers three parts:

- **The puzzle engine** (`src/utils/generator.js`):
  - the procedural crossword architect (`getIndices`, `createProceduralTemplate`);
  - the canonical digit arrangement (`formatDigits`);
  - the per-number digit search (`generateSingleNumber`);
  - puzzle assembly (`generatePuzzle`): number count per level, constraint collection, solution commit, inventory, grid, clues and rules.
- **The play state** (`src/components/Game.jsx`):
  - the answer check (`checkAnswers`);
  - the placement map updated by `handleDrop` and `handleRemove`;
  - the greedy tile matching of `handleReveal`;
  - the `viewLayout` bounding box.
- **The level progression** (`src/App.jsx`): a state machine over level, question, streak, the level-up dialog and the completion screen, plus the time-limit table.

Modules, one per file:

| file | module | models |
|---|---|---|
| `wrappers.dfy` | `Wrappers` | `Option`, for `null`/`undefined`/`-1` results |
| `choice.dfy` | `Choice` | `Math.random`, injected as a draw source (`Source = nat -> nat`) read at a running tick; `getRandomInt`; `shuffle` as a source-driven permutation |
| `digits.dfy` | `Digits` | `formatDigits` and what characterises its result |
| `topology.dfy` | `Topology` | `getIndices`, the collision check and `createProceduralTemplate` with its template invariants |
| `solver.dfy` | `Solver` | `generateSingleNumber` |
| `solving.dfy` | `Solving` | the solving loop of `generatePuzzle`: constraint collection and solution commit |
| `puzzles.dfy` | `Puzzles` | the level-to-count mapping, puzzle assembly and `generatePuzzle` |
| `validator.dfy` | `Validator` | the rule checks and the message logic of `checkAnswers` |
| `board.dfy` | `Play` | the `Board` class: placement, reveal and answer-check handlers of `Game` |
| `layout.dfy` | `Layout` | `viewLayout` |
| `progress.dfy` | `Progress` | `getTimeLimit` and the `Session` class for the `App` state |

The main results:

- **Canonical arrangement.** `FormatDigits` is a permutation. For `max` it is sorted in descending order. For `min` it is the smallest arrangement that does not lead with 0. It depends only on the multiset of its input and is idempotent. A sequence is its own arrangement exactly when it has the characterised shape.
- **Templates.** `CreateTemplate` always returns a well-formed template:
  - ids run 1..n;
  - every number is a 3-5 cell run on the grid;
  - every later number crosses an earlier one, perpendicular to it, at exactly one already-occupied cell;
  - the active cells are the union of the runs.
- **Solving.** Any cell lies on at most 3 earlier numbers (`Topology.CrossingOwners`). Hence a number never gets more constraints than digits. All its constraints fix its one crossing cell to the digit already there. So committing a number never changes a solved cell, and every number of a generated puzzle reads as the canonical arrangement of its own digits (`Solving.SolveNumbers`, `Puzzles.GeneratePuzzleAttempt`).
- **Failure paths.** Each loop that draws from the source is proved equal to a replay of it on the same draws. So `GenerateSingleNumber` returns `null` exactly when all 1000 tries fail, and it does so without drawing when the pool is too small. The first number's search always succeeds (`Solving.FirstNumberFound`). A pass of `generatePuzzle` fails exactly when some number's search fails, and the retry gives `None` exactly when every pass fails.
- **Answer check.** A filled rule passes exactly when the placed digits are their own canonical arrangement. The revealed answer of any generated puzzle passes every rule (`Play.RevealPasses`). This ties the generator to the checker.
- **Play state.** Dropping, clearing and revealing keep every tile in at most one cell. On a generated puzzle, the reveal fills every solved cell with an inventory tile carrying its digit.
- **Progression.** When every handler acts on the current state, level and question stay in 1..5 from the start. The level-up dialog appears only after question 5 of levels 1-4, and the game completes only after question 5 of level 5. The delayed completion callback of a solved puzzle can act on a stale state and break this (see "## Findings").

## Model

| member | source | states |
|---|---|---|
| Choice.Between | src/utils/generator.js:3 | `getRandomInt(min, max)` yields a value in `[min, max]` |
| Choice.BetweenCovers | src/utils/generator.js:3 | every value of `[min, max]` is drawn by some source, so the model leaves no choice out |
| Choice.Below | src/utils/generator.js:64-68 | `Math.floor(Math.random() * n)` is an index below `n` |
| Choice.Shuffle | src/utils/generator.js:4 | `shuffle` returns a permutation: same length, same multiset |
| Digits.Insert | src/utils/generator.js:145-147 | inserting into a sorted sequence keeps it sorted and adds exactly the element |
| Digits.Sort | src/utils/generator.js:145-147 | the numeric comparator sorts yield a sorted permutation of the input |
| Digits.SortedUnique | src/utils/generator.js:145-147 | two sorted sequences with the same multiset are equal, so the sort is determined by the multiset |
| Digits.FirstPositive | src/utils/generator.js:149 | `findIndex(d => d > 0)` finds the first positive element, or none when there is none |
| Digits.MoveToFront | src/utils/generator.js:151-153 | `splice` then `unshift` moves one element to the front and keeps the rest in order |
| Digits.FormatDigits | src/utils/generator.js:142-158 | `formatDigits` returns a permutation of its input (same length and multiset), non-increasing for `max` |
| Digits.ZeroLedMultiset | src/utils/generator.js:148-150 | whether the digits hold a 0, a nonzero digit and more than one digit depends only on their multiset |
| Digits.FormatMinArranged | src/utils/generator.js:146-155 | the `min` result is ascending, or, when there is a 0, a nonzero digit and more than one digit, the least nonzero digit followed by the rest ascending |
| Digits.FormatDigitsArranged | src/utils/generator.js:142-158 | the result of either rule has the arrangement the rule asks for |
| Digits.ArrangedUnique | src/utils/generator.js:142-158 | the arrangement a rule asks for is unique among permutations of the digits, so it is exactly `formatDigits` |
| Digits.FormatDigitsMultisetOnly | src/utils/generator.js:142-158 | permuting the input does not change the output |
| Digits.FormatDigitsIdempotent | src/utils/generator.js:142-158 | `formatDigits(formatDigits(d)) == formatDigits(d)` |
| Digits.FixedPointIffArranged | src/utils/generator.js:142-158 | digits are their own canonical arrangement exactly when they have the rule's shape |
| Digits.MinExample | src/utils/generator.js:146-155 | `{0,4,7}` gives `[4,0,7]` under `min` |
| Digits.MaxExample | src/utils/generator.js:144-145 | `{2,4,6}` gives `[6,4,2]` under `max` |
| Topology.GetIndices | src/utils/generator.js:26-38 | the result is `null` exactly when some cell leaves the 9x9 grid; otherwise it holds the `len` cells from `r*9+c`, 9 apart when vertical and 1 apart otherwise |
| Topology.SpanInjective | src/utils/generator.js:29-38 | the cells of a run on the grid are pairwise distinct |
| Topology.OccupiedIff | src/utils/generator.js:115 | a cell is in `occupied`/`activeCells` exactly when some number covers it |
| Topology.FallbackWellFormed | src/utils/generator.js:132-136 | the fixed 5x5 fallback satisfies the template invariants |
| Topology.BranchingExtend | src/utils/generator.js:62-115 | adding a branch that crosses an earlier number keeps every number branching from an earlier one |
| Topology.BranchAccepted | src/utils/generator.js:64-115 | a new number built as the loop builds it (id `numbers.length+1`, length 3-5, perpendicular to its anchor, on the grid) that passed the collision check keeps the loop invariants (ids 1..n, runs on the grid, each number branching from an earlier one), and it crosses its anchor at its own `intersectAt` cell |
| Topology.RootDraw | src/utils/generator.js:42-45 | the drawn root is number 1, of length 3-5, starting at a row and column in 2..6 |
| Topology.PlaceRoot | src/utils/generator.js:40-58 | the root draw takes four ticks; the root is refused exactly when the drawn run leaves the 9x9 grid; otherwise it is the drawn number, a 3-5 cell run on the grid |
| Topology.BranchDraw | src/utils/generator.js:64-82 | the drawn branch has the next id and length 3-5, runs perpendicular to an earlier number, and passes through the chosen cell of it |
| Topology.TryBranch | src/utils/generator.js:63-115 | one branch attempt takes four ticks; the branch is refused exactly when the drawn run leaves the grid or a cell other than the branching cell is occupied; an accepted branch is the drawn one, keeps the ids 1..n and the runs on the grid, and it runs perpendicular to an earlier number, crossing it at its only cell that was already occupied |
| Topology.Collides | src/utils/generator.js:93-101 | the collision loop reports a collision exactly when a cell other than the intersection is already occupied |
| Topology.CreateTemplate | src/utils/generator.js:12-137 | the result and the next draw are those of the retry loop replayed on the same draws (`Retry`); the result is the 5x5 fallback exactly when every one of the 100 attempts fails; the template is always well formed; a 9x9 result has exactly `numCount` numbers, any other result is the fallback; both loops stop because `attempts` and `failCount` are bounded |
| Topology.GrowBranches | src/utils/generator.js:60-116 | growing from a root ends with the numbers and the next draw of the growing loop replayed on the same draws (`Grow`); the numbers keep the template invariants and `occupied` is exactly the cells they cover |
| Topology.Grow | src/utils/generator.js:60-116 | growing never drops a number and never goes back in the draws, and a pass that runs uses draws |
| Topology.GrowStep | src/utils/generator.js:84-115 | one pass of the growing loop is one step of the replay: a refused branch counts a failure, an accepted one is appended, either after four draws |
| Topology.AttemptOnce | src/utils/generator.js:17-127 | an attempt always uses draws |
| Topology.RootRefused | src/utils/generator.js:47-48 | an attempt whose root leaves the grid fails after four draws and the retry loop goes on with one attempt fewer |
| Topology.RootGrown | src/utils/generator.js:60-127 | an attempt whose root fits succeeds exactly when growing reaches `numCount` numbers, giving the 9x9 template of those numbers; otherwise the retry loop goes on from where growing stopped |
| Topology.RetryStep | src/utils/generator.js:16-128 | a successful attempt ends the retry loop with its template; a failed one passes on to the remaining attempts |
| Topology.RetryRows | src/utils/generator.js:16-136 | the retry loop gives either the fallback or a 9x9 template, and a grid other than 9x9 exactly when every attempt fails |
| Topology.FallbackIffAllFail | src/utils/generator.js:118-136 | the fallback is returned exactly when no attempt reaches `numCount` numbers |
| Topology.FirstRootSuffices | src/utils/generator.js:40-62 | asking for one number, the first root that fits is the whole template, found after four draws |
| Topology.NoNumbersFallback | src/utils/generator.js:62-118 | asking for fewer than one number always gives the fallback, since an attempt always holds its root |
| Topology.OccupiedSnoc | src/utils/generator.js:115 | adding a number adds exactly its cells to `occupied` |
| Topology.SharedCell | src/utils/generator.js:93-101 | two numbers share at most one cell |
| Topology.RunHasNeighbour | src/utils/generator.js:29-38 | every cell of a run of 3 or more has a grid neighbour in the same run |
| Topology.CrossingOwners | src/utils/generator.js:62-115 | at most 3 earlier numbers pass through any cell of a number |
| Solver.Range | src/utils/generator.js:162 | the initial pool holds each of `lo..hi-1` exactly once |
| Solver.FilterCounts | src/utils/generator.js:164 | `filter` drops every excluded value and keeps the count of every other |
| Solver.Pool | src/utils/generator.js:162-164 | the pool holds each digit that is not a constraint value, exactly once |
| Solver.SliceEnd | src/utils/generator.js:168 | `slice(0, n)` ends at `n` within bounds and counts a negative `n` from the end |
| Solver.GenerateSingleNumber | src/utils/generator.js:160-182 | the result and the next draw are those of the 1000-try loop replayed on the same draws (`Tries`); the result is `null` exactly when every one of the 1000 tries fails; a non-null result is its own canonical arrangement; it has `length` digits (whenever the constraints are no more than the digits); it meets every constraint; it holds each constraint value exactly as often as the constraints do and any other digit at most once |
| Solver.Kept | src/utils/generator.js:172-179 | a try returns its formatted candidate exactly when it meets every constraint |
| Solver.TryGenerated | src/utils/generator.js:162-179 | a try that returns digits returns digits with every promised property |
| Solver.TryApply | src/utils/generator.js:161-179 | a try of the loop is the replayed try at the current draw |
| Solver.TriesNoneIffAllFail | src/utils/generator.js:161-181 | the loop returns `null` exactly when every one of its tries fails |
| Solver.TriesStep | src/utils/generator.js:161-179 | a try that succeeds ends the loop with its digits; a failed one passes on to the tries left |
| Solver.TriesFrom | src/utils/generator.js:161-181 | whatever the loop returns is the result of one of its tries |
| Solver.TriesSkipped | src/utils/generator.js:166 | a try skipped by `continue` without a draw is skipped on every later try, so the loop returns `null` without a draw |
| Solver.TrySkipped | src/utils/generator.js:165-166 | a try whose filtered pool is smaller than `countNeeded` is skipped without a draw |
| Solver.CandidateIs | src/utils/generator.js:168-170 | the candidate of a try is the shuffled pool cut to `countNeeded`, followed by the constraint values, formatted |
| Solver.TryRan | src/utils/generator.js:162-179 | a try whose pool is big enough shuffles it, using one draw per pool digit, and keeps its candidate exactly when the candidate meets every constraint |
| Solver.TriesGenerated | src/utils/generator.js:160-182 | whatever the loop returns has every promised property |
| Solver.TooFewDigits | src/utils/generator.js:161-181 | when the pool is smaller than `countNeeded`, the loop returns `null` without drawing |
| Solver.FilterNothing | src/utils/generator.js:164 | with no constraint values, `filter` keeps the whole pool |
| Solver.FullPool | src/utils/generator.js:162-164 | a number without constraints draws from all ten digits |
| Solver.Unconstrained | src/utils/generator.js:161-179 | a number of at most ten digits without constraints is found on the first try, after ten draws |
| Solver.MeetsAll | src/utils/generator.js:172-178 | the validity loop answers true exactly when every constraint's position holds its value |
| Solver.CandidateGenerated | src/utils/generator.js:166-179 | a formatted candidate from a shuffled pool that meets the constraints has every promised property |
| Solver.DistinctDigits | src/utils/generator.js:162-170 | when the constraint values are distinct, all digits of the result are distinct |
| Solving.FirstShared | src/utils/generator.js:216 | `find` returns the first cell of the number that an earlier number covers |
| Solving.IndexOf | src/utils/generator.js:220 | `indexOf` returns the first position holding the value |
| Solving.CollectConstraints | src/utils/generator.js:211-223 | the loop over earlier numbers builds the constraint list that `ConstraintsFrom` defines |
| Solving.ConstraintsAt | src/utils/generator.js:211-223 | when only cell `k` of a number is already solved, there is one constraint per earlier number through it, each fixing position `k` to the digit there |
| Solving.Written | src/utils/generator.js:234-236 | the cells written are the old ones and the number's cells |
| Solving.Commit | src/utils/generator.js:233-236 | the loop writes `digits[k]` into cell `k` in order (`Written`): it adds the number's cells, keeps every other cell and, when the cells are distinct, puts digit `m` in cell `m` |
| Solving.BranchConstraints | src/utils/generator.js:211-223 | for a number branching at cell `k`, every collected constraint fixes position `k` to the digit already in that cell |
| Solving.CommitAgrees | src/utils/generator.js:225-236 | committing digits that meet those constraints changes no cell that was already solved |
| Solving.SolvedExtend | src/utils/generator.js:207-237 | after the commit, every number solved so far still reads as the canonical arrangement of its digits |
| Solving.FirstNumberFound | src/utils/generator.js:207-225 | the first number has no earlier number to meet, so its search never returns `null` and takes ten draws |
| Solving.TriesLength | src/utils/generator.js:225-235 | the digits a search returns cover every cell of the number |
| Solving.WrittenOccupied | src/utils/generator.js:233-236 | after writing number `i`, every cell of the numbers up to `i` is solved |
| Solving.SolveStep | src/utils/generator.js:207-236 | one turn of the replayed loop: a search that returns `null` ends it, found digits are written and the loop moves on to the next number |
| Solving.WriteNumber | src/utils/generator.js:233-236 | writing the found digits keeps every number up to `i` reading as the canonical arrangement of its digits |
| Solving.SolveNumber | src/utils/generator.js:208-236 | one turn collects the constraints and searches with them (`NumberTries`), then, on success, writes the digits so that the numbers up to `i` are solved; it is one step of the replay `SolveFrom` |
| Solving.SolveNumbers | src/utils/generator.js:207-237 | the result and the next draw are those of the solving loop replayed on the same draws (`SolveFrom`), so `None` comes exactly when some number's search returns `null`; a completed loop covers exactly the numbers' cells with digits, and each number reads as the canonical arrangement for its rule |
| Puzzles.NumCount | src/utils/generator.js:189-192 | the count is 2 below level 3, the level for levels 3 to 5, and 5 from level 5 on |
| Puzzles.NumCountMonotone | src/utils/generator.js:189-192 | a higher level never has fewer numbers |
| Puzzles.ClueTextNamesRule | src/utils/generator.js:251-254 | a `max` clue and a `min` clue never have the same text |
| Puzzles.KeysFrom | src/utils/generator.js:240 | `Object.values(solution)` visits exactly the solved cells |
| Puzzles.KeysAscending | src/utils/generator.js:240 | the cells are visited in ascending order, each once |
| Puzzles.TileValuesPermutation | src/utils/generator.js:266 | shuffling the tiles shuffles their values |
| Puzzles.BuildGrid | src/utils/generator.js:246-249 | a grid cell is `target` exactly when it is active, otherwise `block` |
| Puzzles.ActiveCellsInGrid | src/utils/generator.js:246-249 | every active cell of a well-formed template is a grid cell |
| Puzzles.BuildRules | src/utils/generator.js:256-259 | the rules map has one entry per number id; with distinct ids each entry holds its own rule and cells |
| Puzzles.WellShapedIds | src/utils/generator.js:106 | template ids are distinct |
| Puzzles.BuildParts | src/utils/generator.js:239-270 | the output step builds the grid marking the active cells, one clue per number, the rules map from the number ids and an inventory holding the solution digits, and keeps the template fields |
| Puzzles.AssembledValid | src/utils/generator.js:239-270 | parts built that way from a solved well-formed template form a valid puzzle |
| Puzzles.Assemble | src/utils/generator.js:239-270 | the assembled puzzle is valid. The inventory is a shuffle of one tile per solved cell carrying its digit. The grid marks exactly the active cells. There is one clue and one rule per number, and the solution covers exactly the active cells with digits |
| Puzzles.AssembledInventory | src/utils/generator.js:240-266 | the shuffled inventory holds the same multiset of values as the solution |
| Puzzles.SolveTemplateParts | src/utils/generator.js:197-237 | a template's solving replay draws the rule coins first, then runs the solving loop from the next draw |
| Puzzles.PassSolveParts | src/utils/generator.js:195-237 | a pass replays the template search, then the rule coins and the solving loop from where it stopped |
| Puzzles.GeneratePuzzleAttempt | src/utils/generator.js:187-270 | one pass of `generatePuzzle` fails exactly when the replayed solving loop fails (`PassSolve`), leaving the source where the replay does; otherwise its puzzle carries the replayed solution, is valid and is of the level; a 9x9 one has `NumCount(level)` numbers |
| Puzzles.PassApply | src/utils/generator.js:187-231 | a pass of the retry is the replayed pass at the current draw |
| Puzzles.PassStep | src/utils/generator.js:225-231 | the retry fails on `passes` passes exactly when the first one fails and the rest fail after it |
| Puzzles.GeneratePuzzle | src/utils/generator.js:187-270 | the retrying `generatePuzzle` gives `None` exactly when every one of its `fuel` passes fails (`AllPassesFail`); otherwise a valid puzzle of the level, with `NumCount(level)` numbers on the 9x9 grid |
| Validator.MessageTextEmpty | src/components/Game.jsx:166 | only the empty message is falsy, so `if (errorMsg)` tests for a failure |
| Validator.DecimalInjective | src/components/Game.jsx:158 | two digit strings of equal length with the same `parseInt` value are equal |
| Validator.CheckRulePassIff | src/components/Game.jsx:131-164 | a filled rule over digits passes exactly when the placed digits equal `formatDigits` of themselves |
| Validator.MaxPassIffDescending | src/components/Game.jsx:141-147 | a filled `max` rule passes exactly when its digits are non-increasing |
| Validator.MinPassIffArranged | src/components/Game.jsx:148-162 | a filled `min` rule passes exactly when its digits form the smallest number that does not start with 0 |
| Validator.EmptyMinRuleFails | src/components/Game.jsx:158-161 | a `min` rule without cells fails, since `NaN !== NaN` |
| Validator.ArrangementPasses | src/components/Game.jsx:131-164 | placing `formatDigits(d, rule)` in a rule's cells passes that rule |
| Validator.TallyMeaning | src/components/Game.jsx:128-164 | `allValid` is true exactly when no rule fails; otherwise the message is that of the last failing rule, and it is empty exactly when all rules pass |
| Validator.RulesOutcome | src/components/Game.jsx:128-164 | over the rules: all valid exactly when each rule passes, empty message exactly then, otherwise the last failing rule's message |
| Validator.Validate | src/components/Game.jsx:128-164 | the `forEach` computes the outcome that `Tally` defines over the rule verdicts |
| Play.DropTile | src/components/Game.jsx:108-114 | the target holds the dropped tile; the cell that held it is cleared; every other cell keeps its tile; no tile ends up in two cells |
| Play.FindValue | src/components/Game.jsx:84 | `findIndex` gives the first remaining tile with the value, or none |
| Play.Without | src/components/Game.jsx:88 | `splice(i, 1)` removes exactly that tile |
| Play.MatchKeeps | src/components/Game.jsx:82-90 | matching fills only listed cells, and every tile it places comes from the remaining inventory |
| Play.MatchComplete | src/components/Game.jsx:82-90 | when the inventory values equal the solution values as multisets, every solution cell receives a tile of its value |
| Play.MatchUnique | src/components/Game.jsx:82-90 | tiles with distinct ids are placed in at most one cell each |
| Play.MatchAll | src/components/Game.jsx:82-90 | the `forEach` of `handleReveal` computes the greedy match that `Match` defines |
| Play.InventoryIdsUnique | src/utils/generator.js:241-244 | the inventory tiles of a generated puzzle have distinct ids |
| Play.GeneratedPlayable | src/components/Game.jsx:131 | every rule key of a generated puzzle is listed by `Object.keys(puzzle.rules)` |
| Play.EveryRulePasses | src/components/Game.jsx:128-166 | over `Object.keys(puzzle.rules)`, all rules are valid exactly when every rule of the puzzle passes, and the message is empty exactly then |
| Play.RevealFills | src/components/Game.jsx:75-94 | on a generated puzzle the reveal fills exactly the solved cells, each with an inventory tile of its digit, no tile twice |
| Play.RevealPasses | src/components/Game.jsx:75-164 | the revealed placement passes every rule check |
| Play.Board.constructor | src/components/Game.jsx:14-22 | a playable puzzle (every generated one is, by `Play.GeneratedPlayable`) starts with nothing placed, no feedback or message, unrevealed, timer stopped |
| Play.Board.Start | src/components/Game.jsx:63-66 | starting sets the game running and the timer on |
| Play.Board.Drop | src/components/Game.jsx:102-115 | no change when revealed or without a value and id; otherwise the placement becomes `DropTile`; each tile stays in at most one cell |
| Play.Board.Remove | src/components/Game.jsx:117-124 | clears only the given cell, and nothing when revealed |
| Play.Board.Reveal | src/components/Game.jsx:75-94 | the placement becomes the greedy match; revealed, timer off, no feedback; the message announces the reveal unless time ran out |
| Play.Board.TimeUp | src/components/Game.jsx:68-73 | time up stops the timer, reveals, and shows "Time's Up! Streak lost." |
| Play.Board.CheckAnswers | src/components/Game.jsx:126-175 | nothing changes once revealed. Otherwise the feedback is `correct` exactly when every rule passes, and then the timer stops. A `wrong` feedback carries the last failing rule's message |
| Layout.Rem | src/components/Game.jsx:48 | `idx % cols` truncates toward zero |
| Layout.Least | src/components/Game.jsx:50 | `Math.min` (here and at line 52) returns a member no greater than any member |
| Layout.Greatest | src/components/Game.jsx:51 | `Math.max` (here and at line 53) returns a member no less than any member |
| Layout.AllIndices | src/components/Game.jsx:46 | `flatMap` lists exactly the cells some number covers |
| Layout.BoxOf | src/components/Game.jsx:47-58 | the box encloses every cell, a cell touches each edge, and `width`/`height` are at least 1 |
| Layout.ViewLayout | src/components/Game.jsx:43-59 | a finite box exists exactly when there are columns and cells, and then it is the tightest box around all number cells |
| Layout.LayoutOnGrid | src/components/Game.jsx:43-59 | the box of a generated puzzle lies on its grid |
| Layout.TemplateLayout | src/components/Game.jsx:43-59 | the box of any well-formed template exists and lies on its grid |
| Progress.TimeLimit | src/App.jsx:23-32 | the limit is 30/40/60/90/120 for levels 1-5 and 30 for anything else, always within 30..120 |
| Progress.TimeLimitIncreasing | src/App.jsx:23-32 | a higher level gets strictly more time |
| Progress.Stage | src/App.jsx:48-65 | a question's position in the game is within 1..25 |
| Progress.StageInjective | src/App.jsx:48-65 | different questions have different positions |
| Progress.Session.constructor | src/App.jsx:8-13 | the game starts at level 1, question 1, streak 0 |
| Progress.Session.GoToNextQuestion | src/App.jsx:48-59 | below question 5 the question advances one position; otherwise the level-up dialog opens below level 5, and the game completes at level 5 |
| Progress.Session.Next | src/App.jsx:34-38 | the streak grows by one; below question 5 the question advances and the dialog and completion flags stay; at question 5 the dialog opens below level 5 and the game completes at level 5 |
| Progress.Session.NextSeen | src/App.jsx:34-59 | the completion callback tests the level and question it captured, and advances the current question when the captured one was below 5 |
| Progress.Session.Skip | src/App.jsx:44-46 | the streak is unchanged; below question 5 the question advances and the dialog and completion flags stay; at question 5 the dialog opens below level 5 and the game completes at level 5 |
| Progress.Session.Cheat | src/App.jsx:40-42 | the streak drops to 0 and nothing else changes |
| Progress.Session.AdvanceLevel | src/App.jsx:61-65 | the dialog closes, the level rises by one and the question resets to 1, the next position |
| Progress.Session.Restart | src/App.jsx:67-72 | back to level 1, question 1, streak 0, not complete |
| Progress.Session.PuzzleSize | src/App.jsx:15-20 | the number count requested for the current level: 2 on levels 1-2 and `level` after (the 5x5 fallback has 2 at any level) |
| Progress.StaleCompletionOverruns | src/App.jsx:48-50 | a stale completion callback from question 4, run after a reveal and a skip to question 5, takes the game to question 6, outside the reachable states |

Every method of `Board`, and every method of `Session` except
`NextSeen`, preserves its class invariant `Valid()`. For `Session` this
is the reachable-state invariant: level and question in 1..5, the
level-up dialog only at question 5 below level 5, completion only at
level 5, question 5. It holds when each handler acts on the current
state; `NextSeen` models the one that may not.

## Left out

- Randomness: `Math.random` becomes an injected draw source read at a running tick, and `shuffle` becomes a source-driven permutation. Distributions are not modelled.
- The numeric ids `Date.now() + Math.random()` are not modelled, and neither are the template `name` fields.
- Tile ids are naturals standing for the strings `tile-<i>`.
- Solution digits, which the source stores as strings and parses back, are modelled as integers 0..9.
- `parseInt` is modelled as exact decimal value. Floating-point precision limits on long digit strings do not arise for numbers of at most 5 digits.
- Puzzles.GeneratePuzzle: the source retries by unbounded self-recursion; here at most `fuel` passes are made, and `None` comes exactly when all `fuel` passes fail. The `questionIndex` argument is threaded through but never read, as in the source.
- Topology.CreateTemplate: `activeCells` is a set rather than the insertion-ordered array; only membership is used downstream.
- The fallback numbers carry `r`, `c` and `len` values that the source omits; nothing reads them for the fallback.
- Object key order: `Object.keys` and `Object.values` on the integer-keyed `solution` and `rules` objects list keys in ascending order, modelled by `Puzzles.KeysFrom`.
- The JSX rendering, CSS and confetti calls are not modelled. `src/components/Cell.jsx` and `src/puzzles.js` are not part of this model.
- The timer countdown (`setInterval`) and the scheduling of the delayed `onComplete` (`setTimeout`) are not modelled. Time running out is the `TimeUp` method. Completion is the `Session.Next` method when it acts on the current state, and the `Session.NextSeen` method when its closure is stale.
- The `onCheat` callback fired by a reveal or by time running out is the `Session.Cheat` method. The wiring between the `Game` and `App` components is left out.
- The drag-and-drop `dataTransfer` plumbing is not modelled: `Drop` receives the dragged value and id directly, each possibly missing.
- Progress.Session.AdvanceLevel requires the level-up dialog to be open, and Progress.Session.Restart requires the completion screen. These are the only places the source offers those buttons.
- Play.Board.CheckAnswers: callable in any state. The source shows the "Verify Solution" button only while no message is shown, and neither a drop nor a removal clears the message, so after a wrong check the source offers no second check. The model does not require an empty message.
- Layout.ViewLayout: with no covered cell or no column the source computes infinite or `NaN` bounds; the model returns `None` instead of such a box.
- Play.Board.Drop: the source clears only the first cell found holding the dragged id. The model clears every such cell. The two agree under the class invariant that no tile sits in two cells.

## Findings

| source | as written | input that shows it | evidently intended | confidence | as-written member | corrected member |
|---|---|---|---|---|---|---|
| src/App.jsx:48-50 | the delayed `onComplete` of a solved puzzle (src/components/Game.jsx:173) is never cancelled, and its `goToNextQuestion` tests the `question` its closure captured while advancing the current one with `prev => prev + 1` | level 1: solve question 4, then within 1.5 s reveal and press "Next Question"; the game is at question 5 and the stale callback moves it to question 6 | the completion moves on from the current state, so the question stays in 1..5 | not executed; medium | Progress.StaleCompletionOverruns (using Progress.Session.NextSeen) | Progress.Session.Next |
