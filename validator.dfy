/**
  The answer check of src/components/Game.jsx (`checkAnswers`): every rule
  is judged on the tiles placed in its cells, and the last failing rule
  decides the message.
 */
module Validator {
  import opened Wrappers
  import opened Digits
  import opened Puzzles

  /** The messages the game shows; `NoMessage` is the empty string. */
  datatype Message =
    | NoMessage
    | FillAll
    | NotGreatest(key: nat)
    | CannotStartWithZero(key: nat)
    | NotSmallest(key: nat)
    | Perfect
    | AnswerRevealed
    | TimesUp

  /** The feedback state: `null`, `'correct'` or `'wrong'`. */
  datatype Feedback = NoFeedback | Correct | Wrong

  /** The text of each message, as the game shows it. */
  function MessageText(m: Message): string {
    match m
    case NoMessage => ""
    case FillAll => "Fill all empty boxes first!"
    case NotGreatest(key) => "Number " + NatText(key) + " is not the greatest possible!"
    case CannotStartWithZero(key) => "Number " + NatText(key) + " cannot start with 0!"
    case NotSmallest(key) => "Number " + NatText(key) + " is not the smallest possible!"
    case Perfect => "Perfect Logic! \U{1F389}"
    case AnswerRevealed => "Answer Revealed. Streak reset to 0."
    case TimesUp => "Time's Up! Streak lost."
  }

  /** Only `NoMessage` has the empty (falsy) text, so `if (errorMsg)` tests for a failure. */
  lemma MessageTextEmpty(m: Message)
    ensures MessageText(m) == "" <==> m == NoMessage
  {
    if m != NoMessage {
      assert |MessageText(m)| > 0;
    }
  }

  /** The value of a sequence of decimal digits, most significant first. */
  function Decimal(s: seq<int>): int {
    if s == [] then 0 else Decimal(s[..|s| - 1]) * 10 + s[|s| - 1]
  }

  /** `parseInt(values.join(''))`: `None` stands for `NaN`, the parse of the empty string. */
  function ParseJoined(s: seq<int>): Option<int> {
    if s == [] then None else Some(Decimal(s))
  }

  /** `a !== b` on two parsed numbers: `NaN` differs from everything, itself included. */
  predicate NumbersDiffer(a: Option<int>, b: Option<int>) {
    a.None? || b.None? || a.value != b.value
  }

  /** Two digit sequences of the same length with the same value are equal. */
  lemma {:induction false} DecimalInjective(a: seq<int>, b: seq<int>)
    requires AllDigits(a) && AllDigits(b) && |a| == |b|
    requires Decimal(a) == Decimal(b)
    ensures a == b
    decreases |a|
  {
    if a != [] {
      var n := |a| - 1;
      var x, y := Decimal(a[..n]), Decimal(b[..n]);
      assert x * 10 + a[n] == y * 10 + b[n];
      assert a[n] - b[n] == (y - x) * 10;
      assert x == y;
      DecimalInjective(a[..n], b[..n]);
      assert a == a[..n] + [a[n]] && b == b[..n] + [b[n]];
    }
  }

  /** Every cell of a rule holds a tile. */
  predicate Filled(placed: map<int, Tile>, cells: seq<int>) {
    forall m :: 0 <= m < |cells| ==> cells[m] in placed
  }

  /** The values of the tiles in the cells of a rule, in order. */
  function PlacedValues(placed: map<int, Tile>, cells: seq<int>): seq<int>
    requires Filled(placed, cells)
  {
    seq(|cells|, m requires 0 <= m < |cells| && cells[m] in placed => placed[cells[m]].value)
  }

  /** The outcome of one rule: it passes or fails with a message. */
  datatype Verdict = Pass | Fail(msg: Message)

  /**
    The judgement of the rule with key `key`: an unfilled cell asks to
    fill all boxes; `max` compares the values with their descending sort;
    `min` compares the parsed joins of the values and of their `min`
    arrangement, blaming a leading 0 when there is one.
   */
  function CheckRule(key: nat, rule: RuleDef, placed: map<int, Tile>): Verdict {
    if !Filled(placed, rule.indices) then Fail(FillAll)
    else
      var values := PlacedValues(placed, rule.indices);
      match rule.rule
      case Max =>
        if values != Sort(values, true) then Fail(NotGreatest(key)) else Pass
      case Min =>
        if NumbersDiffer(ParseJoined(values), ParseJoined(FormatDigits(values, Min))) then
          Fail(if |values| > 1 && values[0] == 0 then CannotStartWithZero(key) else NotSmallest(key))
        else Pass
  }

  /**
    A rule over at least one cell, filled with digits, passes exactly when
    the placed digits are already in the canonical arrangement for its rule.
   */
  lemma CheckRulePassIff(key: nat, rule: RuleDef, placed: map<int, Tile>)
    requires |rule.indices| > 0 && Filled(placed, rule.indices)
    requires AllDigits(PlacedValues(placed, rule.indices))
    ensures var values := PlacedValues(placed, rule.indices);
      CheckRule(key, rule, placed) == Pass <==> values == FormatDigits(values, rule.rule)
  {
    var values := PlacedValues(placed, rule.indices);
    if rule.rule == Min {
      var formatted := FormatDigits(values, Min);
      forall i | 0 <= i < |formatted| ensures IsDigit(formatted[i]) {
        assert formatted[i] in multiset(values);
      }
      if Decimal(values) == Decimal(formatted) {
        DecimalInjective(values, formatted);
      }
    }
  }

  /** A filled `max` rule passes exactly when its digits do not increase from left to right. */
  lemma MaxPassIffDescending(key: nat, cells: seq<int>, placed: map<int, Tile>)
    requires Filled(placed, cells)
    ensures CheckRule(key, RuleDef(Max, cells), placed) == Pass <==> Sorted(PlacedValues(placed, cells), true)
  {
    var values := PlacedValues(placed, cells);
    if Sorted(values, true) {
      SortedUnique(values, Sort(values, true), true);
    }
  }

  /**
    A filled `min` rule over digits passes exactly when its digits form the
    smallest number that does not start with 0 (see `Digits.Arranged`).
   */
  lemma MinPassIffArranged(key: nat, cells: seq<int>, placed: map<int, Tile>)
    requires |cells| > 0 && Filled(placed, cells)
    requires AllDigits(PlacedValues(placed, cells))
    ensures CheckRule(key, RuleDef(Min, cells), placed) == Pass <==> Arranged(PlacedValues(placed, cells), Min)
  {
    CheckRulePassIff(key, RuleDef(Min, cells), placed);
    FixedPointIffArranged(PlacedValues(placed, cells), Min);
  }

  /** A `min` rule with no cells always fails: `NaN !== NaN`. */
  lemma EmptyMinRuleFails(key: nat, placed: map<int, Tile>)
    ensures CheckRule(key, RuleDef(Min, []), placed) == Fail(NotSmallest(key))
  {
  }

  /** Placing the canonical arrangement of any digits in a rule's cells passes that rule. */
  lemma ArrangementPasses(key: nat, rule: RuleDef, placed: map<int, Tile>, digits: seq<int>)
    requires |rule.indices| > 0 && Filled(placed, rule.indices) && AllDigits(digits)
    requires PlacedValues(placed, rule.indices) == FormatDigits(digits, rule.rule)
    ensures CheckRule(key, rule, placed) == Pass
  {
    var values := PlacedValues(placed, rule.indices);
    forall i | 0 <= i < |values| ensures IsDigit(values[i]) {
      assert values[i] in multiset(digits);
    }
    FormatDigitsIdempotent(digits, rule.rule);
    CheckRulePassIff(key, rule, placed);
  }

  /** The verdicts of the rules listed in `keys`, in that order. */
  function RuleVerdicts(rules: map<nat, RuleDef>, keys: seq<nat>, placed: map<int, Tile>): (vs: seq<Verdict>)
    requires forall i :: 0 <= i < |keys| ==> keys[i] in rules
  {
    seq(|keys|, i requires 0 <= i < |keys| && keys[i] in rules => CheckRule(keys[i], rules[keys[i]], placed))
  }

  /** The two variables `checkAnswers` accumulates. */
  datatype Outcome = Outcome(allValid: bool, errorMsg: Message)

  /**
    The `forEach` over the rules: `allValid` stays true until a rule fails,
    and each failing rule overwrites the message.
   */
  function Tally(vs: seq<Verdict>): Outcome {
    if vs == [] then Outcome(true, NoMessage)
    else
      var o := Tally(vs[..|vs| - 1]);
      match vs[|vs| - 1]
      case Pass => o
      case Fail(m) => Outcome(false, m)
  }

  /** The verdict at `i` fails with `msg` and every later one passes. */
  predicate LastFailure(vs: seq<Verdict>, i: nat, msg: Message) {
    && i < |vs|
    && vs[i] == Fail(msg)
    && forall j :: i < j < |vs| ==> vs[j] == Pass
  }

  /** Every verdict is a failure with a nonempty message. */
  predicate Blaming(vs: seq<Verdict>) {
    forall i :: 0 <= i < |vs| ==> vs[i] != Fail(NoMessage)
  }

  /**
    The outcome of the loop: all rules are valid exactly when none fails;
    otherwise the message is that of the last failing rule, and it is
    empty exactly when all are valid.
   */
  lemma {:induction false} TallyMeaning(vs: seq<Verdict>)
    ensures Tally(vs).allValid <==> forall i :: 0 <= i < |vs| ==> vs[i] == Pass
    ensures !Tally(vs).allValid ==> exists i: nat :: LastFailure(vs, i, Tally(vs).errorMsg)
    ensures Blaming(vs) ==> (Tally(vs).errorMsg == NoMessage <==> Tally(vs).allValid)
  {
    if vs != [] {
      var n := |vs| - 1;
      var init := vs[..n];
      TallyMeaning(init);
      var o := Tally(init);
      assert forall i :: 0 <= i < n ==> init[i] == vs[i];
      match vs[n]
      case Pass =>
        if !o.allValid {
          var i: nat :| LastFailure(init, i, o.errorMsg);
          assert LastFailure(vs, i, o.errorMsg);
        }
      case Fail(m) =>
        assert LastFailure(vs, n, m);
    }
  }

  /**
    What the rule check concludes: all rules are valid exactly when each
    passes, the message is empty exactly then, and otherwise it is the
    message of the last failing rule.
   */
  lemma RulesOutcome(rules: map<nat, RuleDef>, keys: seq<nat>, placed: map<int, Tile>)
    requires forall i :: 0 <= i < |keys| ==> keys[i] in rules
    ensures var vs := RuleVerdicts(rules, keys, placed);
      && (Tally(vs).allValid <==> forall i :: 0 <= i < |keys| ==> CheckRule(keys[i], rules[keys[i]], placed) == Pass)
      && (Tally(vs).errorMsg == NoMessage <==> Tally(vs).allValid)
      && (!Tally(vs).allValid ==> exists i: nat :: LastFailure(vs, i, Tally(vs).errorMsg))
  {
    var vs := RuleVerdicts(rules, keys, placed);
    TallyMeaning(vs);
    assert Blaming(vs);
    forall i | 0 <= i < |keys| ensures vs[i] == CheckRule(keys[i], rules[keys[i]], placed) {
    }
  }

  /** The `forEach` of `checkAnswers` over the rule keys, in the order given. */
  method Validate(rules: map<nat, RuleDef>, keys: seq<nat>, placed: map<int, Tile>) returns (o: Outcome)
    requires forall i :: 0 <= i < |keys| ==> keys[i] in rules
    ensures o == Tally(RuleVerdicts(rules, keys, placed))
  {
    ghost var vs := RuleVerdicts(rules, keys, placed);
    var allValid, errorMsg := true, NoMessage;
    for n := 0 to |keys|
      invariant Outcome(allValid, errorMsg) == Tally(vs[..n])
    {
      assert vs[..n + 1][..n] == vs[..n];
      var key := keys[n];
      var verdict := CheckRule(key, rules[key], placed);
      assert verdict == vs[n];
      if verdict.Fail? {
        allValid := false;
        errorMsg := verdict.msg;
      }
    }
    assert vs[..|keys|] == vs;
    o := Outcome(allValid, errorMsg);
  }
}
