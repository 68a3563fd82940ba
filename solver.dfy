/**
  The logic solver of src/utils/generator.js (`generateSingleNumber`): find
  digits for one number so that its canonical arrangement puts every fixed
  crossing digit at its required position.
 */
module Solver {
  import opened Wrappers
  import opened Choice
  import opened Digits

  /** Retries before `generateSingleNumber` gives up with `null`. */
  const MaxTries: nat := 1000

  /** The number of decimal digits, `[0, 1, ..., 9]`. */
  const Radix: nat := 10

  /** The integers from `lo` up to but excluding `hi`, in order. */
  function Range(lo: int, hi: int): (r: seq<int>)
    ensures forall v :: multiset(r)[v] == if lo <= v < hi then 1 else 0
    ensures |r| == if lo < hi then hi - lo else 0
    decreases hi - lo
  {
    if lo >= hi then [] else [lo] + Range(lo + 1, hi)
  }

  /** A digit fixed by an earlier number: position `localIndex` of the new number must hold `value`. */
  datatype Constraint = Constraint(localIndex: nat, value: int)

  /** `constraints.map(c => c.value)`. */
  function Values(cs: seq<Constraint>): seq<int> {
    seq(|cs|, i requires 0 <= i < |cs| => cs[i].value)
  }

  /** The digits of `r` meet a constraint; an index past the end reads `undefined` and fails. */
  predicate Satisfies(r: seq<int>, c: Constraint) {
    c.localIndex < |r| && r[c.localIndex] == c.value
  }

  /** No value occurs twice. */
  predicate Distinct<T(==)>(s: seq<T>) {
    forall i, j :: 0 <= i < j < |s| ==> s[i] != s[j]
  }

  /** `s.filter(d => !excluded.includes(d))`. */
  function Filter(s: seq<int>, excluded: seq<int>): seq<int> {
    if s == [] then []
    else (if s[0] in excluded then [] else [s[0]]) + Filter(s[1..], excluded)
  }

  /** Filtering keeps the count of every value that is not excluded and drops every excluded one. */
  lemma {:induction false} FilterCounts(s: seq<int>, excluded: seq<int>)
    ensures forall v :: multiset(Filter(s, excluded))[v] == if v in excluded then 0 else multiset(s)[v]
  {
    if s != [] {
      FilterCounts(s[1..], excluded);
      assert s == [s[0]] + s[1..];
    }
  }

  /** The digit pool: each digit not among the constraint values, once. */
  function Pool(excluded: seq<int>): (pool: seq<int>)
    ensures forall v :: multiset(pool)[v] == if IsDigit(v) && v !in excluded then 1 else 0
  {
    FilterCounts(Range(0, Radix), excluded);
    Filter(Range(0, Radix), excluded)
  }

  /**
    The end of `slice(0, n)` on a sequence of length `len`: a negative `n`
    counts from the end.
   */
  function SliceEnd(n: int, len: nat): (e: nat)
    ensures e <= len
    ensures 0 <= n <= len ==> e == n
  {
    if n >= 0 then (if n <= len then n else len)
    else if len + n >= 0 then len + n
    else 0
  }

  /** A value occurring at two positions is counted twice by the multiset. */
  lemma TwiceCounted<T>(s: seq<T>, i: nat, j: nat)
    requires i < j < |s| && s[i] == s[j]
    ensures multiset(s)[s[i]] >= 2
  {
    assert s == s[..j] + s[j..];
    assert s[i] in s[..j] && s[j] in s[j..];
  }

  /** A distinct sequence counts no value twice. */
  lemma {:induction false} DistinctCounts<T>(s: seq<T>)
    requires Distinct(s)
    ensures forall v :: multiset(s)[v] <= 1
  {
    if s != [] {
      DistinctCounts(s[1..]);
      assert s == [s[0]] + s[1..];
      assert s[0] !in s[1..];
    }
  }

  /** A sequence in which no value is counted twice is distinct. */
  lemma DistinctByCount<T>(s: seq<T>)
    requires forall v :: multiset(s)[v] <= 1
    ensures Distinct(s)
  {
    forall i, j | 0 <= i < j < |s| ensures s[i] != s[j] {
      if s[i] == s[j] {
        TwiceCounted(s, i, j);
      }
    }
  }

  /**
    What `generateSingleNumber` promises of a result `r`: it is canonical
    for the rule, has `length` digits (more only when there are more
    constraints than digits), meets every constraint, holds each constraint
    value exactly as often as the constraints do and any other value at most
    once, and is made of digits when the constraint values are.
   */
  ghost predicate Generated(r: seq<int>, length: nat, rule: Rule, constraints: seq<Constraint>) {
    && r == FormatDigits(r, rule)
    && |r| >= length && (|constraints| <= length ==> |r| == length)
    && (forall q :: 0 <= q < |constraints| ==> Satisfies(r, constraints[q]))
    && (forall v :: v in Values(constraints) ==> multiset(r)[v] == multiset(Values(constraints))[v])
    && (forall v :: v !in Values(constraints) ==> multiset(r)[v] <= 1 && (multiset(r)[v] > 0 ==> IsDigit(v)))
    && (AllDigits(Values(constraints)) ==> AllDigits(r))
  }

  /**
    `generateSingleNumber(length, ruleType, constraints)`: up to 1000 tries
    of shuffling the pool, taking `length - |constraints|` digits, adding
    the constraint values and keeping the canonical arrangement when it puts
    every constraint value at its position.
   */
  method GenerateSingleNumber(length: nat, rule: Rule, constraints: seq<Constraint>, rand: Source, tick0: nat)
    returns (digits: Option<seq<int>>, tick: nat)
    ensures (digits, tick) == Tries(Try(length, rule, constraints, rand), tick0, MaxTries)
    ensures digits.None? <==> AllTriesFail(Try(length, rule, constraints, rand), tick0, MaxTries)
    ensures tick >= tick0
    ensures digits.Some? ==> Generated(digits.value, length, rule, constraints)
  {
    ghost var goal := Tries(Try(length, rule, constraints, rand), tick0, MaxTries);
    ghost var left := MaxTries;
    TriesNoneIffAllFail(Try(length, rule, constraints, rand), tick0, MaxTries);
    tick := tick0;
    var cvals := Values(constraints);
    for attempt := 0 to MaxTries
      invariant left == MaxTries - attempt
      invariant goal == Tries(Try(length, rule, constraints, rand), tick, left)
      invariant tick >= tick0
    {
      ghost var start, remaining := tick, left;
      left := left - 1;
      var pool := Pool(cvals);
      var countNeeded := length - |constraints|;
      if |pool| < countNeeded {
        TrySkipped(length, rule, constraints, rand, start);
        TriesStep(Try(length, rule, constraints, rand), start, remaining, None, tick, left);
        continue;
      }
      var shuffled := Shuffle(pool, rand, tick);
      tick := tick + |pool|;
      var e := SliceEnd(countNeeded, |shuffled|);
      var candidate := shuffled[..e] + cvals;
      var formatted := FormatDigits(candidate, rule);

      var valid := MeetsAll(formatted, constraints);
      ghost var found := Kept(formatted, constraints);
      CandidateIs(length, rule, constraints, rand, start, shuffled, e, formatted);
      TryRan(length, rule, constraints, rand, start, found, tick);
      TriesStep(Try(length, rule, constraints, rand), start, remaining, found, tick, left);
      if valid {
        CandidateGenerated(length, rule, constraints, shuffled, e);
        return Some(formatted), tick;
      }
    }
    return None, tick;
  }

  /** A try run from a given draw: its digits when it succeeds, and the next unused draw. */
  type TryFrom = nat -> (Option<seq<int>>, nat)

  /** The arrangement meets every constraint. */
  predicate MeetsEvery(r: seq<int>, constraints: seq<Constraint>) {
    forall q :: 0 <= q < |constraints| ==> Satisfies(r, constraints[q])
  }

  /**
    The candidate of one try: the first `length - |constraints|` digits of
    the pool shuffled with the draws from `tick` on, followed by the
    constraint values, in canonical arrangement.
   */
  ghost function Candidate(length: nat, rule: Rule, constraints: seq<Constraint>, rand: Source, tick: nat): seq<int> {
    var shuffled := Shuffle(Pool(Values(constraints)), rand, tick);
    FormatDigits(shuffled[..SliceEnd(length - |constraints|, |shuffled|)] + Values(constraints), rule)
  }

  /** A candidate survives its try exactly when it meets every constraint. */
  ghost function Kept(r: seq<int>, constraints: seq<Constraint>): (k: Option<seq<int>>)
    ensures k.Some? <==> MeetsEvery(r, constraints)
    ensures k.Some? ==> k.value == r
  {
    if MeetsEvery(r, constraints) then Some(r) else None
  }

  /**
    One try of `generateSingleNumber` replayed on the draws from `tick` on:
    no draw when the pool is too small, otherwise one shuffle of the pool,
    giving the candidate when it meets every constraint.
   */
  ghost function TryOnce(length: nat, rule: Rule, constraints: seq<Constraint>, rand: Source, tick: nat): (t: (Option<seq<int>>, nat))
    ensures t.1 >= tick
  {
    var pool := Pool(Values(constraints));
    if |pool| < length - |constraints| then (None, tick)
    else
      var r := Candidate(length, rule, constraints, rand, tick);
      (Kept(r, constraints), tick + |pool|)
  }

  /** A try that succeeds gives what `generateSingleNumber` promises. */
  lemma TryGenerated(length: nat, rule: Rule, constraints: seq<Constraint>, rand: Source, tick: nat)
    ensures var t := TryOnce(length, rule, constraints, rand, tick);
      t.0.Some? ==> Generated(t.0.value, length, rule, constraints)
  {
    var pool := Pool(Values(constraints));
    if |pool| >= length - |constraints| {
      var shuffled := Shuffle(pool, rand, tick);
      var e := SliceEnd(length - |constraints|, |shuffled|);
      if MeetsEvery(Candidate(length, rule, constraints, rand, tick), constraints) {
        CandidateGenerated(length, rule, constraints, shuffled, e);
      }
    }
  }

  /** The tries of `generateSingleNumber` for one number, on the draws of `rand`. */
  ghost function Try(length: nat, rule: Rule, constraints: seq<Constraint>, rand: Source): TryFrom {
    t => TryOnce(length, rule, constraints, rand, t)
  }

  /** Applying `Try` runs one try. */
  lemma TryApply(length: nat, rule: Rule, constraints: seq<Constraint>, rand: Source, tick: nat)
    ensures Try(length, rule, constraints, rand)(tick) == TryOnce(length, rule, constraints, rand, tick)
  {
  }

  /**
    The retry loop of `generateSingleNumber` with `left` tries remaining,
    the first from draw `tick`: the first try that succeeds gives the
    digits; when none is left, `null`.
   */
  ghost function Tries(try: TryFrom, tick: nat, left: nat): (r: (Option<seq<int>>, nat))
    decreases left
  {
    if left == 0 then (None, tick)
    else
      var t := try(tick);
      if t.0.Some? then t else Tries(try, t.1, left - 1)
  }

  /** None of `left` tries, the first from draw `tick`, succeeds. */
  ghost predicate AllTriesFail(try: TryFrom, tick: nat, left: nat)
    decreases left
  {
    left == 0 || (try(tick).0.None? && AllTriesFail(try, try(tick).1, left - 1))
  }

  /** The retry loop gives `null` exactly when every try fails. */
  lemma {:induction false} TriesNoneIffAllFail(try: TryFrom, tick: nat, left: nat)
    ensures Tries(try, tick, left).0.None? <==> AllTriesFail(try, tick, left)
    decreases left
  {
    if left > 0 {
      TriesNoneIffAllFail(try, try(tick).1, left - 1);
    }
  }

  /** The first of `left` tries: a success ends the retry loop, a failure passes on to the `rest`. */
  lemma TriesStep(try: TryFrom, tick: nat, left: nat, found: Option<seq<int>>, next: nat, rest: nat)
    requires left == rest + 1 && try(tick).0 == found && try(tick).1 == next
    ensures Tries(try, tick, left) == if found.Some? then (found, next) else Tries(try, next, rest)
  {
  }

  /** Whatever the retry loop returns is the result of one of its tries. */
  lemma {:induction false} TriesFrom(try: TryFrom, tick: nat, left: nat)
    ensures var r := Tries(try, tick, left); r.0.Some? ==> exists t: nat :: try(t) == r
    decreases left
  {
    if left > 0 && try(tick).0.None? {
      TriesFrom(try, try(tick).1, left - 1);
    }
  }

  /** A try that is skipped without a draw is skipped every time, so the retry loop gives `null`. */
  lemma {:induction false} TriesSkipped(try: TryFrom, tick: nat, left: nat)
    requires try(tick) == (None, tick)
    ensures Tries(try, tick, left) == (None, tick)
    decreases left
  {
    if left > 0 {
      TriesSkipped(try, tick, left - 1);
    }
  }

  /** A try whose pool is too small is skipped without a draw. */
  lemma TrySkipped(length: nat, rule: Rule, constraints: seq<Constraint>, rand: Source, tick: nat)
    requires |Pool(Values(constraints))| < length - |constraints|
    ensures Try(length, rule, constraints, rand)(tick) == (None, tick)
  {
  }

  /** The candidate as `generateSingleNumber` computes it. */
  lemma CandidateIs(length: nat, rule: Rule, constraints: seq<Constraint>, rand: Source, tick: nat,
                    shuffled: seq<int>, e: nat, formatted: seq<int>)
    requires shuffled == Shuffle(Pool(Values(constraints)), rand, tick)
    requires e == SliceEnd(length - |constraints|, |shuffled|)
    requires formatted == FormatDigits(shuffled[..e] + Values(constraints), rule)
    ensures Candidate(length, rule, constraints, rand, tick) == formatted
  {
  }

  /** A try that shuffles the pool gives the candidate when it meets every constraint, after one draw per pool digit. */
  lemma TryRan(length: nat, rule: Rule, constraints: seq<Constraint>, rand: Source, tick: nat, found: Option<seq<int>>, next: nat)
    requires |Pool(Values(constraints))| >= length - |constraints|
    requires found == Kept(Candidate(length, rule, constraints, rand, tick), constraints)
    requires next == tick + |Pool(Values(constraints))|
    ensures Try(length, rule, constraints, rand)(tick).0 == found
    ensures Try(length, rule, constraints, rand)(tick).1 == next
  {
    TryApply(length, rule, constraints, rand, tick);
  }

  /** Whatever the retry loop returns keeps what `generateSingleNumber` promises. */
  lemma TriesGenerated(length: nat, rule: Rule, constraints: seq<Constraint>, rand: Source, tick: nat, left: nat)
    ensures var r := Tries(Try(length, rule, constraints, rand), tick, left);
      r.0.Some? ==> Generated(r.0.value, length, rule, constraints)
  {
    var r := Tries(Try(length, rule, constraints, rand), tick, left);
    TriesFrom(Try(length, rule, constraints, rand), tick, left);
    if r.0.Some? {
      var t: nat :| Try(length, rule, constraints, rand)(t) == r;
      TryGenerated(length, rule, constraints, rand, t);
    }
  }

  /**
    When the pool holds fewer digits than the number needs besides its
    constraint values, every try is skipped without a draw and the result
    is `null`.
   */
  lemma TooFewDigits(length: nat, rule: Rule, constraints: seq<Constraint>, rand: Source, tick: nat, left: nat)
    requires |Pool(Values(constraints))| < length - |constraints|
    ensures Tries(Try(length, rule, constraints, rand), tick, left) == (None, tick)
  {
    TrySkipped(length, rule, constraints, rand, tick);
    TriesSkipped(Try(length, rule, constraints, rand), tick, left);
  }

  /** Filtering out nothing keeps every value. */
  lemma {:induction false} FilterNothing(s: seq<int>)
    ensures Filter(s, []) == s
  {
    if s != [] {
      FilterNothing(s[1..]);
      assert s == [s[0]] + s[1..];
    }
  }

  /** The pool of a number without constraints holds the ten digits. */
  lemma FullPool(excluded: seq<int>)
    requires |excluded| == 0
    ensures |Pool(excluded)| == 10
  {
    assert excluded == [];
    FilterNothing(Range(0, Radix));
  }

  /**
    A number with no constraints and at most ten digits is found on the
    first try, after ten draws: the candidate of that try.
   */
  lemma Unconstrained(length: nat, rule: Rule, constraints: seq<Constraint>, rand: Source, tick: nat, left: nat)
    requires |constraints| == 0 && length <= 10 && left > 0
    ensures Tries(Try(length, rule, constraints, rand), tick, left).0 == Some(Candidate(length, rule, constraints, rand, tick))
    ensures Tries(Try(length, rule, constraints, rand), tick, left).1 == tick + 10
  {
    FullPool(Values(constraints));
    var r := Candidate(length, rule, constraints, rand, tick);
    assert MeetsEvery(r, constraints);
    TryRan(length, rule, constraints, rand, tick, Some(r), tick + 10);
    TriesStep(Try(length, rule, constraints, rand), tick, left, Some(r), tick + 10, left - 1);
  }

  /** The validity loop of `generateSingleNumber`: stops at the first constraint the arrangement misses. */
  method MeetsAll(r: seq<int>, constraints: seq<Constraint>) returns (valid: bool)
    ensures valid <==> MeetsEvery(r, constraints)
  {
    valid := true;
    var j := 0;
    while j < |constraints|
      invariant 0 <= j <= |constraints|
      invariant forall q :: 0 <= q < j ==> Satisfies(r, constraints[q])
    {
      var c := constraints[j];
      if !(c.localIndex < |r| && r[c.localIndex] == c.value) {
        valid := false;
        break;
      }
      j := j + 1;
    }
  }

  /** A candidate from a shuffled pool whose arrangement meets the constraints is a valid result. */
  lemma CandidateGenerated(length: nat, rule: Rule, constraints: seq<Constraint>, shuffled: seq<int>, e: nat)
    requires multiset(shuffled) == multiset(Pool(Values(constraints)))
    requires |shuffled| >= length - |constraints| && e == SliceEnd(length - |constraints|, |shuffled|)
    requires var r := FormatDigits(shuffled[..e] + Values(constraints), rule);
      forall q :: 0 <= q < |constraints| ==> Satisfies(r, constraints[q])
    ensures Generated(FormatDigits(shuffled[..e] + Values(constraints), rule), length, rule, constraints)
  {
    var cvals := Values(constraints);
    var candidate := shuffled[..e] + cvals;
    var r := FormatDigits(candidate, rule);
    FormatDigitsIdempotent(candidate, rule);
    PrefixCounts(shuffled, e);
    PickedCounts(shuffled[..e], cvals, r);
  }

  /** A prefix counts no value more often than the whole. */
  lemma PrefixCounts(s: seq<int>, e: nat)
    requires e <= |s|
    ensures forall v :: multiset(s[..e])[v] <= multiset(s)[v]
  {
    assert s == s[..e] + s[e..];
  }

  /** How often each value occurs in a candidate built from pool digits and the constraint values. */
  lemma PickedCounts(picked: seq<int>, cvals: seq<int>, formatted: seq<int>)
    requires forall v :: multiset(picked)[v] <= if IsDigit(v) && v !in cvals then 1 else 0
    requires multiset(formatted) == multiset(picked + cvals)
    ensures forall v :: v in cvals ==> multiset(formatted)[v] == multiset(cvals)[v]
    ensures forall v :: v !in cvals ==> multiset(formatted)[v] <= 1 && (multiset(formatted)[v] > 0 ==> IsDigit(v))
    ensures AllDigits(cvals) ==> AllDigits(formatted)
  {
    forall v ensures multiset(formatted)[v] == multiset(picked)[v] + multiset(cvals)[v] {
    }
    if AllDigits(cvals) {
      forall i | 0 <= i < |formatted| ensures IsDigit(formatted[i]) {
        assert formatted[i] in multiset(formatted);
      }
    }
  }

  /** Constraint values that are pairwise distinct give a number whose digits are pairwise distinct. */
  lemma DistinctDigits(r: seq<int>, constraints: seq<Constraint>)
    requires forall v :: v in Values(constraints) ==> multiset(r)[v] == multiset(Values(constraints))[v]
    requires forall v :: v !in Values(constraints) ==> multiset(r)[v] <= 1
    requires Distinct(Values(constraints))
    ensures Distinct(r)
  {
    DistinctCounts(Values(constraints));
    forall v ensures multiset(r)[v] <= 1 {
      if v in Values(constraints) {
        assert multiset(Values(constraints))[v] <= 1;
      }
    }
    DistinctByCount(r);
  }
}
