/**
  The canonical arrangement of a number's digits (`formatDigits` in
  src/utils/generator.js): the greatest arrangement for a `max` rule, the
  smallest arrangement that does not start with 0 for a `min` rule.
 */
module Digits {
  import opened Wrappers

  /** The rule attached to each number: make the greatest or the smallest number. */
  datatype Rule = Max | Min

  predicate IsDigit(d: int) { 0 <= d <= 9 }

  predicate AllDigits(s: seq<int>) { forall i :: 0 <= i < |s| ==> IsDigit(s[i]) }

  /** `a` may stand before `b` in a sequence sorted ascending (or descending). */
  predicate Before(a: int, b: int, descending: bool) {
    if descending then a >= b else a <= b
  }

  predicate Sorted(s: seq<int>, descending: bool) {
    forall i, j :: 0 <= i < j < |s| ==> Before(s[i], s[j], descending)
  }

  /** Inserts `x` into a sorted sequence, keeping it sorted. */
  function Insert(x: int, s: seq<int>, descending: bool): (r: seq<int>)
    requires Sorted(s, descending)
    ensures Sorted(r, descending)
    ensures multiset(r) == multiset(s) + multiset{x}
  {
    if s == [] || Before(x, s[0], descending) then
      [x] + s
    else
      var rest := Insert(x, s[1..], descending);
      assert s == [s[0]] + s[1..];
      assert forall j :: 0 <= j < |rest| ==> Before(s[0], rest[j], descending) by {
        forall j | 0 <= j < |rest| ensures Before(s[0], rest[j], descending) {
          assert rest[j] in multiset(rest);
          if rest[j] != x {
            assert rest[j] in multiset(s[1..]);
            var i :| 0 <= i < |s[1..]| && s[1..][i] == rest[j];
            assert s[i + 1] == rest[j];
          }
        }
      }
      SortedCons(s[0], rest, descending);
      [s[0]] + rest
  }

  /** An element that may stand before every element of a sorted sequence can lead it. */
  lemma SortedCons(a: int, rest: seq<int>, descending: bool)
    requires Sorted(rest, descending)
    requires forall j :: 0 <= j < |rest| ==> Before(a, rest[j], descending)
    ensures Sorted([a] + rest, descending)
  {
    var r := [a] + rest;
    forall i, j | 0 <= i < j < |r| ensures Before(r[i], r[j], descending) {
      assert r[j] == rest[j - 1];
      if i > 0 {
        assert r[i] == rest[i - 1];
      }
    }
  }

  /**
    The numeric sort the source performs with the comparators `(a, b) => a - b`
    (ascending) and `(a, b) => b - a` (descending).
   */
  function Sort(s: seq<int>, descending: bool): (r: seq<int>)
    ensures Sorted(r, descending)
    ensures multiset(r) == multiset(s)
    ensures |r| == |s|
  {
    if s == [] then []
    else
      assert s == [s[0]] + s[1..];
      var r := Insert(s[0], Sort(s[1..], descending), descending);
      assert |multiset(r)| == |multiset(s)|;
      r
  }

  /** Two sorted sequences holding the same multiset are equal. */
  lemma {:induction false} SortedUnique(a: seq<int>, b: seq<int>, descending: bool)
    requires Sorted(a, descending) && Sorted(b, descending)
    requires multiset(a) == multiset(b)
    ensures a == b
  {
    assert |a| == |multiset(a)| == |multiset(b)| == |b|;
    if a != [] {
      assert a[0] in multiset(b);
      assert b[0] in multiset(a);
      assert a[0] == b[0];
      TailsMultiset(a, b);
      SortedUnique(a[1..], b[1..], descending);
      assert a == [a[0]] + a[1..] && b == [b[0]] + b[1..];
    }
  }

  /** `findIndex(d => d > 0)`: the first position holding a positive value. */
  function FirstPositive(s: seq<int>): (k: Option<nat>)
    ensures k.Some? ==> k.value < |s| && s[k.value] > 0 && forall i :: 0 <= i < k.value ==> s[i] <= 0
    ensures k.None? ==> forall i :: 0 <= i < |s| ==> s[i] <= 0
  {
    if s == [] then None
    else if s[0] > 0 then Some(0)
    else
      match FirstPositive(s[1..])
      case Some(k) => Some(k + 1)
      case None => None
  }

  /** `splice(k, 1)` followed by `unshift`: the element at `k` moves to the front. */
  function MoveToFront(s: seq<int>, k: nat): (r: seq<int>)
    requires k < |s|
    ensures multiset(r) == multiset(s) && |r| == |s|
    ensures r[0] == s[k] && r[1..] == s[..k] + s[k + 1..]
  {
    assert s == s[..k] + [s[k]] + s[k + 1..];
    [s[k]] + s[..k] + s[k + 1..]
  }

  /**
    `formatDigits(digits, type)`: sort descending for `max`; for anything
    else sort ascending and, when the result starts with 0 and has more than
    one digit, move the first nonzero digit to the front.
   */
  function FormatDigits(digits: seq<int>, rule: Rule): (r: seq<int>)
    ensures multiset(r) == multiset(digits) && |r| == |digits|
    ensures rule == Max ==> Sorted(r, true)
  {
    match rule
    case Max => Sort(digits, true)
    case Min =>
      var sorted := Sort(digits, false);
      if |sorted| > 1 && sorted[0] == 0 then
        match FirstPositive(sorted)
        case Some(k) => MoveToFront(sorted, k)
        case None => sorted
      else
        sorted
  }

  /** The digits hold a 0, a nonzero digit and more than one digit: the case where `min` must not lead with 0. */
  predicate ZeroLed(s: seq<int>) {
    |s| > 1 && 0 in s && exists i :: 0 <= i < |s| && s[i] > 0
  }

  /**
    The `min` arrangement stated on the arrangement itself: ascending, except
    that when the digits would lead with 0 the least nonzero digit leads and
    the rest is ascending.
   */
  ghost predicate MinArranged(r: seq<int>) {
    if ZeroLed(r) then
      r[0] > 0 && LeastPositive(r, r[0]) && Sorted(r[1..], false)
    else
      Sorted(r, false)
  }

  /** `v` is no greater than any positive element of `s`. */
  ghost predicate LeastPositive(s: seq<int>, v: int) {
    forall i :: 0 <= i < |s| && s[i] > 0 ==> v <= s[i]
  }

  /** The arrangement a rule asks for: non-increasing for `max`, see `MinArranged` for `min`. */
  ghost predicate Arranged(r: seq<int>, rule: Rule) {
    match rule
    case Max => Sorted(r, true)
    case Min => MinArranged(r)
  }

  lemma ZeroLedMultiset(a: seq<int>, b: seq<int>)
    requires multiset(a) == multiset(b)
    ensures ZeroLed(a) <==> ZeroLed(b)
  {
    assert |a| == |multiset(a)| == |multiset(b)| == |b|;
    assert (0 in a) == (0 in multiset(a)) == (0 in multiset(b)) == (0 in b);
    if i :| 0 <= i < |a| && a[i] > 0 {
      assert a[i] in multiset(b);
    }
    if i :| 0 <= i < |b| && b[i] > 0 {
      assert b[i] in multiset(a);
    }
  }

  lemma LeastPositiveMultiset(a: seq<int>, b: seq<int>, v: int)
    requires multiset(a) == multiset(b) && LeastPositive(a, v)
    ensures LeastPositive(b, v)
  {
    forall i | 0 <= i < |b| && b[i] > 0 ensures v <= b[i] {
      assert b[i] in multiset(a);
    }
  }

  /** Removing one element keeps a sequence sorted. */
  lemma SortedWithout(s: seq<int>, k: nat, descending: bool)
    requires Sorted(s, descending) && k < |s|
    ensures Sorted(s[..k] + s[k + 1..], descending)
  {
    var t := s[..k] + s[k + 1..];
    forall i, j | 0 <= i < j < |t| ensures Before(t[i], t[j], descending) {
      var i' := if i < k then i else i + 1;
      var j' := if j < k then j else j + 1;
      assert t[i] == s[i'] && t[j] == s[j'];
    }
  }

  /** An ascending digit sequence that is `ZeroLed` starts with 0 and has a first positive element. */
  lemma SortedZeroLed(s: seq<int>)
    requires Sorted(s, false) && AllDigits(s) && ZeroLed(s)
    ensures s[0] == 0 && FirstPositive(s).Some?
  {
    var z :| 0 <= z < |s| && s[z] == 0;
    assert s[0] <= s[z];
  }

  /** Moving the first positive digit of an ascending, 0-led sequence to the front gives a `MinArranged` sequence. */
  lemma MoveToFrontArranged(s: seq<int>, k: nat)
    requires Sorted(s, false) && AllDigits(s) && ZeroLed(s)
    requires FirstPositive(s) == Some(k)
    ensures MinArranged(MoveToFront(s, k))
  {
    var r := MoveToFront(s, k);
    ZeroLedMultiset(r, s);
    SortedWithout(s, k, false);
    FirstPositiveLeast(s, k);
    LeastPositiveMultiset(s, r, s[k]);
  }

  /** In an ascending sequence the first positive element is the least positive one. */
  lemma FirstPositiveLeast(s: seq<int>, k: nat)
    requires Sorted(s, false) && FirstPositive(s) == Some(k)
    ensures LeastPositive(s, s[k])
  {
    forall i | 0 <= i < |s| && s[i] > 0 ensures s[k] <= s[i] {
      if k < i {
        assert Before(s[k], s[i], false);
      }
    }
  }

  /** The `min` branch of `formatDigits` yields a `MinArranged` sequence. */
  lemma FormatMinArranged(d: seq<int>)
    requires AllDigits(d)
    ensures MinArranged(FormatDigits(d, Min))
  {
    var s := Sort(d, false);
    var r := FormatDigits(d, Min);
    ZeroLedMultiset(s, d);
    forall i | 0 <= i < |s| ensures IsDigit(s[i]) {
      assert s[i] in multiset(d);
    }
    if ZeroLed(s) {
      SortedZeroLed(s);
      var k := FirstPositive(s).value;
      assert r == MoveToFront(s, k);
      MoveToFrontArranged(s, k);
    } else {
      assert r == s;
    }
  }

  /** For digits, `formatDigits` produces the arrangement its rule asks for. */
  lemma FormatDigitsArranged(d: seq<int>, rule: Rule)
    requires AllDigits(d)
    ensures Arranged(FormatDigits(d, rule), rule)
  {
    if rule == Min {
      FormatMinArranged(d);
    }
  }

  /** Equal multisets and equal first elements give equal multisets of the tails. */
  lemma TailsMultiset(a: seq<int>, b: seq<int>)
    requires multiset(a) == multiset(b) && |a| > 0 && |b| > 0 && a[0] == b[0]
    ensures multiset(a[1..]) == multiset(b[1..])
  {
    assert a == [a[0]] + a[1..] && b == [b[0]] + b[1..];
    assert multiset(a[1..]) == multiset(a) - multiset{a[0]};
    assert multiset(b[1..]) == multiset(b) - multiset{b[0]};
  }

  /** Two sequences with the same elements, each led by its least positive element and sorted after it, are equal. */
  lemma LedUnique(a: seq<int>, b: seq<int>)
    requires multiset(a) == multiset(b) && |a| > 0 && |b| > 0
    requires a[0] > 0 && LeastPositive(a, a[0]) && Sorted(a[1..], false)
    requires b[0] > 0 && LeastPositive(b, b[0]) && Sorted(b[1..], false)
    ensures a == b
  {
    assert a[0] == b[0] by {
      assert a[0] in multiset(b) && b[0] in multiset(a);
      var i :| 0 <= i < |b| && b[i] == a[0];
      var j :| 0 <= j < |a| && a[j] == b[0];
      assert b[0] <= b[i];
      assert a[0] <= a[j];
    }
    TailsMultiset(a, b);
    SortedUnique(a[1..], b[1..], false);
    assert a == [a[0]] + a[1..] && b == [b[0]] + b[1..];
  }

  /** Two `MinArranged` sequences holding the same digits are equal. */
  lemma MinArrangedUnique(a: seq<int>, b: seq<int>)
    requires multiset(a) == multiset(b) && MinArranged(a) && MinArranged(b)
    ensures a == b
  {
    ZeroLedMultiset(a, b);
    if ZeroLed(a) {
      LedUnique(a, b);
    } else {
      SortedUnique(a, b, false);
    }
  }

  /** The arrangement a rule asks for is unique: it is the output of `formatDigits`. */
  lemma ArrangedUnique(d: seq<int>, r: seq<int>, rule: Rule)
    requires AllDigits(d) && multiset(r) == multiset(d)
    requires Arranged(r, rule)
    ensures r == FormatDigits(d, rule)
  {
    var f := FormatDigits(d, rule);
    FormatDigitsArranged(d, rule);
    match rule
    case Max => SortedUnique(r, f, true);
    case Min => MinArrangedUnique(r, f);
  }

  /** `formatDigits` depends only on the multiset of its input. */
  lemma FormatDigitsMultisetOnly(a: seq<int>, b: seq<int>, rule: Rule)
    requires multiset(a) == multiset(b)
    ensures FormatDigits(a, rule) == FormatDigits(b, rule)
  {
    SortedUnique(Sort(a, rule == Max), Sort(b, rule == Max), rule == Max);
  }

  /** Formatting an already formatted arrangement changes nothing. */
  lemma FormatDigitsIdempotent(d: seq<int>, rule: Rule)
    ensures FormatDigits(FormatDigits(d, rule), rule) == FormatDigits(d, rule)
  {
    FormatDigitsMultisetOnly(FormatDigits(d, rule), d, rule);
  }

  /** A digit sequence is its own canonical arrangement exactly when it is arranged as its rule asks. */
  lemma FixedPointIffArranged(s: seq<int>, rule: Rule)
    requires AllDigits(s)
    ensures s == FormatDigits(s, rule) <==> Arranged(s, rule)
  {
    if Arranged(s, rule) {
      ArrangedUnique(s, s, rule);
    } else {
      FormatDigitsArranged(s, rule);
    }
  }

  /** {0,4,7} under `min` gives 4,0,7: the leading 0 is avoided. */
  lemma MinExample()
    ensures FormatDigits([0, 4, 7], Min) == [4, 0, 7]
  {
    var r := [4, 0, 7];
    assert r[1..] == [0, 7];
    assert ZeroLed(r) by { assert r[0] > 0; }
    ArrangedUnique([0, 4, 7], r, Min);
  }

  /** {2,4,6} under `max` gives 6,4,2. */
  lemma MaxExample()
    ensures FormatDigits([2, 4, 6], Max) == [6, 4, 2]
  {
    ArrangedUnique([2, 4, 6], [6, 4, 2], Max);
  }
}
