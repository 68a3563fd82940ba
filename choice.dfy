/**
  The random choices of src/utils/generator.js, made explicit. A `Source`
  gives the k-th raw draw; callers thread a draw counter, so a run of the
  generator is a deterministic function of the source, and every sequence of
  choices the source could make is some `Source`.
 */
module Choice {

  /** `rand(k)` is the k-th raw random draw. */
  type Source = nat -> nat

  /** `getRandomInt(min, max)`: an integer in `[min, max]`. */
  function Between(rand: Source, k: nat, lo: int, hi: int): (v: int)
    requires lo <= hi
    ensures lo <= v <= hi
  {
    lo + rand(k) % (hi - lo + 1)
  }

  /** Every value `getRandomInt` can return is drawn by some source. */
  lemma BetweenCovers(lo: int, hi: int, v: int, k: nat)
    requires lo <= v <= hi
    ensures Between((_: nat) => (v - lo) as nat, k, lo, hi) == v
  {
  }

  /** `Math.floor(Math.random() * n)`: an index below `n`. */
  function Below(rand: Source, k: nat, n: nat): (v: nat)
    requires n > 0
    ensures v < n
  {
    rand(k) % n
  }

  /** `Math.random() > 0.5`. */
  function Coin(rand: Source, k: nat): bool {
    rand(k) % 2 == 1
  }

  /**
    `shuffle(array)`, a sort with a random comparator: some permutation of
    its input, chosen by the draws `rand(k)`, `rand(k + 1)`, ...; which
    permutations are likelier is not modelled.
   */
  function Shuffle<T>(s: seq<T>, rand: Source, k: nat): (r: seq<T>)
    ensures multiset(r) == multiset(s) && |r| == |s|
    decreases |s|
  {
    if s == [] then []
    else
      var i := rand(k) % |s|;
      assert s == s[..i] + [s[i]] + s[i + 1..];
      [s[i]] + Shuffle(s[..i] + s[i + 1..], rand, k + 1)
  }
}
