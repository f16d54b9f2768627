/**
 * The random source and the in-place shuffle of a vector.
 *
 * A run of the random number generator is modelled as the numbers it yields:
 * a function from the position of a draw to an arbitrary natural number.
 * Every function stands for one possible run, so whatever is proved for all
 * sources holds however the generator behaves; nothing is said about the
 * distribution.
 */
module Random {

  type Source = nat -> nat

  /** A draw in the half-open range [0, bound), as `gen_range(0..bound)` gives. */
  function GenIndex(src: Source, k: nat, bound: nat): (r: nat)
    requires bound > 0
    ensures r < bound
  {
    src(k) % bound
  }

  /**
   * Shuffles `s` the way `SliceRandom::shuffle` of the rand crate does (a
   * Fisher-Yates pass from the last slot down to slot 1, swapping each slot
   * with a slot drawn at or below it). The result is a permutation of `s`.
   */
  method Shuffle<T>(s: seq<T>, src: Source) returns (r: seq<T>)
    ensures |r| == |s|
    ensures multiset(r) == multiset(s)
  {
    r := s;
    var i := |r|;
    while i > 1
      invariant i <= |r| == |s|
      invariant multiset(r) == multiset(s)
    {
      i := i - 1;
      var j := GenIndex(src, i, i + 1);
      r := Swap(r, i, j);
    }
  }

  /** `s` with the elements at `i` and `j` exchanged. */
  function Swap<T>(s: seq<T>, i: nat, j: nat): (r: seq<T>)
    requires i < |s| && j < |s|
    ensures |r| == |s| && r[i] == s[j] && r[j] == s[i]
    ensures forall k :: 0 <= k < |s| && k != i && k != j ==> r[k] == s[k]
    ensures multiset(r) == multiset(s)
  {
    s[i := s[j]][j := s[i]]
  }
}
