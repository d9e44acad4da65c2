/** The seeded random generator the load consumes. The bit-level generator is not
    modelled: each call takes the next raw value of a stream that is a fixed function
    of the seed, so a run is determined by the seed and the order of the calls. */
module JavaRandom {

  /** nextFloat yields a multiple of 2^-24 in [0, 1). */
  const FloatSteps: nat := 0x100_0000

  class Random {
    const seed: int
    const stream: (int, nat) -> nat
    /** How many values have been taken from the stream so far. */
    var drawn: nat

    constructor (seed: int, stream: (int, nat) -> nat)
      ensures this.seed == seed && this.stream == stream && drawn == 0
    {
      this.seed := seed;
      this.stream := stream;
      drawn := 0;
    }

    /** A value in [0, bound); a non-positive bound is refused, as nextInt refuses it. */
    method NextInt(bound: int) returns (r: int)
      requires bound > 0
      modifies this
      ensures 0 <= r < bound
      ensures drawn == old(drawn) + 1
    {
      r := stream(seed, drawn) % bound;
      drawn := drawn + 1;
    }

    /** A value in [0, 1). */
    method NextFloat() returns (f: real)
      modifies this
      ensures 0.0 <= f < 1.0
      ensures drawn == old(drawn) + 1
    {
      f := (stream(seed, drawn) % FloatSteps) as real / FloatSteps as real;
      drawn := drawn + 1;
    }
  }

  /** Collections.shuffle on a random-access list: from the last position down to the
      second, swap each element with one at a random position not after it. */
  method Shuffle<T(==)>(list: seq<T>, rnd: Random) returns (shuffled: seq<T>)
    modifies rnd
    ensures |shuffled| == |list|
    ensures multiset(shuffled) == multiset(list)
  {
    shuffled := list;
    var i := |list|;
    while i > 1
      invariant 0 <= i <= |list|
      invariant |shuffled| == |list|
      invariant multiset(shuffled) == multiset(list)
    {
      var j := rnd.NextInt(i);
      shuffled := Swap(shuffled, i - 1, j);
      i := i - 1;
    }
  }

  /** The list with the elements at positions i and j exchanged. */
  function Swap<T(==)>(s: seq<T>, i: nat, j: nat): (r: seq<T>)
    requires i < |s| && j < |s|
    ensures |r| == |s| && r[i] == s[j] && r[j] == s[i]
    ensures forall k :: 0 <= k < |s| && k != i && k != j ==> r[k] == s[k]
    ensures multiset(r) == multiset(s)
  {
    var r := s[i := s[j]][j := s[i]];
    SwapPreservesMultiset(s, i, j);
    r
  }

  lemma {:induction false} SwapPreservesMultiset<T>(s: seq<T>, i: nat, j: nat)
    requires i < |s| && j < |s|
    ensures multiset(s[i := s[j]][j := s[i]]) == multiset(s)
  {
    var t := s[i := s[j]];
    assert multiset(t) == multiset(s) - multiset{s[i]} + multiset{s[j]};
    assert multiset(t[j := s[i]]) == multiset(t) - multiset{t[j]} + multiset{s[i]};
  }
}
