/** The engine's only external input: `Math.random()`. It is modelled as an
    injected stream of reals in [0, 1) read one after another, and `rngShuffle`
    as the Fisher-Yates shuffle that draws from it. */
module SudokuRandom {

  /** A value `Math.random()` can return. */
  type Unit = x: real | 0.0 <= x < 1.0

  /** `Math.floor(x * n)` for x in [0, 1) lies in [0, n - 1]. */
  lemma FloorBelow(x: Unit, n: int)
    requires n > 0
    ensures 0 <= (x * n as real).Floor < n
  {
    var y := x * n as real;
    assert 0.0 <= y;
    assert y < n as real by {
      assert (1.0 - x) * n as real > 0.0;
    }
  }

  /** The random source: the stream u of draws and how many have been used. */
  class Rng {
    const u: nat -> Unit
    var drawn: nat

    constructor (u: nat -> Unit)
      ensures this.u == u && drawn == 0
    {
      this.u := u;
      drawn := 0;
    }

    /** `Math.floor(Math.random() * n)`: the next draw scaled to an index below n. */
    method Below(n: int) returns (j: int)
      requires n > 0
      modifies this
      ensures 0 <= j < n
      ensures j == (u(old(drawn)) * n as real).Floor
      ensures drawn == old(drawn) + 1
    {
      FloorBelow(u(drawn), n);
      j := (u(drawn) * n as real).Floor;
      drawn := drawn + 1;
    }
  }

  /** `rngShuffle(arr)`: Fisher-Yates from the last index down to 1, swapping arr[i]
      with arr[j] for a drawn j in [0, i]. Whatever the draws, the array ends as a
      permutation of its old contents; one draw is used per index above 0. */
  method Shuffle<T>(a: array<T>, rng: Rng)
    modifies a, rng
    ensures multiset(a[..]) == multiset(old(a[..]))
    ensures rng.drawn == old(rng.drawn) + (if a.Length > 0 then a.Length - 1 else 0)
  {
    var i := a.Length - 1;
    while i > 0
      invariant -1 <= i < a.Length && (a.Length > 0 ==> 0 <= i)
      invariant multiset(a[..]) == multiset(old(a[..]))
      invariant rng.drawn == old(rng.drawn) + (a.Length - 1 - i)
    {
      var j := rng.Below(i + 1);
      a[i], a[j] := a[j], a[i];
      i := i - 1;
    }
  }
}
