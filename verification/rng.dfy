/**
 * The two random steps of the generator, `random.shuffle` and
 * `random.sample(population, len(population))`, written out as the standard
 * library's algorithms over a stream of draws supplied by the caller: the
 * source of randomness is a parameter, and all that is promised about the
 * outcome is that it is a permutation.
 */
module Randomness {

  /** A stream of random draws; `Below(n)` stands for `random._randbelow(n)`. */
  class Rng {
    var draws: seq<nat>

    constructor (draws: seq<nat>)
      ensures this.draws == draws
    {
      this.draws := draws;
    }

    /** The next draw reduced below n; an exhausted stream yields 0. */
    method Below(n: nat) returns (j: nat)
      requires n >= 1
      modifies this
      ensures j < n
      ensures old(draws) == [] ==> j == 0 && draws == []
      ensures old(draws) != [] ==> j == old(draws)[0] % n && draws == old(draws)[1..]
    {
      if draws == [] {
        j := 0;
      } else {
        j := draws[0] % n;
        draws := draws[1..];
      }
    }

    /** `random.shuffle(xs)`: Fisher-Yates from the last position down. */
    method Shuffle<T>(xs: seq<T>) returns (ys: seq<T>)
      modifies this
      ensures |ys| == |xs| && multiset(ys) == multiset(xs)
    {
      ys := xs;
      var i := |ys| - 1;
      while i >= 1
        invariant -1 <= i < |ys| || |ys| == 0
        invariant |ys| == |xs| && multiset(ys) == multiset(xs)
        decreases i
      {
        var j := Below(i + 1);
        ys := ys[i := ys[j]][j := ys[i]];
        i := i - 1;
      }
    }

    /**
     * `random.sample(xs, len(xs))` (the pool algorithm, which a full-length
     * sample always takes): draw from a shrinking pool, filling the hole with
     * the pool's last element.
     */
    method Sample<T>(xs: seq<T>) returns (ys: seq<T>)
      modifies this
      ensures |ys| == |xs| && multiset(ys) == multiset(xs)
    {
      var n := |xs|;
      var pool := xs;
      ys := [];
      var m := n;
      assert pool[..m] == xs;
      while m > 0
        invariant 0 <= m <= n && |pool| == n && |ys| == n - m
        invariant multiset(ys) + multiset(pool[..m]) == multiset(xs)
      {
        var j := Below(m);
        SampleStep(ys, pool, m, j, xs);
        ys := ys + [pool[j]];
        pool := pool[j := pool[m - 1]];
        m := m - 1;
      }
      assert pool[..0] == [];
    }
  }

  /** One draw of `sample`: moving pool element j to the result keeps the multiset of everything. */
  lemma SampleStep<T>(ys: seq<T>, pool: seq<T>, m: nat, j: nat, xs: seq<T>)
    requires j < m <= |pool| && multiset(ys) + multiset(pool[..m]) == multiset(xs)
    ensures multiset(ys + [pool[j]]) + multiset(pool[j := pool[m - 1]][..m - 1]) == multiset(xs)
  {
    PoolStep(pool, m, j);
    assert multiset(ys + [pool[j]]) == multiset(ys) + multiset{pool[j]};
  }

  /** Taking element j out of the pool prefix of length m and moving the last one into its place. */
  lemma PoolStep<T>(pool: seq<T>, m: nat, j: nat)
    requires j < m <= |pool|
    ensures multiset(pool[j := pool[m - 1]][..m - 1]) + multiset{pool[j]} == multiset(pool[..m])
  {
    var after := pool[j := pool[m - 1]];
    if j == m - 1 {
      assert after[..m - 1] == pool[..m - 1];
      assert pool[..m] == pool[..m - 1] + [pool[m - 1]];
    } else {
      assert pool[..m] == pool[..j] + [pool[j]] + pool[j + 1..m - 1] + [pool[m - 1]];
      assert after[..m - 1] == pool[..j] + [pool[m - 1]] + pool[j + 1..m - 1];
    }
  }
}
