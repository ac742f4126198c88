/** `Math.floor(Math.random() * n)`, the index both back ends draw a recipient with.
    `Math.random()` is not modelled as a generator: its value is a parameter `rand`,
    read as an exact real in [0, 1). */
module JsMath {

  /** `Math.floor(rand * n)`, with `rand` standing for the value `Math.random()` returned. */
  function PickIndex(rand: real, n: nat): (k: nat)
    requires 0.0 <= rand < 1.0 && n > 0
    ensures k < n
    ensures k as real <= rand * n as real < (k + 1) as real
  {
    var x := rand * n as real;
    assert 0.0 <= x < n as real;
    x.Floor
  }

  /** Every index can be drawn: the value `k / n` of `Math.random()` selects index `k`. */
  lemma EveryIndexReachable(n: nat, k: nat)
    requires k < n
    ensures 0.0 <= k as real / n as real < 1.0
    ensures PickIndex(k as real / n as real, n) == k
  {
    var rand := k as real / n as real;
    assert rand * n as real == k as real;
  }
}
