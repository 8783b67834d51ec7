/** The one use the game makes of `Math.random()`: a draw `r` in [0, 1)
    scaled by a count `n` and floored, `Math.floor(Math.random() * n)`.
    Every draw is an explicit real argument; there is no random source. */
module RandomDraw {

  /** A value `Math.random()` can return. */
  predicate IsUnit(r: real) {
    0.0 <= r < 1.0
  }

  /** Every draw of a sequence is a value `Math.random()` can return. */
  predicate AllUnit(rs: seq<real>) {
    forall k :: 0 <= k < |rs| ==> IsUnit(rs[k])
  }

  /** `Math.floor(r * n)`: an index into a collection of `n` elements, and
      the index whose slot [k/n, (k+1)/n) holds `r`. */
  function Below(r: real, n: nat): (k: nat)
    requires IsUnit(r) && n > 0
    ensures k < n
    ensures k as real <= r * n as real < k as real + 1.0
  {
    assert 0.0 <= r * n as real < n as real by {
      assert r * n as real < 1.0 * n as real;
    }
    (r * n as real).Floor
  }
}
