/** The map from a grid cell to the point of the vector field it shows,
    `(c / N) * 10 - 5` on each axis with the vertical axis flipped, in exact
    real arithmetic. */
module Field {

  /** `x_rep` for column `c` of an `n`-cell grid. */
  function FieldX(c: int, n: nat): real
    requires n > 0
  {
    (c as real / n as real) * 10.0 - 5.0
  }

  /** `y_rep` for row `c`: the negation of the same map, so that row 0 is at
      the top of the field. */
  function FieldY(c: int, n: nat): real
    requires n > 0
  {
    -((c as real / n as real) * 10.0 - 5.0)
  }

  /** Every cell of the grid lands in [-5, 5) horizontally and in (-5, 5]
      vertically, the vertical value being the negated horizontal one. */
  lemma FieldRange(c: int, n: nat)
    requires n > 0 && 0 <= c < n
    ensures FieldY(c, n) == -FieldX(c, n)
    ensures -5.0 <= FieldX(c, n) < 5.0
    ensures -5.0 < FieldY(c, n) <= 5.0
  {
    var q := c as real / n as real;
    assert q * n as real == c as real;
    assert (1.0 - q) * n as real == (n - c) as real;
  }

  /** Neighbouring columns are one grid step of `10 / n` apart, so the map
      is strictly increasing (and `FieldY` strictly decreasing). */
  lemma FieldStep(c: int, n: nat)
    requires n > 0
    ensures FieldX(c + 1, n) == FieldX(c, n) + 10.0 / n as real
    ensures FieldY(c + 1, n) < FieldY(c, n)
  {
    assert (c + 1) as real / n as real == c as real / n as real + 1.0 / n as real;
  }

  /** On the game's 10-cell grid the map is a plain shift: column `x` goes
      to `x - 5` and row `y` to `5 - y`. */
  lemma FieldOnTenGrid(x: int, y: int)
    ensures FieldX(x, 10) == x as real - 5.0
    ensures FieldY(y, 10) == 5.0 - y as real
  {
  }
}
