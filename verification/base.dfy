/** Small shared vocabulary: an optional value and a random draw. */
module Base {

  /** A value that may be absent: a missing form field, a DOM element
      that `getElementById` did not find, a browser API that is undefined. */
  datatype Option<+T> = None | Some(value: T)

  /** One result of `Math.random()`: a real number in the half-open interval
      [0, 1). Every random draw of the scripts is passed in as a `Draw`. */
  type Draw = r: real | 0.0 <= r < 1.0 witness 0.0

  /** `Math.random() * n`: a point of [0, n], and of [0, n) when `n` is
      positive. */
  function Scale(r: Draw, n: real): (v: real)
    requires n >= 0.0
    ensures 0.0 <= v <= n
    ensures n > 0.0 ==> v < n
  {
    var v := r * n;
    var rest := (1.0 - r) * n;
    assert n - v == rest;
    assert rest >= 0.0 && (n > 0.0 ==> rest > 0.0) by {
      if n > 0.0 {
        assert 1.0 - r > 0.0;
      }
    }
    v
  }

  /** `Math.floor(r * n)` for a draw `r`, as used to pick a random index
      or a random frame offset. */
  function FloorScaled(r: Draw, n: nat): (k: int)
    ensures n > 0 ==> 0 <= k < n
    ensures n == 0 ==> k == 0
  {
    (r * n as real).Floor
  }

  lemma SquareNonNegative(x: real)
    ensures x * x >= 0.0
  {
    if x < 0.0 {
      assert x * x == (-x) * (-x);
    }
  }

  lemma ProductNonNegative(x: real, y: real)
    requires x >= 0.0 && y >= 0.0
    ensures x * y >= 0.0
  {
  }
}
