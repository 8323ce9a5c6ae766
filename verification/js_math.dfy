/**
 * Integer models of the JavaScript arithmetic the dashboard uses on millisecond
 * counts. Every divisor in the source is a positive constant, so each operator
 * is stated for a positive divisor only.
 */
module JsMath {

  /** `Math.floor(a / b)`: Dafny's Euclidean division floors when b > 0. */
  function FloorDiv(a: int, b: int): (q: int)
    requires b > 0
    ensures q * b <= a < q * b + b
  {
    a / b
  }

  /** `Math.ceil(a / b)`. */
  function CeilDiv(a: int, b: int): (q: int)
    requires b > 0
    ensures q * b - b < a <= q * b
  {
    -((-a) / b)
  }

  /** `a % b`: JavaScript's remainder truncates, so it takes the sign of the dividend. */
  function JsRem(a: int, b: int): (r: int)
    requires b > 0
    ensures a >= 0 ==> 0 <= r < b && r == a % b
    ensures a < 0 ==> -b < r <= 0
  {
    if a >= 0 then a % b else -((-a) % b)
  }

  function Max(a: int, b: int): int {
    if a >= b then a else b
  }

  /** Ceiling division is monotone in its dividend. */
  lemma CeilDivMonotone(a: int, a': int, b: int)
    requires b > 0 && a <= a'
    ensures CeilDiv(a, b) <= CeilDiv(a', b)
  {
    var q, q' := CeilDiv(a, b), CeilDiv(a', b);
    if q > q' {
      MulMonotone(q' + 1, q, b);
      assert false;
    }
  }

  /** The floor quotient is the one integer q with q * b <= a < q * b + b. */
  lemma FloorDivUnique(a: int, b: int, q: int)
    requires b > 0 && q * b <= a < q * b + b
    ensures FloorDiv(a, b) == q
  {
    var q' := FloorDiv(a, b);
    if q' < q {
      MulMonotone(q' + 1, q, b);
      assert false;
    } else if q' > q {
      MulMonotone(q + 1, q', b);
      assert false;
    }
  }

  /** Floor division is monotone in its dividend. */
  lemma FloorDivMonotone(a: int, a': int, b: int)
    requires b > 0 && a <= a'
    ensures FloorDiv(a, b) <= FloorDiv(a', b)
  {
    var q, q' := FloorDiv(a, b), FloorDiv(a', b);
    if q > q' {
      MulMonotone(q' + 1, q, b);
      assert false;
    }
  }

  lemma MulMonotone(x: int, y: int, b: int)
    requires x <= y && b > 0
    ensures x * b <= y * b
  {
  }
}
