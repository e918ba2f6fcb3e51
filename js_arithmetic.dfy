/**
 * JavaScript's remainder operator and the facts about Euclidean division the
 * tab-stop proofs rely on. Dafny's `%` is Euclidean (never negative); the
 * JavaScript `%` truncates toward zero, so its result takes the sign of the
 * dividend.
 */
module JsArithmetic {

  /** For a positive factor, multiplying by a count of at least one gives at least the factor. */
  lemma {:induction false} MulAtLeast(k: int, b: int)
    requires k >= 1 && b > 0
    ensures k * b >= b
  {
    if k > 1 {
      MulAtLeast(k - 1, b);
      assert k * b == (k - 1) * b + b;
    }
  }

  /** Quotient and remainder are unique: any decomposition a == q*b + s with 0 <= s < b is Dafny's. */
  lemma DivModUnique(a: int, b: int, q: int, s: int)
    requires b > 0 && 0 <= s < b && a == q * b + s
    ensures a / b == q && a % b == s
  {
    var q', s' := a / b, a % b;
    assert a == q' * b + s';
    if q' < q {
      MulAtLeast(q - q', b);
    } else if q < q' {
      MulAtLeast(q' - q, b);
    }
  }

  /** A non-negative number splits into a non-negative quotient and its remainder. */
  lemma NonNegativeQuotient(a: int, b: int)
    requires a >= 0 && b > 0
    ensures a / b >= 0 && a % b <= a && a == (a / b) * b + a % b
  {
  }

  /** JavaScript's `a % b` for a positive divisor: truncated toward zero. */
  function JsRem(a: int, b: int): (r: int)
    requires b > 0
    ensures -b < r < b
    ensures a >= 0 ==> 0 <= r
    ensures a <= 0 ==> r <= 0
    ensures (a - r) % b == 0
  {
    if a >= 0 then
      DivModUnique(a - a % b, b, a / b, 0);
      a % b
    else
      var m := -a;
      DivModUnique(-(m - m % b), b, -(m / b), 0);
      -(m % b)
  }

  /** On a non-negative dividend the two remainders agree. */
  lemma JsRemOfNonNegative(a: int, b: int)
    requires a >= 0 && b > 0
    ensures JsRem(a, b) == a % b
  {
  }

  /** Counterexample to reading JavaScript's `%` as Dafny's: they differ on a negative dividend. */
  lemma JsRemDiffersOnNegative()
    ensures JsRem(-2, 4) == -2 && (-2) % 4 == 2
  {
  }
}
