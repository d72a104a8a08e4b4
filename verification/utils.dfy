/**
 Unsigned quotient and remainder, as used by the grid's index decoding.
 Dafny's `/` and `%` on `nat` truncate exactly like Go's unsigned `uint`
 division; the Go overflow bound of `uint` is not modelled.
 */
module Utils {

  /** Quotient and remainder of `n` by `den`. A zero denominator is Go's
      integer-divide-by-zero panic, so callers must rule it out. */
  function DivMod(n: nat, den: nat): (r: (nat, nat))
    requires den > 0
    ensures r.0 * den + r.1 == n
    ensures r.1 < den
    ensures r.0 <= n
  {
    var q, r := n / den, n % den;
    assert q * den + r == n by {
      assert n == den * (n / den) + n % den;
    }
    assert q <= n by {
      if q > 0 { MulMonotone(q, 1, den); }
    }
    (q, r)
  }

  /** The quotient/remainder pair is the only one that reassembles `n`
      with a remainder below the denominator. */
  lemma DivModUnique(n: nat, den: nat, q: nat, r: nat)
    requires den > 0
    requires r < den
    requires q * den + r == n
    ensures DivMod(n, den) == (q, r)
  {
    var (q', r') := DivMod(n, den);
    if q' < q {
      MulMonotone(den, q' + 1, q);
      assert false;
    } else if q < q' {
      MulMonotone(den, q + 1, q');
      assert false;
    }
  }

  /** Multiplication by a natural number is monotone. */
  lemma MulMonotone(a: nat, b: nat, c: nat)
    requires b <= c
    ensures b * a <= c * a
  {
    assert c * a == b * a + (c - b) * a;
  }
}
