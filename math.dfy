/** Software division helpers (src/libc/math.rs): division by repeated
    subtraction and the rounding-up of its result, plus the ceiling division
    `uceil` that the slab allocator imports.

    `usize` and `isize` are modelled as `nat` and `int`: the loops never leave
    the range of their operands under the preconditions below. */
module Math {

  //------------------------------------------------
  // unsigned
  //------------------------------------------------

  /** `UDivModResult { quot, rem }`. */
  datatype UDivModResult = UDivModResult(quot: nat, rem: nat) {
    /** `round_up`: the quotient, plus one when there is a remainder. */
    function RoundUp(): (r: nat)
      ensures quot <= r <= quot + 1
      ensures r == quot <==> rem == 0
    {
      quot + if rem > 0 then 1 else 0
    }
  }

  /** `__aeabi_uidivmod(lhs, rhs)`: subtract `rhs` while the rest is strictly
      greater than `rhs`. The loop never ends for `rhs == 0 < lhs`, so that
      case is excluded. The remainder lies in `1..rhs`, not `0..rhs-1`: an
      exact multiple leaves a remainder of `rhs`. */
  method UIDivMod(lhs: nat, rhs: nat) returns (res: UDivModResult)
    requires rhs > 0 || lhs == 0
    ensures res.quot * rhs + res.rem == lhs
    ensures lhs <= rhs ==> res == UDivModResult(0, lhs)
    ensures lhs > 0 ==> 0 < res.rem <= rhs
  {
    var cnt: nat := 0;
    var iter: nat := lhs;
    while iter > rhs
      invariant cnt * rhs + iter == lhs
      invariant lhs > 0 ==> iter > 0
      invariant lhs <= rhs ==> cnt == 0 && iter == lhs
      decreases iter
    {
      iter := iter - rhs;
      cnt := cnt + 1;
    }
    res := UDivModResult(cnt, iter);
  }

  /** Ceiling division `uceil(a, b)`: the least `r` with `r * b >= a`. */
  function UCeil(a: nat, b: nat): (r: nat)
    requires b > 0
    ensures r * b >= a
    ensures r == 0 || (r - 1) * b < a
  {
    DivBounds(a + b - 1, b);
    (a + b - 1) / b
  }

  /** Rounding up by a positive divisor never exceeds the dividend. */
  lemma UCeilAtMost(a: nat, b: nat)
    requires b > 0
    ensures UCeil(a, b) <= a
    ensures UCeil(a, b) == 0 <==> a == 0
  {
    var r := UCeil(a, b);
    if r > a {
      MulMonotone(a, r - 1, b);
      MulMonotone(1, b, a);
    }
  }

  lemma DivBounds(n: nat, d: nat)
    requires d > 0
    ensures (n / d) * d <= n < (n / d) * d + d
  {
  }

  /** Quotient and remainder are unique once the remainder's range is fixed. */
  lemma {:induction false} DivUnique(n: int, d: nat, q1: int, r1: int, q2: int, r2: int)
    requires d > 0
    requires q1 * d + r1 == n && q2 * d + r2 == n
    requires 0 <= r1 < d && 0 <= r2 < d
    ensures q1 == q2 && r1 == r2
  {
    if q1 != q2 {
      var lo, hi := if q1 < q2 then q1 else q2, if q1 < q2 then q2 else q1;
      var k: nat := hi - lo;
      assert hi * d == lo * d + k * d;
      MulMonotone(1, k, d);
    }
  }

  /** What `__aeabi_uidivmod` computes, against Euclidean division: the same
      quotient and remainder when `rhs` does not divide `lhs`, and one less
      quotient with remainder `rhs` when it does. */
  lemma UDivModAgainstEuclid(lhs: nat, rhs: nat, res: UDivModResult)
    requires rhs > 0 && lhs > 0
    requires res.quot * rhs + res.rem == lhs && 0 < res.rem <= rhs
    ensures lhs % rhs != 0 ==> res.quot == lhs / rhs && res.rem == lhs % rhs
    ensures lhs % rhs == 0 ==> res.quot == lhs / rhs - 1 && res.rem == rhs
  {
    if res.rem < rhs {
      DivUnique(lhs, rhs, res.quot, res.rem, lhs / rhs, lhs % rhs);
    } else {
      assert (res.quot + 1) * rhs == lhs;
      DivUnique(lhs, rhs, res.quot + 1, 0, lhs / rhs, lhs % rhs);
    }
  }

  /** Despite the shifted remainder, `round_up` of a `__aeabi_uidivmod`
      result is the ceiling of the quotient. */
  lemma RoundUpIsCeil(lhs: nat, rhs: nat, res: UDivModResult)
    requires rhs > 0
    requires res.quot * rhs + res.rem == lhs
    requires lhs <= rhs ==> res == UDivModResult(0, lhs)
    requires lhs > 0 ==> 0 < res.rem <= rhs
    ensures res.RoundUp() == UCeil(lhs, rhs)
  {
    var c := UCeil(lhs, rhs);
    if lhs > 0 {
      var q := res.quot + 1;
      assert q * rhs == lhs + (rhs - res.rem);
      assert q * rhs >= lhs && (q - 1) * rhs < lhs;
      CeilUnique(lhs, rhs, q, c);
    }
  }

  /** The ceiling is the only `r` with `(r - 1) * b < a <= r * b`. */
  lemma CeilUnique(a: nat, b: nat, r1: nat, r2: nat)
    requires b > 0 && a > 0
    requires r1 * b >= a && (r1 - 1) * b < a
    requires r2 * b >= a && (r2 == 0 || (r2 - 1) * b < a)
    ensures r1 == r2
  {
    if r1 < r2 {
      assert r1 <= r2 - 1;
      MulMonotone(r1, r2 - 1, b);
    } else if r2 < r1 {
      assert r2 <= r1 - 1;
      MulMonotone(r2, r1 - 1, b);
    }
  }

  lemma MulMonotone(x: nat, y: nat, b: nat)
    requires x <= y
    ensures x * b <= y * b
  {
    var d: nat := y - x;
    assert y * b == x * b + d * b;
  }

  //------------------------------------------------
  // signed
  //------------------------------------------------

  /** `IDivModResult { quot, rem }`. */
  datatype IDivModResult = IDivModResult(quot: int, rem: int) {
    /** `round_up`: the quotient, plus one when the remainder is positive. */
    function RoundUp(): (r: int)
      ensures quot <= r <= quot + 1
      ensures r == quot + 1 <==> rem > 0
    {
      quot + if rem > 0 then 1 else 0
    }
  }

  /** `__aeabi_idivmod(lhs, rhs)`: the same loop over signed integers. It
      returns `(0, lhs)` at once when `lhs <= rhs` (any signs); otherwise it
      only ends when `rhs > 0`. */
  method IDivMod(lhs: int, rhs: int) returns (res: IDivModResult)
    requires lhs <= rhs || rhs > 0
    ensures res.quot * rhs + res.rem == lhs
    ensures lhs <= rhs ==> res == IDivModResult(0, lhs)
    ensures lhs > rhs ==> res.quot > 0 && 0 < res.rem <= rhs
  {
    var cnt := 0;
    var iter := lhs;
    while iter > rhs
      invariant cnt * rhs + iter == lhs
      invariant cnt >= 0 && (cnt > 0 ==> 0 < iter)
      invariant lhs <= rhs ==> cnt == 0 && iter == lhs
      invariant lhs > rhs ==> rhs > 0 && (iter > rhs || cnt > 0)
      decreases iter
    {
      iter := iter - rhs;
      cnt := cnt + 1;
    }
    res := IDivModResult(cnt, iter);
  }

  /** On operands that are both representable as `usize`, the signed and the
      unsigned helpers agree: their contracts pin down one result. */
  lemma SignedAgreesWithUnsigned(lhs: nat, rhs: nat, u: UDivModResult, s: IDivModResult)
    requires rhs > 0
    requires u.quot * rhs + u.rem == lhs
    requires lhs <= rhs ==> u == UDivModResult(0, lhs)
    requires lhs > 0 ==> 0 < u.rem <= rhs
    requires s.quot * rhs + s.rem == lhs
    requires lhs <= rhs ==> s == IDivModResult(0, lhs)
    requires lhs > rhs ==> s.quot > 0 && 0 < s.rem <= rhs
    ensures s.quot == u.quot && s.rem == u.rem
  {
    if lhs > rhs {
      DivUnique(lhs - 1, rhs, u.quot, u.rem - 1, s.quot, s.rem - 1);
    }
  }

  /** `round_up` of a `__aeabi_idivmod` result with a positive divisor: the
      ceiling of the quotient for a positive dividend, but 0 for every
      dividend at or below 0, where the true ceiling `-((-lhs) / rhs)` is
      negative once `lhs <= -rhs`. */
  lemma SignedRoundUp(lhs: int, rhs: int, s: IDivModResult)
    requires rhs > 0
    requires s.quot * rhs + s.rem == lhs
    requires lhs <= rhs ==> s == IDivModResult(0, lhs)
    requires lhs > rhs ==> s.quot > 0 && 0 < s.rem <= rhs
    ensures lhs > 0 ==> s.RoundUp() == UCeil(lhs, rhs)
    ensures lhs <= 0 ==> s.RoundUp() == 0
    ensures lhs <= -rhs ==> -((-lhs) / rhs) < s.RoundUp()
  {
    if lhs > 0 {
      var u := UDivModResult(s.quot as nat, s.rem as nat);
      RoundUpIsCeil(lhs, rhs, u);
    } else if lhs <= -rhs {
      DivBounds(-lhs, rhs);
    }
  }
}
