/** Rust's `u32` with the saturating operators the core uses, and the two rounding
    helpers of src/lib.rs. */
module U32 {
  const MAX := 0xFFFF_FFFF

  type u32 = x: int | 0 <= x <= MAX

  function Min(a: int, b: int): int {
    if a <= b then a else b
  }

  function Max(a: int, b: int): int {
    if a >= b then a else b
  }

  function SatAdd(a: u32, b: u32): u32 {
    Min(MAX, a + b)
  }

  function SatMul(a: u32, b: u32): u32 {
    Min(MAX, a * b)
  }

  function SatSub(a: u32, b: u32): u32 {
    Max(0, a - b)
  }

  function RoundUp(x: u32, unit: u32): (r: u32)
    ensures x <= r
  {
    if unit == 0 then x
    else
      var rem := x % unit;
      if rem == 0 then x else SatAdd(x, unit - rem)
  }

  function CeilDiv(a: u32, b: u32): u32 {
    if b == 0 then 0
    else
      DivBounds(a, b);
      var q := a / b;
      if a % b == 0 then q else SatAdd(q, 1)
  }

  // ------------------------------------------------------------ nonlinear steps

  lemma MulMono(a: int, b: int, c: int)
    requires a <= b && 0 <= c
    ensures a * c <= b * c
  {
  }

  lemma MulAssoc(a: int, b: int, c: int)
    ensures a * (b * c) == (a * b) * c
    ensures a * (b * c) == (a * c) * b
  {
  }

  lemma DivBounds(a: nat, b: nat)
    requires b > 0
    ensures 0 <= a / b <= a
    ensures a == (a / b) * b + a % b
  {
    if a / b > a {
      MulMono(a + 1, a / b, b);
      MulMono(1, b, a + 1);
      assert false;
    }
  }

  /** Division is the greatest multiplier that stays within `a`. */
  lemma LeDiv(n: int, a: int, b: int)
    requires b > 0
    ensures n <= a / b <==> n * b <= a
  {
    var q := a / b;
    assert a == q * b + a % b;
    if n <= q {
      MulMono(n, q, b);
    } else {
      MulMono(q + 1, n, b);
    }
  }

  // ------------------------------------------------------- what the helpers mean

  /** `CeilDiv` is the least `n` whose `n` shares of `b` cover `a`; a zero `b` means
      that there is no cap, and gives zero. */
  lemma CeilDivIsLeastCover(a: u32, b: u32, n: int)
    ensures b == 0 ==> CeilDiv(a, b) == 0
    ensures b > 0 ==> (CeilDiv(a, b) <= n <==> a <= n * b)
  {
    if b > 0 {
      PositiveDivisorCover(a, b, n);
    }
  }

  lemma PositiveDivisorCover(a: u32, b: u32, n: int)
    requires b > 0
    ensures CeilDiv(a, b) <= n <==> a <= n * b
  {
    DivBounds(a, b);
    var q := a / b;
    if a % b != 0 {
      if q == MAX {
        MulMono(1, b, q);
        assert false;
      }
      assert CeilDiv(a, b) == q + 1;
    }
    if n <= q {
      MulMono(n, q, b);
      if n < q { MulMono(n + 1, q, b); }
    } else {
      MulMono(q + 1, n, b);
    }
  }

  /** The granularity rule without the 32-bit cap: the least multiple of `unit`
      that holds `x`, or `x` itself when there is no granularity. */
  ghost function Granted(x: nat, unit: nat): (g: nat)
    ensures g >= x
  {
    if unit == 0 || x % unit == 0 then x else x + unit - x % unit
  }

  lemma GrantedIsLeastMultiple(x: nat, unit: nat)
    requires unit > 0
    ensures exists k :: Granted(x, unit) == k * unit
    ensures forall k :: k * unit >= x ==> k * unit >= Granted(x, unit)
  {
    DivBounds(x, unit);
    var q := x / unit;
    var up := if x % unit == 0 then q else q + 1;
    assert Granted(x, unit) == up * unit;
    forall k | k * unit >= x
      ensures k * unit >= Granted(x, unit)
    {
      if k < up {
        MulMono(k, up - 1, unit);
      } else {
        MulMono(up, k, unit);
      }
    }
  }

  /** `RoundUp` is the granularity rule capped at `MAX`: the least multiple when one
      exists in 32 bits, and `MAX` (a multiple or not) when none does. */
  lemma RoundUpIsGrantedCapped(x: u32, unit: u32)
    ensures RoundUp(x, unit) == Min(MAX, Granted(x, unit))
    ensures unit > 0 ==>
      (RoundUp(x, unit) % unit == 0 <==> exists k: nat :: x <= k * unit <= MAX)
  {
    if unit > 0 {
      GrantedIsLeastMultiple(x, unit);
      var r := RoundUp(x, unit);
      DivBounds(r, unit);
      if r % unit == 0 {
        assert x <= (r / unit) * unit <= MAX;
      }
      if exists k: nat :: x <= k * unit <= MAX {
        var g :| Granted(x, unit) == g * unit;
        assert r == g * unit;
        MultipleHasNoRemainder(g, unit);
      }
    }
  }

  lemma MultipleHasNoRemainder(k: int, unit: int)
    requires unit > 0
    ensures (k * unit) % unit == 0
  {
    var m := k * unit;
    var q := m / unit;
    assert m == q * unit + m % unit;
    if q < k {
      MulMono(q + 1, k, unit);
    } else if q > k {
      MulMono(k + 1, q, unit);
    }
  }
}
