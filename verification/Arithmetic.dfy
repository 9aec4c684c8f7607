/** 64-bit division built from the 32-bit DIVL instruction. */
module Arithmetic {
  import opened Bits

  const TWO31: int := 0x8000_0000
  const TWO32: int := 0x1_0000_0000
  const TWO63: int := 0x8000_0000_0000_0000
  const TWO64: int := 0x1_0000_0000_0000_0000

  type U32 = x: nat | x < TWO32
  type U64 = x: nat | x < TWO64
  type I32 = x: int | -TWO31 <= x < TWO31
  type I64 = x: int | -TWO63 <= x < TWO63

  datatype Division<+T> = Trap | Quotient(value: T)

  function Wrap64(x: int): (r: U64) { x % TWO64 }

  function Signed32(x: int): (r: I32)
    ensures -TWO31 <= x < TWO31 ==> r == x
  {
    (x + TWO31) % TWO32 - TWO31
  }

  function Signed64(x: int): (r: I64)
    ensures -TWO63 <= x < TWO63 ==> r == x
  {
    (x + TWO63) % TWO64 - TWO63
  }

  /** DIVL: a divide error when the divisor is zero or the quotient needs more than 32 bits. */
  function Divl(n: U64, d: U32): Division<U32> {
    if d == 0 || n / d >= TWO32 then Trap else Quotient(n / d)
  }

  /** Leading zero bits of a nonzero word: how often it doubles before bit 31 is set. */
  function Nlz(x: U32): (n: nat)
    requires x > 0
    decreases TWO32 - x
  {
    if x >= TWO31 then 0 else 1 + Nlz(2 * x)
  }

  lemma NlzNormalises(x: U32)
    requires x > 0
    ensures Nlz(x) <= 31
    ensures TWO31 <= x * Pow2(Nlz(x)) < TWO32
  {
    assert x * Pow2(31) >= TWO31 by { Pow2Constants(); }
    NlzBound(x, 31);
    NlzProduct(x);
  }

  lemma {:induction false} NlzProduct(x: U32)
    requires x > 0
    ensures TWO31 <= x * Pow2(Nlz(x)) < TWO32
    decreases TWO32 - x
  {
    if x < TWO31 {
      NlzProduct(2 * x);
      Reassociate(x, 2, Pow2(Nlz(2 * x)));
    }
  }

  lemma Reassociate(a: int, b: int, c: int)
    ensures (a * b) * c == a * (b * c)
  {
  }

  lemma {:induction false} NlzBound(x: U32, k: nat)
    requires x > 0 && x * Pow2(k) >= TWO31
    ensures Nlz(x) <= k
    decreases k
  {
    if x < TWO31 {
      assert x * Pow2(k) == (2 * x) * Pow2(k - 1);
      NlzBound(2 * x, k - 1);
    }
  }

  lemma {:induction false} NlzSkips(x: U32, k: nat)
    requires x > 0 && x * Pow2(k) < TWO32
    ensures Nlz(x) == k + Nlz(x * Pow2(k))
    decreases k
  {
    if k > 0 {
      assert x * Pow2(k) == (2 * x) * Pow2(k - 1);
      assert 2 * x <= (2 * x) * Pow2(k - 1) by { Bits.MulAwayFromZero(2 * x, Pow2(k - 1)); }
      NlzSkips(2 * x, k - 1);
    }
  }

  lemma Skip16(x: U32)
    requires 0 < x <= 0x0000_FFFF
    ensures Nlz(x) == 16 + Nlz(x * 0x1_0000)
  {
    assert Pow2(16) == 0x1_0000 by { Pow2Constants(); }
    NlzSkips(x, 16);
  }

  lemma Skip8(x: U32)
    requires 0 < x <= 0x00FF_FFFF
    ensures Nlz(x) == 8 + Nlz(x * 0x100)
  {
    assert Pow2(8) == 0x100 by { Pow2Constants(); }
    NlzSkips(x, 8);
  }

  lemma Skip4(x: U32)
    requires 0 < x <= 0x0FFF_FFFF
    ensures Nlz(x) == 4 + Nlz(x * 16)
  {
    assert Pow2(4) == 16 by { Pow2Constants(); }
    NlzSkips(x, 4);
  }

  lemma Skip2(x: U32)
    requires 0 < x <= 0x3FFF_FFFF
    ensures Nlz(x) == 2 + Nlz(x * 4)
  {
    assert Pow2(2) == 4 by { Pow2Constants(); }
    NlzSkips(x, 2);
  }

  lemma Skip1(x: U32)
    requires 0 < x <= 0x7FFF_FFFF
    ensures Nlz(x) == 1 + Nlz(x * 2)
  {
    assert Pow2(1) == 2;
    NlzSkips(x, 1);
  }

  /** The step-by-step search of the source counts exactly the leading zeros. */
  method CountLeadingZeros(x0: U32) returns (n: nat)
    requires x0 > 0
    ensures n == Nlz(x0)
  {
    var x: U32 := x0;
    n := 0;
    if x <= 0x0000_FFFF {
      Skip16(x);
      n, x := n + 16, x * 0x1_0000;
    }
    assert 0x1_0000 <= x && Nlz(x0) == n + Nlz(x);
    if x <= 0x00FF_FFFF {
      Skip8(x);
      n, x := n + 8, x * 0x100;
    }
    assert 0x100_0000 <= x && Nlz(x0) == n + Nlz(x);
    if x <= 0x0FFF_FFFF {
      Skip4(x);
      n, x := n + 4, x * 16;
    }
    assert 0x1000_0000 <= x && Nlz(x0) == n + Nlz(x);
    if x <= 0x3FFF_FFFF {
      Skip2(x);
      n, x := n + 2, x * 4;
    }
    assert 0x4000_0000 <= x && Nlz(x0) == n + Nlz(x);
    if x <= 0x7FFF_FFFF {
      Skip1(x);
      n := n + 1;
    }
  }

  // ------------------------------------------------------------------
  // The large-divisor branch of udiv64.

  /** s, 2^s, 2^(32-s) and the normalised divisor v, with the facts the estimate rests on. */
  ghost predicate Scaling(d: U64, p: nat, e: nat, v: nat) {
    && p >= 1 && e >= 2 && p * e == TWO32
    && TWO63 <= d * p < TWO64
    && v == d * p / TWO32
  }

  lemma ScalingHolds(d: U64)
    requires d >= TWO32
    ensures var s := Nlz(d / TWO32);
            s <= 31 && Scaling(d, Pow2(s), Pow2(32 - s), d * Pow2(s) / TWO32)
  {
    var d1: U32 := d / TWO32;
    NlzNormalises(d1);
    var s := Nlz(d1);
    var p, e := Pow2(s), Pow2(32 - s);
    assert p * e == TWO32 && e >= 2 by {
      Pow2Constants();
      Pow2Adds(s, 32 - s);
      Pow2Grows(1, 32 - s);
    }
    ShiftedRange(d, d1, p, e);
  }

  lemma ShiftedRange(d: U64, d1: nat, p: nat, e: nat)
    requires d1 == d / TWO32 && p * e == TWO32 && TWO31 <= d1 * p < TWO32 && p >= 1
    ensures TWO63 <= d * p < TWO64
  {
    assert d1 + 1 <= e by {
      if d1 >= e { MulMonotone(e, d1, p); }
    }
    MulMonotone(d1 + 1, e, p);
    var lo, hi := TWO32 * d1, TWO32 * (d1 + 1);
    MulMonotone(lo, d, p);
    MulMonotone(d + 1, hi, p);
    Reassociate(TWO32, d1, p);
    Reassociate(TWO32, d1 + 1, p);
    assert (d + 1) * p == d * p + p;
  }

  lemma MulMonotone(a: int, b: int, c: int)
    requires a <= b && c >= 0
    ensures a * c <= b * c
  {
    assert (b - a) * c >= 0;
  }

  lemma MulCancel(a: int, b: int, c: int)
    requires c > 0 && a * c <= b * c
    ensures a <= b
  {
    if a > b { MulMonotone(b + 1, a, c); }
  }

  lemma DivDiv(n: nat, a: nat, b: nat)
    requires a > 0 && b > 0
    ensures a * b > 0 && n / a / b == n / (a * b)
  {
    var q := n / a / b;
    var r := n - (a * b) * q;
    var x := n / a;
    Bits.MulAwayFromZero(a, b);
    assert x == b * q + x % b;
    assert n == a * x + n % a;
    assert a * x == a * (b * q) + a * (x % b);
    assert a * (b * q) == (a * b) * q;
    MulMonotone(x % b, b - 1, a);
    assert (b - 1) * a == a * b - a;
    assert (x % b) * a >= 0;
    DivModUnique(n, a * b, q, r);
  }

  /** v * e approximates d from below with an error less than e. */
  lemma ApproximatesDivisor(d: U64, p: nat, e: nat, v: nat)
    requires Scaling(d, p, e, v)
    ensures TWO31 <= v < TWO32
    ensures v * e <= d < v * e + e
  {
    assert v * TWO32 <= d * p < (v + 1) * TWO32;
    assert v * (p * e) == (v * e) * p;
    assert (v + 1) * (p * e) == ((v + 1) * e) * p;
    MulCancel(v * e, d, p);
    if d >= (v + 1) * e { MulMonotone((v + 1) * e, d, p); }
    assert (v + 1) * e == v * e + e;
  }

  /** The estimate is the true quotient or one more. */
  lemma EstimateIsClose(n: U64, d: U64, p: nat, e: nat, v: nat)
    requires Scaling(d, p, e, v) && n >= d
    ensures v * e > 0
    ensures n / d <= n / (v * e) <= n / d + 1
  {
    ApproximatesDivisor(d, p, e, v);
    MulMonotone(TWO31, v, e);
    SlackIsEnough(n, d, p, e, v);
    CloseDivisors(n, d, v * e, e);
  }

  /** Dividing by D instead of d, where D <= d < D + e, changes the quotient by at most one. */
  lemma CloseDivisors(n: nat, d: nat, D: nat, e: nat)
    requires 0 < D <= d < D + e
    requires (n / d + 1) * (e - 1) <= D
    ensures n / d <= n / D <= n / d + 1
  {
    var Q := n / d;
    DivIsQuotient(n, d);
    CloseProducts(n, d, D, e, Q);
    QuotientAtLeast(n, D, Q);
    QuotientBelow(n, D, Q + 2);
  }

  lemma CloseProducts(n: nat, d: nat, D: nat, e: nat, Q: nat)
    requires 0 < D <= d < D + e && IsQuotient(n, d, Q) && (Q + 1) * (e - 1) <= D
    ensures D * Q <= n < D * (Q + 2)
  {
    MulMonotone(D, d, Q);
    MulMonotone(d, D + (e - 1), Q + 1);
    assert (D + (e - 1)) * (Q + 1) == D * (Q + 1) + (Q + 1) * (e - 1);
    assert D * (Q + 1) + D == D * (Q + 2);
    assert d * (Q + 1) == d * Q + d;
  }

  lemma SlackIsEnough(n: U64, d: U64, p: nat, e: nat, v: nat)
    requires Scaling(d, p, e, v) && n >= d && v >= TWO31
    ensures (n / d + 1) * (e - 1) <= v * e
  {
    var Q := n / d;
    assert Q + 1 <= 2 * p by { QuotientBelow(n, d, 2 * p) by { assert d * (2 * p) == 2 * (d * p); } }
    MulMonotone(Q + 1, 2 * p, e - 1);
    assert (2 * p) * (e - 1) == 2 * (p * e) - 2 * p;
    MulMonotone(TWO31, v, e);
    if e > 2 {
      NotThree(p, e);
      MulMonotone(4, e, TWO31);
    }
  }

  /** A divisor of 2^32 that is more than two is at least four. */
  lemma NotThree(p: nat, e: nat)
    requires p * e == TWO32 && e > 2
    ensures e >= 4
  {
    assert e == 3 ==> p * e == 3 * p;
  }

  lemma QuotientAtLeast(n: nat, m: nat, q: nat)
    requires m > 0 && m * q <= n
    ensures q <= n / m
  {
    if n / m < q { MulMonotone(n / m + 1, q, m); }
  }

  lemma QuotientBelow(n: nat, m: nat, q: nat)
    requires m > 0 && n < m * q
    ensures n / m < q
  {
    if n / m >= q { MulMonotone(q, n / m, m); }
  }

  /** The small-divisor branch: DIVL cannot trap and the two partial quotients add up. */
  lemma SmallDivisor(n1: U32, n0: U32, d: U32)
    requires d > 0
    ensures TWO32 * (n1 % d) + n0 < TWO32 * d < TWO64
    ensures (TWO32 * (n1 % d) + n0) / d < TWO32
    ensures (TWO32 * (n1 % d) + n0) / d + TWO32 * (n1 / d) == (TWO32 * n1 + n0) / d
    ensures 0 <= (TWO32 * n1 + n0) / d < TWO64
  {
    SmallParts(n1, n0, d, n1 / d, n1 % d);
    QuotientShrinks(TWO32 * n1 + n0, d);
  }

  lemma SmallParts(n1: U32, n0: U32, d: U32, t: int, r: int)
    requires d > 0 && 0 <= r < d && 0 <= t && n1 == d * t + r
    ensures TWO32 * r + n0 < TWO32 * d < TWO64
    ensures (TWO32 * r + n0) / d < TWO32
    ensures (TWO32 * r + n0) / d + TWO32 * t == (TWO32 * n1 + n0) / d
  {
    var m := TWO32 * r + n0;
    QuotientBelow(m, d, TWO32);
    DivIsQuotient(m, d);
    AddQuotients(n1, n0, d, t, r, m / d);
    IsQuotientMeansDiv(TWO32 * n1 + n0, d, m / d + TWO32 * t);
  }

  lemma AddQuotients(n1: U32, n0: U32, d: U32, t: int, r: int, q: int)
    requires n1 == d * t + r && IsQuotient(TWO32 * r + n0, d, q)
    ensures IsQuotient(TWO32 * n1 + n0, d, q + TWO32 * t)
  {
    assert d * (q + TWO32 * t) == d * q + TWO32 * (d * t);
  }

  /** The large-divisor branch: DIVL cannot trap, the estimate is n / d or one more, and
      the wrapped comparison picks the right one. */
  lemma LargeDivisor(n: U64, d: U64)
    requires TWO32 <= d <= n
    ensures var s := Nlz(d / TWO32);
            var v := Wrap64(d * Pow2(s)) / TWO32;
            && s <= 31
            && 0 < v < TWO32
            && n / 2 / v < TWO32
            && var q := n / 2 / v / Pow2(31 - s);
               && (q == n / d || q == n / d + 1)
               && 1 <= q < TWO64
               && Corrected(n, d, q) == n / d
  {
    var s := Nlz(d / TWO32);
    ScalingHolds(d);
    var p, e := Pow2(s), Pow2(32 - s);
    var v := d * p / TWO32;
    assert Wrap64(d * p) == d * p;
    ApproximatesDivisor(d, p, e, v);
    QuotientBelow(n / 2, v, TWO32) by { MulMonotone(TWO31, v, TWO32); }
    ShiftedEstimate(n, v, e, Pow2(31 - s));
    EstimateIsClose(n, d, p, e, v);
    Correction(n, d, n / (v * e));
  }

  lemma ShiftedEstimate(n: nat, v: nat, e: nat, h: nat)
    requires v > 0 && h > 0 && e == 2 * h
    ensures v * e > 0 && n / 2 / v / h == n / (v * e)
  {
    DivDiv(n, 2, v);
    DivDiv(n, 2 * v, h);
    assert 2 * v * h == v * e;
  }

  lemma Correction(n: U64, d: U64, q: nat)
    requires 1 < d <= n && n / d <= q <= n / d + 1
    ensures 1 <= q < TWO64
    ensures Corrected(n, d, q) == n / d
  {
    var Q := n / d;
    QuotientAtLeast(n, d, 1);
    QuotientBelow(n, d, n) by { MulMonotone(2, d, n); }
    assert IsQuotient(n, d, Q);
    PickOne(n, d, Q, q);
  }

  /** q is the quotient of n by d: the definition of division. */
  ghost predicate IsQuotient(n: int, d: int, q: int) {
    d * q <= n < d * q + d
  }

  lemma IsQuotientMeansDiv(n: nat, d: nat, q: int)
    requires d > 0 && IsQuotient(n, d, q)
    ensures n / d == q && n % d == n - d * q
  {
    DivModUnique(n, d, q, n - d * q);
  }

  lemma PickOne(n: U64, d: U64, Q: nat, q: nat)
    requires d > 0 && IsQuotient(n, d, Q) && 1 <= q < TWO64 && Q <= q <= Q + 1
    ensures Corrected(n, d, q) == Q
  {
    assert (q - 1) * d == d * q - d;
    assert d * (Q + 1) == d * Q + d;
    assert Wrap64(q - 1) == q - 1;
    var rest := n - (q - 1) * d;
    assert 0 <= rest <= n by { assert (q - 1) * d >= 0; }
    assert Wrap64(rest) == rest;
  }

  // ------------------------------------------------------------------
  // The division routines.

  function Udiv64(n: U64, d: U64): Division<U64> {
    if d / TWO32 == 0 then
      if d == 0 then Trap else DivideSmall(n, d)
    else if n < d then
      Quotient(0)
    else
      DivideLarge(n, d)
  }

  /** The branch for a divisor of at most 32 bits. */
  function DivideSmall(n: U64, d: U32): Division<U64>
    requires d > 0
  {
    var n1: U32 := n / TWO32;
    var n0: U32 := n % TWO32;
    SmallDivisor(n1, n0, d);
    match Divl(TWO32 * (n1 % d) + n0, d)
    case Trap => Trap
    case Quotient(q) => Quotient(Wrap64(q + TWO32 * (n1 / d)))
  }

  /** The estimate-and-correct branch. */
  function DivideLarge(n: U64, d: U64): Division<U64>
    requires TWO32 <= d <= n
  {
    var s := Nlz(d / TWO32);
    LargeDivisor(n, d);
    match Divl(n / 2, Wrap64(d * Pow2(s)) / TWO32)
    case Trap => Trap
    case Quotient(q0) => Quotient(Corrected(n, d, q0 / Pow2(31 - s)))
  }

  function Corrected(n: U64, d: U64, q: nat): U64
    requires q < TWO64
  {
    if Wrap64(n - Wrap64(q - 1) * d) < d then Wrap64(q - 1) else q
  }

  /** udiv64 is floor division on all of its domain, and traps exactly on a zero divisor. */
  lemma UdivIsDivision(n: U64, d: U64)
    ensures d == 0 ==> Udiv64(n, d) == Trap
    ensures d > 0 ==> Udiv64(n, d) == Quotient(n / d)
    ensures d > 0 ==> IsQuotient(n, d, Udiv64(n, d).value)
  {
    if d >= TWO32 && n < d {
      IsQuotientMeansDiv(n, d, 0);
    } else if d >= TWO32 {
      LargeCase(n, d);
      DivIsQuotient(n, d);
    } else if d > 0 {
      SmallCase(n, d);
      DivIsQuotient(n, d);
    }
  }

  lemma DivIsQuotient(n: nat, d: nat)
    requires d > 0
    ensures IsQuotient(n, d, n / d)
  {
  }

  lemma LargeCase(n: U64, d: U64)
    requires TWO32 <= d <= n
    ensures DivideLarge(n, d) == Quotient(n / d)
  {
    LargeDivisor(n, d);
    var s := Nlz(d / TWO32);
    var v := Wrap64(d * Pow2(s)) / TWO32;
    assert Divl(n / 2, v) == Quotient(n / 2 / v);
  }

  lemma SmallCase(n: U64, d: U32)
    requires d > 0
    ensures DivideSmall(n, d) == Quotient(n / d)
  {
    var n1: U32 := n / TWO32;
    var n0: U32 := n % TWO32;
    assert TWO32 * n1 + n0 == n;
    SmallDivisor(n1, n0, d);
    var m: U64 := TWO32 * (n1 % d) + n0;
    assert Divl(m, d) == Quotient(m / d);
    WrapSmall(m / d + TWO32 * (n1 / d));
  }

  lemma WrapSmall(x: int)
    requires 0 <= x < TWO64
    ensures Wrap64(x) == x
  {
  }

  /** Which DIVL runs: neither branch of udiv64 can take the divide error. */
  lemma NoDivideError(n: U64, d: U64)
    requires d > 0
    ensures d < TWO32 ==> TWO32 * (n / TWO32 % d) + n % TWO32 < TWO64
    ensures d < TWO32 ==> Divl(TWO32 * (n / TWO32 % d) + n % TWO32, d).Quotient?
    ensures TWO32 <= d <= n ==>
              var s := Nlz(d / TWO32);
              Divl(n / 2, Wrap64(d * Pow2(s)) / TWO32).Quotient?
  {
    if d < TWO32 {
      SmallDivisor(n / TWO32, n % TWO32, d);
    } else if d <= n {
      LargeDivisor(n, d);
    }
  }

  /** The remainder routine keeps 32 bits of n - d * q. */
  function Umod64(n: U64, d: U64): Division<U32> {
    match Udiv64(n, d)
    case Trap => Trap
    case Quotient(q) => Quotient(Wrap64(n - d * q) % TWO32)
  }

  /** umod64 returns the remainder exactly when the remainder fits its return type. */
  lemma UmodIsRemainder(n: U64, d: U64)
    requires d > 0
    ensures Umod64(n, d) == Quotient(n % d % TWO32)
    ensures Umod64(n, d) == Quotient(n % d) <==> n % d < TWO32
  {
    UdivIsDivision(n, d);
    RemainderIs(n, d);
    var r: int := n % d;
    WrapSmall(r);
    assert Umod64(n, d) == Quotient(r % TWO32);
    Fits32(r);
  }

  lemma Fits32(r: nat)
    ensures r % TWO32 == r <==> r < TWO32
  {
  }

  lemma RemainderIs(n: U64, d: U64)
    requires d > 0
    ensures n - d * (n / d) == n % d && 0 <= n % d < TWO64
  {
  }

  function Magnitude(x: I64): (m: U64)
    ensures m == if x < 0 then -(x as int) else x
  {
    if x >= 0 then x else Wrap64(0 - Wrap64(x))
  }

  /** C's division: the quotient rounded toward zero. */
  function TruncatedQuotient(n: int, d: int): int
    requires d != 0
  {
    var q := (if n < 0 then -n else n) / (if d < 0 then -d else d);
    if (n < 0) == (d < 0) then q else -q
  }

  function Sdiv64(n: I64, d: I64): Division<I64> {
    match Udiv64(Magnitude(n), Magnitude(d))
    case Trap => Trap
    case Quotient(q) =>
      Quotient(if (n < 0) == (d < 0) then Signed64(q) else Signed64(-(Signed64(q) as int)))
  }

  lemma QuotientShrinks(n: nat, d: nat)
    requires d > 0
    ensures 0 <= n / d <= n
    ensures d > 1 && n > 0 ==> n / d < n
    ensures d == 1 ==> n / d == n
  {
    MulMonotone(1, d, n + 1);
    QuotientBelow(n, d, n + 1);
    if d > 1 && n > 0 {
      MulMonotone(2, d, n);
      QuotientBelow(n, d, n);
    }
  }

  /** sdiv64 is C's truncating division except for INT64_MIN / -1, whose quotient does not fit. */
  lemma SdivTruncates(n: I64, d: I64)
    ensures d == 0 <==> Sdiv64(n, d) == Trap
    ensures d != 0 ==> (Sdiv64(n, d) == Quotient(TruncatedQuotient(n, d)) <==> !(n == -TWO63 && d == -1))
    ensures n == -TWO63 && d == -1 ==> Sdiv64(n, d) == Quotient(-TWO63)
  {
    var a, b := Magnitude(n), Magnitude(d);
    UdivIsDivision(a, b);
    if d != 0 {
      QuotientShrinks(a, b);
      SignsAgree(n, d, a / b);
    }
  }

  lemma SignsAgree(n: I64, d: I64, q: nat)
    requires q <= Magnitude(n)
    requires Magnitude(d) > 1 && n != 0 ==> q < Magnitude(n)
    requires Magnitude(d) == 1 ==> q == Magnitude(n)
    requires d != 0
    ensures var e := if (n < 0) == (d < 0) then q as int else -(q as int);
            var r := if (n < 0) == (d < 0) then Signed64(q) else Signed64(-(Signed64(q) as int));
            && (r == e <==> !(n == -TWO63 && d == -1))
            && (n == -TWO63 && d == -1 ==> r == -TWO63)
  {
  }

  function Smod64(n: I64, d: I64): Division<I32> {
    match Sdiv64(n, d)
    case Trap => Trap
    case Quotient(q) => Quotient(Signed32(Signed64(n - Signed64(d * q))))
  }

  /** smod64 returns C's remainder exactly when that remainder fits its 32-bit return type. */
  lemma SmodIsRemainder(n: I64, d: I64)
    requires d != 0
    ensures Smod64(n, d) == Quotient(n - d * TruncatedQuotient(n, d)) <==>
              -TWO31 <= n - d * TruncatedQuotient(n, d) < TWO31
  {
    SdivTruncates(n, d);
    TruncatedRemainder(n, d);
    var t := TruncatedQuotient(n, d);
    if n == -TWO63 && d == -1 {
      assert Smod64(n, d) == Quotient(0);
    } else {
      assert Signed64(d * t) == d * t;
    }
  }

  lemma TruncatedRemainder(n: int, d: int)
    requires d != 0
    ensures var t := TruncatedQuotient(n, d);
            n >= 0 ==> 0 <= d * t <= n
    ensures var t := TruncatedQuotient(n, d);
            n < 0 ==> n <= d * t <= 0
    ensures n == -TWO63 && d == -1 ==> TruncatedQuotient(n, d) == TWO63
  {
    var a, b := if n < 0 then -n else n, if d < 0 then -d else d;
    DivIsQuotient(a, b);
    QuotientShrinks(a, b);
    SignedProduct(n, d, a, b, a / b);
  }

  lemma SignedProduct(n: int, d: int, a: nat, b: nat, q: nat)
    requires b > 0 && b * q <= a
    requires a == (if n < 0 then -n else n) && b == (if d < 0 then -d else d)
    ensures var t: int := if (n < 0) == (d < 0) then q else -(q as int);
            if n < 0 then n <= d * t <= 0 else 0 <= d * t <= n
  {
    NegateProduct(b, q);
    assert b * q >= 0;
  }

  lemma NegateProduct(b: int, q: int)
    ensures (-b) * q == -(b * q) && b * (-q) == -(b * q) && (-b) * (-q) == b * q
  {
  }
}
