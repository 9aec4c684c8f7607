/** Bit operations on unsigned words, written on natural numbers.

    A machine word is the natural number it denotes; `Bit(w, k)` is its k-th bit.
    The word operations are defined bit by bit, so every fact about masks used by
    the bitmap, the hash table and the page tables is proved here by induction. */
module Bits {

  function Pow2(k: nat): (p: nat)
    ensures p >= 1
  {
    if k == 0 then 1 else 2 * Pow2(k - 1)
  }

  predicate Bit(w: nat, k: nat)
    decreases k
  {
    if k == 0 then w % 2 == 1 else Bit(w / 2, k - 1)
  }

  function And(x: nat, y: nat): nat {
    if x == 0 || y == 0 then 0
    else 2 * And(x / 2, y / 2) + (if x % 2 == 1 && y % 2 == 1 then 1 else 0)
  }

  function Or(x: nat, y: nat): nat {
    if x == 0 then y
    else if y == 0 then x
    else 2 * Or(x / 2, y / 2) + (if x % 2 == 1 || y % 2 == 1 then 1 else 0)
  }

  /** x & ~y */
  function AndNot(x: nat, y: nat): nat {
    if x == 0 then 0
    else if y == 0 then x
    else 2 * AndNot(x / 2, y / 2) + (if x % 2 == 1 && y % 2 == 0 then 1 else 0)
  }

  lemma {:induction false} Pow2Adds(a: nat, b: nat)
    ensures Pow2(a + b) == Pow2(a) * Pow2(b)
  {
    if a > 0 {
      Pow2Adds(a - 1, b);
      assert Pow2(a + b) == 2 * (Pow2(a - 1) * Pow2(b));
    }
  }

  lemma Pow2Constants()
    ensures Pow2(2) == 4 && Pow2(4) == 16 && Pow2(8) == 0x100 && Pow2(16) == 0x1_0000
    ensures Pow2(12) == 0x1000 && Pow2(10) == 0x400 && Pow2(22) == 0x40_0000
    ensures Pow2(31) == 0x8000_0000 && Pow2(32) == 0x1_0000_0000
  {
    assert Pow2(2) == 4 && Pow2(1) == 2;
    Pow2Adds(2, 2);
    Pow2Adds(4, 4);
    Pow2Adds(8, 8);
    Pow2Adds(8, 4);
    Pow2Adds(8, 2);
    Pow2Adds(12, 10);
    Pow2Adds(16, 16);
    assert Pow2(32) == 2 * Pow2(31);
  }

  lemma {:induction false} Pow2Grows(a: nat, b: nat)
    requires a <= b
    ensures Pow2(a) <= Pow2(b)
  {
    if a < b { Pow2Grows(a, b - 1); }
  }

  lemma {:induction false} ZeroHasNoBits(k: nat)
    ensures !Bit(0, k)
  {
    if k > 0 { ZeroHasNoBits(k - 1); }
  }

  lemma {:induction false} AndBits(x: nat, y: nat, k: nat)
    ensures Bit(And(x, y), k) == (Bit(x, k) && Bit(y, k))
    decreases k
  {
    if x == 0 || y == 0 {
      ZeroHasNoBits(k);
    } else if k > 0 {
      AndBits(x / 2, y / 2, k - 1);
    }
  }

  lemma {:induction false} OrBits(x: nat, y: nat, k: nat)
    ensures Bit(Or(x, y), k) == (Bit(x, k) || Bit(y, k))
    decreases k
  {
    if x == 0 || y == 0 {
      ZeroHasNoBits(k);
    } else if k > 0 {
      OrBits(x / 2, y / 2, k - 1);
    }
  }

  lemma {:induction false} AndNotBits(x: nat, y: nat, k: nat)
    ensures Bit(AndNot(x, y), k) == (Bit(x, k) && !Bit(y, k))
    decreases k
  {
    if x == 0 || y == 0 {
      ZeroHasNoBits(k);
    } else if k > 0 {
      AndNotBits(x / 2, y / 2, k - 1);
    }
  }

  /** The mask 1 << i has exactly bit i set. */
  lemma {:induction false} MaskBits(i: nat, k: nat)
    ensures Bit(Pow2(i), k) == (k == i)
  {
    if i == 0 {
      if k > 0 { ZeroHasNoBits(k - 1); }
    } else if k > 0 {
      MaskBits(i - 1, k - 1);
    }
  }

  /** Two words of n bits with the same bits are equal. */
  lemma {:induction false} SameBits(x: nat, y: nat, n: nat)
    requires x < Pow2(n) && y < Pow2(n)
    requires forall k: nat :: k < n ==> Bit(x, k) == Bit(y, k)
    ensures x == y
    decreases n
  {
    if n > 0 {
      assert Bit(x, 0) == Bit(y, 0);
      forall k: nat | k < n - 1 ensures Bit(x / 2, k) == Bit(y / 2, k) {
        assert Bit(x, k + 1) == Bit(y, k + 1);
      }
      SameBits(x / 2, y / 2, n - 1);
    }
  }

  /** A word of n bits has no bit at or above n. */
  lemma {:induction false} HighBits(x: nat, n: nat, k: nat)
    requires x < Pow2(n) && n <= k
    ensures !Bit(x, k)
    decreases n
  {
    if n == 0 { ZeroHasNoBits(k); } else { HighBits(x / 2, n - 1, k - 1); }
  }

  lemma {:induction false} OrBound(x: nat, y: nat, n: nat)
    requires x < Pow2(n) && y < Pow2(n)
    ensures Or(x, y) < Pow2(n)
    decreases n
  {
    if n > 0 && x > 0 && y > 0 { OrBound(x / 2, y / 2, n - 1); }
  }

  lemma {:induction false} AndBound(x: nat, y: nat)
    ensures And(x, y) <= x && And(x, y) <= y
  {
    if x > 0 && y > 0 { AndBound(x / 2, y / 2); }
  }

  lemma {:induction false} AndNotBound(x: nat, y: nat)
    ensures AndNot(x, y) <= x
  {
    if x > 0 && y > 0 { AndNotBound(x / 2, y / 2); }
  }

  /** Masking with 2^n - 1 is the remainder modulo 2^n. */
  lemma {:induction false} MaskIsMod(x: nat, n: nat)
    ensures And(x, Pow2(n) - 1) == x % Pow2(n)
    decreases n
  {
    if x == 0 {
      DivModUnique(0, Pow2(n), 0, 0);
    } else if n > 0 {
      MaskIsMod(x / 2, n - 1);
      ModSplits(x, Pow2(n - 1));
      MaskStep(x, Pow2(n - 1));
    }
  }

  lemma MaskStep(x: nat, p: nat)
    requires x > 0 && p >= 1
    ensures And(x, 2 * p - 1) == 2 * And(x / 2, p - 1) + x % 2
  {
    assert (2 * p - 1) / 2 == p - 1 && (2 * p - 1) % 2 == 1;
  }

  lemma ModSplits(x: nat, p: nat)
    requires p >= 1
    ensures x % (2 * p) == 2 * ((x / 2) % p) + x % 2
  {
    var h := x / 2;
    var q := h / p;
    var r := 2 * (h % p) + x % 2;
    assert x == 2 * h + x % 2 && h == p * q + h % p;
    assert x == (2 * p) * q + r;
    DivModUnique(x, 2 * p, q, r);
  }

  lemma DivModUnique(x: int, m: int, q: int, r: int)
    requires m > 0 && 0 <= r < m && x == m * q + r
    ensures x / m == q && x % m == r
  {
    QuotientUnique(m, q, r, x / m, x % m);
  }

  lemma MulAwayFromZero(m: int, d: int)
    requires m > 0
    ensures d >= 1 ==> m * d >= m
    ensures d <= -1 ==> m * d <= -m
  {
    if d >= 1 { assert m * (d - 1) >= 0; }
    if d <= -1 { assert m * (-1 - d) >= 0; }
  }

  lemma QuotientUnique(m: int, q: int, r: int, q': int, r': int)
    requires m > 0 && 0 <= r < m && 0 <= r' < m
    requires m * q + r == m * q' + r'
    ensures q == q' && r == r'
  {
    var d := q - q';
    MulAwayFromZero(m, d);
    assert m * d == r' - r;
  }

  /** x & (x - 1) turns off the lowest set bit: it is zero exactly for powers of two. */
  lemma {:induction false} LowestBitOff(x: nat)
    requires x > 0
    ensures And(x, x - 1) < x
    ensures And(x, x - 1) == 0 ==> exists k: nat :: x == Pow2(k)
  {
    if x % 2 == 0 {
      assert x / 2 > 0 && (x - 1) / 2 == x / 2 - 1;
      LowestBitOff(x / 2);
      if And(x / 2, x / 2 - 1) == 0 {
        var k: nat :| x / 2 == Pow2(k);
        assert x == Pow2(k + 1);
      }
    } else if x > 1 {
      assert (x - 1) / 2 == x / 2;
      AndSelf(x / 2);
    } else {
      assert x == Pow2(0);
    }
  }

  lemma {:induction false} AndSelf(x: nat)
    ensures And(x, x) == x
  {
    if x > 0 { AndSelf(x / 2); }
  }

  lemma {:induction false} PowerHasOneBit(k: nat)
    ensures And(Pow2(k), Pow2(k) - 1) == 0
  {
    if k > 0 {
      assert (Pow2(k) - 1) / 2 == Pow2(k - 1) - 1;
      PowerHasOneBit(k - 1);
    }
  }

  // ------------------------------------------------------------------
  // Bytes of a word, least significant first

  /** The bits of lo below position n, those of hi from there on. */
  function Join(lo: nat, hi: nat, n: nat): nat
    decreases n
  {
    if n == 0 then hi else lo % 2 + 2 * Join(lo / 2, hi, n - 1)
  }

  lemma {:induction false} JoinBits(lo: nat, hi: nat, n: nat, k: nat)
    ensures Bit(Join(lo, hi, n), k) == if k < n then Bit(lo, k) else Bit(hi, k - n)
    decreases n
  {
    if n > 0 && k > 0 { JoinBits(lo / 2, hi, n - 1, k - 1); }
  }

  lemma {:induction false} JoinValue(lo: nat, hi: nat, n: nat)
    requires lo < Pow2(n)
    ensures Join(lo, hi, n) == lo + Pow2(n) * hi
    decreases n
  {
    if n > 0 {
      JoinValue(lo / 2, hi, n - 1);
      assert 2 * (Pow2(n - 1) * hi) == Pow2(n) * hi;
    }
  }

  lemma ByteBits(lo: nat, hi: nat, k: nat)
    requires lo < 256
    ensures Bit(lo + 256 * hi, k) == if k < 8 then Bit(lo, k) else Bit(hi, k - 8)
  {
    Pow2Constants();
    JoinValue(lo, hi, 8);
    JoinBits(lo, hi, 8, k);
  }

  function GetByte(w: nat, p: nat): (b: nat)
    ensures b < 256
    decreases p
  {
    if p == 0 then w % 256 else GetByte(w / 256, p - 1)
  }

  function PutByte(w: nat, p: nat, b: nat): nat
    decreases p
  {
    if p == 0 then b + 256 * (w / 256) else w % 256 + 256 * PutByte(w / 256, p - 1, b)
  }

  lemma {:induction false} GetByteBits(w: nat, p: nat, k: nat)
    requires k < 8
    ensures Bit(GetByte(w, p), k) == Bit(w, 8 * p + k)
    decreases p
  {
    ByteBits(w % 256, w / 256, 8 * p + k);
    if p > 0 { GetByteBits(w / 256, p - 1, k); }
  }

  lemma {:induction false} PutByteBits(w: nat, p: nat, b: nat, k: nat)
    requires b < 256
    ensures Bit(PutByte(w, p, b), k) == if 8 * p <= k < 8 * p + 8 then Bit(b, k - 8 * p) else Bit(w, k)
    decreases p
  {
    ByteBits(w % 256, w / 256, k);
    if p == 0 {
      ByteBits(b, w / 256, k);
    } else {
      ByteBits(w % 256, PutByte(w / 256, p - 1, b), k);
      if k >= 8 { PutByteBits(w / 256, p - 1, b, k - 8); }
    }
  }

  function Pow256(n: nat): (p: nat)
    ensures p >= 1
  {
    if n == 0 then 1 else 256 * Pow256(n - 1)
  }

  lemma {:induction false} PutByteBound(w: nat, p: nat, b: nat, n: nat)
    requires w < Pow256(n) && p < n && b < 256
    ensures PutByte(w, p, b) < Pow256(n)
    decreases p
  {
    var m := Pow256(n - 1);
    assert Pow256(n) == 256 * m;
    HighPart(w, m);
    if p > 0 { PutByteBound(w / 256, p - 1, b, n - 1); }
  }

  lemma HighPart(w: nat, m: nat)
    requires w < 256 * m
    ensures w / 256 < m
  {
  }
}
