/** Page table entries and virtual addresses (pte.h, vaddr.h): arithmetic on words is the masks and
    shifts of the source. */
module PageTable {
  import opened Bits
  import opened Bitmap

  const USER_TABLES: nat := 768           // pd_no (PHYS_BASE)
  const USER_PAGES: nat := 786432         // pg_no (PHYS_BASE)

  type Page = s: seq<Word> | |s| == 1024 witness seq(1024, i => 0)

  // Entries are read and built arithmetically; DecodeBits and EncodeBits prove that these are the masks
  // of pte.h.

  predicate Present(e: Word) { e % 2 == 1 }

  /** The frame an entry points to: pde_get_pt and pte_get_page, as a page number. */
  function Frame(e: Word): nat { e / 4096 }

  function PdeCreate(frame: nat): Word
    requires frame < 0x10_0000
  {
    frame * 4096 + 7
  }

  function PteCreateUser(frame: nat, writable: bool): Word
    requires frame < 0x10_0000
  {
    frame * 4096 + if writable then 7 else 5
  }

  /** *pte |= PTE_A */
  function SetAccessed(e: Word): Word {
    if e / 32 % 2 == 1 then e else (AccessedFits(e); e + 32)
  }

  /** What was built can be read back ... */
  lemma EntryRoundTrip(frame: nat, writable: bool)
    requires frame < 0x10_0000
    ensures Present(PdeCreate(frame)) && Frame(PdeCreate(frame)) == frame
    ensures Present(PteCreateUser(frame, writable)) && Frame(PteCreateUser(frame, writable)) == frame
  {
    Decodes(frame, 7);
    Decodes(frame, 5);
  }

  lemma Decodes(frame: nat, flags: nat)
    requires flags < 4096 && flags % 2 == 1
    ensures (frame * 4096 + flags) % 2 == 1 && (frame * 4096 + flags) / 4096 == frame
  {
    DivModUnique(frame * 4096 + flags, 4096, frame, flags);
    assert frame * 4096 == 2 * (frame * 2048);
  }

  /** ... and marking a page accessed moves nothing. */
  lemma AccessedMovesNothing(e: Word)
    ensures Present(SetAccessed(e)) == Present(e) && Frame(SetAccessed(e)) == Frame(e)
  {
    if e / 32 % 2 != 1 {
      AccessedFits(e);
      assert SetAccessed(e) == e + 32;
    }
  }

  lemma AccessedFits(e: Word)
    requires e / 32 % 2 == 0
    ensures e + 32 < 0x1_0000_0000 && (e + 32) / 4096 == e / 4096
  {
    var a, b := e / 4096, e % 4096;
    var c, r := b / 32, b % 32;
    DivModUnique(e, 32, 128 * a + c, r);
    Even(64 * a, c);
    DivModUnique(e + 32, 4096, a, b + 32);
  }

  lemma Even(a: nat, c: nat)
    ensures (2 * a + c) % 2 == c % 2
  {
    DivModUnique(2 * a + c, 2, a + c / 2, c % 2);
  }

  /** The arithmetic is the masks of pte.h. */
  lemma DecodeBits(e: Word)
    ensures Present(e) == (And(e, 1) != 0) && Frame(e) * 4096 == AndNot(e, 0xfff)
  {
    Pow2Constants();
    LowBit(e);
    ClearLow(e, 12);
  }

  lemma EncodeBits(frame: nat, e: Word)
    requires frame < 0x10_0000
    ensures PdeCreate(frame) == Or(frame * 4096, 7)
    ensures PteCreateUser(frame, true) == Or(frame * 4096, 7) && PteCreateUser(frame, false) == Or(frame * 4096, 5)
    ensures SetAccessed(e) == Or(e, 32)
  {
    Pow2Constants();
    OrApart(frame, 7, 12);
    OrApart(frame, 5, 12);
    OrOne(e, 5);
    assert Pow2(5) == 2 * Pow2(4) == 32;
  }

  lemma {:induction false} OrOne(x: nat, n: nat)
    ensures Or(x, Pow2(n)) == if x / Pow2(n) % 2 == 1 then x else x + Pow2(n)
    decreases n
  {
    if n == 0 {
      OrStep(x, 1);
    } else {
      var p := Pow2(n - 1);
      OrOne(x / 2, n - 1);
      OrDouble(x, p);
      DivDown(x, p);
    }
  }

  lemma OrDouble(x: nat, p: nat)
    ensures Or(x, 2 * p) == 2 * Or(x / 2, p) + x % 2
  {
    OrStep(x, 2 * p);
    assert 2 * p / 2 == p;
  }

  lemma DivDown(x: nat, p: nat)
    requires p >= 1
    ensures x / (2 * p) == x / 2 / p
  {
    var q, r := x / 2 / p, x / 2 % p;
    assert x / 2 == p * q + r;
    DivModUnique(x, 2 * p, q, 2 * r + x % 2);
  }

  /** pd_no, pt_no, pg_ofs and pg_round_down of an address, in terms of its page number. */
  lemma AddressBits(va: Word)
    ensures va / 0x40_0000 == va / 4096 / 1024
    ensures And(va, 0x3f_f000) / 4096 == va / 4096 % 1024
    ensures And(va, 0xfff) == va % 4096
    ensures AndNot(va, 0xfff) == va / 4096 * 4096
  {
    Pow2Constants();
    AndShifted(va, 0x3f_f000, 12);
    ShiftIsDivision(va, 12, 4096);
    ShiftIsDivision(0x3f_f000, 12, 4096);
    ShiftIsDivision(And(va, 0x3f_f000), 12, 4096);
    MaskIsMod(va / 4096, 10);
    MaskIsMod(va, 12);
    ClearLow(va, 12);
  }

  function ShiftRight(x: nat, n: nat): nat
    decreases n
  {
    if n == 0 then x else ShiftRight(x / 2, n - 1)
  }

  lemma {:induction false} ShiftIsDivision(x: nat, n: nat, p: nat)
    requires p == Pow2(n)
    ensures ShiftRight(x, n) == x / p
    decreases n
  {
    if n > 0 {
      ShiftIsDivision(x / 2, n - 1, Pow2(n - 1));
      DivDown(x, Pow2(n - 1));
    }
  }

  /** Shifting right commutes with masking. */
  lemma {:induction false} AndShifted(x: nat, y: nat, n: nat)
    ensures ShiftRight(And(x, y), n) == And(ShiftRight(x, n), ShiftRight(y, n))
    decreases n
  {
    if n > 0 {
      AndStep(x, y);
      AndShifted(x / 2, y / 2, n - 1);
    }
  }

  lemma AndStep(x: nat, y: nat)
    ensures And(x, y) == 2 * And(x / 2, y / 2) + (if x % 2 == 1 && y % 2 == 1 then 1 else 0)
  {
  }

  // Address bits and flag bits do not mix.

  lemma {:induction false} OrApart(a: nat, f: nat, n: nat)
    requires f < Pow2(n)
    ensures Or(a * Pow2(n), f) == a * Pow2(n) + f
    decreases n
  {
    if n > 0 {
      var p := Pow2(n - 1);
      assert Pow2(n) == 2 * p;
      OrApart(a, f / 2, n - 1);
      HalfOf(a, p);
      var x := a * Pow2(n);
      assert x / 2 == a * p && x % 2 == 0;
      OrStep(x, f);
    } else {
      assert Pow2(0) == 1;
    }
  }

  lemma HalfOf(a: nat, p: nat)
    ensures (a * (2 * p)) / 2 == a * p && (a * (2 * p)) % 2 == 0
  {
    assert a * (2 * p) == 2 * (a * p);
  }

  lemma OrStep(x: nat, y: nat)
    ensures Or(x, y) == 2 * Or(x / 2, y / 2) + (if x % 2 == 1 || y % 2 == 1 then 1 else 0)
  {
  }

  lemma {:induction false} LowBit(x: nat)
    ensures (And(x, 1) != 0) == (x % 2 == 1)
  {
    if x > 0 { assert And(x, 1) == 2 * And(x / 2, 0) + (if x % 2 == 1 then 1 else 0); }
  }

  /** x & ~(2^n - 1) */
  lemma {:induction false} ClearLow(x: nat, n: nat)
    ensures AndNot(x, Pow2(n) - 1) == x / Pow2(n) * Pow2(n)
    decreases n
  {
    if n == 0 {
      assert Pow2(0) == 1;
    } else {
      var y, p := Pow2(n) - 1, Pow2(n - 1);
      assert y / 2 == p - 1 && y % 2 == 1;
      AndNotStep(x, y);
      ClearLow(x / 2, n - 1);
      DivTwice(x, p);
    }
  }

  lemma AndNotStep(x: nat, y: nat)
    ensures AndNot(x, y) == 2 * AndNot(x / 2, y / 2) + (if x % 2 == 1 && y % 2 == 0 then 1 else 0)
  {
  }

  lemma DivTwice(x: nat, p: nat)
    requires p >= 1
    ensures x / (2 * p) * (2 * p) == 2 * (x / 2 / p * p)
  {
    var q, r := x / 2 / p, x / 2 % p;
    assert x / 2 == p * q + r;
    DivModUnique(x, 2 * p, q, 2 * r + x % 2);
    assert q * (2 * p) == 2 * (q * p);
  }
}
