/** The octal numbers of lib/stdio.c and lib/ustar.c: format_integer's "%0No" conversion and
    parse_octal_field. */
module Octal {
  import opened Basics
  import opened InodeIO

  /** v shifted right by k octal digits. */
  function Shr(v: nat, k: nat): nat
    decreases k
  {
    if k == 0 then v else Shr(v / 8, k - 1)
  }

  lemma {:induction false} ShrStep(v: nat, k: nat)
    ensures Shr(v, k + 1) == Shr(v, k) / 8
    decreases k
  {
    if k > 0 { ShrStep(v / 8, k - 1); }
  }

  lemma {:induction false} ShrBound(v: nat, k: nat)
    ensures Shr(v, k) <= v && (k > 0 ==> Shr(v, k) <= v / 8)
    decreases k
  {
    if k > 0 { ShrBound(v / 8, k - 1); }
  }

  /** v in w octal digits. */
  function Digits(v: nat, w: nat): (s: seq<Byte>)
    ensures |s| == w
    decreases w, v
  {
    if w == 0 then [] else Digits(v / 8, w - 1) + [48 + v % 8]
  }

  lemma {:induction false} DigitAt(v: nat, w: nat, i: nat)
    requires i < w
    ensures Digits(v, w)[i] == 48 + Shr(v, w - 1 - i) % 8
    decreases w
  {
    if i < w - 1 { DigitAt(v / 8, w - 1, i); }
  }

  /** How many digits "%o" gives; at least one. */
  function Length(v: nat): (n: nat)
    ensures n >= 1
  {
    if v < 8 then 1 else 1 + Length(v / 8)
  }

  lemma {:induction false} LengthFits(v: nat, w: nat)
    requires w >= 1 && Shr(v, w) == 0
    ensures Length(v) <= w
    decreases w
  {
    assert Shr(v, w) == Shr(v / 8, w - 1);
    if w > 1 && v >= 8 { LengthFits(v / 8, w - 1); }
  }

  /** format_integer for base 8 with the 0 flag and the given width: digits are produced in reverse
      into a buffer, one zero is added if there are none, and zeros fill the width. */
  method FormatOctal(value: nat, width: nat) returns (s: seq<Byte>)
    ensures s == Digits(value, if width < Length(value) then Length(value) else width)
  {
    ghost var n: nat := if width < Length(value) then Length(value) else width;
    var v, buf: seq<Byte> := value, [];
    while v > 0
      invariant |buf| <= n && Digits(value, n) == Digits(v, n - |buf|) + Reversed(buf)
      invariant if v > 0 then |buf| + Length(v) == Length(value) else |buf| == if value == 0 then 0 else Length(value)
      decreases v
    {
      OneDigit(v, n - |buf|, buf);
      buf := buf + [48 + v % 8];
      v := v / 8;
    }
    ZeroDigits(n - |buf|);
    if |buf| == 0 {
      buf := [48];
      ZeroDigits(n);
    }
    var pad := if width < |buf| then 0 else width - |buf|;
    s := seq(pad, _ => 48) + Reversed(buf);
  }

  function Reversed(s: seq<Byte>): (r: seq<Byte>)
    ensures |r| == |s|
  {
    if s == [] then [] else [s[|s| - 1]] + Reversed(s[..|s| - 1])
  }

  lemma OneDigit(v: nat, k: nat, buf: seq<Byte>)
    requires k >= 1
    ensures Digits(v, k) + Reversed(buf) == Digits(v / 8, k - 1) + Reversed(buf + [48 + v % 8])
  {
    assert (buf + [48 + v % 8])[..|buf|] == buf;
  }

  lemma {:induction false} ZeroDigits(n: nat)
    ensures Digits(0, n) == seq(n, _ => 48)
  {
    if n > 0 { ZeroDigits(n - 1); }
  }

  // ------------------------------------------------------------------

  /** parse_octal_field from offset ofs on, with the value so far; a word is 32 bits. */
  function ParseFrom(s: seq<Byte>, ofs: nat, value: nat): Option<nat>
    requires ofs <= |s|
    decreases |s| - ofs
  {
    if ofs == |s| then None
    else if 48 <= s[ofs] <= 55 then
      if value > 0xffff_ffff / 8 then None else ParseFrom(s, ofs + 1, s[ofs] as int - 48 + value * 8)
    else if s[ofs] == 32 || s[ofs] == 0 then if ofs > 0 then Some(value) else None
    else None
  }

  function ParseOctal(s: seq<Byte>): Option<nat> { ParseFrom(s, 0, 0) }

  method ParseOctalField(s: array<Byte>, at: nat, size: nat) returns (r: Option<nat>)
    requires at + size <= s.Length
    ensures r == ParseOctal(s[at..at + size])
  {
    ghost var field := s[at..at + size];
    var value: nat := 0;
    for ofs := 0 to size
      invariant ParseOctal(field) == ParseFrom(field, ofs, value)
    {
      var c := s[at + ofs];
      assert field[ofs] == c;
      if 48 <= c <= 55 {
        if value > 0xffff_ffff / 8 {
          return None;
        }
        value := c as int - 48 + value * 8;
      } else if c == 32 || c == 0 {
        return if ofs > 0 then Some(value) else None;
      } else {
        return None;
      }
    }
    return None;
  }

  /** A formatted number, with its null byte, parses back to itself. */
  lemma FieldRoundTrip(v: nat, w: nat)
    requires v <= 0xffff_ffff && w >= 1 && Shr(v, w) == 0
    ensures ParseOctal(Digits(v, w) + [0]) == Some(v)
  {
    var s := Digits(v, w) + [0];
    ParseDigits(v, w, 0);
  }

  lemma {:induction false} ParseDigits(v: nat, w: nat, i: nat)
    requires v <= 0xffff_ffff && i <= w && w >= 1
    ensures ParseFrom(Digits(v, w) + [0], i, Shr(v, w - i)) == Some(v)
    decreases w - i
  {
    var s := Digits(v, w) + [0];
    if i < w {
      DigitAt(v, w, i);
      ShrStep(v, w - i - 1);
      ShrBound(v, w - i);
      var x := Shr(v, w - i - 1);
      assert s[i] as int - 48 + Shr(v, w - i) * 8 == x;
      ParseDigits(v, w, i + 1);
    }
  }
}
