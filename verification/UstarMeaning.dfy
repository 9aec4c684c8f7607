/** What a ustar header says, byte by byte: exactly which blocks end an archive and which are entries,
    and what a made header holds in each of its fields. */
module UstarMeaning {
  import opened Basics
  import opened CText
  import opened InodeIO
  import opened Octal
  import opened Ustar

  // ------------------------------------------------------------------
  // Octal fields

  predicate IsDigit(b: Byte) { 48 <= b <= 55 }

  /** The number that a sequence of octal digits stands for. */
  function OctalValue(d: seq<Byte>): (v: int) {
    if d == [] then 0 else 8 * OctalValue(d[..|d| - 1]) + d[|d| - 1] as int - 48
  }

  /** n digits, then a space or a null byte. */
  ghost predicate DigitsThenEnd(s: seq<Byte>, n: nat) {
    0 < n < |s| && (forall i :: 0 <= i < n ==> IsDigit(s[i])) && (s[n] == 32 || s[n] == 0)
  }

  /** The field holds the octal number v, which fits 32 bits. */
  ghost predicate IsOctal(s: seq<Byte>, v: nat) {
    v <= 0xffff_ffff && exists n: nat :: DigitsThenEnd(s, n) && OctalValue(s[..n]) == v
  }

  lemma OctalNext(s: seq<Byte>, n: nat)
    requires n < |s|
    ensures OctalValue(s[..n + 1]) == 8 * OctalValue(s[..n]) + s[n] as int - 48
  {
    assert s[..n + 1][..n] == s[..n];
  }

  lemma {:induction false} OctalGrows(s: seq<Byte>, i: nat, n: nat)
    requires i <= n <= |s| && forall k :: 0 <= k < n ==> IsDigit(s[k])
    ensures 0 <= OctalValue(s[..i]) <= OctalValue(s[..n]) && (i < n ==> 8 * OctalValue(s[..i]) <= OctalValue(s[..n]))
    decreases n
  {
    if i < n {
      OctalNext(s, n - 1);
      OctalGrows(s, i, n - 1);
    } else if n > 0 {
      OctalNext(s, n - 1);
      OctalGrows(s, n - 1, n - 1);
    }
  }

  /** parse_octal_field accepts exactly the fields that hold a 32-bit number, and returns it. */
  lemma ParseOctalMeans(s: seq<Byte>, v: nat)
    ensures ParseOctal(s) == Some(v) <==> IsOctal(s, v)
  {
    ParseFromMeans(s, 0, 0, v);
  }

  lemma {:induction false} ParseFromMeans(s: seq<Byte>, i: nat, value: nat, v: nat)
    requires i <= |s| && (forall k :: 0 <= k < i ==> IsDigit(s[k])) && value == OctalValue(s[..i]) <= 0xffff_ffff
    ensures ParseFrom(s, i, value) == Some(v) <==> IsOctal(s, v)
    decreases |s| - i
  {
    if i < |s| && IsDigit(s[i]) {
      OctalNext(s, i);
      if value <= 0xffff_ffff / 8 {
        ParseFromMeans(s, i + 1, s[i] as int - 48 + value * 8, v);
      } else if IsOctal(s, v) {
        var n: nat :| DigitsThenEnd(s, n) && OctalValue(s[..n]) == v;
        EndsPast(s, i, n);
        OctalGrows(s, i, n);
      }
    } else {
      StopsHere(s, i, v);
    }
  }

  lemma EndsPast(s: seq<Byte>, i: nat, n: nat)
    requires i < |s| && (forall k :: 0 <= k <= i ==> IsDigit(s[k])) && DigitsThenEnd(s, n)
    ensures i < n
  {
    assert !IsDigit(s[n]);
  }

  /** At the first byte that is no digit it is decided. */
  lemma StopsHere(s: seq<Byte>, i: nat, v: nat)
    requires i <= |s| && (forall k :: 0 <= k < i ==> IsDigit(s[k])) && OctalValue(s[..i]) <= 0xffff_ffff
    requires i < |s| ==> !IsDigit(s[i])
    ensures IsOctal(s, v) <==> 0 < i < |s| && (s[i] == 32 || s[i] == 0) && v == OctalValue(s[..i])
  {
    if IsOctal(s, v) {
      var n: nat :| DigitsThenEnd(s, n) && OctalValue(s[..n]) == v;
      assert !IsDigit(s[n]);
    }
    if 0 < i < |s| && (s[i] == 32 || s[i] == 0) { assert DigitsThenEnd(s, i); }
  }

  lemma OctalUnique(s: seq<Byte>, v: nat, w: nat)
    requires IsOctal(s, v) && IsOctal(s, w)
    ensures v == w
  {
    ParseOctalMeans(s, v);
    ParseOctalMeans(s, w);
  }

  /** A formatted number is read as the number it was. */
  lemma FormattedMeans(v: nat, w: nat)
    requires v <= 0xffff_ffff && w >= 1 && Shr(v, w) == 0
    ensures IsOctal(Digits(v, w) + [0], v)
  {
    FieldRoundTrip(v, w);
    ParseOctalMeans(Digits(v, w) + [0], v);
  }

  // ------------------------------------------------------------------
  // The checksum

  function Octets(s: seq<Byte>): nat { if s == [] then 0 else Octets(s[..|s| - 1]) + s[|s| - 1] }

  /** All bytes but those of the checksum field, which counts as eight spaces. */
  function Checksum(h: seq<Byte>): nat
    requires |h| == 512
  {
    Octets(h[..148]) + 8 * 32 + Octets(h[156..])
  }

  lemma SumIsChecksum(h: seq<Byte>)
    requires |h| == 512
    ensures Sum(h, 512) == Checksum(h)
  {
    SumBefore(h, 148);
    SumInside(h, 156);
    SumAfter(h, 356);
    assert h[156..512] == h[156..];
  }

  lemma {:induction false} SumBefore(h: seq<Byte>, n: nat)
    requires n <= |h| && n <= 148
    ensures Sum(h, n) == Octets(h[..n])
  {
    if n > 0 {
      SumBefore(h, n - 1);
      assert h[..n][..n - 1] == h[..n - 1];
    }
  }

  lemma {:induction false} SumInside(h: seq<Byte>, n: nat)
    requires 148 <= n <= 156 && n <= |h|
    ensures Sum(h, n) == Sum(h, 148) + 32 * (n - 148)
  {
    if n > 148 { SumInside(h, n - 1); }
  }

  lemma {:induction false} SumAfter(h: seq<Byte>, n: nat)
    requires 156 + n <= |h|
    ensures Sum(h, 156 + n) == Sum(h, 156) + Octets(h[156..156 + n])
  {
    if n > 0 {
      SumAfter(h, n - 1);
      assert h[156..156 + n][..n - 1] == h[156..156 + n - 1];
    }
  }

  // ------------------------------------------------------------------
  // strip_antisocial_prefixes

  /** "/", "./" or "../" at position i. */
  predicate PrefixAt(s: Text, i: nat, n: nat) {
    && i + n <= |s| && n > 0 && s[i + n - 1] == 47
    && (n == 1 || (n == 2 && s[i] == 46) || (n == 3 && s[i] == 46 && s[i + 1] == 46))
  }

  /** s[..k] is made of such prefixes. */
  predicate OnlyPrefixes(s: Text, k: nat) {
    || k == 0
    || (k >= 1 && PrefixAt(s, k - 1, 1) && OnlyPrefixes(s, k - 1))
    || (k >= 2 && PrefixAt(s, k - 2, 2) && OnlyPrefixes(s, k - 2))
    || (k >= 3 && PrefixAt(s, k - 3, 3) && OnlyPrefixes(s, k - 3))
  }

  /** What is left after all leading prefixes; "." stands for nothing and for "..". */
  lemma StripMeans(s: Text) returns (k: nat)
    ensures k <= |s| && OnlyPrefixes(s, k) && !PrefixAt(s, k, 1) && !PrefixAt(s, k, 2) && !PrefixAt(s, k, 3)
    ensures Strip(s) == if s[k..] == [] || s[k..] == [46, 46] then [46] else s[k..]
  {
    k := DropMeans(s, 0);
    assert s[0..] == s;
  }

  lemma {:induction false} DropMeans(s: Text, i: nat) returns (k: nat)
    requires i <= |s| && OnlyPrefixes(s, i)
    ensures k <= |s| && OnlyPrefixes(s, k) && !PrefixAt(s, k, 1) && !PrefixAt(s, k, 2) && !PrefixAt(s, k, 3)
    ensures DropsTo(s[i..], s[k..])
    decreases |s| - i
  {
    if Antisocial(s[i..]) {
      var n := NextPrefix(s, i);
      k := DropMeans(s, i + n);
      DropsOn(s[i..], s[i + n..], s[k..]);
    } else {
      k := i;
      AntisocialIs(s, i);
      DropsNone(s[i..]);
    }
  }

  lemma NextPrefix(s: Text, i: nat) returns (n: nat)
    requires i <= |s| && OnlyPrefixes(s, i) && Antisocial(s[i..])
    ensures 0 < n && i + n <= |s| && OnlyPrefixes(s, i + n) && SameDrop(s[i..], s[i + n..])
  {
    n := OnePrefix(s, i);
    OneMorePrefix(s, i, n);
  }

  ghost predicate DropsTo(r: Text, t: Text) { Dropped(r) == t }

  lemma DropsNone(r: Text)
    requires !Antisocial(r)
    ensures DropsTo(r, r)
  {
  }

  lemma DropsOn(r: Text, q: Text, t: Text)
    requires DropsTo(q, t) && SameDrop(r, q)
    ensures DropsTo(r, t)
  {
  }

  ghost predicate SameDrop(r: Text, q: Text) { Dropped(r) == Dropped(q) }

  lemma OnePrefix(s: Text, i: nat) returns (n: nat)
    requires i <= |s| && Antisocial(s[i..])
    ensures PrefixAt(s, i, n) && SameDrop(s[i..], s[i + n..])
  {
    SlashIn(s[i..]);
    n := FirstSlash(s, i);
  }

  lemma OneMorePrefix(s: Text, i: nat, n: nat)
    requires OnlyPrefixes(s, i) && PrefixAt(s, i, n)
    ensures OnlyPrefixes(s, i + n)
  {
    assert PrefixAt(s, i, i + n - i);
  }

  lemma AntisocialIs(s: Text, i: nat)
    requires i <= |s|
    ensures Antisocial(s[i..]) <==> PrefixAt(s, i, 1) || PrefixAt(s, i, 2) || PrefixAt(s, i, 3)
  {
    var r := s[i..];
    if |r| >= 2 { assert r[..2] == [r[0], r[1]]; }
    if |r| >= 3 { assert r[..3] == [r[0], r[1], r[2]]; }
  }

  /** Dropping up to the first slash drops one prefix. */
  lemma FirstSlash(s: Text, i: nat) returns (n: nat)
    requires i <= |s| && Antisocial(s[i..]) && SLASH in s[i..]
    ensures PrefixAt(s, i, n) && AfterSlash(s[i..]) == s[i + n..]
  {
    AntisocialIs(s, i);
    if s[i] == 47 {
      n := 1;
      SlashNow(s, i);
    } else if PrefixAt(s, i, 2) {
      n := 2;
      SlashLater(s, i);
      SlashNow(s, i + 1);
    } else {
      n := 3;
      SlashLater(s, i);
      SlashLater(s, i + 1);
      SlashNow(s, i + 2);
    }
  }

  lemma SlashNow(s: Text, i: nat)
    requires i < |s| && s[i] == 47
    ensures SLASH in s[i..] && AfterSlash(s[i..]) == s[i + 1..]
  {
    assert s[i..][0] == 47 && s[i..][1..] == s[i + 1..];
  }

  lemma SlashLater(s: Text, i: nat)
    requires i < |s| && s[i] != 47 && SLASH in s[i..]
    ensures SLASH in s[i + 1..] && AfterSlash(s[i..]) == AfterSlash(s[i + 1..])
  {
    assert s[i..] == [s[i]] + s[i + 1..] && s[i..][1..] == s[i + 1..];
  }

  // ------------------------------------------------------------------
  // ustar_parse_header

  predicate AllZero(h: seq<Byte>) { forall i :: 0 <= i < |h| ==> h[i] == 0 }

  /** "ustar" and a null byte. */
  predicate HasMagic(h: seq<Byte>)
    requires |h| == 512
  {
    h[257] == 117 && h[258] == 115 && h[259] == 116 && h[260] == 97 && h[261] == 114 && h[262] == 0
  }

  predicate HasVersion(h: seq<Byte>)
    requires |h| == 512
  {
    h[263] == 48 && h[264] == 48
  }

  /** The name is what stands before the first null byte. */
  predicate NameIs(h: seq<Byte>, n: nat)
    requires |h| == 512
  {
    n < 100 && h[n] == 0 && forall i :: 0 <= i < n ==> h[i] != 0
  }

  lemma MagicIs(h: seq<Byte>)
    requires |h| == 512
    ensures h[257..263] == USTAR + [0] <==> HasMagic(h)
  {
    assert h[257..263] == [h[257], h[258], h[259], h[260], h[261], h[262]];
    assert USTAR + [0] == [117, 115, 116, 97, 114, 0];
  }

  lemma {:induction false} NameUpTo(s: seq<Byte>, n: nat)
    requires n < |s| && s[n] == 0 && forall i :: 0 <= i < n ==> s[i] != 0
    ensures CString(s) == s[..n]
    decreases n
  {
    if n > 0 {
      NameUpTo(s[1..], n - 1);
      assert s[..n] == [s[0]] + s[1..][..n - 1];
    }
  }

  /** The block that ends an archive is the one of zeros. */
  lemma EndMeans(h: seq<Byte>)
    requires |h| == 512
    ensures Parse(h) == EndOfArchive <==> AllZero(h)
  {
    assert AllZero(h) ==> h == Zeros(512);
  }

  /** Everything an entry must satisfy, but for its name. */
  ghost predicate IsEntry(h: seq<Byte>, kind: Byte, size: nat)
    requires |h| == 512
  {
    && HasMagic(h) && HasVersion(h) && IsOctal(h[148..156], Checksum(h)) && h[99] == 0 && h[345] == 0
    && h[156] == kind && (kind == 48 || kind == 53)
    && (kind == 53 ==> size == 0) && (kind == 48 ==> IsOctal(h[124..136], size) && size <= 0x7fff_ffff)
  }

  /** A block is accepted as an entry exactly if it satisfies all of it, and then its name is the stripped
      one. */
  lemma EntryMeans(h: seq<Byte>, kind: Byte, size: nat, n: nat)
    requires |h| == 512 && NameIs(h, n)
    ensures Parse(h) == Entry(Strip(h[..n]), kind, size) <==> IsEntry(h, kind, size)
    ensures Parse(h).Entry? && Parse(h).kind == kind && Parse(h).size == size ==> Parse(h).name == Strip(h[..n])
  {
    ParsedFields(h, kind, size);
    NameUpTo(h[..100], n);
    assert h[..100][..n] == h[..n];
  }

  lemma ParsedFields(h: seq<Byte>, kind: Byte, size: nat)
    requires |h| == 512
    ensures Parse(h).Entry? && Parse(h).kind == kind && Parse(h).size == size <==> IsEntry(h, kind, size)
    ensures Parse(h).Entry? ==> Parse(h).name == Strip(CString(h[..100]))
  {
    MagicIs(h);
    SumIsChecksum(h);
    ParseOctalMeans(h[148..156], Checksum(h));
    ParseOctalMeans(h[124..136], size);
    assert h == Zeros(512) ==> h[257] == 0;
  }

  /** Every accepted block has a name that ends within its field. */
  lemma EntryHasName(h: seq<Byte>) returns (n: nat)
    requires |h| == 512 && Parse(h).Entry?
    ensures NameIs(h, n)
  {
    ParsedFields(h, Parse(h).kind, Parse(h).size);
    n := 0;
    while h[n] != 0
      invariant n < 100 && forall i :: 0 <= i < n ==> h[i] != 0
      decreases 100 - n
    {
      n := n + 1;
    }
  }

  ghost predicate IsNumber(s: seq<Byte>) { exists v: nat :: IsOctal(s, v) }

  lemma ParsesWhen(s: seq<Byte>)
    ensures ParseOctal(s).Some? <==> IsNumber(s)
  {
    if ParseOctal(s).Some? { ParseOctalMeans(s, ParseOctal(s).value); }
    if IsNumber(s) {
      var v: nat :| IsOctal(s, v);
      ParseOctalMeans(s, v);
    }
  }

  /** Magic, version and checksum are right. */
  ghost predicate Trusted(h: seq<Byte>)
    requires |h| == 512
  {
    HasMagic(h) && HasVersion(h) && IsOctal(h[148..156], Checksum(h))
  }

  /** Trusted, with a name that fits its field. */
  ghost predicate Named(h: seq<Byte>)
    requires |h| == 512
  {
    Trusted(h) && h[99] == 0 && h[345] == 0
  }

  /** Each complaint about the header as a whole, exactly when it is made: the first that applies. */
  lemma HeaderRefused(h: seq<Byte>)
    requires |h| == 512
    ensures Parse(h) == Failed("not a ustar archive") <==> !AllZero(h) && !HasMagic(h)
    ensures Parse(h) == Failed("invalid ustar version") <==> HasMagic(h) && !HasVersion(h)
    ensures Parse(h) == Failed("corrupt chksum field") <==> HasMagic(h) && HasVersion(h) && !IsNumber(h[148..156])
    ensures Parse(h) == Failed("checksum mismatch") <==>
            HasMagic(h) && HasVersion(h) && IsNumber(h[148..156]) && !IsOctal(h[148..156], Checksum(h))
  {
    MagicIs(h);
    EndMeans(h);
    SumIsChecksum(h);
    ParsesWhen(h[148..156]);
    ParseOctalMeans(h[148..156], Checksum(h));
    assert HasMagic(h) ==> !AllZero(h);
  }

  /** And each complaint about what it describes. */
  lemma EntryRefused(h: seq<Byte>)
    requires |h| == 512
    ensures Parse(h) == Failed("file name too long") <==> Trusted(h) && (h[99] != 0 || h[345] != 0)
    ensures Parse(h) == Failed("unimplemented file type") <==> Named(h) && h[156] != 48 && h[156] != 53
    ensures Parse(h) == Failed("corrupt file size field") <==> Named(h) && h[156] == 48 && !IsNumber(h[124..136])
    ensures Parse(h) == Failed("file too large") <==>
            Named(h) && h[156] == 48 && exists v: nat :: IsOctal(h[124..136], v) && v > 0x7fff_ffff
  {
    MagicIs(h);
    EndMeans(h);
    SumIsChecksum(h);
    ParseOctalMeans(h[148..156], Checksum(h));
    ParsesWhen(h[124..136]);
    if ParseOctal(h[124..136]).Some? {
      ParseOctalMeans(h[124..136], ParseOctal(h[124..136]).value);
    }
    forall v: nat | IsOctal(h[124..136], v) ensures ParseOctal(h[124..136]) == Some(v) {
      ParseOctalMeans(h[124..136], v);
    }
    assert HasMagic(h) ==> !AllZero(h);
  }

  // ------------------------------------------------------------------
  // ustar_make_header

  /** w octal digits that stand for v, and a null byte. */
  ghost predicate HoldsNumber(s: seq<Byte>, w: nat, v: nat) {
    |s| == w + 1 && (forall i :: 0 <= i < w ==> IsDigit(s[i])) && s[w] == 0 && OctalValue(s[..w]) == v
  }

  lemma {:induction false} DigitsHold(v: nat, w: nat)
    requires Shr(v, w) == 0
    ensures HoldsNumber(Digits(v, w) + [0], w, v)
    decreases w
  {
    var d := Digits(v, w);
    assert (d + [0])[..w] == d;
    forall i | 0 <= i < w ensures IsDigit((d + [0])[i]) { DigitAt(v, w, i); }
    if w > 0 {
      DigitsHold(v / 8, w - 1);
      var e := Digits(v / 8, w - 1);
      assert (e + [0])[..w - 1] == e && d[..w - 1] == e;
    }
  }

  /** A number field. */
  lemma NumberAt(h: seq<Byte>, at: nat, w: nat, v: nat)
    requires at + w + 1 <= |h| && Shr(v, w) == 0 && h[at..at + w + 1] == Digits(v, w) + [0]
    ensures HoldsNumber(h[at..at + w + 1], w, v)
  {
    DigitsHold(v, w);
  }

  /** The fixed fields of a made header: mode 644 or 755 (octal), user and group 0, the modification time,
      type, magic, version, and "root" twice. */
  lemma MadeFields(name: Text, kind: Byte, size: int)
    requires Makeable(name, kind, size)
    ensures var h := Header(name, kind, size);
            && h[0..|name|] == name && h[|name|] == 0
            && HoldsNumber(h[100..108], 7, if kind == 48 then 6 * 64 + 4 * 8 + 4 else 7 * 64 + 5 * 8 + 5)
            && HoldsNumber(h[108..116], 7, 0) && HoldsNumber(h[116..124], 7, 0)
            && HoldsNumber(h[136..148], 11, 1136102400)
            && h[156] == kind && HasMagic(h) && HasVersion(h)
            && h[265..270] == [114, 111, 111, 116, 0] && h[297..302] == [114, 111, 111, 116, 0]
  {
    MadeName(name, kind, size);
    MadeMode(name, kind, size);
    MadeUser(name, kind, size);
    MadeGroup(name, kind, size);
    MadeTime(name, kind, size);
    HeaderMarks(name, kind, size);
    MagicIs(Header(name, kind, size));
    MadeOwners(name, kind, size);
  }

  lemma MadeMode(name: Text, kind: Byte, size: int)
    requires Makeable(name, kind, size)
    ensures HoldsNumber(Header(name, kind, size)[100..108], 7,
                        if kind == 48 then 6 * 64 + 4 * 8 + 4 else 7 * 64 + 5 * 8 + 5)
  {
    ShrZero(Mode(kind), 7);
    HeaderHolds(name, kind, size, 1, 100, Digits(Mode(kind), 7) + [0]);
    NumberAt(Header(name, kind, size), 100, 7, Mode(kind));
  }

  lemma MadeUser(name: Text, kind: Byte, size: int)
    requires Makeable(name, kind, size)
    ensures HoldsNumber(Header(name, kind, size)[108..116], 7, 0)
  {
    ShrZero(NOBODY, 7);
    HeaderHolds(name, kind, size, 2, 108, Digits(NOBODY, 7) + [0]);
    NumberAt(Header(name, kind, size), 108, 7, NOBODY);
  }

  lemma MadeGroup(name: Text, kind: Byte, size: int)
    requires Makeable(name, kind, size)
    ensures HoldsNumber(Header(name, kind, size)[116..124], 7, 0)
  {
    ShrZero(NOBODY, 7);
    HeaderHolds(name, kind, size, 3, 116, Digits(NOBODY, 7) + [0]);
    NumberAt(Header(name, kind, size), 116, 7, NOBODY);
  }

  lemma MadeTime(name: Text, kind: Byte, size: int)
    requires Makeable(name, kind, size)
    ensures HoldsNumber(Header(name, kind, size)[136..148], 11, 1136102400)
  {
    ShrZero(MTIME, 11);
    HeaderHolds(name, kind, size, 5, 136, Digits(MTIME, 11) + [0]);
    NumberAt(Header(name, kind, size), 136, 11, MTIME);
  }

  lemma MadeName(name: Text, kind: Byte, size: int)
    requires Makeable(name, kind, size)
    ensures Header(name, kind, size)[0..|name|] == name && Header(name, kind, size)[|name|] == 0
  {
    var h := Header(name, kind, size);
    HeaderHolds(name, kind, size, 0, 0, name + [0]);
    assert h[0..|name|] == h[0..|name| + 1][..|name|];
    assert h[0..|name| + 1][|name|] == h[|name|];
  }

  lemma MadeOwners(name: Text, kind: Byte, size: int)
    requires Makeable(name, kind, size)
    ensures Header(name, kind, size)[265..270] == [114, 111, 111, 116, 0]
    ensures Header(name, kind, size)[297..302] == [114, 111, 111, 116, 0]
  {
    HeaderHolds(name, kind, size, 9, 297, ROOT + [0]);
    HeaderHolds(name, kind, size, 10, 265, ROOT + [0]);
  }

  /** Its size field holds the size as an unsigned word, its checksum field the checksum of the whole. */
  lemma MadeValues(name: Text, kind: Byte, size: int)
    requires Makeable(name, kind, size)
    ensures var h := Header(name, kind, size);
            && IsOctal(h[124..136], if size >= 0 then size else size + 0x1_0000_0000)
            && IsOctal(h[148..156], Checksum(h))
  {
    var h := Header(name, kind, size);
    HeaderMarks(name, kind, size);
    ShrZero(Unsigned(size), 11);
    FormattedMeans(Unsigned(size), 11);
    HeaderChecksum(name, kind, size);
    SumIsChecksum(h);
    ParseOctalMeans(h[148..156], Checksum(h));
  }
}
