/** lib/ustar.c: making and parsing the 512-byte header blocks of ustar archives (the "ustar
    Interchange Format" section of the POSIX pax utility). */
module Ustar {
  import opened Basics
  import opened CText
  import opened InodeIO
  import opened Octal

  const SLASH: Byte := 47
  const DOT: Byte := 46

  // ------------------------------------------------------------------
  // strip_antisocial_prefixes

  predicate Antisocial(s: Text) {
    || (|s| >= 1 && s[0] == SLASH)
    || (|s| >= 2 && s[..2] == [DOT, SLASH])
    || (|s| >= 3 && s[..3] == [DOT, DOT, SLASH])
  }

  /** What follows the first slash. */
  function AfterSlash(s: Text): (r: Text)
    requires SLASH in s
    ensures |r| < |s|
  {
    if s[0] == SLASH then s[1..] else AfterSlash(s[1..])
  }

  function Dropped(s: Text): Text
    decreases |s|
  {
    if Antisocial(s) then (SlashIn(s); Dropped(AfterSlash(s))) else s
  }

  lemma SlashIn(s: Text)
    requires Antisocial(s)
    ensures SLASH in s
  {
    if s[0] != SLASH && s[1] != SLASH { assert s[..3][2] == s[2]; }
    assert |s| >= 2 && s[..2] == [DOT, SLASH] ==> s[..2][1] == s[1];
  }

  function Strip(s: Text): Text {
    var d := Dropped(s);
    if d == [] || d == [DOT, DOT] then [DOT] else d
  }

  lemma {:induction false} DroppedIsClean(s: Text)
    requires NoNulls(s)
    ensures !Antisocial(Dropped(s)) && NoNulls(Dropped(s)) && |Dropped(s)| <= |s|
    decreases |s|
  {
    if Antisocial(s) {
      SlashIn(s);
      AfterSlashText(s);
      DroppedIsClean(AfterSlash(s));
    }
  }

  lemma {:induction false} AfterSlashText(s: Text)
    requires SLASH in s && NoNulls(s)
    ensures NoNulls(AfterSlash(s))
  {
    if s[0] != SLASH { AfterSlashText(s[1..]); }
  }

  /** Stripping a stripped name changes nothing; a stripped name is not empty, does not start at the
      root and does not start by leaving the directory. */
  lemma StripIsIdempotent(s: Text)
    requires NoNulls(s)
    ensures Strip(Strip(s)) == Strip(s) && Strip(s) != [] && NoNulls(Strip(s))
    ensures !Antisocial(Strip(s)) && Strip(s) != [DOT, DOT]
  {
    DroppedIsClean(s);
  }

  method StripPrefixes(name: Text) returns (r: Text)
    ensures r == Strip(name)
  {
    r := name;
    while Antisocial(r)
      invariant Dropped(name) == Dropped(r)
      decreases |r|
    {
      SlashIn(r);
      var i := 0;
      while r[i] != SLASH
        invariant i < |r| && SLASH in r[i..] && AfterSlash(r) == AfterSlash(r[i..])
        decreases |r| - i
      {
        assert r[i..][1..] == r[i + 1..] && r[i..][0] == r[i];
        i := i + 1;
      }
      assert r[i..][1..] == r[i + 1..];
      r := r[i + 1..];
    }
    if r == [] || r == [DOT, DOT] {
      r := [DOT];
    }
  }

  // ------------------------------------------------------------------
  // The checksum

  predicate InChksum(i: int) { 148 <= i < 156 }

  /** The octets of the header, with the checksum field read as spaces. */
  function Sum(h: seq<Byte>, n: nat): nat
    requires n <= |h|
  {
    if n == 0 then 0 else Sum(h, n - 1) + if InChksum(n - 1) then 32 else h[n - 1]
  }

  method CalculateChksum(h: array<Byte>) returns (sum: nat)
    requires h.Length == 512
    ensures sum == Sum(h[..], 512)
  {
    sum := 0;
    for i := 0 to 512
      invariant sum == Sum(h[..], i)
    {
      sum := sum + if InChksum(i) then 32 else h[i];
    }
  }

  /** Changing a byte outside the field changes the sum by as much; inside, not at all. */
  lemma {:induction false} SumChanges(h: seq<Byte>, i: nat, b: Byte, n: nat)
    requires i < |h| && n <= |h|
    ensures Sum(h[i := b], n) == Sum(h, n) + if i < n && !InChksum(i) then b - h[i] else 0
  {
    if n > 0 { SumChanges(h, i, b, n - 1); }
  }

  lemma {:induction false} SumIgnoresField(h: seq<Byte>, h': seq<Byte>, n: nat)
    requires n <= |h| == |h'| && forall i :: 0 <= i < |h| && !InChksum(i) ==> h[i] == h'[i]
    ensures Sum(h, n) == Sum(h', n)
  {
    if n > 0 { SumIgnoresField(h, h', n - 1); }
  }

  lemma {:induction false} SumBound(h: seq<Byte>, n: nat)
    requires n <= |h|
    ensures Sum(h, n) <= 255 * n
  {
    if n > 0 { SumBound(h, n - 1); }
  }

  // ------------------------------------------------------------------
  // The layout of a header

  datatype Field = Field(at: nat, data: seq<Byte>)

  function Stored(h: seq<Byte>, f: Field): (r: seq<Byte>)
    requires f.at + |f.data| <= |h|
    ensures |r| == |h|
    ensures forall i :: 0 <= i < |h| ==> r[i] == if f.at <= i < f.at + |f.data| then f.data[i - f.at] else h[i]
  {
    h[..f.at] + f.data + h[f.at + |f.data|..]
  }

  predicate Inside(fs: seq<Field>, n: nat) { forall k :: 0 <= k < |fs| ==> fs[k].at + |fs[k].data| <= n }

  /** All fields stored, in order. */
  function Laid(h: seq<Byte>, fs: seq<Field>): (r: seq<Byte>)
    requires Inside(fs, |h|)
    ensures |r| == |h|
    decreases |fs|
  {
    if fs == [] then h else Laid(Stored(h, fs[0]), fs[1..])
  }

  predicate Apart(f: Field, g: Field) { f.at + |f.data| <= g.at || g.at + |g.data| <= f.at }

  predicate AllApart(fs: seq<Field>) { forall j, k :: 0 <= j < k < |fs| ==> Apart(fs[j], fs[k]) }

  predicate Covers(f: Field, i: nat) { f.at <= i < f.at + |f.data| }

  lemma {:induction false} LaidElsewhere(h: seq<Byte>, fs: seq<Field>, i: nat)
    requires Inside(fs, |h|) && i < |h| && forall k :: 0 <= k < |fs| ==> !Covers(fs[k], i)
    ensures Laid(h, fs)[i] == h[i]
    decreases |fs|
  {
    if fs != [] { LaidElsewhere(Stored(h, fs[0]), fs[1..], i); }
  }

  lemma {:induction false} LaidByte(h: seq<Byte>, fs: seq<Field>, k: nat, i: nat)
    requires Inside(fs, |h|) && AllApart(fs) && k < |fs| && Covers(fs[k], i)
    ensures i < |h| && Laid(h, fs)[i] == fs[k].data[i - fs[k].at]
    decreases |fs|
  {
    if k == 0 {
      forall j | 0 <= j < |fs[1..]| ensures !Covers(fs[1..][j], i) {
        assert Apart(fs[0], fs[j + 1]);
      }
      LaidElsewhere(Stored(h, fs[0]), fs[1..], i);
    } else {
      LaidByte(Stored(h, fs[0]), fs[1..], k - 1, i);
    }
  }

  /** Each field can be read back. */
  lemma LaidField(h: seq<Byte>, fs: seq<Field>, k: nat)
    requires Inside(fs, |h|) && AllApart(fs) && k < |fs|
    ensures Laid(h, fs)[fs[k].at..fs[k].at + |fs[k].data|] == fs[k].data
  {
    var a, data := fs[k].at, fs[k].data;
    var got := Laid(h, fs)[a..a + |data|];
    forall j | 0 <= j < |data| ensures got[j] == data[j] {
      assert Covers(fs[k], a + j);
      LaidByte(h, fs, k, a + j);
    }
  }

  const MTIME: nat := 1136102400
  const NOBODY: nat := 0
  const REGULAR: Byte := 48
  const DIRECTORY: Byte := 53
  const USTAR: Text := [117, 115, 116, 97, 114]
  const ROOT: Text := [114, 111, 111, 116]

  /** Mode 644 for files, 755 for directories, in octal. */
  function Mode(kind: Byte): nat { if kind == REGULAR then 0x1a4 else 0x1ed }

  /** An int passed for %o. */
  function Unsigned(size: int): nat
    requires -0x8000_0000 <= size < 0x8000_0000
  {
    if size < 0 then size + 0x1_0000_0000 else size
  }

  /** Everything that ustar_make_header stores before the checksum, for a stripped name. */
  function Fields(name: Text, kind: Byte, size: int): (fs: seq<Field>)
    requires |name| <= 99 && -0x8000_0000 <= size < 0x8000_0000
    ensures |fs| == 11
  {
    [Field(0, name + [0]),
     Field(100, Digits(Mode(kind), 7) + [0]),
     Field(108, Digits(NOBODY, 7) + [0]),
     Field(116, Digits(NOBODY, 7) + [0]),
     Field(124, Digits(Unsigned(size), 11) + [0]),
     Field(136, Digits(MTIME, 11) + [0]),
     Field(156, [kind]),
     Field(257, USTAR + [0]),
     Field(263, [48, 48]),
     Field(297, ROOT + [0]),
     Field(265, ROOT + [0])]
  }

  /** Where the fields lie. */
  predicate Placed(fs: seq<Field>) {
    && |fs| == 11
    && fs[0].at == 0 && |fs[0].data| <= 100
    && fs[1].at == 100 && |fs[1].data| == 8
    && fs[2].at == 108 && |fs[2].data| == 8
    && fs[3].at == 116 && |fs[3].data| == 8
    && fs[4].at == 124 && |fs[4].data| == 12
    && fs[5].at == 136 && |fs[5].data| == 12
    && fs[6].at == 156 && |fs[6].data| == 1
    && fs[7].at == 257 && |fs[7].data| == 6
    && fs[8].at == 263 && |fs[8].data| == 2
    && fs[9].at == 297 && |fs[9].data| == 5
    && fs[10].at == 265 && |fs[10].data| == 5
  }

  lemma PlacedApart(fs: seq<Field>)
    requires Placed(fs)
    ensures Inside(fs, 512) && AllApart(fs)
    ensures forall k :: 0 <= k < 11 ==> Apart(fs[k], Field(148, Zeros(8)))
  {
    forall j, k | 0 <= j < k < 11 ensures Apart(fs[j], fs[k]) {
      if k == 10 && j == 9 {
      } else if k == 10 {
        assert fs[j].at + |fs[j].data| <= 265;
      } else {
        assert fs[j].at + |fs[j].data| <= fs[j + 1].at <= fs[k].at by { Ascending(fs, j + 1, k); }
      }
    }
  }

  lemma Ascending(fs: seq<Field>, j: nat, k: nat)
    requires Placed(fs) && 1 <= j <= k < 10
    ensures fs[j - 1].at + |fs[j - 1].data| <= fs[j].at <= fs[k].at
    decreases k - j
  {
    if j < k { Ascending(fs, j + 1, k); }
  }

  lemma FieldsPlaced(name: Text, kind: Byte, size: int)
    requires |name| <= 99 && -0x8000_0000 <= size < 0x8000_0000
    ensures Placed(Fields(name, kind, size))
  {
  }

  function Zeros(n: nat): seq<Byte> { seq(n, _ => 0) }

  function Unsummed(name: Text, kind: Byte, size: int): (h: seq<Byte>)
    requires |name| <= 99 && -0x8000_0000 <= size < 0x8000_0000
    ensures |h| == 512
  {
    FieldsPlaced(name, kind, size);
    PlacedApart(Fields(name, kind, size));
    Laid(Zeros(512), Fields(name, kind, size))
  }

  function Header(name: Text, kind: Byte, size: int): (h: seq<Byte>)
    requires |name| <= 99 && -0x8000_0000 <= size < 0x8000_0000
    ensures |h| == 512
  {
    var h := Unsummed(name, kind, size);
    Stored(h, Field(148, Digits(Sum(h, 512), 7) + [0]))
  }

  lemma {:induction false} LaidPrefix(h: seq<Byte>, fs: seq<Field>, k: nat)
    requires Inside(fs, |h|) && k < |fs|
    ensures Inside(fs[..k], |h|) && Inside(fs[..k + 1], |h|)
    ensures Laid(h, fs[..k + 1]) == Stored(Laid(h, fs[..k]), fs[k])
    decreases |fs|
  {
    if k == 0 {
      assert fs[..1][1..] == [];
    } else {
      assert fs[..k][1..] == fs[1..][..k - 1] && fs[..k + 1][1..] == fs[1..][..k];
      LaidPrefix(Stored(h, fs[0]), fs[1..], k - 1);
    }
  }

  // ------------------------------------------------------------------
  // ustar_make_header

  method StoreField(header: array<Byte>, at: nat, data: seq<Byte>, ghost fs: seq<Field>, ghost k: nat)
    requires header.Length == 512 && k < |fs| && Inside(fs, 512) && Inside(fs[..k], 512) && fs[k] == Field(at, data)
    requires header[..] == Laid(Zeros(512), fs[..k])
    modifies header
    ensures Inside(fs[..k + 1], 512) && header[..] == Laid(Zeros(512), fs[..k + 1])
  {
    LaidPrefix(Zeros(512), fs, k);
    StoreBytes(header, at, data);
  }

  method StoreBytes(header: array<Byte>, at: nat, data: seq<Byte>)
    requires at + |data| <= header.Length
    modifies header
    ensures header[..] == Stored(old(header[..]), Field(at, data))
  {
    forall i | 0 <= i < |data| {
      header[at + i] := data[i];
    }
  }

  /** snprintf (buffer, size, "%0No", value) for a value that fits: N digits and a null byte. */
  method OctalText(value: nat, width: nat) returns (s: seq<Byte>)
    requires width >= 1 && Shr(value, width) == 0
    ensures s == Digits(value, width) + [0]
  {
    LengthFits(value, width);
    var digits := FormatOctal(value, width);
    s := digits + [0];
  }

  method MakeHeader(fileName: Text, kind: Byte, size: int, header: array<Byte>) returns (ok: bool)
    requires header.Length == 512 && (kind == REGULAR || kind == DIRECTORY) && -0x8000_0000 <= size < 0x8000_0000
    modifies header
    ensures ok <==> |Strip(fileName)| <= 99
    ensures ok ==> header[..] == Header(Strip(fileName), kind, size)
    ensures !ok ==> header[..] == old(header[..])
  {
    var name := StripPrefixes(fileName);
    if |name| > 99 {
      return false;
    }
    FillFields(name, kind, size, header);
    var sum := CalculateChksum(header);
    SumBound(header[..], 512);
    ShrZero(sum, 7);
    var text := OctalText(sum, 7);
    forall i | 0 <= i < 8 {
      header[148 + i] := text[i];
    }
    assert header[..] == Stored(Unsummed(name, kind, size), Field(148, text));
    ok := true;
  }

  method FillFields(name: Text, kind: Byte, size: int, header: array<Byte>)
    requires header.Length == 512 && |name| <= 99 && -0x8000_0000 <= size < 0x8000_0000
    modifies header
    ensures header[..] == Unsummed(name, kind, size)
  {
    ghost var fs := Fields(name, kind, size);
    FieldsPlaced(name, kind, size);
    PlacedApart(fs);
    forall i | 0 <= i < 512 {
      header[i] := 0;
    }
    assert header[..] == Zeros(512) && fs[..0] == [];
    ShrZero(NOBODY, 7);
    var zeros := OctalText(NOBODY, 7);
    var mode := OctalMode(kind);
    var sizeText, mtime := OctalSize(size);
    FillNumbers(header, name + [0], mode, zeros, sizeText, mtime, fs);
    FillTexts(header, [kind], USTAR + [0], [48, 48], ROOT + [0], fs);
    assert fs[..11] == fs;
  }

  method FillTexts(header: array<Byte>, kind: Text, magic: Text, version: Text, root: Text, ghost fs: seq<Field>)
    requires header.Length == 512 && |fs| == 11 && Inside(fs, 512) && Inside(fs[..6], 512)
             && header[..] == Laid(Zeros(512), fs[..6])
    requires fs[6] == Field(156, kind) && fs[7] == Field(257, magic) && fs[8] == Field(263, version)
    requires fs[9] == Field(297, root) && fs[10] == Field(265, root)
    modifies header
    ensures Inside(fs[..11], 512) && header[..] == Laid(Zeros(512), fs[..11])
  {
    StoreField(header, 156, kind, fs, 6);
    StoreField(header, 257, magic, fs, 7);
    StoreField(header, 263, version, fs, 8);
    StoreField(header, 297, root, fs, 9);
    StoreField(header, 265, root, fs, 10);
  }

  method FillNumbers(header: array<Byte>, name: Text, mode: Text, zeros: Text, size: Text, mtime: Text,
        ghost fs: seq<Field>)
    requires header.Length == 512 && |fs| == 11 && Inside(fs, 512) && header[..] == Laid(Zeros(512), fs[..0])
    requires fs[0] == Field(0, name) && fs[1] == Field(100, mode) && fs[2] == Field(108, zeros)
    requires fs[3] == Field(116, zeros) && fs[4] == Field(124, size) && fs[5] == Field(136, mtime)
    modifies header
    ensures Inside(fs[..6], 512) && header[..] == Laid(Zeros(512), fs[..6])
  {
    StoreField(header, 0, name, fs, 0);
    StoreField(header, 100, mode, fs, 1);
    StoreField(header, 108, zeros, fs, 2);
    StoreField(header, 116, zeros, fs, 3);
    StoreField(header, 124, size, fs, 4);
    StoreField(header, 136, mtime, fs, 5);
  }

  method OctalMode(kind: Byte) returns (s: seq<Byte>)
    ensures s == Digits(Mode(kind), 7) + [0]
  {
    var mode := if kind == REGULAR then 0x1a4 else 0x1ed;
    ShrZero(mode, 7);
    s := OctalText(mode, 7);
  }

  method OctalSize(size: int) returns (s: seq<Byte>, mtime: seq<Byte>)
    requires -0x8000_0000 <= size < 0x8000_0000
    ensures s == Digits(Unsigned(size), 11) + [0] && mtime == Digits(MTIME, 11) + [0]
  {
    ShrZero(Unsigned(size), 11);
    ShrZero(MTIME, 11);
    s := OctalText(Unsigned(size), 11);
    mtime := OctalText(MTIME, 11);
  }

  function Pow8(k: nat): nat { if k == 0 then 1 else 8 * Pow8(k - 1) }

  lemma Pow8Constants()
    ensures Pow8(7) == 2097152 && Pow8(11) == 8589934592
  {
    assert Pow8(4) == 4096;
    assert Pow8(8) == 4096 * 4096;
  }

  lemma {:induction false} ShrSmall(v: nat, k: nat)
    requires v < Pow8(k)
    ensures Shr(v, k) == 0
    decreases k
  {
    if k > 0 { ShrSmall(v / 8, k - 1); }
  }

  lemma ShrZero(v: nat, k: nat)
    requires (k == 7 && v < 2097152) || (k == 11 && v < 0x1_0000_0000)
    ensures Shr(v, k) == 0
  {
    Pow8Constants();
    ShrSmall(v, k);
  }

  // ------------------------------------------------------------------
  // ustar_parse_header

  datatype Parsed =
    | EndOfArchive
    | Entry(name: Text, kind: Byte, size: nat)
    | Failed(why: string)

  function Parse(h: seq<Byte>): Parsed
    requires |h| == 512
  {
    if h == Zeros(512) then EndOfArchive
    else if h[257..263] != USTAR + [0] then Failed("not a ustar archive")
    else if h[263] != 48 || h[264] != 48 then Failed("invalid ustar version")
    else if ParseOctal(h[148..156]) == None then Failed("corrupt chksum field")
    else if ParseOctal(h[148..156]).value != Sum(h, 512) then Failed("checksum mismatch")
    else if h[99] != 0 || h[345] != 0 then Failed("file name too long")
    else if h[156] != REGULAR && h[156] != DIRECTORY then Failed("unimplemented file type")
    else if h[156] == DIRECTORY then Entry(Strip(CString(h[..100])), DIRECTORY, 0)
    else if ParseOctal(h[124..136]) == None then Failed("corrupt file size field")
    else if ParseOctal(h[124..136]).value > 0x7fff_ffff then Failed("file too large")
    else Entry(Strip(CString(h[..100])), REGULAR, ParseOctal(h[124..136]).value)
  }

  method ReadName(h: array<Byte>) returns (name: Text)
    requires h.Length == 512 && h[99] == 0
    ensures name == CString(h[..100])
  {
    var n := 0;
    while h[n] != 0
      invariant n <= 99 && CString(h[..100]) == h[..n] + CString(h[n..100])
      decreases 99 - n
    {
      assert h[n..100][1..] == h[n + 1..100];
      n := n + 1;
    }
    name := h[..n];
  }

  method IsAllZeros(h: array<Byte>) returns (zeros: bool)
    requires h.Length == 512
    ensures zeros <==> h[..] == Zeros(512)
  {
    for i := 0 to 512
      invariant forall k :: 0 <= k < i ==> h[k] == 0
    {
      if h[i] != 0 {
        assert h[..][i] != Zeros(512)[i];
        return false;
      }
    }
    return true;
  }

  method ParseHeader(h: array<Byte>) returns (r: Parsed)
    requires h.Length == 512
    ensures r == Parse(h[..])
  {
    var zeros := IsAllZeros(h);
    if zeros {
      return EndOfArchive;
    }
    if h[257..263] != USTAR + [0] {
      return Failed("not a ustar archive");
    }
    if h[263] != 48 || h[264] != 48 {
      return Failed("invalid ustar version");
    }
    var chksum := ParseOctalField(h, 148, 8);
    if chksum == None {
      return Failed("corrupt chksum field");
    }
    var sum := CalculateChksum(h);
    if chksum.value != sum {
      return Failed("checksum mismatch");
    }
    if h[99] != 0 || h[345] != 0 {
      return Failed("file name too long");
    }
    if h[156] != REGULAR && h[156] != DIRECTORY {
      return Failed("unimplemented file type");
    }
    var size := Some(0);
    if h[156] == REGULAR {
      size := ParseOctalField(h, 124, 12);
      if size == None {
        return Failed("corrupt file size field");
      }
      if size.value > 0x7fff_ffff {
        return Failed("file too large");
      }
    }
    var name := ReadName(h);
    assert h[..][..100] == h[..100];
    var stripped := StripPrefixes(name);
    r := Entry(stripped, h[156], size.value);
  }

  // ------------------------------------------------------------------
  // What a made header says

  predicate Makeable(name: Text, kind: Byte, size: int) {
    |name| <= 99 && NoNulls(name) && (kind == REGULAR || kind == DIRECTORY) && -0x8000_0000 <= size < 0x8000_0000
  }

  /** Field k can be read back from the finished header. */
  lemma HeaderField(name: Text, kind: Byte, size: int, k: nat)
    requires Makeable(name, kind, size) && k < 11
    ensures var f := Fields(name, kind, size)[k];
            f.at + |f.data| <= 512 && Header(name, kind, size)[f.at..f.at + |f.data|] == f.data
  {
    var fs := Fields(name, kind, size);
    FieldsPlaced(name, kind, size);
    PlacedApart(fs);
    LaidField(Zeros(512), fs, k);
    assert Apart(fs[k], Field(148, Zeros(8)));
    StoredApart(Unsummed(name, kind, size), fs[k], Field(148, Digits(Sum(Unsummed(name, kind, size), 512), 7) + [0]));
  }

  lemma StoredApart(h: seq<Byte>, f: Field, g: Field)
    requires f.at + |f.data| <= |h| && g.at + |g.data| <= |h| && Apart(f, g)
    ensures Stored(h, g)[f.at..f.at + |f.data|] == h[f.at..f.at + |f.data|]
  {
  }

  /** Bytes that no field covers are zero. */
  lemma HeaderRest(name: Text, kind: Byte, size: int, i: nat)
    requires Makeable(name, kind, size) && (|name| < i < 100 || 345 <= i < 512)
    ensures Header(name, kind, size)[i] == 0
  {
    var fs := Fields(name, kind, size);
    FieldsPlaced(name, kind, size);
    PlacedApart(fs);
    forall k | 0 <= k < 11 && !(k == 0 && i <= |name|) ensures !Covers(fs[k], i) {
      if k == 0 { assert |fs[0].data| == |name| + 1; }
    }
    LaidElsewhere(Zeros(512), fs, i);
  }

  /** The stored checksum parses to the sum of the finished header. */
  lemma HeaderChecksum(name: Text, kind: Byte, size: int)
    requires Makeable(name, kind, size)
    ensures var h := Header(name, kind, size); ParseOctal(h[148..156]) == Some(Sum(h, 512))
  {
    var u, h := Unsummed(name, kind, size), Header(name, kind, size);
    var sum := Sum(u, 512);
    SumBound(u, 512);
    ShrZero(sum, 7);
    FieldRoundTrip(sum, 7);
    SumIgnoresField(u, h, 512);
    assert h[148..156] == Digits(sum, 7) + [0];
  }

  lemma HeaderName(name: Text, kind: Byte, size: int)
    requires Makeable(name, kind, size)
    ensures var h := Header(name, kind, size); CString(h[..100]) == name && h[99] == 0
  {
    var h := Header(name, kind, size);
    HeaderHolds(name, kind, size, 0, 0, name + [0]);
    NameIn(h, name);
    if |name| < 99 { HeaderRest(name, kind, size, 99); } else { SliceAt(h, 0, name + [0], 99); }
  }

  lemma NameIn(h: seq<Byte>, name: Text)
    requires |h| >= 100 && |name| <= 99 && NoNulls(name) && h[0..|name| + 1] == name + [0]
    ensures CString(h[..100]) == name
  {
    var rest := h[|name| + 1..100];
    assert h[..100] == name + [0] + rest;
    CStringIs(name, rest);
  }

  /** The fixed parts that the parser checks. */
  lemma HeaderMarks(name: Text, kind: Byte, size: int)
    requires Makeable(name, kind, size)
    ensures var h := Header(name, kind, size);
            && h[257..263] == USTAR + [0] && h[263] == 48 && h[264] == 48 && h[156] == kind && h[345] == 0
            && h[124..136] == Digits(Unsigned(size), 11) + [0]
            && h[257] != 0 && h[258] != 0
  {
    HeaderHolds(name, kind, size, 4, 124, Digits(Unsigned(size), 11) + [0]);
    HeaderMagic(name, kind, size);
    HeaderKind(name, kind, size);
  }

  lemma HeaderMagic(name: Text, kind: Byte, size: int)
    requires Makeable(name, kind, size)
    ensures var h := Header(name, kind, size);
            h[257..263] == USTAR + [0] && h[263] == 48 && h[264] == 48 && h[257] != 0 && h[258] != 0
  {
    var h := Header(name, kind, size);
    HeaderHolds(name, kind, size, 7, 257, USTAR + [0]);
    HeaderHolds(name, kind, size, 8, 263, [48, 48]);
    SliceAt(h, 257, USTAR + [0], 0);
    SliceAt(h, 257, USTAR + [0], 1);
    SliceAt(h, 263, [48, 48], 0);
    SliceAt(h, 263, [48, 48], 1);
  }

  lemma HeaderHolds(name: Text, kind: Byte, size: int, k: nat, at: nat, data: Text)
    requires Makeable(name, kind, size) && k < 11 && Fields(name, kind, size)[k] == Field(at, data)
    ensures at + |data| <= 512 && Header(name, kind, size)[at..at + |data|] == data
  {
    HeaderField(name, kind, size, k);
  }

  lemma SliceAt(h: seq<Byte>, at: nat, data: Text, j: nat)
    requires at + |data| <= |h| && h[at..at + |data|] == data && j < |data|
    ensures h[at + j] == data[j]
  {
    assert h[at..at + |data|][j] == h[at + j];
  }

  lemma HeaderKind(name: Text, kind: Byte, size: int)
    requires Makeable(name, kind, size)
    ensures Header(name, kind, size)[156] == kind && Header(name, kind, size)[345] == 0
  {
    HeaderHolds(name, kind, size, 6, 156, [kind]);
    SliceAt(Header(name, kind, size), 156, [kind], 0);
    HeaderRest(name, kind, size, 345);
  }

  /** Parsing a made header gives back the stripped name, the type and the size; a negative size
      comes back as too large a file. */
  lemma RoundTrip(fileName: Text, kind: Byte, size: int)
    requires NoNulls(fileName) && Makeable(Strip(fileName), kind, size)
    ensures Parse(Header(Strip(fileName), kind, size))
            == if kind == DIRECTORY then Entry(Strip(fileName), kind, 0)
               else if size >= 0 then Entry(Strip(fileName), kind, size)
               else Failed("file too large")
  {
    var name := Strip(fileName);
    StripIsIdempotent(fileName);
    HeaderChecksum(name, kind, size);
    HeaderName(name, kind, size);
    HeaderMarks(name, kind, size);
    ShrZero(Unsigned(size), 11);
    FieldRoundTrip(Unsigned(size), 11);
    var h := Header(name, kind, size);
    assert h[257] != Zeros(512)[257];
  }

  /** Changing any one byte of a made header outside the checksum field makes parsing fail. */
  lemma OneByteBreaks(name: Text, kind: Byte, size: int, i: nat, b: Byte)
    requires Makeable(name, kind, size) && i < 512 && !InChksum(i) && b != Header(name, kind, size)[i]
    ensures Parse(Header(name, kind, size)[i := b]).Failed?
  {
    var h := Header(name, kind, size);
    var h' := h[i := b];
    HeaderChecksum(name, kind, size);
    HeaderMarks(name, kind, size);
    SumChanges(h, i, b, 512);
    assert h'[148..156] == h[148..156];
    assert h'[257] != 0 || h'[258] != 0;
    assert h' != Zeros(512) by { assert Zeros(512)[257] == 0 && Zeros(512)[258] == 0; }
  }
}
