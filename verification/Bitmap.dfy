/** lib/kernel/bitmap.c: bits packed into 32-bit elements refine a sequence of booleans. */
module Bitmap {
  import opened Basics
  import opened Bits
  import InodeIO

  // ------------------------------------------------------------------
  // The sequence of booleans

  predicate AllAre(bits: seq<bool>, start: nat, cnt: nat, value: bool)
    requires start + cnt <= |bits|
  {
    forall k :: start <= k < start + cnt ==> bits[k] == value
  }

  function SetRange<T>(bits: seq<T>, start: nat, cnt: nat, value: T): (r: seq<T>)
    requires start + cnt <= |bits|
    ensures |r| == |bits|
    ensures forall k :: 0 <= k < |bits| ==> r[k] == if start <= k < start + cnt then value else bits[k]
  {
    bits[..start] + seq(cnt, _ => value) + bits[start + cnt..]
  }

  /** The first group of cnt consecutive bits at or after start that are all `value`. */
  function FirstRun(bits: seq<bool>, start: nat, cnt: nat, value: bool): (r: Option<nat>)
    ensures r.Some? ==> start <= r.value && r.value + cnt <= |bits| && AllAre(bits, r.value, cnt, value)
    ensures forall i :: start <= i && i + cnt <= |bits| && (r.Some? ==> i < r.value) ==> !AllAre(bits, i, cnt, value)
    decreases |bits| + 1 - start
  {
    if start + cnt > |bits| then None
    else if AllAre(bits, start, cnt, value) then Some(start)
    else if start == |bits| then None
    else FirstRun(bits, start + 1, cnt, value)
  }

  /** What bitmap_scan_and_flip finds can be given back: clearing it restores the bitmap. */
  lemma FlipBack(bits: seq<bool>, start: nat, cnt: nat, value: bool)
    requires start + cnt <= |bits| && AllAre(bits, start, cnt, value)
    ensures SetRange(SetRange(bits, start, cnt, !value), start, cnt, value) == bits
  {
  }

  // ------------------------------------------------------------------
  // The packed form

  type Word = w: nat | w < 0x1_0000_0000

  function ElemCnt(bitCnt: nat): nat { (bitCnt + 31) / 32 }

  function Masked(w: Word, i: nat): (r: Word)
    requires i < 32
    ensures forall k: nat :: Bit(r, k) == (k == i || Bit(w, k))
  {
    MarkedWord(w, i);
    Or(w, Pow2(i))
  }

  lemma MarkedWord(w: Word, i: nat)
    requires i < 32
    ensures Or(w, Pow2(i)) < 0x1_0000_0000
    ensures forall k: nat :: Bit(Or(w, Pow2(i)), k) == (k == i || Bit(w, k))
  {
    Pow2Constants();
    Pow2Grows(i, 31);
    OrBound(w, Pow2(i), 32);
    forall k: nat ensures Bit(Or(w, Pow2(i)), k) == (k == i || Bit(w, k)) {
      OrBits(w, Pow2(i), k);
      MaskBits(i, k);
    }
  }

  function Cleared(w: Word, i: nat): (r: Word)
    requires i < 32
    ensures forall k: nat :: Bit(r, k) == (k != i && Bit(w, k))
  {
    ClearedWord(w, i);
    AndNot(w, Pow2(i))
  }

  lemma ClearedWord(w: Word, i: nat)
    ensures AndNot(w, Pow2(i)) < 0x1_0000_0000
    ensures forall k: nat :: Bit(AndNot(w, Pow2(i)), k) == (k != i && Bit(w, k))
  {
    AndNotBound(w, Pow2(i));
    forall k: nat ensures Bit(AndNot(w, Pow2(i)), k) == (k != i && Bit(w, k)) {
      AndNotBits(w, Pow2(i), k);
      MaskBits(i, k);
    }
  }

  /** bitmap_test's expression. */
  lemma TestedBit(w: Word, i: nat)
    ensures (And(w, Pow2(i)) != 0) == Bit(w, i)
  {
    var x := And(w, Pow2(i));
    AndBits(w, Pow2(i), i);
    MaskBits(i, i);
    if x == 0 {
      ZeroHasNoBits(i);
    } else if !Bit(w, i) {
      forall k: nat | k < i + 1 ensures Bit(x, k) == Bit(0, k) {
        AndBits(w, Pow2(i), k);
        MaskBits(i, k);
        ZeroHasNoBits(k);
      }
      AndBound(w, Pow2(i));
      SameBits(x, 0, i + 1);
    }
  }

  function LastMask(bitCnt: nat): (m: Word)
    ensures forall k: nat :: Bit(m, k) == (k < if bitCnt % 32 == 0 then 32 else bitCnt % 32)
  {
    var n := if bitCnt % 32 == 0 then 32 else bitCnt % 32;
    LowOnes(n, Pow2(n) - 1);
    Pow2(n) - 1
  }

  lemma LowOnes(n: nat, m: nat)
    requires n <= 32 && m == Pow2(n) - 1
    ensures m < 0x1_0000_0000
    ensures forall k: nat :: Bit(m, k) == (k < n)
  {
    Pow2Constants();
    Pow2Grows(n, 32);
    forall k: nat ensures Bit(m, k) == (k < n) {
      OnesBits(n, k);
    }
  }

  lemma {:induction false} OnesBits(n: nat, k: nat)
    ensures Bit(Pow2(n) - 1, k) == (k < n)
    decreases n
  {
    if n == 0 {
      ZeroHasNoBits(k);
    } else if k > 0 {
      OnesBits(n - 1, k - 1);
    }
  }

  class Packed {
    const bitCnt: nat
    const elems: array<Word>

    ghost predicate Valid() { elems.Length == ElemCnt(bitCnt) }

    ghost function Contents(): (s: seq<bool>)
      requires Valid()
      reads elems
      ensures |s| == bitCnt
    {
      seq(bitCnt, i requires 0 <= i < bitCnt reads elems => Bit(elems[i / 32], i % 32))
    }

    method Test(i: nat) returns (b: bool)
      requires Valid() && i < bitCnt
      ensures b == Contents()[i]
    {
      TestedBit(elems[i / 32], i % 32);
      b := And(elems[i / 32], Pow2(i % 32)) != 0;
    }

    method Set(i: nat, value: bool)
      requires Valid() && i < bitCnt
      modifies elems
      ensures Contents() == old(Contents())[i := value]
    {
      if value {
        elems[i / 32] := Masked(elems[i / 32], i % 32);
      } else {
        elems[i / 32] := Cleared(elems[i / 32], i % 32);
      }
    }

    method SetMultiple(start: nat, cnt: nat, value: bool)
      requires Valid() && start + cnt <= bitCnt
      modifies elems
      ensures Contents() == SetRange(old(Contents()), start, cnt, value)
    {
      for i := 0 to cnt
        invariant Contents() == SetRange(old(Contents()), start, i, value)
      {
        Set(start + i, value);
      }
    }

    method Contains(start: nat, cnt: nat, value: bool) returns (found: bool)
      requires Valid() && start + cnt <= bitCnt
      ensures found == !AllAre(Contents(), start, cnt, !value)
    {
      for i := 0 to cnt
        invariant AllAre(Contents(), start, i, !value)
      {
        var b := Test(start + i);
        if b == value {
          return true;
        }
      }
      return false;
    }

    method Scan(start: nat, cnt: nat, value: bool) returns (r: Option<nat>)
      requires Valid() && start <= bitCnt
      ensures r == FirstRun(Contents(), start, cnt, value)
    {
      if cnt <= bitCnt {
        var last, i := bitCnt - cnt, start;
        while i <= last
          invariant start <= i && FirstRun(Contents(), start, cnt, value) == FirstRun(Contents(), i, cnt, value)
        {
          var bad := Contains(i, cnt, !value);
          if !bad {
            return Some(i);
          }
          i := i + 1;
        }
      }
      return None;
    }

    /** First fit, and exactly the bits found are flipped. */
    method ScanAndFlip(start: nat, cnt: nat, value: bool) returns (r: Option<nat>)
      requires Valid() && start <= bitCnt
      modifies elems
      ensures r == FirstRun(old(Contents()), start, cnt, value)
      ensures Contents() == if r == None then old(Contents()) else SetRange(old(Contents()), r.value, cnt, !value)
    {
      r := Scan(start, cnt, value);
      if r.Some? {
        SetMultiple(r.value, cnt, !value);
      }
    }

    /** Bit i of the elements, those past the last bit included. */
    ghost predicate BitAt(i: nat)
      requires Valid() && i < 32 * elems.Length
      reads elems
    {
      Bit(elems[i / 32], i % 32)
    }

    method StoreByte(j: nat, b: InodeIO.Byte)
      requires Valid() && j < 4 * elems.Length
      modifies elems
      ensures forall i: nat {:trigger BitAt(i)} :: i < 32 * elems.Length ==>
                BitAt(i) == if i / 8 == j then Bit(b, i % 8) else old(BitAt(i))
    {
      StoredWord(elems[j / 4], j % 4, b);
      elems[j / 4] := PutByte(elems[j / 4], j % 4, b);
      forall i: nat | i < 32 * elems.Length
        ensures BitAt(i) == if i / 8 == j then Bit(b, i % 8) else old(BitAt(i))
      {
        PlaceOfBit(i, j);
      }
    }

    /** bitmap_read, when file_read_at delivers `got`: those bytes replace the first ones, and bits past
        the last are cleared; it succeeds exactly if nothing is missing. */
    method ReadFrom(got: seq<InodeIO.Byte>) returns (success: bool)
      requires Valid() && |got| <= 4 * elems.Length
      modifies elems
      ensures success == (|got| == 4 * elems.Length)
      ensures forall i :: 0 <= i < bitCnt ==>
                Contents()[i] == if i / 8 < |got| then Bit(got[i / 8], i % 8) else old(Contents())[i]
      ensures forall i: nat :: bitCnt <= i < 32 * elems.Length ==> !BitAt(i)
    {
      success := true;
      assert forall i: nat :: i < bitCnt ==> Contents()[i] == BitAt(i);
      if bitCnt > 0 {
        Fill(got);
        success := |got| == 4 * elems.Length;
        ClearTail();
        assert forall i: nat :: i < bitCnt ==> Contents()[i] == BitAt(i);
      }
    }

    method Fill(got: seq<InodeIO.Byte>)
      requires Valid() && |got| <= 4 * elems.Length
      modifies elems
      ensures forall i: nat {:trigger BitAt(i)} :: i < 32 * elems.Length ==>
                BitAt(i) == if i / 8 < |got| then Bit(got[i / 8], i % 8) else old(BitAt(i))
    {
      for j := 0 to |got|
        invariant forall i: nat {:trigger BitAt(i)} :: i < 32 * elems.Length ==>
                    BitAt(i) == if i / 8 < j then Bit(got[i / 8], i % 8) else old(BitAt(i))
      {
        StoreByte(j, got[j]);
      }
    }

    method ClearTail()
      requires Valid() && bitCnt > 0
      modifies elems
      ensures forall i: nat {:trigger BitAt(i)} :: i < 32 * elems.Length ==> BitAt(i) == (i < bitCnt && old(BitAt(i)))
    {
      var n := elems.Length - 1;
      var m := LastMask(bitCnt);
      ghost var w := elems[n];
      AndBound(w, m);
      elems[n] := And(elems[n], m);
      forall i: nat | i < 32 * elems.Length ensures BitAt(i) == (i < bitCnt && old(BitAt(i))) {
        if i / 32 == n { AndBits(w, m, i % 32); }
        TailBit(bitCnt, i);
      }
    }

    /** bitmap_write, when file_write_at takes `sent` bytes; those are the bits, eight to a byte. */
    method WriteTo(sent: nat) returns (out: seq<InodeIO.Byte>, success: bool)
      requires Valid() && sent <= 4 * elems.Length
      ensures |out| == sent && success == (sent == 4 * elems.Length)
      ensures forall i: nat :: i < bitCnt && i / 8 < sent ==> Bit(out[i / 8], i % 8) == Contents()[i]
    {
      out := [];
      for j := 0 to sent
        invariant |out| == j
        invariant forall i: nat {:trigger BitAt(i)} :: i < 8 * j ==> Bit(out[i / 8], i % 8) == BitAt(i)
      {
        var b := GetByte(elems[j / 4], j % 4);
        forall i: nat | i < 8 * (j + 1) ensures Bit((out + [b])[i / 8], i % 8) == BitAt(i) {
          PlaceOfBit(i, j);
          if i / 8 == j { GetByteBits(elems[j / 4], j % 4, i % 8); }
        }
        out := out + [b];
      }
      success := |out| == 4 * elems.Length;
      forall i: nat | i < bitCnt && i / 8 < sent ensures Bit(out[i / 8], i % 8) == Contents()[i] {
        assert BitAt(i) == Contents()[i];
      }
    }

    /** What bitmap_write stores in a file, bitmap_read brings back; of a short transfer, as far as it
        went: bytes not written are the file's old ones, and bits not read stay as they were. */
    method Reload(other: Packed, file: seq<InodeIO.Byte>, sent: nat, received: nat) returns (saved: bool, loaded: bool)
      requires Valid() && other.Valid() && other.bitCnt == bitCnt && elems != other.elems
      requires |file| == 4 * elems.Length && sent <= |file| && received <= |file|
      modifies elems
      ensures saved == (sent == |file|) && loaded == (received == |file|)
      ensures saved && loaded ==> Contents() == other.Contents()
      ensures forall i :: 0 <= i < bitCnt ==>
                Contents()[i] == if i / 8 >= received then old(Contents())[i]
                                 else if i / 8 < sent then other.Contents()[i] else Bit(file[i / 8], i % 8)
    {
      var out;
      out, saved := other.WriteTo(sent);
      loaded := ReadFrom((out + file[sent..])[..received]);
    }
  }

  // ------------------------------------------------------------------
  // Where bits are

  lemma StoredWord(w: Word, p: nat, b: InodeIO.Byte)
    requires p < 4
    ensures PutByte(w, p, b) < 0x1_0000_0000
    ensures forall k: nat :: Bit(PutByte(w, p, b), k) == if 8 * p <= k < 8 * p + 8 then Bit(b, k - 8 * p) else Bit(w, k)
  {
    assert Pow256(4) == 256 * Pow256(3) == 0x1_0000_0000;
    PutByteBound(w, p, b, 4);
    forall k: nat ensures Bit(PutByte(w, p, b), k) == if 8 * p <= k < 8 * p + 8 then Bit(b, k - 8 * p) else Bit(w, k) {
      PutByteBits(w, p, b, k);
    }
  }

  /** Bit i is in byte j exactly if it is in that byte of its element. */
  lemma PlaceOfBit(i: nat, j: nat)
    ensures i / 8 == j <==> i / 32 == j / 4 && 8 * (j % 4) <= i % 32 < 8 * (j % 4) + 8
    ensures i / 8 == j ==> i % 32 - 8 * (j % 4) == i % 8
  {
  }

  lemma TailBit(bitCnt: nat, i: nat)
    requires bitCnt > 0 && i < 32 * ElemCnt(bitCnt)
    ensures i < bitCnt <==>
              i / 32 < ElemCnt(bitCnt) - 1 || i % 32 < (if bitCnt % 32 == 0 then 32 else bitCnt % 32)
  {
  }
}
