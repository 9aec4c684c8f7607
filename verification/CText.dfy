/** C strings: bytes up to a null byte. */
module CText {
  import opened InodeIO

  type Text = seq<Byte>

  /** A C string has no null byte before its end. */
  predicate NoNulls(s: Text) { forall i :: 0 <= i < |s| ==> s[i] != 0 }

  /** The C string at the start of s. */
  function CString(s: seq<Byte>): Text {
    if s == [] || s[0] == 0 then [] else [s[0]] + CString(s[1..])
  }

  lemma {:induction false} CStringIs(t: Text, rest: seq<Byte>)
    requires NoNulls(t)
    ensures CString(t + [0] + rest) == t
  {
    var s := t + [0] + rest;
    if t != [] {
      assert s[1..] == t[1..] + [0] + rest;
      CStringIs(t[1..], rest);
      assert [t[0]] + t[1..] == t;
    }
  }
}
