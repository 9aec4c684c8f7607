/** Small definitions and facts that several models share. */
module Basics {

  datatype Option<+T> = None | Some(value: T)

  ghost predicate NoDup<T>(s: seq<T>) { forall i, j :: 0 <= i < j < |s| ==> s[i] != s[j] }

  lemma PoppedMembers<T>(q: seq<T>)
    requires NoDup(q)
    ensures q != [] ==> NoDup(q[1..]) && q[0] in q && forall t :: t in q[1..] <==> t in q && t != q[0]
  {
    if q != [] {
      assert q == [q[0]] + q[1..];
      assert forall i :: 0 <= i < |q| - 1 ==> q[1..][i] == q[i + 1];
    }
  }

  lemma AppendedMembers<T>(q: seq<T>, x: T)
    ensures NoDup(q) && x !in q ==> NoDup(q + [x])
    ensures forall t :: t in q + [x] <==> t in q || t == x
  {
  }

  lemma PushedMembers<T>(q: seq<T>, x: T)
    ensures NoDup(q) && x !in q ==> NoDup([x] + q)
    ensures forall t :: t in [x] + q <==> t in q || t == x
  {
    var l := [x] + q;
    assert forall i :: 0 < i < |l| ==> l[i] == q[i - 1];
  }

  lemma Concatenated<T>(p: seq<T>, q: seq<T>)
    requires NoDup(p) && NoDup(q) && forall t :: t in p ==> t !in q
    ensures NoDup(p + q) && forall t :: t in p + q <==> t in p || t in q
  {
    var l := p + q;
    forall i, j | 0 <= i < j < |l| ensures l[i] != l[j] {
      assert l[i] == if i < |p| then p[i] else q[i - |p|];
      assert l[j] == if j < |p| then p[j] else q[j - |p|];
      if i < |p| <= j { assert p[i] in p && q[j - |p|] in q; }
    }
  }

  lemma TakeConcat<T>(p: seq<T>, q: seq<T>, n: nat)
    requires |p| <= n <= |p| + |q|
    ensures (p + q)[..n] == p + q[..n - |p|]
  {
  }

  /** list_remove, on the sequence of a list's elements. */
  function Without<T(==)>(list: seq<T>, n: T): seq<T> {
    if list == [] then [] else if list[0] == n then list[1..] else [list[0]] + Without(list[1..], n)
  }

  lemma {:induction false} WithoutIs<T>(list: seq<T>, n: T)
    requires n in list && NoDup(list)
    ensures var r := Without(list, n);
            && (forall m :: m in r <==> m in list && m != n)
            && NoDup(r)
  {
    assert forall k :: 0 < k < |list| ==> list[1..][k - 1] == list[k];
    assert list == [list[0]] + list[1..];
    if list[0] != n {
      WithoutIs(list[1..], n);
      var r := Without(list[1..], n);
      var l := [list[0]] + r;
      assert forall k :: 0 < k < |l| ==> l[k] == r[k - 1] && l[k] in r;
    }
  }

  lemma {:induction false} SubsetSize<T>(a: set<T>, b: set<T>)
    requires a <= b
    ensures |a| <= |b|
  {
    if a != {} {
      var x :| x in a;
      SubsetSize(a - {x}, b - {x});
    }
  }

  lemma SubsetSame<T>(a: set<T>, b: set<T>)
    requires a <= b && |a| >= |b|
    ensures a == b
  {
    SubsetSize(a, b);
    if x :| x in b && x !in a { SubsetSize(a, b - {x}); }
  }
}
