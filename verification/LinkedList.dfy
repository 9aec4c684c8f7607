/** Intrusive doubly linked lists with a head and a tail sentinel. */
module LinkedList {

  class Elem<T> {
    var prev: Elem?<T>
    var next: Elem?<T>
    const key: T

    constructor (key: T)
      ensures this.key == key && prev == null && next == null
    {
      this.key := key;
      prev, next := null, null;
    }

    predicate IsHead() reads this { prev == null && next != null }
    predicate IsInterior() reads this { prev != null && next != null }
    predicate IsTail() reads this { prev != null && next == null }
  }

  /** The nodes of s are distinct and neighbours point at each other. */
  ghost predicate Linked<T>(s: seq<Elem<T>>)
    reads s
  {
    && (forall i, j :: 0 <= i < j < |s| ==> s[i] != s[j])
    && (forall i :: 0 <= i < |s| - 1 ==> s[i].next == s[i + 1] && s[i + 1].prev == s[i])
  }

  /** A whole list: head sentinel, interior elements, tail sentinel. */
  ghost predicate Chain<T>(s: seq<Elem<T>>)
    reads s
  {
    |s| >= 2 && Linked(s) && s[0].prev == null && s[|s| - 1].next == null
  }

  /** What each node is can be told from its two links alone. */
  lemma Roles<T>(s: seq<Elem<T>>, i: nat)
    requires Chain(s) && i < |s|
    ensures s[i].IsHead() <==> i == 0
    ensures s[i].IsTail() <==> i == |s| - 1
    ensures s[i].IsInterior() <==> 0 < i < |s| - 1
  {
    if 0 < i { assert s[i - 1].next == s[i] && s[i].prev == s[i - 1]; }
    if i < |s| - 1 { assert s[i].next == s[i + 1]; }
  }

  method Init<T>(head: Elem<T>, tail: Elem<T>)
    requires head != tail
    modifies head, tail
    ensures Chain([head, tail])
  {
    head.prev := null;
    head.next := tail;
    tail.prev := head;
    tail.next := null;
  }

  /** list_insert: elem goes just before s[i], an interior element or the tail. */
  method Insert<T>(before: Elem<T>, elem: Elem<T>, ghost s: seq<Elem<T>>, ghost i: nat)
    requires Chain(s) && 0 < i < |s| && before == s[i] && elem !in s
    modifies s[i - 1], s[i], elem
    ensures Chain(s[..i] + [elem] + s[i..])
  {
    assert before.prev == s[i - 1];
    elem.prev := before.prev;
    elem.next := before;
    before.prev.next := elem;
    before.prev := elem;
    ghost var r := s[..i] + [elem] + s[i..];
    forall k | 0 <= k < |r| - 1 ensures r[k].next == r[k + 1] && r[k + 1].prev == r[k] {
    }
  }

  /** list_remove: unlinks interior element s[i] and returns the one after it. */
  method Remove<T>(elem: Elem<T>, ghost s: seq<Elem<T>>, ghost i: nat) returns (after: Elem<T>)
    requires Chain(s) && 0 < i < |s| - 1 && elem == s[i]
    modifies s[i - 1], s[i + 1]
    ensures Chain(s[..i] + s[i + 1..])
    ensures after == s[i + 1]
  {
    assert elem.next == s[i + 1];
    elem.prev.next := elem.next;
    elem.next.prev := elem.prev;
    after := elem.next;
  }

  ghost predicate Disjoint<T>(s: seq<Elem<T>>, t: seq<Elem<T>>) {
    forall x, y :: 0 <= x < |s| && 0 <= y < |t| ==> s[x] != t[y]
  }

  /** list_splice: removes the block [a, b) from list s, then inserts it before u[j].
      u is what is left of s itself, or another list that shares no node with s. */
  method Splice<T>(before: Elem<T>, first: Elem<T>, last: Elem<T>,
                   ghost s: seq<Elem<T>>, ghost a: nat, ghost b: nat, ghost u: seq<Elem<T>>, ghost j: nat)
      returns (ghost r: seq<Elem<T>>)
    requires Chain(s) && 0 < a <= b < |s|
    requires u == s[..a] + s[b..] || (Chain(u) && Disjoint(s, u))
    requires 0 < j < |u| && before == u[j] && first == s[a] && last == s[b]
    modifies s, u
    ensures Chain(r) && r == u[..j] + s[a..b] + u[j..]
    ensures u != s[..a] + s[b..] ==> Chain(s[..a] + s[b..])
  {
    ghost var rest := s[..a] + s[b..];
    r := u[..j] + s[a..b] + u[j..];
    if first == last {
      assert rest == s && r == u;
      return;
    }
    var last1 := last.prev;
    assert last1 == s[b - 1];
    Detach(first, last1, s, a, b);
    Pieces(s, a, b, u);
    Attach(before, first, last1, u, j, s[a..b]);
  }

  lemma Pieces<T>(s: seq<Elem<T>>, a: nat, b: nat, u: seq<Elem<T>>)
    requires a <= b <= |s| && forall x, y :: 0 <= x < y < |s| ==> s[x] != s[y]
    requires u == s[..a] + s[b..] || Disjoint(s, u)
    ensures Disjoint(u, s[a..b])
    ensures u != s[..a] + s[b..] ==> Disjoint(u, s[..a] + s[b..]) && Disjoint(s[a..b], s[..a] + s[b..])
  {
  }

  /** The first half of list_splice: cleanly removes s[a..b] from its list. */
  method Detach<T>(first: Elem<T>, last1: Elem<T>, ghost s: seq<Elem<T>>, ghost a: nat, ghost b: nat)
    requires Chain(s) && 0 < a < b < |s| && first == s[a] && last1 == s[b - 1]
    modifies s[a - 1], s[b]
    ensures Chain(s[..a] + s[b..]) && Linked(s[a..b])
  {
    assert first.prev == s[a - 1] && last1.next == s[b];
    first.prev.next := last1.next;
    last1.next.prev := first.prev;
  }

  /** The second half: links the loose block x into list u just before u[i]. */
  method Attach<T>(before: Elem<T>, first: Elem<T>, last1: Elem<T>,
                   ghost u: seq<Elem<T>>, ghost i: nat, ghost x: seq<Elem<T>>)
    requires Chain(u) && 0 < i < |u| && before == u[i]
    requires Linked(x) && |x| > 0 && first == x[0] && last1 == x[|x| - 1] && Disjoint(u, x)
    modifies u[i - 1], u[i], first, last1
    ensures Chain(u[..i] + x + u[i..])
  {
    assert before.prev == u[i - 1];
    first.prev := before.prev;
    last1.next := before;
    before.prev.next := first;
    before.prev := last1;
    ghost var r := u[..i] + x + u[i..];
    forall k | 0 <= k < |r| - 1 ensures r[k].next == r[k + 1] && r[k + 1].prev == r[k] {
    }
  }

  ghost function Reversed<T>(s: seq<T>): (r: seq<T>)
    ensures |r| == |s| && forall k :: 0 <= k < |s| ==> r[k] == s[|s| - 1 - k]
  {
    seq(|s|, k requires 0 <= k < |s| => s[|s| - 1 - k])
  }

  /** list_reverse: swaps the links of every interior element in one sweep, then repairs the ends. */
  method Reverse<T>(head: Elem<T>, tail: Elem<T>, ghost s: seq<Elem<T>>)
    requires Chain(s) && head == s[0] && tail == s[|s| - 1]
    modifies s
    ensures Chain([head] + Reversed(s[1..|s| - 1]) + [tail])
  {
    if head.next == tail {
      assert |s| == 2 by { assert s[0].next == s[1]; }
      assert [head] + Reversed(s[1..|s| - 1]) + [tail] == s;
      return;
    }
    var e := head.next;
    ghost var n, k := |s| - 1, 1;
    while e != tail
      invariant 1 <= k <= n && e == s[k]
      invariant forall m :: 1 <= m < k ==> s[m].prev == s[m + 1] && s[m].next == s[m - 1]
      invariant forall m :: k <= m < n ==> s[m].next == s[m + 1] && s[m].prev == s[m - 1]
      invariant head.prev == null && tail.next == null && head.next == s[1] && tail.prev == s[n - 1]
      decreases n - k
    {
      e.prev, e.next := e.next, e.prev;
      e := e.prev;
      k := k + 1;
    }
    assert k == n;
    head.next, tail.prev := tail.prev, head.next;
    assert head.next == s[n - 1] && tail.prev == s[1];
    var first, last := head.next, tail.prev;
    first.prev, last.next := last.next, first.prev;
    ghost var r := [head] + Reversed(s[1..n]) + [tail];
    assert forall m :: 1 <= m < n ==> r[m] == s[n - m];
  }
}
