/** list_sort: an in-place natural merge sort on linked lists. */
module ListSort {
  import opened LinkedList

  ghost predicate StrictWeakOrder<T(!new)>(less: (T, T) -> bool) {
    && (forall x :: !less(x, x))
    && (forall x, y, z :: less(x, y) && less(y, z) ==> less(x, z))
    && (forall x, y, z :: less(x, z) ==> less(x, y) || less(y, z))
  }

  /** No element of s[lo..hi] is less than an earlier one. */
  ghost predicate Sorted<T>(s: seq<Elem<T>>, lo: nat, hi: nat, less: (T, T) -> bool) {
    forall x, y :: lo <= x < y < hi <= |s| ==> !less(s[y].key, s[x].key)
  }

  ghost predicate Descent<T>(s: seq<Elem<T>>, m: nat, less: (T, T) -> bool)
    requires 0 < m < |s|
  {
    less(s[m].key, s[m - 1].key)
  }

  /** s[lo..hi] is one run: no element is less than its predecessor. */
  ghost predicate NoDescent<T>(s: seq<Elem<T>>, lo: nat, hi: nat, less: (T, T) -> bool)
    requires hi <= |s|
  {
    forall m :: lo < m < hi ==> !Descent(s, m, less)
  }

  ghost predicate Before<T>(s: seq<T>, u: T, v: T) {
    exists x, y :: 0 <= x < y < |s| && s[x] == u && s[y] == v
  }

  /** r[x] and r[y] were in this order in s, or r[x] is strictly smaller. */
  ghost predicate Kept<T>(s: seq<Elem<T>>, r: seq<Elem<T>>, x: nat, y: nat, less: (T, T) -> bool)
    requires x < y < |r|
  {
    Before(s, r[x], r[y]) || less(r[x].key, r[y].key)
  }

  /** r is a rearrangement of s in which only a strictly smaller element has overtaken another. */
  ghost predicate StableRearrangement<T>(s: seq<Elem<T>>, r: seq<Elem<T>>, less: (T, T) -> bool) {
    && multiset(r) == multiset(s)
    && forall x, y :: 0 <= x < y < |r| ==> Kept(s, r, x, y, less)
  }

  lemma StableTransitive<T>(s: seq<Elem<T>>, r: seq<Elem<T>>, w: seq<Elem<T>>, less: (T, T) -> bool)
    requires StableRearrangement(s, r, less) && StableRearrangement(r, w, less)
    ensures StableRearrangement(s, w, less)
  {
    forall x, y | 0 <= x < y < |w| ensures Kept(s, w, x, y, less) {
      assert Kept(r, w, x, y, less);
      if Before(r, w[x], w[y]) {
        var x', y' :| 0 <= x' < y' < |r| && r[x'] == w[x] && r[y'] == w[y];
        assert Kept(s, r, x', y', less);
      }
    }
  }

  lemma StableReflexive<T>(s: seq<Elem<T>>, less: (T, T) -> bool)
    ensures StableRearrangement(s, s, less)
  {
  }

  /** find_end_of_run. */
  method FindEndOfRun<T>(a: Elem<T>, b: Elem<T>, less: (T, T) -> bool,
                         ghost s: seq<Elem<T>>, ghost i: nat, ghost j: nat) returns (e: Elem<T>, ghost k: nat)
    requires Chain(s) && 0 < i < j < |s| && a == s[i] && b == s[j]
    ensures i < k <= j && e == s[k]
    ensures NoDescent(s, i, k, less)
    ensures k < j ==> Descent(s, k, less)
  {
    assert a.next == s[i + 1];
    e, k := a.next, i + 1;
    assert e.prev == s[k - 1];
    while e != b && !less(e.key, e.prev.key)
      invariant i < k <= j && e == s[k] && e.prev == s[k - 1]
      invariant NoDescent(s, i, k, less)
      decreases j - k
    {
      assert e.next == s[k + 1];
      e, k := e.next, k + 1;
      assert e.prev == s[k - 1];
    }
  }

  /** A run is sorted: comparing neighbours is enough. */
  lemma {:induction false} RunIsSorted<T(!new)>(s: seq<Elem<T>>, lo: nat, hi: nat, less: (T, T) -> bool)
    requires StrictWeakOrder(less) && hi <= |s|
    requires NoDescent(s, lo, hi, less)
    ensures Sorted(s, lo, hi, less)
  {
    forall x, y | lo <= x < y < hi ensures !less(s[y].key, s[x].key) {
      RunPair(s, x, y, less);
    }
  }

  lemma {:induction false} RunPair<T(!new)>(s: seq<Elem<T>>, x: nat, y: nat, less: (T, T) -> bool)
    requires StrictWeakOrder(less) && x < y < |s|
    requires NoDescent(s, x, y + 1, less)
    ensures !less(s[y].key, s[x].key)
    decreases y
  {
    assert !Descent(s, y, less);
    if x < y - 1 { RunPair(s, x, y - 1, less); }
  }

  /** s with element q moved up to index p. */
  ghost function MovedUp<T>(s: seq<T>, p: nat, q: nat): seq<T>
    requires p < q < |s|
  {
    s[..p] + [s[q]] + s[p..q] + s[q + 1..]
  }

  lemma MovedUpAt<T>(s: seq<T>, p: nat, q: nat)
    requires p < q < |s|
    ensures var r := MovedUp(s, p, q);
            && |r| == |s| && multiset(r) == multiset(s)
            && forall k :: 0 <= k < |s| ==>
                 r[k] == if k < p || k > q then s[k] else if k == p then s[q] else s[k - 1]
  {
    assert s == s[..p] + s[p..q] + [s[q]] + s[q + 1..];
  }

  /** Moving up is cutting the element out and pasting it back. */
  lemma CutAndPaste<T>(r: seq<T>, p: nat, q: nat)
    requires p < q < |r|
    ensures var rest := r[..q] + r[q + 1..];
            rest[..p] + r[q..q + 1] + rest[p..] == MovedUp(r, p, q) && rest[p] == r[p]
  {
  }

  lemma MovedUpIsStable<T>(s: seq<Elem<T>>, p: nat, q: nat, less: (T, T) -> bool)
    requires p < q < |s| && forall m :: p <= m < q ==> less(s[q].key, s[m].key)
    ensures StableRearrangement(s, MovedUp(s, p, q), less)
  {
    var r := MovedUp(s, p, q);
    MovedUpAt(s, p, q);
    forall x, y | 0 <= x < y < |r| ensures Kept(s, r, x, y, less) {
      if x == p && y <= q {
      } else {
        var x' := if x < p || x > q then x else if x == p then q else x - 1;
        var y' := if y < p || y > q then y else if y == p then q else y - 1;
        assert x' < y' && s[x'] == r[x] && s[y'] == r[y];
      }
    }
  }

  /** Merge state: [i, p) is merged, [p, q) is left of the first run, [q, k) of the second. */
  ghost predicate Merging<T>(s: seq<Elem<T>>, r: seq<Elem<T>>, i: nat, p: nat, q: nat, k: nat, less: (T, T) -> bool) {
    && 0 < i <= p <= q <= k < |s| == |r|
    && (forall m :: 0 <= m < i || k <= m < |s| ==> r[m] == s[m])
    && Sorted(r, i, q, less) && Sorted(r, q, k, less)
    && (forall x, y :: i <= x < p && q <= y < k ==> !less(r[y].key, r[x].key))
    && StableRearrangement(s, r, less)
  }

  /** The front of the first run is not larger than the front of the second: it stays. */
  lemma KeepFirst<T(!new)>(s: seq<Elem<T>>, r: seq<Elem<T>>, i: nat, p: nat, q: nat, k: nat, less: (T, T) -> bool)
    requires StrictWeakOrder(less) && Merging(s, r, i, p, q, k, less) && p < q < k
    requires !less(r[q].key, r[p].key)
    ensures Merging(s, r, i, p + 1, q, k, less)
  {
    forall y | q <= y < k ensures !less(r[y].key, r[p].key) {
      assert y == q || !less(r[y].key, r[q].key);
    }
  }

  /** The front of the second run is smaller than what is left of the first: it moves up. */
  lemma TakeSecond<T(!new)>(s: seq<Elem<T>>, r: seq<Elem<T>>, i: nat, p: nat, q: nat, k: nat, less: (T, T) -> bool)
    requires StrictWeakOrder(less) && Merging(s, r, i, p, q, k, less) && p < q < k
    requires less(r[q].key, r[p].key)
    ensures Merging(s, MovedUp(r, p, q), i, p + 1, q + 1, k, less)
  {
    var w := MovedUp(r, p, q);
    forall m | p <= m < q ensures less(r[q].key, r[m].key) {
      assert m == p || !less(r[m].key, r[p].key);
    }
    MovedUpIsStable(r, p, q, less);
    StableTransitive(s, r, w, less);
    TakeSecondSorted(r, i, p, q, k, less);
    MovedInside(s, r, i, p, q, k);
  }

  lemma MovedInside<T>(s: seq<T>, r: seq<T>, i: nat, p: nat, q: nat, k: nat)
    requires i <= p < q < k < |s| == |r| && forall m :: 0 <= m < i || k <= m < |s| ==> r[m] == s[m]
    ensures var w := MovedUp(r, p, q);
            |w| == |s| && forall m :: 0 <= m < i || k <= m < |s| ==> w[m] == s[m]
  {
    MovedUpAt(r, p, q);
  }

  lemma TakeSecondSorted<T(!new)>(r: seq<Elem<T>>, i: nat, p: nat, q: nat, k: nat, less: (T, T) -> bool)
    requires StrictWeakOrder(less) && 0 < i <= p < q < k < |r|
    requires Sorted(r, i, q, less) && Sorted(r, q, k, less)
    requires forall x, y :: i <= x < p && q <= y < k ==> !less(r[y].key, r[x].key)
    requires forall m :: p <= m < q ==> less(r[q].key, r[m].key)
    ensures var w := MovedUp(r, p, q);
            && |w| == |r|
            && Sorted(w, i, q + 1, less) && Sorted(w, q + 1, k, less)
            && forall x, y :: i <= x < p + 1 && q + 1 <= y < k ==> !less(w[y].key, w[x].key)
  {
    var w := MovedUp(r, p, q);
    MovedUpAt(r, p, q);
    forall x, y | i <= x < y < q + 1 ensures !less(w[y].key, w[x].key) {
      if x < p && y > p {
        assert !less(r[y - 1].key, r[x].key);
      } else if x == p {
        assert less(r[q].key, r[y - 1].key);
      } else if x > p {
        assert !less(r[y - 1].key, r[x - 1].key);
      }
    }
  }

  /** The splice inside inplace_merge: steps past r[q] and moves it up to before r[p]. */
  method MoveUp<T>(a0: Elem<T>, a1b0: Elem<T>, ghost r: seq<Elem<T>>, ghost p: nat, ghost q: nat)
      returns (after: Elem<T>, ghost r': seq<Elem<T>>)
    requires Chain(r) && 0 < p < q < |r| - 1 && a0 == r[p] && a1b0 == r[q]
    modifies r
    ensures after == r[q + 1] && Chain(r') && r' == MovedUp(r, p, q)
  {
    assert a1b0.next == r[q + 1] && r[q + 1].prev == r[q];
    after := a1b0.next;
    ghost var rest := r[..q] + r[q + 1..];
    CutAndPaste(r, p, q);
    r' := Splice(a0, after.prev, after, r, q, q + 1, rest, p);
  }

  /** One turn of the merge loop. */
  method MergeStep<T(!new)>(a0: Elem<T>, a1b0: Elem<T>, less: (T, T) -> bool, ghost s: seq<Elem<T>>,
                            ghost r: seq<Elem<T>>, ghost i: nat, ghost p: nat, ghost q: nat, ghost k: nat)
      returns (a0': Elem<T>, a1b0': Elem<T>, ghost r': seq<Elem<T>>, ghost q': nat)
    requires StrictWeakOrder(less) && Chain(r) && Merging(s, r, i, p, q, k, less) && p < q < k
    requires a0 == r[p] && a1b0 == r[q]
    modifies r
    ensures Chain(r') && Merging(s, r', i, p + 1, q', k, less)
    ensures q <= q' && a0' == r'[p + 1] && a1b0' == r'[q'] && r'[k] == r[k]
  {
    if !less(a1b0.key, a0.key) {
      assert a0.next == r[p + 1];
      KeepFirst(s, r, i, p, q, k, less);
      a0', a1b0', r', q' := a0.next, a1b0, r, q;
    } else {
      TakeSecond(s, r, i, p, q, k, less);
      MovedUpAt(r, p, q);
      a0' := a0;
      a1b0', r' := MoveUp(a0, a1b0, r, p, q);
      q' := q + 1;
    }
  }

  /** inplace_merge. */
  method InplaceMerge<T(!new)>(a: Elem<T>, ab: Elem<T>, b: Elem<T>, less: (T, T) -> bool,
                               ghost s: seq<Elem<T>>, ghost i: nat, ghost j: nat, ghost k: nat)
      returns (ghost r: seq<Elem<T>>)
    requires StrictWeakOrder(less) && Chain(s) && 0 < i < j < k < |s|
    requires a == s[i] && ab == s[j] && b == s[k]
    requires Sorted(s, i, j, less) && Sorted(s, j, k, less)
    modifies s
    ensures Chain(r) && Merging(s, r, i, k, k, k, less)
  {
    var a0, a1b0 := a, ab;
    r := s;
    ghost var p, q := i, j;
    StableReflexive(s, less);
    while a0 != a1b0 && a1b0 != b
      invariant Chain(r) && Merging(s, r, i, p, q, k, less)
      invariant p <= q <= k < |r| && a0 == r[p] && a1b0 == r[q] && b == r[k]
      decreases k - p
    {
      assert p != q && q != k;
      SameNodes(s, r);
      a0, a1b0, r, q := MergeStep(a0, a1b0, less, s, r, i, p, q, k);
      p := p + 1;
    }
    MergeDone(s, r, i, p, q, k, less);
  }

  lemma SameNodes<T>(s: seq<T>, r: seq<T>)
    requires multiset(s) == multiset(r)
    ensures forall m :: 0 <= m < |r| ==> r[m] in s
  {
    forall m | 0 <= m < |r| ensures r[m] in s {
      assert r[m] in multiset(r);
    }
  }

  lemma MergeDone<T>(s: seq<Elem<T>>, r: seq<Elem<T>>, i: nat, p: nat, q: nat, k: nat, less: (T, T) -> bool)
    requires Merging(s, r, i, p, q, k, less) && (p == q || q == k)
    ensures Merging(s, r, i, k, k, k, less)
  {
  }

  // ------------------------------------------------------------------
  // Runs

  /** The number of maximal nondecreasing runs in s[lo..hi]. */
  ghost function Runs<T>(s: seq<Elem<T>>, lo: nat, hi: nat, less: (T, T) -> bool): (n: nat)
    requires hi <= |s|
    decreases hi
  {
    if lo >= hi then 0
    else if lo == hi - 1 then 1
    else Runs(s, lo, hi - 1, less) + (if Descent(s, hi - 1, less) then 1 else 0)
  }

  lemma {:induction false} RunsAppend<T>(s: seq<Elem<T>>, lo: nat, mid: nat, hi: nat, less: (T, T) -> bool)
    requires lo < mid < hi <= |s|
    ensures Runs(s, lo, hi, less)
            == Runs(s, lo, mid, less) + Runs(s, mid, hi, less) - (if Descent(s, mid, less) then 0 else 1)
    decreases hi
  {
    if mid < hi - 1 { RunsAppend(s, lo, mid, hi - 1, less); }
  }

  lemma {:induction false} RunsLocal<T>(s: seq<Elem<T>>, r: seq<Elem<T>>, lo: nat, hi: nat, less: (T, T) -> bool)
    requires hi <= |s| && hi <= |r| && forall m :: lo <= m < hi ==> s[m] == r[m]
    ensures Runs(s, lo, hi, less) == Runs(r, lo, hi, less)
    decreases hi
  {
    if lo < hi - 1 { RunsLocal(s, r, lo, hi - 1, less); }
  }

  /** One run means no descent, and the other way round. */
  lemma {:induction false} OneRun<T>(s: seq<Elem<T>>, lo: nat, hi: nat, less: (T, T) -> bool)
    requires lo < hi <= |s|
    ensures Runs(s, lo, hi, less) >= 1
    ensures Runs(s, lo, hi, less) == 1 <==> NoDescent(s, lo, hi, less)
    decreases hi
  {
    if lo < hi - 1 { OneRun(s, lo, hi - 1, less); }
  }

  /** What one pass keeps: of the input list s, everything before index p has become r[..p] in cnt runs. */
  ghost predicate Passing<T>(s: seq<Elem<T>>, r: seq<Elem<T>>, p: nat, cnt: nat, less: (T, T) -> bool) {
    && |s| == |r| >= 2 && 1 <= p < |s| && r[0] == s[0]
    && (forall m :: p <= m < |s| ==> r[m] == s[m])
    && StableRearrangement(s, r, less)
    && Runs(s, 1, |s| - 1, less) == 2 * cnt + Runs(s, p, |s| - 1, less)
    && Runs(r, 1, p, less) <= cnt
  }

  /** Merging two adjacent runs of r advances the pass by one output run. */
  lemma PassStep<T(!new)>(s: seq<Elem<T>>, r: seq<Elem<T>>, w: seq<Elem<T>>, p: nat, j: nat, k: nat,
                          cnt: nat, less: (T, T) -> bool)
    requires Passing(s, r, p, cnt, less) && p < j < k < |s| && Merging(r, w, p, k, k, k, less)
    requires NoDescent(r, p, j, less)
    requires NoDescent(r, j, k, less)
    requires Descent(r, j, less)
    requires k < |s| - 1 ==> Descent(r, k, less)
    ensures Passing(s, w, k, cnt + 1, less)
  {
    StableTransitive(s, r, w, less);
    TwoRunsGone(r, p, j, k, less);
    RunsLocal(s, r, p, |s| - 1, less);
    RunsLocal(s, r, k, |s| - 1, less);
    OneRunMore(r, w, p, k, less);
  }

  lemma TwoRunsGone<T>(r: seq<Elem<T>>, p: nat, j: nat, k: nat, less: (T, T) -> bool)
    requires p < j < k < |r|
    requires NoDescent(r, p, j, less)
    requires NoDescent(r, j, k, less)
    requires Descent(r, j, less)
    requires k < |r| - 1 ==> Descent(r, k, less)
    ensures Runs(r, p, |r| - 1, less) == 2 + Runs(r, k, |r| - 1, less)
  {
    var n := |r| - 1;
    OneRun(r, p, j, less);
    OneRun(r, j, k, less);
    RunsAppend(r, p, j, n, less);
    if k < n { RunsAppend(r, j, k, n, less); }
  }

  lemma OneRunMore<T>(r: seq<Elem<T>>, w: seq<Elem<T>>, p: nat, k: nat, less: (T, T) -> bool)
    requires 1 <= p < k < |r| == |w| && Sorted(w, p, k, less) && forall m :: 0 <= m < p ==> w[m] == r[m]
    ensures Runs(w, 1, k, less) <= Runs(r, 1, p, less) + 1
  {
    OneRun(w, p, k, less);
    RunsLocal(w, r, 1, p, less);
    if 1 < p { RunsAppend(w, 1, p, k, less); }
  }

  /** One pass of list_sort over the whole list. */
  method Pass<T(!new)>(head: Elem<T>, tail: Elem<T>, less: (T, T) -> bool, ghost s: seq<Elem<T>>)
      returns (cnt: nat, ghost r: seq<Elem<T>>)
    requires StrictWeakOrder(less) && Chain(s) && head == s[0] && tail == s[|s| - 1]
    modifies s
    ensures Chain(r) && |r| == |s| && r[0] == head && r[|r| - 1] == tail
    ensures StableRearrangement(s, r, less)
    ensures cnt == (Runs(s, 1, |s| - 1, less) + 1) / 2
    ensures Runs(r, 1, |r| - 1, less) <= cnt
  {
    cnt, r := 0, s;
    StableReflexive(s, less);
    assert head.next == s[1];
    var a0 := head.next;
    ghost var n, p := |s| - 1, 1;
    while a0 != tail
      invariant Chain(r) && Passing(s, r, p, cnt, less) && a0 == r[p]
      decreases n - p
    {
      assert p < n;
      SameNodes(s, r);
      var a1b0, b1;
      ghost var j, k;
      a1b0, j := FindEndOfRun(a0, tail, less, r, p, n);
      if a1b0 == tail {
        LastRun(s, r, p, j, cnt, less);
        cnt := cnt + 1;
        return;
      }
      b1, k := FindEndOfRun(a1b0, tail, less, r, j, n);
      RunIsSorted(r, p, j, less);
      RunIsSorted(r, j, k, less);
      ghost var w := InplaceMerge(a0, a1b0, b1, less, r, p, j, k);
      PassStep(s, r, w, p, j, k, cnt, less);
      r, p, a0, cnt := w, k, b1, cnt + 1;
    }
  }

  lemma LastRun<T>(s: seq<Elem<T>>, r: seq<Elem<T>>, p: nat, j: nat, cnt: nat, less: (T, T) -> bool)
    requires Passing(s, r, p, cnt, less) && p < j == |s| - 1
    requires NoDescent(r, p, j, less)
    ensures cnt + 1 == (Runs(s, 1, |s| - 1, less) + 1) / 2
    ensures Runs(r, 1, |r| - 1, less) <= cnt + 1
  {
    RunsLocal(s, r, p, j, less);
    LastRunOf(r, p, j, less);
  }

  lemma LastRunOf<T>(r: seq<Elem<T>>, p: nat, j: nat, less: (T, T) -> bool)
    requires 1 <= p < j <= |r| && NoDescent(r, p, j, less)
    ensures Runs(r, p, j, less) == 1
    ensures Runs(r, 1, j, less) <= Runs(r, 1, p, less) + 1
  {
    OneRun(r, p, j, less);
    if 1 < p { RunsAppend(r, 1, p, j, less); }
  }

  /** Each pass outputs at most half as many runs as the one before, rounded up. */
  ghost predicate Halving(passes: seq<nat>) {
    forall m :: 0 < m < |passes| ==> 2 * passes[m] <= passes[m - 1] + 1
  }

  lemma HalvingStep(passes: seq<nat>, runs: nat, cnt: nat)
    requires Halving(passes) && (passes != [] ==> runs <= passes[|passes| - 1]) && cnt == (runs + 1) / 2
    ensures Halving(passes + [cnt])
  {
  }

  /** list_sort: terminates, sorts, keeps the nodes, is stable, and each pass leaves at most
      half as many output runs, rounded up, as the one before. */
  method Sort<T(!new)>(head: Elem<T>, tail: Elem<T>, less: (T, T) -> bool, ghost s: seq<Elem<T>>)
      returns (ghost r: seq<Elem<T>>, ghost passes: seq<nat>)
    requires StrictWeakOrder(less) && Chain(s) && head == s[0] && tail == s[|s| - 1]
    modifies s
    ensures Chain(r) && |r| == |s| && r[0] == head && r[|r| - 1] == tail
    ensures StableRearrangement(s, r, less) && Sorted(r, 1, |r| - 1, less)
    ensures Halving(passes) && passes != [] && passes[0] == (Runs(s, 1, |s| - 1, less) + 1) / 2
  {
    var cnt;
    cnt, r := Pass(head, tail, less, s);
    passes := [cnt];
    ghost var n := |s| - 1;
    while cnt > 1
      invariant Chain(r) && |r| == |s| && r[0] == head && r[n] == tail
      invariant StableRearrangement(s, r, less)
      invariant passes != [] && passes[0] == (Runs(s, 1, n, less) + 1) / 2
      invariant passes[|passes| - 1] == cnt >= Runs(r, 1, n, less) && Halving(passes)
      decreases cnt
    {
      SameNodes(s, r);
      HalvingStep(passes, Runs(r, 1, n, less), (Runs(r, 1, n, less) + 1) / 2);
      ghost var w;
      cnt, w := Pass(head, tail, less, r);
      StableTransitive(s, r, w, less);
      r, passes := w, passes + [cnt];
    }
    OneRunSorted(r, 1, n, less);
  }

  lemma OneRunSorted<T(!new)>(r: seq<Elem<T>>, lo: nat, hi: nat, less: (T, T) -> bool)
    requires StrictWeakOrder(less) && hi <= |r| && Runs(r, lo, hi, less) <= 1
    ensures Sorted(r, lo, hi, less)
  {
    if lo < hi {
      OneRun(r, lo, hi, less);
      RunIsSorted(r, lo, hi, less);
    }
  }
}
