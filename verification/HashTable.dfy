/** lib/kernel/hash.c: a chained hash table that resizes itself refines a set of elements, no two of
    which are equal under the caller's less function. */
module HashTable {
  import opened Basics
  import opened Bits

  // ------------------------------------------------------------------
  // Powers of two

  predicate IsPowerOf2(x: nat) { x != 0 && And(x, x - 1) == 0 }

  lemma PowerMeans(x: nat)
    ensures IsPowerOf2(x) <==> exists k: nat :: x == Pow2(k)
  {
    if IsPowerOf2(x) {
      LowestBitOff(x);
    }
    if k: nat :| x == Pow2(k) {
      PowerHasOneBit(k);
    }
  }

  /** hash & (bucket_cnt - 1) is a bucket index, for a power of two. */
  lemma MaskedIndex(h: nat, n: nat)
    requires IsPowerOf2(n)
    ensures And(h, n - 1) == h % n < n
  {
    PowerMeans(n);
    var k: nat :| n == Pow2(k);
    MaskIsMod(h, k);
  }

  lemma {:induction false} TopBit(x: nat, k: nat)
    requires Pow2(k) <= x < Pow2(k + 1)
    ensures Bit(x, k)
    decreases k
  {
    if k > 0 {
      assert Pow2(k) == 2 * Pow2(k - 1) && Pow2(k + 1) == 2 * Pow2(k);
      TopBit(x / 2, k - 1);
    } else {
      assert Pow2(1) == 2 * Pow2(0) == 2;
    }
  }

  /** Turning off the lowest bit of a number that is no power of two keeps its highest bit. */
  lemma KeepsTop(x: nat, k: nat)
    requires Pow2(k) <= x < Pow2(k + 1) && !IsPowerOf2(x)
    ensures Pow2(k) <= And(x, x - 1) < x
  {
    LowestBitOff(x);
    if x == Pow2(k) {
      PowerHasOneBit(k);
    }
    TopBit(x, k);
    TopBit(x - 1, k);
    AndBits(x, x - 1, k);
    if And(x, x - 1) < Pow2(k) { HighBits(And(x, x - 1), k, k); }
  }

  lemma {:induction false} Magnitude(x: nat) returns (k: nat)
    requires x >= 1
    ensures Pow2(k) <= x < Pow2(k + 1)
    decreases x
  {
    if x == 1 {
      k := 0;
      assert Pow2(1) == 2 * Pow2(0) == 2;
    } else {
      var j := Magnitude(x / 2);
      k := j + 1;
      assert Pow2(j + 1) == 2 * Pow2(j) && Pow2(j + 2) == 2 * Pow2(j + 1);
    }
  }

  /** rehash's bucket count: a power of two, at least 4, and more than a quarter of the elements. */
  /** The right number of buckets: the greatest power of two that is at most half the elements, and at
      least 4. */
  predicate RightCount(elemCnt: nat, cnt: nat) {
    IsPowerOf2(cnt) && cnt >= 4 && elemCnt / 2 < 2 * cnt && (cnt == 4 || cnt <= elemCnt / 2)
  }

  method IdealCount(elemCnt: nat) returns (cnt: nat)
    ensures RightCount(elemCnt, cnt)
  {
    cnt := elemCnt / 2;
    if cnt < 4 {
      cnt := 4;
    }
    ghost var k := Magnitude(cnt);
    assert k >= 2 by { SmallPowers(k); }
    while !IsPowerOf2(cnt)
      invariant Pow2(k) <= cnt < Pow2(k + 1) && cnt >= 4 && elemCnt / 2 < Pow2(k + 1)
                && (cnt == 4 || cnt <= elemCnt / 2)
      decreases cnt
    {
      KeepsTop(cnt, k);
      Pow2Grows(2, k);
      assert Pow2(2) == 4 by { Pow2Constants(); }
      cnt := And(cnt, cnt - 1);
    }
    assert Pow2(k + 1) == 2 * Pow2(k);
  }

  lemma SmallPowers(k: nat)
    requires Pow2(k + 1) > 4
    ensures k >= 2
  {
    assert Pow2(1) == 2 * Pow2(0) == 2 && Pow2(2) == 2 * Pow2(1);
  }

  // ------------------------------------------------------------------
  // The table

  class Table<E(==, !new)> {
    var buckets: seq<seq<E>>
    var elemCnt: nat
    ghost var elems: set<E>
    const hash: E -> nat
    const less: (E, E) -> bool

    predicate Equal(a: E, b: E) { !less(a, b) && !less(b, a) }

    ghost predicate Transitive(a: E, b: E, c: E) { Equal(a, b) && Equal(b, c) ==> Equal(a, c) }

    ghost predicate SameHash(a: E, b: E) { Equal(a, b) ==> hash(a) == hash(b) }

    /** What the caller's functions must satisfy. */
    ghost predicate Lawful() {
      && (forall a {:trigger Equal(a, a)} :: Equal(a, a))
      && (forall a, b, c {:trigger Transitive(a, b, c)} :: Transitive(a, b, c))
      && (forall a, b {:trigger SameHash(a, b)} :: SameHash(a, b))
    }

    /** Two elements of the table that are equal are the same one. */
    ghost predicate Unique(s: set<E>) {
      forall a, b {:trigger SameHash(a, b)} :: a in s && b in s && Equal(a, b) ==> a == b
    }

    lemma UniqueWith(s: set<E>, e: E)
      requires Unique(s) && forall x :: x in s ==> !Equal(x, e)
      ensures Unique(s + {e})
    {
      forall a, b | a in s + {e} && b in s + {e} && Equal(a, b) ensures a == b {
        assert SameHash(a, b);
      }
    }

    lemma UniqueWithout(s: set<E>, e: E)
      requires Unique(s)
      ensures Unique(s - {e})
    {
      forall a, b | a in s - {e} && b in s - {e} && Equal(a, b) ensures a == b {
        assert SameHash(a, b);
      }
    }

    /** The bucket that e belongs in, out of n. */
    function Home(e: E, n: nat): nat
      requires n > 0
    {
      And(hash(e), n - 1)
    }

    ghost predicate BucketOk(i: nat)
      requires i < |buckets|
      reads `buckets, `elems
    {
      && NoDup(buckets[i])
      && forall e :: e in buckets[i] ==> e in elems && Home(e, |buckets|) == i
    }

    /** Every element is in its bucket, once; no two elements are equal; the count is exact. */
    ghost predicate Valid()
      reads `buckets, `elems, `elemCnt
    {
      && Lawful() && IsPowerOf2(|buckets|) && |buckets| >= 4 && elemCnt == |elems|
      && (forall i: nat {:trigger BucketOk(i)} :: i < |buckets| ==> BucketOk(i))
      && (forall e :: e in elems ==> Home(e, |buckets|) < |buckets| && e in buckets[Home(e, |buckets|)])
      && Unique(elems)
    }

    constructor (hash: E -> nat, less: (E, E) -> bool)
      ensures this.hash == hash && this.less == less && |buckets| == 4 && elems == {} && (Lawful() ==> Valid())
    {
      this.hash, this.less := hash, less;
      buckets, elemCnt, elems := [[], [], [], []], 0, {};
      new;
      assert IsPowerOf2(4) by { PowerMeans(4); Pow2Constants(); }
    }

    method FindBucket(e: E) returns (i: nat)
      requires Valid()
      ensures i == Home(e, |buckets|) < |buckets|
    {
      MaskedIndex(hash(e), |buckets|);
      i := And(hash(e), |buckets| - 1);
    }

    /** find_elem: the one element equal to e, wherever in the table it could be. */
    method FindElem(i: nat, e: E) returns (r: Option<E>)
      requires Valid() && i == Home(e, |buckets|) < |buckets|
      ensures r.Some? ==> r.value in elems && Equal(r.value, e) && r.value in buckets[i]
      ensures r == None ==> forall x :: x in elems ==> !Equal(x, e)
    {
      assert BucketOk(i);
      for j := 0 to |buckets[i]|
        invariant forall k :: 0 <= k < j ==> !Equal(buckets[i][k], e)
      {
        if Equal(buckets[i][j], e) {
          return Some(buckets[i][j]);
        }
      }
      forall x | x in elems ensures !Equal(x, e) {
        assert SameHash(x, e);
      }
      return None;
    }

    method InsertElem(i: nat, e: E)
      requires Valid() && i == Home(e, |buckets|) < |buckets| && forall x :: x in elems ==> !Equal(x, e)
      modifies `buckets, `elemCnt, `elems
      ensures Valid() && elems == old(elems) + {e} && |buckets| == old(|buckets|)
    {
      UniqueWith(elems, e);
      assert e !in elems by { assert Equal(e, e); }
      assert BucketOk(i);
      PushedMembers(buckets[i], e);
      elemCnt := elemCnt + 1;
      buckets := buckets[i := [e] + buckets[i]];
      elems := elems + {e};
      forall j: nat | j < |buckets| ensures BucketOk(j) {
        assert old(BucketOk(j));
        assert j != i ==> buckets[j] == old(buckets)[j];
      }
      forall x | x in elems ensures Home(x, |buckets|) < |buckets| && x in buckets[Home(x, |buckets|)] {
      }
    }

    method RemoveElem(e: E)
      requires Valid() && e in elems
      modifies `buckets, `elemCnt, `elems
      ensures Valid() && elems == old(elems) - {e} && |buckets| == old(|buckets|)
    {
      UniqueWithout(elems, e);
      var i := FindBucket(e);
      assert BucketOk(i);
      WithoutIs(buckets[i], e);
      elemCnt := elemCnt - 1;
      buckets := buckets[i := Without(buckets[i], e)];
      elems := elems - {e};
      forall j: nat | j < |buckets| ensures BucketOk(j) {
        assert old(BucketOk(j));
      }
    }

    /** The elements of `was` that have been moved when bucket i has been emptied up to position j. */
    ghost predicate Passed(was: seq<seq<E>>, i: nat, j: nat, e: E)
      requires |was| > 0
    {
      var home := Home(e, |was|);
      home < i || (home == i && i < |was| && j <= |was[i]| && e in was[i][..j])
    }

    ghost predicate WasOk(was: seq<seq<E>>, i: nat)
      requires i < |was|
      reads `elems
    {
      NoDup(was[i]) && forall e :: e in was[i] ==> e in elems && Home(e, |was|) == i
    }

    ghost predicate NewOk(n: nat, done: set<E>)
      requires n < |buckets|
      reads `buckets
    {
      NoDup(buckets[n]) && forall e :: e in buckets[n] ==> e in done && Home(e, |buckets|) == n
    }

    ghost predicate Moving(was: seq<seq<E>>, i: nat, j: nat, done: set<E>)
      reads `buckets, `elems
    {
      && |was| > 0 && IsPowerOf2(|buckets|) && |buckets| >= 4
      && (forall k: nat {:trigger WasOk(was, k)} :: k < |was| ==> WasOk(was, k))
      && (forall n: nat {:trigger NewOk(n, done)} :: n < |buckets| ==> NewOk(n, done))
      && (forall e :: e in done ==> Home(e, |buckets|) < |buckets| && e in buckets[Home(e, |buckets|)])
      && (forall e :: e in done <==> e in elems && Passed(was, i, j, e))
    }

    method MoveOne(was: seq<seq<E>>, i: nat, j: nat, ghost done: set<E>)
      requires Moving(was, i, j, done) && i < |was| && j < |was[i]|
      modifies `buckets
      ensures |buckets| == old(|buckets|) && Moving(was, i, j + 1, done + {was[i][j]})
    {
      var e := was[i][j];
      assert WasOk(was, i) && e in was[i];
      MaskedIndex(hash(e), |buckets|);
      var n := And(hash(e), |buckets| - 1);
      assert NewOk(n, done);
      assert was[i][..j + 1] == was[i][..j] + [e];
      assert e !in done;
      buckets := buckets[n := [e] + buckets[n]];
      PushedMembers(old(buckets)[n], e);
      forall k: nat | k < |buckets| ensures NewOk(k, done + {e}) {
        assert old(NewOk(k, done));
      }
    }

    /** Moves every element to its bucket among a new number of them; `memory` says whether the new
        buckets could be allocated. */
    method Rehash(memory: bool)
      requires Valid()
      modifies `buckets
      ensures Valid()
      ensures memory ==> RightCount(elemCnt, |buckets|)
      ensures !memory ==> buckets == old(buckets)
    {
      var cnt := IdealCount(elemCnt);
      if cnt == |buckets| || !memory {
        return;
      }
      var was := buckets;
      forall k: nat | k < |was| ensures WasOk(was, k) {
        assert BucketOk(k);
      }
      buckets := seq(cnt, _ => []);
      ghost var done: set<E> := {};
      for i := 0 to |was|
        invariant |buckets| == cnt && Moving(was, i, 0, done)
      {
        for j := 0 to |was[i]|
          invariant |buckets| == cnt && Moving(was, i, j, done)
        {
          MoveOne(was, i, j, done);
          done := done + {was[i][j]};
        }
        NextBucket(was, i, done);
      }
      AllMoved(was, done);
    }

    lemma NextBucket(was: seq<seq<E>>, i: nat, done: set<E>)
      requires i < |was| && Moving(was, i, |was[i]|, done)
      requires forall e :: e in elems ==> Home(e, |was|) < |was| && e in was[Home(e, |was|)]
      ensures Moving(was, i + 1, 0, done)
    {
      assert was[i][..|was[i]|] == was[i];
    }

    lemma AllMoved(was: seq<seq<E>>, done: set<E>)
      requires Moving(was, |was|, 0, done) && Lawful() && elemCnt == |elems|
      requires forall e :: e in elems ==> Home(e, |was|) < |was|
      requires Unique(elems)
      ensures Valid()
    {
      assert done == elems;
      forall n: nat | n < |buckets| ensures BucketOk(n) {
        assert NewOk(n, done);
      }
    }

    // ----------------------------------------------------------------
    // hash_insert and the rest

    method Insert(e: E, memory: bool) returns (r: Option<E>)
      requires Valid()
      modifies `buckets, `elemCnt, `elems
      ensures Valid() && (memory ==> RightCount(elemCnt, |buckets|))
      ensures r == None <==> forall x :: x in old(elems) ==> !Equal(x, e)
      ensures r == None ==> elems == old(elems) + {e}
      ensures r.Some? ==> r.value in old(elems) && Equal(r.value, e) && elems == old(elems)
    {
      var i := FindBucket(e);
      r := FindElem(i, e);
      if r == None {
        InsertElem(i, e);
      }
      Rehash(memory);
    }

    lemma OnlyEqual(x: E, e: E)
      requires Valid() && x in elems && Equal(x, e)
      ensures forall y :: y in elems && Equal(y, e) ==> y == x
    {
      forall y | y in elems && Equal(y, e) ensures y == x {
        assert Transitive(y, e, x) && SameHash(y, x);
      }
    }

    method Replace(e: E, memory: bool) returns (r: Option<E>)
      requires Valid()
      modifies `buckets, `elemCnt, `elems
      ensures Valid() && (memory ==> RightCount(elemCnt, |buckets|))
      ensures r == None <==> forall x :: x in old(elems) ==> !Equal(x, e)
      ensures r == None ==> elems == old(elems) + {e}
      ensures r.Some? ==> r.value in old(elems) && Equal(r.value, e) && elems == old(elems) - {r.value} + {e}
    {
      var i := FindBucket(e);
      r := FindElem(i, e);
      if r.Some? {
        OnlyEqual(r.value, e);
        RemoveElem(r.value);
      }
      InsertElem(i, e);
      Rehash(memory);
    }

    method Find(e: E) returns (r: Option<E>)
      requires Valid()
      ensures r == None <==> forall x :: x in elems ==> !Equal(x, e)
      ensures r.Some? ==> r.value in elems && Equal(r.value, e)
    {
      var i := FindBucket(e);
      r := FindElem(i, e);
    }

    method Delete(e: E, memory: bool) returns (r: Option<E>)
      requires Valid()
      modifies `buckets, `elemCnt, `elems
      ensures Valid() && (memory && r.Some? ==> RightCount(elemCnt, |buckets|))
      ensures r == None <==> forall x :: x in old(elems) ==> !Equal(x, e)
      ensures r == None ==> elems == old(elems) && buckets == old(buckets)
      ensures r.Some? ==> r.value in old(elems) && Equal(r.value, e) && elems == old(elems) - {r.value}
    {
      var i := FindBucket(e);
      r := FindElem(i, e);
      if r.Some? {
        RemoveElem(r.value);
        Rehash(memory);
      }
    }

    /** Empties bucket i from the front, as the destructor is called on each element. */
    method DestroyBucket(i: nat) returns (destroyed: seq<E>)
      requires i < |buckets|
      modifies `buckets
      ensures destroyed == old(buckets)[i] && buckets == old(buckets)[i := []]
    {
      destroyed := [];
      while buckets[i] != []
        invariant |buckets| == old(|buckets|) && buckets == old(buckets)[i := buckets[i]]
        invariant destroyed + buckets[i] == old(buckets)[i]
        decreases |buckets[i]|
      {
        var e := buckets[i][0];
        buckets := buckets[i := buckets[i][1..]];
        destroyed := destroyed + [e];
      }
    }

    /** The destructor, if there is one, is called on each element exactly once. */
    method Clear(destructor: bool) returns (destroyed: seq<E>)
      requires Valid()
      modifies `buckets, `elemCnt, `elems
      ensures Valid() && elems == {} && |buckets| == old(|buckets|)
      ensures destructor ==> NoDup(destroyed) && forall e :: e in destroyed <==> e in old(elems)
      ensures !destructor ==> destroyed == []
    {
      destroyed := [];
      ghost var was := buckets;
      for i := 0 to |buckets|
        invariant |buckets| == |was| && forall k :: 0 <= k < |was| ==> buckets[k] == if k < i then [] else was[k]
        invariant destructor ==> NoDup(destroyed) && forall e :: e in destroyed <==> e in elems && Home(e, |was|) < i
        invariant !destructor ==> destroyed == []
        invariant elems == old(elems)
      {
        if destructor {
          var more := DestroyBucket(i);
          assert old(BucketOk(i));
          Concatenated(destroyed, more);
          destroyed := destroyed + more;
        }
        buckets := buckets[i := []];
      }
      elemCnt, elems := 0, {};
    }

    // ----------------------------------------------------------------
    // Iteration

    /** An iterator stands on position pos of a bucket; -1 is the bucket's list head. */
    ghost predicate Behind(bucket: nat, pos: int, e: E)
      requires Valid() && pos >= -1
      reads `buckets, `elems, `elemCnt
    {
      || Home(e, |buckets|) < bucket
      || (Home(e, |buckets|) == bucket < |buckets| && pos < |buckets[bucket]| && e in buckets[bucket][..pos + 1])
    }

    /** The element comes before position pos of the bucket. */
    ghost predicate Before(bucket: nat, pos: nat, e: E)
      requires bucket < |buckets| && pos <= |buckets[bucket]|
      reads `buckets
    {
      Home(e, |buckets|) < bucket || (Home(e, |buckets|) == bucket && e in buckets[bucket][..pos])
    }

    /** hash_next: moves to the next element, skipping empty buckets. */
    method Next(bucket: nat, pos: int) returns (r: Option<E>, bucket': nat, pos': int)
      requires Valid() && bucket < |buckets| && -1 <= pos < |buckets[bucket]|
      ensures r.Some? ==>
                && bucket' < |buckets| && 0 <= pos' < |buckets[bucket']| && r.value == buckets[bucket'][pos']
                && r.value in elems && !Behind(bucket, pos, r.value)
                && forall e :: e in elems ==> (Behind(bucket', pos', e) <==> Behind(bucket, pos, e) || e == r.value)
      ensures r == None ==> forall e :: e in elems ==> Behind(bucket, pos, e)
      ensures r.Some? ==> bucket < bucket' || (bucket == bucket' && pos < pos')
    {
      bucket', pos' := bucket, pos + 1;
      while pos' == |buckets[bucket']|
        invariant bucket <= bucket' < |buckets| && 0 <= pos' <= |buckets[bucket']|
        invariant if bucket' == bucket then pos' == pos + 1 else pos' == 0
        invariant forall e :: e in elems ==> (Behind(bucket, pos, e) <==> Before(bucket', pos', e))
        decreases |buckets| - bucket'
      {
        assert buckets[bucket'][..pos'] == buckets[bucket'];
        bucket' := bucket' + 1;
        if bucket' >= |buckets| {
          return None, bucket', 0;
        }
        pos' := 0;
      }
      r := Some(buckets[bucket'][pos']);
      assert BucketOk(bucket') && r.value in buckets[bucket'];
      assert buckets[bucket'][..pos' + 1] == buckets[bucket'][..pos'] + [r.value];
    }

    /** Iteration visits each element exactly once. */
    method VisitAll() returns (seen: seq<E>)
      requires Valid()
      ensures NoDup(seen) && forall e :: e in seen <==> e in elems
    {
      seen := [];
      var bucket, pos := 0, -1;
      var r: Option<E>;
      r, bucket, pos := Next(bucket, pos);
      ghost var here: nat, at: int := 0, -1;
      while r.Some?
        invariant 0 <= here < |buckets| && -1 <= at < |buckets[here]| && NoDup(seen)
        invariant forall e :: e in seen <==> e in elems && Behind(here, at, e)
        invariant r.Some? ==>
                    && bucket < |buckets| && 0 <= pos < |buckets[bucket]| && r.value in elems
                    && !Behind(here, at, r.value)
                    && forall e :: e in elems ==> (Behind(bucket, pos, e) <==> Behind(here, at, e) || e == r.value)
        invariant r == None ==> forall e :: e in elems ==> Behind(here, at, e)
        decreases if r.Some? then |buckets| - bucket else 0, if r.Some? then |buckets[bucket]| - pos else 0
      {
        AppendedMembers(seen, r.value);
        seen := seen + [r.value];
        here, at := bucket, pos;
        r, bucket, pos := Next(bucket, pos);
      }
    }
  }
}
