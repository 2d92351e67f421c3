/** The chained hash table (src/lib/kernel/hash.c). A bucket is the sequence of its elements, front
    first; elements are values that `less` may consider equal although they differ, as two nodes
    with the same key do. A failed allocation is a parameter. */
module HashTable {
  import opened Arithmetic
  import opened BitTricks
  import opened Options

  predicate Equal<T>(less: (T, T) -> bool, x: T, y: T)
  {
    !less(x, y) && !less(y, x)
  }

  /** What the table needs from its functions: equality under `less` is an equivalence, and equal
      elements have equal hashes. */
  ghost predicate Proper<T(!new)>(hash: T -> nat, less: (T, T) -> bool)
  {
    && (forall x :: Equal(less, x, x))
    && (forall x, y, z :: Equal(less, x, y) && Equal(less, y, z) ==> Equal(less, x, z))
    && (forall x, y :: Equal(less, x, y) ==> hash(x) == hash(y))
  }

  // ----- the table as a value -----

  type Table<T> = seq<seq<T>>

  /** All elements of a table, with multiplicity. */
  ghost function Bag<T>(t: Table<T>): (m: multiset<T>)
  {
    if t == [] then multiset{} else Bag(t[..|t| - 1]) + multiset(t[|t| - 1])
  }

  /** Every element is in the bucket that its hash selects. */
  ghost predicate Placed<T>(t: Table<T>, hash: T -> nat)
  {
    forall i | 0 <= i < |t| :: forall x | x in t[i] :: And(hash(x), |t| - 1) == i
  }

  /** No element occurs twice, and no two elements are equal under `less`. */
  ghost predicate Keyed<T>(m: multiset<T>, less: (T, T) -> bool)
  {
    && (forall x | x in m :: m[x] == 1)
    && (forall x, y | x in m && y in m && Equal(less, x, y) :: x == y)
  }

  lemma {:induction false} BagMember<T>(t: Table<T>, i: nat, x: T)
    requires i < |t| && x in t[i]
    ensures x in Bag(t)
    decreases |t|
  {
    if i < |t| - 1 {
      BagMember(t[..|t| - 1], i, x);
    }
  }

  lemma {:induction false} BagLocated<T>(t: Table<T>, x: T) returns (i: nat)
    requires x in Bag(t)
    ensures i < |t| && x in t[i]
    decreases |t|
  {
    var n := |t| - 1;
    if x in multiset(t[n]) {
      i := n;
    } else {
      i := BagLocated(t[..n], x);
    }
  }

  lemma AddBoth<T>(a: multiset<T>, b: multiset<T>, c: multiset<T>, d: multiset<T>, m: multiset<T>)
    requires a + b == c + d
    ensures a + m + b == c + m + d
  {
    assert a + m + b == (a + b) + m;
    assert c + m + d == (c + d) + m;
  }

  lemma CancelAdd<T>(a: multiset<T>, m: multiset<T>, c: multiset<T>, d: multiset<T>)
    requires a + m == c + (m + d)
    ensures a == c + d
  {
    assert a == (a + m) - m;
    assert c + d == (c + (m + d)) - m;
  }

  lemma CancelRemove<T>(a: multiset<T>, m: multiset<T>, d: multiset<T>, c: multiset<T>)
    requires a + (m + d) == c + m
    ensures a == c - d
  {
    assert a + d == ((a + (m + d)) - m);
    assert c == (c + m) - m;
    assert a == (a + d) - d;
  }

  lemma {:induction false} BagUpdate<T>(t: Table<T>, i: nat, b: seq<T>)
    requires i < |t|
    ensures Bag(t[i := b]) + multiset(t[i]) == Bag(t) + multiset(b)
    decreases |t|
  {
    var n := |t| - 1;
    if i < n {
      assert t[i := b][..n] == t[..n][i := b];
      BagUpdate(t[..n], i, b);
      AddBoth(Bag(t[..n][i := b]), multiset(t[i]), Bag(t[..n]), multiset(b), multiset(t[n]));
    } else {
      assert t[i := b][..n] == t[..n];
      assert Bag(t[..n]) + multiset(b) + multiset(t[i]) == Bag(t[..n]) + multiset(t[i]) + multiset(b);
    }
  }

  /** Adding e at the front of one bucket adds it to the bag. */
  lemma BagAdd<T>(t: Table<T>, i: nat, e: T)
    requires i < |t|
    ensures Bag(t[i := [e] + t[i]]) == Bag(t) + multiset{e}
  {
    hide Bag;
    BagUpdate(t, i, [e] + t[i]);
    assert multiset([e] + t[i]) == multiset(t[i]) + multiset{e};
    CancelAdd(Bag(t[i := [e] + t[i]]), multiset(t[i]), Bag(t), multiset{e});
  }

  /** Taking the k-th element out of one bucket takes it out of the bag. */
  lemma BagRemove<T>(t: Table<T>, i: nat, k: nat)
    requires i < |t| && k < |t[i]|
    ensures t[i][k] in Bag(t)
    ensures Bag(t[i := t[i][..k] + t[i][k + 1..]]) == Bag(t) - multiset{t[i][k]}
  {
    hide Bag;
    var e, b := t[i][k], t[i][..k] + t[i][k + 1..];
    BagMember(t, i, e);
    assert t[i] == t[i][..k] + [e] + t[i][k + 1..];
    assert multiset(t[i]) == multiset(b) + multiset{e};
    BagUpdate(t, i, b);
    CancelRemove(Bag(t[i := b]), multiset(b), multiset{e}, Bag(t));
  }

  lemma {:induction false} BagEmpty<T>(t: Table<T>)
    requires forall i | 0 <= i < |t| :: t[i] == []
    ensures Bag(t) == multiset{}
  {
    if t != [] {
      BagEmpty(t[..|t| - 1]);
    }
  }

  lemma PlacedAdd<T>(t: Table<T>, hash: T -> nat, i: nat, e: T)
    requires i < |t| && Placed(t, hash) && And(hash(e), |t| - 1) == i
    ensures Placed(t[i := [e] + t[i]], hash)
  {
  }

  lemma PlacedRemove<T>(t: Table<T>, hash: T -> nat, i: nat, k: nat)
    requires i < |t| && k < |t[i]| && Placed(t, hash)
    ensures Placed(t[i := t[i][..k] + t[i][k + 1..]], hash)
  {
  }

  lemma KeyedAdd<T(!new)>(m: multiset<T>, hash: T -> nat, less: (T, T) -> bool, e: T)
    requires Proper(hash, less) && Keyed(m, less) && forall x | x in m :: !Equal(less, x, e)
    ensures Keyed(m + multiset{e}, less)
  {
    assert Equal(less, e, e);
    assert e !in m;
    var n := m + multiset{e};
    forall x, y | x in n && y in n && Equal(less, x, y) ensures x == y {
      assert Equal(less, y, x);
    }
  }

  lemma KeyedRemove<T>(m: multiset<T>, less: (T, T) -> bool, e: T)
    requires Keyed(m, less) && e in m
    ensures Keyed(m - multiset{e}, less) && e !in m - multiset{e}
  {
  }

  /** The bucket index that a hash selects is a bucket. */
  lemma IndexInRange(h: nat, n: nat)
    requires IsPow2(n)
    ensures And(h, n - 1) < n && And(h, n - 1) == h % n
  {
    var k: nat :| n == Pow2(k);
    MaskIsRemainder(h, k);
  }

  // ----- the set that a table stands for -----

  ghost function Members<T>(m: multiset<T>): (s: set<T>)
  {
    set x | x in m
  }

  /** r is what looking e up in s must give. */
  ghost predicate IsMatch<T>(s: set<T>, less: (T, T) -> bool, e: T, r: Option<T>)
  {
    match r
    case Some(x) => x in s && Equal(less, x, e)
    case None => forall x | x in s :: !Equal(less, x, e)
  }

  lemma {:induction false} CardinalityOfKeyed<T>(m: multiset<T>)
    requires forall x | x in m :: m[x] == 1
    ensures |Members(m)| == |m|
    decreases |m|
  {
    if m != multiset{} {
      var x :| x in m;
      var n := m - multiset{x};
      CardinalityOfKeyed(n);
      assert Members(m) == Members(n) + {x};
      assert m == n + multiset{x};
    }
  }

  /** The number of buckets that rehash aims for: at least four, and otherwise from two up to four elements for
      each, which with IdealIsPow2 leaves one number. */
  function IdealBuckets(elemCnt: nat): (n: nat)
    ensures n >= 4 && (elemCnt < 8 ==> n == 4) && (elemCnt >= 8 ==> 2 * n <= elemCnt < 4 * n)
  {
    HighBitAtLeast4(if elemCnt / 2 < 4 then 4 else elemCnt / 2);
    HighBit(if elemCnt / 2 < 4 then 4 else elemCnt / 2)
  }

  lemma HighBitAtLeast4(x: nat)
    requires x >= 4
    ensures HighBit(x) >= 4
  {
    assert HighBit(x / 4) >= 1;
    assert HighBit(x / 2) == 2 * HighBit(x / 2 / 2);
    assert x / 2 / 2 == x / 4;
  }

  /** The first part of rehash: bits are cleared until one is left. */
  method ChooseBuckets(elemCnt: nat) returns (n: nat)
    ensures n == IdealBuckets(elemCnt)
  {
    hide HighBit;
    n := elemCnt / 2;
    if n < 4 {
      n := 4;
    }
    ghost var start := n;
    while !IsPowerOf2(n)
      invariant n > 0 && HighBit(n) == HighBit(start)
      decreases n
    {
      PowerTrick(n);
      n := TurnOffLeast1Bit(n);
    }
    PowerTrick(n);
  }

  class Hash<T(!new, ==)> {
    const hash: T -> nat
    const less: (T, T) -> bool
    var elemCnt: nat
    var bucketCnt: nat
    var buckets: array<seq<T>>

    ghost predicate Valid()
      reads this, buckets
    {
      && Proper(hash, less)
      && bucketCnt == buckets.Length >= 4 && IsPow2(bucketCnt)
      && Placed(buckets[..], hash)
      && Keyed(Bag(buckets[..]), less)
      && elemCnt == |Bag(buckets[..])|
    }

    /** The set of elements in the table. */
    ghost function Contents(): (s: set<T>)
      reads this, buckets
    {
      Members(Bag(buckets[..]))
    }

    /** hash_init, when its allocation succeeds. */
    constructor (hash: T -> nat, less: (T, T) -> bool)
      requires Proper(hash, less)
      ensures Valid() && Contents() == {} && fresh(buckets)
      ensures this.hash == hash && this.less == less
    {
      this.hash, this.less := hash, less;
      elemCnt, bucketCnt := 0, 4;
      buckets := new seq<T>[4](_ => []);
      new;
      BagEmpty(buckets[..]);
      assert 4 == Pow2(2);
    }

    /** find_bucket. */
    method FindBucket(e: T) returns (i: nat)
      requires bucketCnt == buckets.Length && IsPow2(bucketCnt)
      ensures i < bucketCnt && i == And(hash(e), bucketCnt - 1)
    {
      IndexInRange(hash(e), bucketCnt);
      i := And(hash(e), bucketCnt - 1);
    }

    /** find_elem: the position of the first equal element of a bucket, if any. */
    method FindElem(i: nat, e: T) returns (r: Option<nat>)
      requires i < buckets.Length
      ensures r.Some? ==> r.value < |buckets[i]| && Equal(less, buckets[i][r.value], e)
      ensures r.None? ==> forall k | 0 <= k < |buckets[i]| :: !Equal(less, buckets[i][k], e)
    {
      var b := buckets[i];
      for k := 0 to |b|
        invariant forall j | 0 <= j < k :: !Equal(less, b[j], e)
      {
        if !less(b[k], e) && !less(e, b[k]) {
          return Some(k);
        }
      }
      return None;
    }

    /** What searching one bucket says about the whole table. */
    lemma SearchedBucket(i: nat, e: T, r: Option<nat>)
      requires Valid() && i < buckets.Length && i == And(hash(e), bucketCnt - 1)
      requires r.Some? ==> r.value < |buckets[i]| && Equal(less, buckets[i][r.value], e)
      requires r.None? ==> forall k | 0 <= k < |buckets[i]| :: !Equal(less, buckets[i][k], e)
      ensures IsMatch(Contents(), less, e, if r.Some? then Some(buckets[i][r.value]) else None)
    {
      hide Bag, Keyed;
      var t := buckets[..];
      if r.Some? {
        assert t[i] == buckets[i];
        BagMember(t, i, buckets[i][r.value]);
      } else {
        forall x | x in Bag(t) ensures !Equal(less, x, e) {
          var j := BagLocated(t, x);
          assert And(hash(x), bucketCnt - 1) == j;
        }
      }
    }

    /** hash_find. */
    method Find(e: T) returns (r: Option<T>)
      requires Valid()
      ensures IsMatch(Contents(), less, e, r)
    {
      hide Bag, Keyed, Placed;
      var i := FindBucket(e);
      var k := FindElem(i, e);
      SearchedBucket(i, e, k);
      r := if k.Some? then Some(buckets[i][k.value]) else None;
    }

    /** insert_elem. */
    method InsertElem(i: nat, e: T)
      requires Valid() && i < bucketCnt && i == And(hash(e), bucketCnt - 1)
      requires IsMatch(Contents(), less, e, None)
      modifies this`elemCnt, buckets
      ensures Valid() && Contents() == old(Contents()) + {e}
    {
      hide Bag, Placed, Keyed;
      ghost var t := buckets[..];
      elemCnt := elemCnt + 1;
      buckets[i] := [e] + buckets[i];
      assert buckets[..] == t[i := [e] + t[i]];
      BagAdd(t, i, e);
      PlacedAdd(t, hash, i, e);
      KeyedAdd(Bag(t), hash, less, e);
    }

    /** remove_elem: takes out the element at position k of bucket i. */
    method RemoveElem(i: nat, k: nat)
      requires Valid() && i < bucketCnt && k < |buckets[i]|
      modifies this`elemCnt, buckets
      ensures Valid() && Contents() == old(Contents()) - {old(buckets[i][k])}
    {
      hide Bag, Placed, Keyed;
      ghost var t := buckets[..];
      ghost var e := buckets[i][k];
      BagRemove(t, i, k);
      KeyedRemove(Bag(t), less, e);
      elemCnt := elemCnt - 1;
      buckets[i] := buckets[i][..k] + buckets[i][k + 1..];
      assert buckets[..] == t[i := t[i][..k] + t[i][k + 1..]];
      PlacedRemove(t, hash, i, k);
      MembersMinus(Bag(t), e);
    }

    /** rehash: the elements move one by one into freshly allocated buckets. Whether or not there
        is memory for those, the table keeps its elements. */
    method Rehash(memory: bool)
      requires Valid()
      modifies this`buckets, this`bucketCnt
      ensures Valid() && Contents() == old(Contents())
      ensures bucketCnt == old(bucketCnt) || bucketCnt == IdealBuckets(elemCnt)
      ensures memory ==> bucketCnt == IdealBuckets(elemCnt)
      ensures buckets == old(buckets) || fresh(buckets)
    {
      hide Bag, Placed, Keyed, IdealBuckets;
      var n := ChooseBuckets(elemCnt);
      if n == bucketCnt || !memory {
        return;
      }
      IdealIsPow2(elemCnt);
      var oldBuckets := buckets;
      ghost var o := oldBuckets[..];
      buckets := new seq<T>[n](_ => []);
      bucketCnt := n;
      EmptyTable(buckets[..], hash);
      for i := 0 to oldBuckets.Length
        invariant buckets.Length == n == bucketCnt && fresh(buckets) && oldBuckets[..] == o
        invariant Placed(buckets[..], hash) && Bag(buckets[..]) == Bag(o[..i])
        modifies buckets
      {
        MoveBucket(oldBuckets[i]);
        BagPrefix(o, i);
      }
      assert o[..oldBuckets.Length] == o;
    }

    /** The inner loop of rehash, emptying one old bucket. */
    method MoveBucket(bucket: seq<T>)
      requires bucketCnt == buckets.Length && IsPow2(bucketCnt) && Placed(buckets[..], hash)
      modifies buckets
      ensures Placed(buckets[..], hash)
      ensures Bag(buckets[..]) == old(Bag(buckets[..])) + multiset(bucket)
    {
      hide Bag, Placed;
      ghost var m := Bag(buckets[..]);
      var rest := bucket;
      while rest != []
        invariant Placed(buckets[..], hash)
        invariant Bag(buckets[..]) + multiset(rest) == m + multiset(bucket)
        decreases |rest|
      {
        var x := rest[0];
        var j := FindBucket(x);
        ghost var t := buckets[..];
        buckets[j] := [x] + buckets[j];
        assert buckets[..] == t[j := [x] + t[j]];
        BagAdd(t, j, x);
        PlacedAdd(t, hash, j, x);
        assert rest == [x] + rest[1..];
        rest := rest[1..];
      }
    }

    /** hash_insert. */
    method Insert(e: T, memory: bool) returns (r: Option<T>)
      requires Valid()
      modifies this, buckets
      ensures Valid() && (buckets == old(buckets) || fresh(buckets))
      ensures IsMatch(old(Contents()), less, e, r)
      ensures Contents() == if r.None? then old(Contents()) + {e} else old(Contents())
    {
      hide Bag, Keyed, Placed;
      var i := FindBucket(e);
      var k := FindElem(i, e);
      SearchedBucket(i, e, k);
      r := if k.Some? then Some(buckets[i][k.value]) else None;
      if k.None? {
        InsertElem(i, e);
      }
      Rehash(memory);
    }

    /** hash_replace. */
    method Replace(e: T, memory: bool) returns (r: Option<T>)
      requires Valid()
      modifies this, buckets
      ensures Valid() && (buckets == old(buckets) || fresh(buckets))
      ensures IsMatch(old(Contents()), less, e, r)
      ensures Contents() == (if r.Some? then old(Contents()) - {r.value} else old(Contents())) + {e}
    {
      hide Bag, Keyed, Placed;
      var i := FindBucket(e);
      var k := FindElem(i, e);
      SearchedBucket(i, e, k);
      r := None;
      if k.Some? {
        r := Some(buckets[i][k.value]);
        OnlyMatch(e, r.value);
        RemoveElem(i, k.value);
      }
      InsertElem(i, e);
      Rehash(memory);
    }

    /** hash_delete. */
    method Delete(e: T, memory: bool) returns (r: Option<T>)
      requires Valid()
      modifies this, buckets
      ensures Valid() && (buckets == old(buckets) || fresh(buckets))
      ensures IsMatch(old(Contents()), less, e, r)
      ensures Contents() == if r.Some? then old(Contents()) - {r.value} else old(Contents())
    {
      hide Bag, Keyed, Placed;
      var i := FindBucket(e);
      var k := FindElem(i, e);
      SearchedBucket(i, e, k);
      r := None;
      if k.Some? {
        r := Some(buckets[i][k.value]);
        RemoveElem(i, k.value);
        Rehash(memory);
      }
    }

    /** There is at most one element equal to e. */
    lemma OnlyMatch(e: T, x: T)
      requires Valid() && x in Contents() && Equal(less, x, e)
      ensures IsMatch(Contents() - {x}, less, e, None)
    {
      hide Bag, Placed;
      forall y | y in Contents() - {x} ensures !Equal(less, y, e) {
        assert Equal(less, y, e) && Equal(less, e, x) ==> Equal(less, y, x);
      }
    }

    /** hash_size. */
    method Size() returns (n: nat)
      requires Valid()
      ensures n == |Contents()|
    {
      CardinalityOfKeyed(Bag(buckets[..]));
      n := elemCnt;
    }
  }

  lemma MembersMinus<T>(m: multiset<T>, e: T)
    requires e in m && m[e] == 1
    ensures Members(m - multiset{e}) == Members(m) - {e}
  {
  }

  lemma IdealIsPow2(elemCnt: nat)
    ensures IsPow2(IdealBuckets(elemCnt))
  {
  }

  lemma EmptyTable<T>(t: Table<T>, hash: T -> nat)
    requires forall i | 0 <= i < |t| :: t[i] == []
    ensures Placed(t, hash) && Bag(t) == Bag(t[..0])
  {
    BagEmpty(t);
  }

  lemma BagPrefix<T>(t: Table<T>, i: nat)
    requires i < |t|
    ensures Bag(t[..i + 1]) == Bag(t[..i]) + multiset(t[i])
  {
    assert t[..i + 1][..i] == t[..i];
  }
}
