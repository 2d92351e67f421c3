/** Whole runs of the hash table: any sequence of updates has the effect it has on a set keyed by
    the comparator, and an iteration visits every element exactly once
    (src/lib/kernel/hash.c:94-154, 199-235). */
module HashRun {
  import opened HashTable
  import opened Options

  datatype Op<T> = InsertOp(elem: T) | ReplaceOp(elem: T) | DeleteOp(elem: T) | FindOp(elem: T)

  /** The elements of s that are not equal to e. */
  ghost function Others<T>(s: set<T>, less: (T, T) -> bool, e: T): (r: set<T>)
  {
    set x | x in s && !Equal(less, x, e)
  }

  /** The reference: what an operation does to a set with at most one element per key. */
  ghost function Applied<T>(s: set<T>, less: (T, T) -> bool, op: Op<T>): (r: set<T>)
  {
    match op
    case InsertOp(e) => if Others(s, less, e) == s then s + {e} else s
    case ReplaceOp(e) => Others(s, less, e) + {e}
    case DeleteOp(e) => Others(s, less, e)
    case FindOp(e) => s
  }

  ghost function Replayed<T>(s: set<T>, less: (T, T) -> bool, ops: seq<Op<T>>): (r: set<T>)
  {
    if ops == [] then s else Applied(Replayed(s, less, ops[..|ops| - 1]), less, ops[|ops| - 1])
  }

  ghost predicate KeyedSet<T>(s: set<T>, less: (T, T) -> bool)
  {
    forall x, y | x in s && y in s && Equal(less, x, y) :: x == y
  }

  /** In a keyed set, taking out a match takes out everything equal to the key. */
  lemma MatchedOthers<T(!new)>(s: set<T>, hash: T -> nat, less: (T, T) -> bool, e: T, r: Option<T>)
    requires Proper(hash, less) && KeyedSet(s, less) && IsMatch(s, less, e, r)
    ensures Others(s, less, e) == if r.Some? then s - {r.value} else s
    ensures r.Some? ==> Others(s, less, e) != s
  {
    if r.Some? {
      forall x | x in s && Equal(less, x, e) ensures x == r.value {
        assert Equal(less, e, r.value);
        assert Equal(less, x, r.value);
      }
      assert r.value !in Others(s, less, e);
    }
  }

  lemma ContentsKeyed<T(!new)>(h: Hash<T>)
    requires h.Valid()
    ensures KeyedSet(h.Contents(), h.less)
  {
  }

  /** Performs one operation; `memory` says whether rehash finds memory. */
  method Perform<T(!new)>(h: Hash<T>, op: Op<T>, memory: bool) returns (r: Option<T>)
    requires h.Valid()
    modifies h, h.buckets
    ensures h.Valid() && (h.buckets == old(h.buckets) || fresh(h.buckets))
    ensures IsMatch(old(h.Contents()), h.less, op.elem, r)
    ensures h.Contents() == Applied(old(h.Contents()), h.less, op)
  {
    hide Bag, Placed, Keyed;
    ContentsKeyed(h);
    ghost var s := h.Contents();
    match op {
      case InsertOp(e) => r := h.Insert(e, memory);
      case ReplaceOp(e) => r := h.Replace(e, memory);
      case DeleteOp(e) => r := h.Delete(e, memory);
      case FindOp(e) => r := h.Find(e);
    }
    MatchedOthers(s, h.hash, h.less, op.elem, r);
  }

  /** Any run of operations, with any pattern of allocation failures, leaves the table with exactly
      the elements that the reference set has, each in its place. */
  method Run<T(!new)>(h: Hash<T>, ops: seq<Op<T>>, memory: seq<bool>)
    requires h.Valid() && |memory| == |ops|
    modifies h, h.buckets
    ensures h.Valid() && h.Contents() == Replayed(old(h.Contents()), h.less, ops)
  {
    hide Bag, Placed, Keyed, Applied, Hash.Contents, Hash.Valid;
    ghost var start := h.Contents();
    for i := 0 to |ops|
      invariant h.Valid() && h.Contents() == Replayed(start, h.less, ops[..i])
      invariant h.buckets == old(h.buckets) || fresh(h.buckets)
    {
      var _ := Perform(h, ops[i], memory[i]);
      assert ops[..i + 1][..i] == ops[..i];
    }
    assert ops[..|ops|] == ops;
  }

  // ----- iteration -----

  ghost function Flatten<T>(t: Table<T>): (s: seq<T>)
  {
    if t == [] then [] else t[0] + Flatten(t[1..])
  }

  lemma {:induction false} FlattenBag<T>(t: Table<T>)
    ensures multiset(Flatten(t)) == Bag(t)
    decreases |t|
  {
    if t != [] {
      FlattenBag(t[1..]);
      BagFromFront(t);
    }
  }

  lemma {:induction false} BagFromFront<T>(t: Table<T>)
    requires t != []
    ensures Bag(t) == multiset(t[0]) + Bag(t[1..])
    decreases |t|
  {
    var n := |t| - 1;
    if n > 0 {
      BagFromFront(t[..n]);
      assert t[..n][1..] == t[1..][..n - 1];
      assert Bag(t) == multiset(t[0]) + Bag(t[1..][..n - 1]) + multiset(t[n]);
    } else {
      assert t[..0] == [] && t[1..] == [];
    }
  }

  /** The elements from position p of bucket b on, bucket by bucket. */
  ghost function Rest<T>(t: Table<T>, b: nat, p: nat): (s: seq<T>)
    requires b < |t| && p <= |t[b]|
  {
    t[b][p..] + Flatten(t[b + 1..])
  }

  lemma RestSteps<T>(t: Table<T>, b: nat, p: nat)
    requires b < |t| && p <= |t[b]|
    ensures p < |t[b]| ==> Rest(t, b, p) == [t[b][p]] + Rest(t, b, p + 1)
    ensures p == |t[b]| && b + 1 < |t| ==> Rest(t, b, p) == Rest(t, b + 1, 0)
    ensures p == |t[b]| && b + 1 == |t| ==> Rest(t, b, p) == []
  {
    if p == |t[b]| && b + 1 < |t| {
      assert t[b + 1..][0] == t[b + 1] && t[b + 1..][1..] == t[b + 2..];
      assert t[b][p..] == [] && t[b + 1][0..] == t[b + 1];
    }
  }

  lemma RestAll<T>(t: Table<T>)
    requires t != []
    ensures Rest(t, 0, 0) == Flatten(t)
  {
    assert t[0][0..] == t[0];
  }

  /** hash_iterator: the current element is at position `pos` of a bucket, or just before its first
      element, as after hash_first. */
  class Iterator<T(!new, ==)> {
    const table: Hash<T>
    var bucket: nat
    var pos: int

    ghost predicate Valid()
      reads this, table, table.buckets
    {
      && table.Valid() && bucket < table.bucketCnt
      && -1 <= pos < |table.buckets[bucket]|
    }

    /** What hash_next has still to deliver. */
    ghost function Remaining(): (s: seq<T>)
      reads this, table, table.buckets
      requires Valid()
    {
      Rest(table.buckets[..], bucket, pos + 1)
    }

    /** hash_first. */
    constructor (h: Hash<T>)
      requires h.Valid()
      ensures Valid() && table == h && Remaining() == Flatten(h.buckets[..])
    {
      table := h;
      bucket, pos := 0, -1;
      new;
      RestAll(table.buckets[..]);
    }

    /** hash_next: delivers the next element, or nothing when none is left. */
    method Next() returns (r: Option<T>)
      requires Valid()
      modifies this
      ensures old(Remaining()) == [] <==> r.None?
      ensures r.Some? ==> Valid() && [r.value] + Remaining() == old(Remaining())
    {
      hide Rest, Bag, Keyed, Placed, Proper;
      ghost var rem := Remaining();
      ghost var t := table.buckets[..];
      pos := pos + 1;
      while pos == |table.buckets[bucket]|
        invariant table.Valid() && bucket < table.bucketCnt == |t| && table.buckets[..] == t
        invariant 0 <= pos <= |t[bucket]| && rem == Rest(t, bucket, pos)
        decreases |t| - bucket
      {
        RestSteps(t, bucket, pos);
        bucket := bucket + 1;
        if bucket >= table.bucketCnt {
          return None;
        }
        pos := 0;
      }
      RestSteps(t, bucket, pos);
      r := Some(table.buckets[bucket][pos]);
    }
  }

  /** The iteration idiom delivers every element of the table exactly once. */
  method VisitAll<T(!new)>(h: Hash<T>) returns (visited: seq<T>)
    requires h.Valid()
    ensures multiset(visited) == Bag(h.buckets[..])
    ensures forall x | x in visited :: multiset(visited)[x] == 1
    ensures (set x | x in visited) == h.Contents()
  {
    hide Rest, Bag, Keyed, Placed, Proper, Flatten;
    var it := new Iterator<T>(h);
    ghost var all := it.Remaining();
    visited := [];
    FlattenBag(h.buckets[..]);
    while true
      invariant it.Valid() && it.table == h && visited + it.Remaining() == all
      decreases |it.Remaining()|
    {
      var r := it.Next();
      if r.None? {
        break;
      }
      visited := visited + [r.value];
    }
    assert visited == all;
    VisitedOnce(visited, Bag(h.buckets[..]), h.less);
  }

  lemma VisitedOnce<T>(s: seq<T>, m: multiset<T>, less: (T, T) -> bool)
    requires multiset(s) == m && Keyed(m, less)
    ensures forall x | x in s :: multiset(s)[x] == 1
    ensures (set x | x in s) == Members(m)
  {
    forall x | x in s ensures x in m {
      assert x in multiset(s);
    }
    forall x | x in m ensures x in s {
      assert x in multiset(s);
    }
  }
}
