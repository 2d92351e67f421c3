/** In-place heapsort and binary search (src/lib/stdlib.c:66-152, 184-207). Elements are opaque
    values; positions are 1-based as in the source, so element k of the source is a[k - 1]. */
module HeapSort {

  /** A strcmp()-type comparator that orders all values: the sign of compare(x, y) is opposite to
      that of compare(y, x), and "not greater" is transitive. Distinct values may compare equal. */
  ghost predicate TotalPreorder<T(!new)>(compare: (T, T) -> int)
  {
    && (forall x, y :: compare(x, y) < 0 <==> compare(y, x) > 0)
    && (forall x, y, z :: compare(x, y) <= 0 && compare(y, z) <= 0 ==> compare(x, z) <= 0)
  }

  ghost predicate Sorted<T>(compare: (T, T) -> int, s: seq<T>)
  {
    forall i, j | 0 <= i < j < |s| :: compare(s[i], s[j]) <= 0
  }

  /** Node k is not greater than its parent. */
  ghost predicate BelowParent<T>(compare: (T, T) -> int, s: seq<T>, k: nat)
    requires 2 <= k <= |s|
  {
    compare(s[k - 1], s[k / 2 - 1]) <= 0
  }

  /** The heap condition on the first cnt elements, for the nodes whose parent is at least lo. */
  ghost predicate HeapFrom<T>(compare: (T, T) -> int, s: seq<T>, lo: nat, cnt: nat)
  {
    && cnt <= |s| && lo >= 1
    && forall k | 2 * lo <= k <= cnt :: BelowParent(compare, s, k)
  }

  function Swapped<T>(s: seq<T>, i: nat, j: nat): (r: seq<T>)
    requires 1 <= i <= |s| && 1 <= j <= |s|
    ensures |r| == |s|
  {
    s[i - 1 := s[j - 1]][j - 1 := s[i - 1]]
  }

  /** t differs from s only by a rearrangement of the first n elements. */
  ghost predicate PermutesFirst<T>(s: seq<T>, t: seq<T>, n: nat)
  {
    && |s| == |t| && n <= |s|
    && multiset(s[..n]) == multiset(t[..n])
    && s[n..] == t[n..]
  }

  lemma SwapPermutes<T>(s: seq<T>, i: nat, j: nat, n: nat)
    requires 1 <= i <= n && 1 <= j <= n && n <= |s|
    ensures PermutesFirst(s, Swapped(s, i, j), n)
  {
    var t := Swapped(s, i, j);
    assert t[..n] == s[..n][i - 1 := s[j - 1]][j - 1 := s[i - 1]];
    assert t[n..] == s[n..];
  }

  lemma PermutesTrans<T>(s: seq<T>, t: seq<T>, u: seq<T>, n: nat)
    requires PermutesFirst(s, t, n) && PermutesFirst(t, u, n)
    ensures PermutesFirst(s, u, n)
  {
  }

  lemma PermutesWiden<T>(s: seq<T>, t: seq<T>, n: nat, m: nat)
    requires PermutesFirst(s, t, n) && n <= m <= |s|
    ensures PermutesFirst(s, t, m)
  {
    assert s[..m] == s[..n] + s[n..][..m - n];
    assert t[..m] == t[..n] + t[n..][..m - n];
    assert s[m..] == s[n..][m - n..] && t[m..] == t[n..][m - n..];
  }

  /** do_swap. */
  method DoSwap<T>(a: array<T>, i: nat, j: nat)
    requires 1 <= i <= a.Length && 1 <= j <= a.Length
    modifies a
    ensures a[..] == Swapped(old(a[..]), i, j)
  {
    var t := a[i - 1];
    a[i - 1] := a[j - 1];
    a[j - 1] := t;
  }

  /** A heap from lo in which only node i may be smaller than its children; even then i's parent
      bounds i's children. */
  ghost predicate HoleAt<T>(compare: (T, T) -> int, s: seq<T>, lo: nat, cnt: nat, i: nat)
  {
    && cnt <= |s| && 1 <= lo <= i
    && (forall k | 2 * lo <= k <= cnt && k / 2 != i :: BelowParent(compare, s, k))
    && (i >= 2 * lo && 2 * i <= cnt ==> compare(s[2 * i - 1], s[i / 2 - 1]) <= 0)
    && (i >= 2 * lo && 2 * i + 1 <= cnt ==> compare(s[2 * i], s[i / 2 - 1]) <= 0)
  }

  /** The index of the largest among node i and its children, as heapify selects it. */
  function Largest<T>(compare: (T, T) -> int, s: seq<T>, cnt: nat, i: nat): (m: nat)
    requires 1 <= i && cnt <= |s| && i <= |s|
    ensures m == i || (m == 2 * i && m <= cnt) || (m == 2 * i + 1 && m <= cnt)
  {
    var m := if 2 * i <= cnt && compare(s[2 * i - 1], s[i - 1]) > 0 then 2 * i else i;
    if 2 * i + 1 <= cnt && compare(s[2 * i], s[m - 1]) > 0 then 2 * i + 1 else m
  }

  lemma Flip<T(!new)>(compare: (T, T) -> int, x: T, y: T)
    requires TotalPreorder(compare)
    ensures compare(x, y) > 0 ==> compare(y, x) <= 0
    ensures compare(x, x) <= 0
  {
  }

  lemma Chain<T(!new)>(compare: (T, T) -> int, x: T, y: T, z: T)
    requires TotalPreorder(compare) && compare(x, y) <= 0 && compare(y, z) <= 0
    ensures compare(x, z) <= 0
  {
  }

  /** The selected node bounds node i and both its children. */
  lemma LargestBounds<T(!new)>(compare: (T, T) -> int, s: seq<T>, cnt: nat, i: nat)
    requires TotalPreorder(compare) && 1 <= i <= |s| && cnt <= |s|
    ensures var m := Largest(compare, s, cnt, i);
      && compare(s[i - 1], s[m - 1]) <= 0
      && (2 * i <= cnt ==> compare(s[2 * i - 1], s[m - 1]) <= 0)
      && (2 * i + 1 <= cnt ==> compare(s[2 * i], s[m - 1]) <= 0)
  {
    hide TotalPreorder;
    Flip(compare, s[i - 1], s[i - 1]);
    if 2 * i <= cnt {
      Flip(compare, s[2 * i - 1], s[i - 1]);
      Flip(compare, s[2 * i - 1], s[2 * i - 1]);
    }
    if 2 * i + 1 <= cnt {
      var m := if compare(s[2 * i - 1], s[i - 1]) > 0 then 2 * i else i;
      Flip(compare, s[2 * i], s[m - 1]);
      Flip(compare, s[2 * i], s[2 * i]);
      if compare(s[2 * i], s[m - 1]) > 0 {
        Chain(compare, s[i - 1], s[m - 1], s[2 * i]);
        Chain(compare, s[2 * i - 1], s[m - 1], s[2 * i]);
      }
    }
  }

  lemma SinkStop<T(!new)>(compare: (T, T) -> int, s: seq<T>, lo: nat, cnt: nat, i: nat)
    requires TotalPreorder(compare) && HoleAt(compare, s, lo, cnt, i) && i <= |s|
    requires Largest(compare, s, cnt, i) == i
    ensures HeapFrom(compare, s, lo, cnt)
  {
    hide TotalPreorder, Largest;
    LargestBounds(compare, s, cnt, i);
    forall k | 2 * lo <= k <= cnt ensures BelowParent(compare, s, k) {
      if k / 2 == i {
        assert k == 2 * i || k == 2 * i + 1;
      }
    }
  }

  /** After the swap the order can fail only below m. */
  lemma SinkSwap<T(!new)>(compare: (T, T) -> int, s: seq<T>, lo: nat, cnt: nat, i: nat, m: nat)
    requires TotalPreorder(compare) && HoleAt(compare, s, lo, cnt, i) && i <= |s|
    requires m == Largest(compare, s, cnt, i) != i
    ensures HoleAt(compare, Swapped(s, i, m), lo, cnt, m)
  {
    hide TotalPreorder, Largest;
    LargestBounds(compare, s, cnt, i);
    var t := Swapped(s, i, m);
    forall k | 2 * lo <= k <= cnt && k / 2 != m ensures BelowParent(compare, t, k) {
      SwapKeepsOrder(compare, s, lo, cnt, i, m, k);
    }
    if 2 * m <= cnt {
      assert BelowParent(compare, s, 2 * m);
    }
    if 2 * m + 1 <= cnt {
      assert BelowParent(compare, s, 2 * m + 1);
    }
  }

  lemma SwapKeepsOrder<T>(compare: (T, T) -> int, s: seq<T>, lo: nat, cnt: nat, i: nat, m: nat, k: nat)
    requires HoleAt(compare, s, lo, cnt, i) && i <= |s| && (m == 2 * i || m == 2 * i + 1) && m <= cnt
    requires compare(s[i - 1], s[m - 1]) <= 0
    requires 2 * i <= cnt ==> compare(s[2 * i - 1], s[m - 1]) <= 0
    requires 2 * i + 1 <= cnt ==> compare(s[2 * i], s[m - 1]) <= 0
    requires 2 * lo <= k <= cnt && k / 2 != m
    ensures BelowParent(compare, Swapped(s, i, m), k)
  {
    var t := Swapped(s, i, m);
    if k == i {
      assert t[k / 2 - 1] == s[i / 2 - 1] && t[k - 1] == s[m - 1];
    } else if k / 2 == i {
      assert k == 2 * i || k == 2 * i + 1;
      assert t[k / 2 - 1] == s[m - 1] && t[k - 1] == if k == m then s[i - 1] else s[k - 1];
    } else {
      assert k != m;
      assert BelowParent(compare, s, k);
      assert t[k - 1] == s[k - 1] && t[k / 2 - 1] == s[k / 2 - 1];
    }
  }

  /** heapify: the element at i floats down until the heap is restored from lo on. Nothing beyond
      cnt moves. */
  method Heapify<T(!new)>(a: array<T>, i: nat, cnt: nat, compare: (T, T) -> int)
    requires TotalPreorder(compare) && 1 <= i <= a.Length && cnt <= a.Length && i <= cnt
    requires HeapFrom(compare, a[..], i + 1, cnt)
    modifies a
    ensures HeapFrom(compare, a[..], i, cnt)
    ensures PermutesFirst(old(a[..]), a[..], cnt)
  {
    hide TotalPreorder, HoleAt, HeapFrom, PermutesFirst, Largest;
    StartSinking(compare, a[..], i, cnt);
    var j := i;
    PermutesSelf(a[..], cnt);
    while true
      invariant i <= j <= cnt && HoleAt(compare, a[..], i, cnt, j)
      invariant PermutesFirst(old(a[..]), a[..], cnt)
      decreases cnt - j
    {
      var left, right, max := 2 * j, 2 * j + 1, j;
      if left <= cnt && compare(a[left - 1], a[max - 1]) > 0 {
        max := left;
      }
      if right <= cnt && compare(a[right - 1], a[max - 1]) > 0 {
        max := right;
      }
      IsLargest(compare, a[..], cnt, j, max);
      if max == j {
        SinkStop(compare, a[..], i, cnt, j);
        break;
      }
      SinkSwap(compare, a[..], i, cnt, j, max);
      SwapPermutes(a[..], j, max, cnt);
      PermutesTrans(old(a[..]), a[..], Swapped(a[..], j, max), cnt);
      DoSwap(a, j, max);
      j := max;
    }
  }

  lemma IsLargest<T>(compare: (T, T) -> int, s: seq<T>, cnt: nat, i: nat, m: nat)
    requires 1 <= i <= |s| && cnt <= |s|
    requires var m1 := if 2 * i <= cnt && compare(s[2 * i - 1], s[i - 1]) > 0 then 2 * i else i;
      m == if 2 * i + 1 <= cnt && compare(s[2 * i], s[m1 - 1]) > 0 then 2 * i + 1 else m1
    ensures m == Largest(compare, s, cnt, i)
  {
  }

  lemma PermutesSelf<T>(s: seq<T>, n: nat)
    requires n <= |s|
    ensures PermutesFirst(s, s, n)
  {
  }

  lemma StartSinking<T>(compare: (T, T) -> int, s: seq<T>, i: nat, cnt: nat)
    requires 1 <= i && HeapFrom(compare, s, i + 1, cnt)
    ensures HoleAt(compare, s, i, cnt, i)
  {
    forall k | 2 * i <= k <= cnt && k / 2 != i ensures BelowParent(compare, s, k) {
      assert k >= 2 * (i + 1);
    }
  }

  /** The root of a heap bounds every node. */
  lemma {:induction false} RootBounds<T(!new)>(compare: (T, T) -> int, s: seq<T>, cnt: nat, k: nat)
    requires TotalPreorder(compare) && HeapFrom(compare, s, 1, cnt) && 1 <= k <= cnt
    ensures compare(s[k - 1], s[0]) <= 0
  {
    if k == 1 {
      Flip(compare, s[0], s[0]);
    } else {
      assert BelowParent(compare, s, k);
      RootBounds(compare, s, cnt, k / 2);
      Chain(compare, s[k - 1], s[k / 2 - 1], s[0]);
    }
  }

  /** During the second phase: a heap on the first i, the rest sorted and above it. */
  ghost predicate PartlySorted<T>(compare: (T, T) -> int, s: seq<T>, i: nat)
  {
    && HeapFrom(compare, s, 1, i)
    && Sorted(compare, s[i..])
    && Above(compare, s[..i], s[i..])
  }

  ghost predicate Above<T>(compare: (T, T) -> int, lo: seq<T>, hi: seq<T>)
  {
    forall x, y | x in lo && y in hi :: compare(x, y) <= 0
  }

  /** Moving the root to the end of the heap extends the sorted part downward. */
  lemma ExtractMax<T(!new)>(compare: (T, T) -> int, s: seq<T>, i: nat)
    requires TotalPreorder(compare) && PartlySorted(compare, s, i) && 2 <= i <= |s|
    ensures var t := Swapped(s, 1, i);
      && HeapFrom(compare, t, 2, i - 1)
      && Sorted(compare, t[i - 1..]) && Above(compare, t[..i - 1], t[i - 1..])
  {
    hide TotalPreorder;
    var t := Swapped(s, 1, i);
    forall k | 4 <= k <= i - 1 ensures BelowParent(compare, t, k) {
      assert BelowParent(compare, s, k);
      assert t[k - 1] == s[k - 1] && t[k / 2 - 1] == s[k / 2 - 1];
    }
    assert t[i - 1..] == [s[0]] + s[i..];
    assert s[0] in s[..i];
    forall x, y | x in t[..i - 1] && y in t[i - 1..] ensures compare(x, y) <= 0 {
      var k :| 0 <= k < i - 1 && t[k] == x;
      assert x == s[if k == 0 then i - 1 else k];
      assert x in s[..i];
      if y == s[0] {
        RootBounds(compare, s, i, if k == 0 then i else k + 1);
      } else {
        assert y in s[i..];
      }
    }
    ConsSorted(compare, s[0], s[i..]);
  }

  lemma ConsSorted<T>(compare: (T, T) -> int, x: T, s: seq<T>)
    requires Sorted(compare, s) && forall y | y in s :: compare(x, y) <= 0
    ensures Sorted(compare, [x] + s)
  {
    var t := [x] + s;
    forall i, j | 0 <= i < j < |t| ensures compare(t[i], t[j]) <= 0 {
      assert t[j] == s[j - 1] && t[j] in s;
      assert i > 0 ==> t[i] == s[i - 1];
    }
  }

  /** Restoring the heap below the sorted part keeps it below. */
  lemma RestoredBelow<T>(compare: (T, T) -> int, s: seq<T>, t: seq<T>, n: nat)
    requires PermutesFirst(s, t, n) && HeapFrom(compare, t, 1, n)
    requires Sorted(compare, s[n..]) && Above(compare, s[..n], s[n..])
    ensures PartlySorted(compare, t, n)
  {
    forall x, y | x in t[..n] && y in t[n..] ensures compare(x, y) <= 0 {
      assert x in multiset(t[..n]);
      assert x in s[..n];
    }
  }

  /** One round of the second phase: the root goes to position i and the rest becomes a heap again. */
  method Extract<T(!new)>(a: array<T>, i: nat, compare: (T, T) -> int)
    requires TotalPreorder(compare) && 2 <= i <= a.Length && PartlySorted(compare, a[..], i)
    modifies a
    ensures PartlySorted(compare, a[..], i - 1) && PermutesFirst(old(a[..]), a[..], a.Length)
  {
    hide TotalPreorder, HeapFrom, PermutesFirst, PartlySorted, Sorted, Above;
    ghost var s := a[..];
    ExtractMax(compare, s, i);
    SwapPermutes(s, 1, i, |s|);
    DoSwap(a, 1, i);
    ghost var t := a[..];
    Heapify(a, 1, i - 1, compare);
    RestoredBelow(compare, t, a[..], i - 1);
    PermutesWiden(t, a[..], i - 1, |s|);
    PermutesTrans(s, t, a[..], |s|);
  }

  /** sort: heap construction from the last parent down to the root, then repeated extraction. */
  method Sort<T(!new)>(a: array<T>, compare: (T, T) -> int)
    requires TotalPreorder(compare)
    modifies a
    ensures Sorted(compare, a[..])
    ensures multiset(a[..]) == multiset(old(a[..]))
  {
    hide TotalPreorder, HeapFrom, PermutesFirst, PartlySorted, Sorted, Above;
    var cnt := a.Length;
    PermutesSelf(a[..], cnt);
    LeavesAreHeap(compare, a[..], cnt);
    var i: nat := cnt / 2;
    while i > 0
      invariant i <= cnt / 2
      invariant HeapFrom(compare, a[..], i + 1, cnt) && PermutesFirst(old(a[..]), a[..], cnt)
    {
      ghost var s := a[..];
      Heapify(a, i, cnt, compare);
      PermutesTrans(old(a[..]), s, a[..], cnt);
      i := i - 1;
    }
    StartExtracting(compare, a[..]);
    i := cnt;
    while i > 1
      invariant i <= cnt && (cnt > 0 ==> i > 0)
      invariant PartlySorted(compare, a[..], i) && PermutesFirst(old(a[..]), a[..], cnt)
    {
      ghost var s := a[..];
      Extract(a, i, compare);
      PermutesTrans(old(a[..]), s, a[..], cnt);
      i := i - 1;
    }
    AllSorted(compare, a[..], i);
    PermutesAll(old(a[..]), a[..]);
  }

  lemma LeavesAreHeap<T>(compare: (T, T) -> int, s: seq<T>, cnt: nat)
    requires cnt <= |s|
    ensures HeapFrom(compare, s, cnt / 2 + 1, cnt)
  {
  }

  lemma StartExtracting<T>(compare: (T, T) -> int, s: seq<T>)
    requires HeapFrom(compare, s, 1, |s|)
    ensures PartlySorted(compare, s, |s|)
  {
  }

  lemma AllSorted<T>(compare: (T, T) -> int, s: seq<T>, i: nat)
    requires PartlySorted(compare, s, i) && i <= 1
    ensures Sorted(compare, s)
  {
    if i == 1 {
      assert s[0] in s[..1];
      ConsSorted(compare, s[0], s[1..]);
      assert s == [s[0]] + s[1..];
    } else {
      assert s[0..] == s;
    }
  }

  lemma PermutesAll<T>(s: seq<T>, t: seq<T>)
    requires PermutesFirst(s, t, |s|)
    ensures multiset(s) == multiset(t)
  {
    assert s[..|s|] == s && t[..|t|] == t;
  }

  /** binary_search: on a sorted array, a matching element is found exactly when there is one. */
  method BinarySearch<T(!new)>(key: T, a: array<T>, compare: (T, T) -> int) returns (r: int)
    requires TotalPreorder(compare) && Sorted(compare, a[..])
    ensures -1 <= r < a.Length
    ensures r >= 0 ==> compare(key, a[r]) == 0
    ensures r == -1 ==> forall k | 0 <= k < a.Length :: compare(key, a[k]) != 0
  {
    var first, last := 0, a.Length;
    while first < last
      invariant 0 <= first <= last <= a.Length
      invariant forall k | 0 <= k < first :: compare(key, a[k]) > 0
      invariant forall k | last <= k < a.Length :: compare(key, a[k]) < 0
    {
      var range := last - first;
      var middle := first + range / 2;
      var cmp := compare(key, a[middle]);
      if cmp < 0 {
        forall k | middle <= k < a.Length ensures compare(key, a[k]) < 0 {
          assert a[..][middle] == a[middle] && a[..][k] == a[k];
          BelowTransfers(compare, key, a[middle], a[k]);
        }
        last := middle;
      } else if cmp > 0 {
        forall k | 0 <= k <= middle ensures compare(key, a[k]) > 0 {
          assert a[..][middle] == a[middle] && a[..][k] == a[k];
          AboveTransfers(compare, key, a[middle], a[k]);
        }
        first := middle + 1;
      } else {
        return middle;
      }
    }
    r := -1;
  }

  lemma BelowTransfers<T(!new)>(compare: (T, T) -> int, key: T, m: T, y: T)
    requires TotalPreorder(compare) && compare(key, m) < 0 && (compare(m, y) <= 0 || m == y)
    ensures compare(key, y) < 0
  {
    if m != y && compare(key, y) >= 0 {
      Chain(compare, m, y, key);
    }
  }

  lemma AboveTransfers<T(!new)>(compare: (T, T) -> int, key: T, m: T, y: T)
    requires TotalPreorder(compare) && compare(key, m) > 0 && (compare(y, m) <= 0 || m == y)
    ensures compare(key, y) > 0
  {
    if m != y && compare(key, y) <= 0 {
      Chain(compare, key, y, m);
    }
  }
}
