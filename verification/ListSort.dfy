/** list_sort: a natural merge sort that relinks the list in place (src/lib/kernel/list.c:355-450). */
module ListSort {
  import opened Ordering
  import opened SequenceSort
  import opened LinkedList
  import opened MergePass

  /** find_end_of_run: the exclusive end of the maximal nondecreasing run that starts at position
      p, cut off at position n. */
  method FindEndOfRun(ghost l: List, ghost p: nat, ghost n: nat, a: Elem, b: Elem, less: Less)
    returns (e: Elem, ghost q: nat)
    requires l.Valid() && 1 <= p < n < |l.chain| && l.chain[p] == a && l.chain[n] == b
    ensures p < q <= n && l.chain[q] == e
    ensures Descents(less, l.chain[p..q]) == 0
    ensures q < n ==> less(l.chain[q], l.chain[q - 1])
  {
    ghost var c := l.chain;
    e, q := a.next, p + 1;
    assert c[p..p + 1] == [c[p]];
    while e != b && !less(e, e.prev)
      invariant p < q <= n && c[q] == e
      invariant Descents(less, c[p..q]) == 0
      decreases n - q
    {
      assert c[p..q + 1][..q - p] == c[p..q];
      e, q := e.next, q + 1;
    }
  }

  /** A chain during a merge: untouched prefix, merged part, rest of both runs, untouched suffix. */
  ghost function Layout(p: seq<Elem>, d: seq<Elem>, a: seq<Elem>, b: seq<Elem>, r: seq<Elem>): (c: seq<Elem>)
  {
    p + d + a + b + r
  }

  /** A chain `now` in the middle of merging two runs into m: the part d is merged, a and b are
      what is left of the runs, and nothing outside has moved. */
  ghost predicate Merging(less: Less, p: seq<Elem>, m: seq<Elem>, r: seq<Elem>,
                          now: seq<Elem>, d: seq<Elem>, a: seq<Elem>, b: seq<Elem>)
  {
    now == Layout(p, d, a, b, r) && d + Merge(less, a, b) == m
  }

  lemma MergingStart(less: Less, c: seq<Elem>, p: nat, q: nat, r: nat)
    requires p <= q <= r < |c|
    ensures Merging(less, c[..p], Merge(less, c[p..q], c[q..r]), c[r..], c, [], c[p..q], c[q..r])
  {
    assert c == c[..p] + [] + c[p..q] + c[q..r] + c[r..];
    assert [] + Merge(less, c[p..q], c[q..r]) == Merge(less, c[p..q], c[q..r]);
  }

  lemma MergingPositions(less: Less, p: seq<Elem>, m: seq<Elem>, r: seq<Elem>,
                         now: seq<Elem>, d: seq<Elem>, a: seq<Elem>, b: seq<Elem>)
    requires Merging(less, p, m, r, now, d, a, b) && r != []
    ensures |m| == |d| + |a| + |b| && |now| == |p| + |m| + |r| && now[|p| + |m|] == r[0]
    ensures a != [] ==> now[|p| + |d|] == a[0]
    ensures b != [] ==> now[|p| + |d| + |a|] == b[0]
  {
  }

  lemma MergingLeft(less: Less, p: seq<Elem>, m: seq<Elem>, r: seq<Elem>,
                    now: seq<Elem>, d: seq<Elem>, a: seq<Elem>, b: seq<Elem>)
    requires Merging(less, p, m, r, now, d, a, b)
    requires a != [] && b != [] && !less(b[0], a[0])
    ensures Merging(less, p, m, r, now, d + [a[0]], a[1..], b)
  {
    hide Layout, Merge;
    MergeStep(less, d, a, b);
    TakeLeft(p, d, a, b, r);
  }

  lemma MergingRight(less: Less, p: seq<Elem>, m: seq<Elem>, r: seq<Elem>,
                     now: seq<Elem>, d: seq<Elem>, a: seq<Elem>, b: seq<Elem>)
    requires Merging(less, p, m, r, now, d, a, b)
    requires a != [] && b != [] && less(b[0], a[0])
    ensures var u, v := |p| + |d|, |p| + |d| + |a|;
      && v + 1 <= |now| && u <= |Without(now, v, v + 1)|
      && Merging(less, p, m, r, With(Without(now, v, v + 1), u, [b[0]]), d + [b[0]], a, b[1..])
  {
    hide Layout, Merge, Without, With;
    MergeStep(less, d, a, b);
    TakeRight(p, d, a, b, r);
  }

  lemma MergeStep(less: Less, d: seq<Elem>, a: seq<Elem>, b: seq<Elem>)
    requires a != [] && b != []
    ensures d + Merge(less, a, b) ==
      if !less(b[0], a[0]) then d + [a[0]] + Merge(less, a[1..], b) else d + [b[0]] + Merge(less, a, b[1..])
  {
  }

  lemma TakeLeft(p: seq<Elem>, d: seq<Elem>, a: seq<Elem>, b: seq<Elem>, r: seq<Elem>)
    requires a != []
    ensures Layout(p, d, a, b, r) == Layout(p, d + [a[0]], a[1..], b, r)
  {
    assert d + [a[0]] + a[1..] == d + a;
  }

  lemma TakeRight(p: seq<Elem>, d: seq<Elem>, a: seq<Elem>, b: seq<Elem>, r: seq<Elem>)
    requires b != []
    ensures var c, u, v := Layout(p, d, a, b, r), |p| + |d|, |p| + |d| + |a|;
      && v + 1 <= |c| && u <= |Without(c, v, v + 1)|
      && With(Without(c, v, v + 1), u, [b[0]]) == Layout(p, d + [b[0]], a, b[1..], r)
  {
    var x, rest := p + d, b[1..] + r;
    assert Layout(p, d, a, b, r) == (x + a) + [b[0]] + rest;
    DropOne(x + a, b[0], rest);
    assert x + a + rest == x + (a + rest);
    PutAt(x, a + rest, [b[0]]);
    assert x + [b[0]] + (a + rest) == Layout(p, d + [b[0]], a, b[1..], r);
  }

  lemma DropOne(y: seq<Elem>, e: Elem, z: seq<Elem>)
    ensures Without(y + [e] + z, |y|, |y| + 1) == y + z
  {
  }

  lemma PutAt(x: seq<Elem>, z: seq<Elem>, e: seq<Elem>)
    ensures With(x + z, |x|, e) == x + e + z
  {
  }

  lemma MergingDone(less: Less, p: seq<Elem>, m: seq<Elem>, r: seq<Elem>,
                    now: seq<Elem>, d: seq<Elem>, a: seq<Elem>, b: seq<Elem>)
    requires Merging(less, p, m, r, now, d, a, b)
    requires a == [] || b == []
    ensures now == p + m + r
  {
    assert a + b == Merge(less, a, b);
    assert now == p + (d + (a + b)) + r;
  }

  /** Every node of the chain lies in the given set, the memory an algorithm may touch. */
  ghost predicate Within(c: seq<Elem>, nodes: set<Elem>)
  {
    forall i | 0 <= i < |c| :: c[i] in nodes
  }

  /** One node from the right run, at position v, overtakes what is left of the left run. */
  method Overtake(ghost l: List, ghost nodes: set<Elem>, ghost u: nat, ghost v: nat, x: Elem, y: Elem) returns (y': Elem)
    requires l.Valid() && Within(l.chain, nodes)
    requires 1 <= u < v < |l.chain| - 1 && l.chain[u] == x && l.chain[v] == y
    modifies l`chain, nodes
    ensures l.Valid() && Within(l.chain, nodes)
    ensures u <= |Without(old(l.chain), v, v + 1)|
    ensures l.chain == With(Without(old(l.chain), v, v + 1), u, [y])
    ensures |l.chain| == |old(l.chain)| && y' == l.chain[v + 1] && x == l.chain[u + 1]
  {
    hide Linked;
    y' := NextAt(l, v, y);
    var z := PredecessorAt(l, v + 1, y');
    Splice(l, u, l, v, v + 1, x, z, y');
  }

  /** inplace_merge: the runs at [p, q) and [q, r) become their stable merge. */
  method InplaceMerge(ghost l: List, ghost nodes: set<Elem>, ghost p: nat, ghost q: nat, ghost r: nat,
                      a0: Elem, a1b0: Elem, b1: Elem, less: Less)
    requires l.Valid() && Within(l.chain, nodes) && 1 <= p <= q <= r < |l.chain|
    requires l.chain[p] == a0 && l.chain[q] == a1b0 && l.chain[r] == b1
    requires Descents(less, l.chain[p..q]) == 0 && Descents(less, l.chain[q..r]) == 0
    modifies l`chain, nodes
    ensures l.Valid() && Within(l.chain, nodes)
    ensures l.chain == old(l.chain)[..p] + Merge(less, old(l.chain)[p..q], old(l.chain)[q..r]) + old(l.chain)[r..]
  {
    hide Linked, Merging, Merge, Without, With, Descents, Within;
    ghost var c := l.chain;
    ghost var pre, m, post := c[..p], Merge(less, c[p..q], c[q..r]), c[r..];
    ghost var d, a, b: seq<Elem> := [], c[p..q], c[q..r];
    var x, y := a0, a1b0;
    MergingStart(less, c, p, q, r);
    while x != y && y != b1
      invariant l.Valid() && Within(l.chain, nodes)
      invariant Merging(less, pre, m, post, l.chain, d, a, b)
      invariant |l.chain| == |c| && |d| + |a| + |b| == r - p
      invariant x == l.chain[p + |d|] && y == l.chain[p + |d| + |a|] && b1 == l.chain[r]
      decreases |a| + |b|
    {
      MergingPositions(less, pre, m, post, l.chain, d, a, b);
      if !less(y, x) {
        MergingLeft(less, pre, m, post, l.chain, d, a, b);
        x := NextAt(l, p + |d|, x);
        d, a := d + [a[0]], a[1..];
      } else {
        MergingRight(less, pre, m, post, l.chain, d, a, b);
        y := Overtake(l, nodes, p + |d|, p + |d| + |a|, x, y);
        d, b := d + [b[0]], b[1..];
        MergingPositions(less, pre, m, post, l.chain, d, a, b);
      }
    }
    if x == y {
      PositionUnique(l, p + |d|, p + |d| + |a|);
    } else {
      PositionUnique(l, p + |d| + |a|, r);
    }
    MergingDone(less, pre, m, post, l.chain, d, a, b);
  }

  method NextAt(ghost l: List, ghost i: nat, e: Elem) returns (n: Elem)
    requires l.Valid() && i < |l.chain| - 1 && l.chain[i] == e
    ensures n == l.chain[i + 1]
  {
    n := e.next;
  }

  /** The step of a pass, seen on chains: one position further right than on elements. */
  lemma EmitMerged(less: Less, o: seq<Elem>, c: seq<Elem>, c': seq<Elem>, cnt: nat, p: nat, q: nat, r: nat)
    requires StrictWeakOrder(less, Elements(o)) && |c| == |o| + 2 && 1 <= p < q < r < |c|
    requires Passing(less, o, c[1..|c| - 1], p - 1, cnt)
    requires Descents(less, c[p..q]) == 0 && Descents(less, c[q..r]) == 0
    requires less(c[q], c[q - 1]) && (r < |c| - 1 ==> less(c[r], c[r - 1]))
    requires c' == c[..p] + Merge(less, c[p..q], c[q..r]) + c[r..]
    ensures |c'| == |c| && c'[r] == c[r]
    ensures Passing(less, o, c'[1..|c'| - 1], r - 1, cnt + 1)
  {
    hide Passing, Merge, Descents, StrictWeakOrder;
    var t := c[1..|c| - 1];
    InnerSlice(c, p, q);
    InnerSlice(c, q, r);
    PassStep(less, o, t, p - 1, cnt, q - 1, r - 1);
    var m := Merge(less, c[p..q], c[q..r]);
    assert c'[1..|c'| - 1] == t[..p - 1] + m + t[r - 1..];
  }

  lemma InnerSlice(c: seq<Elem>, i: nat, j: nat)
    requires 1 <= i <= j < |c|
    ensures c[1..|c| - 1][i - 1..j - 1] == c[i..j]
  {
    var t, u := c[1..|c| - 1], c[1..|c| - 1][i - 1..j - 1];
    forall k | 0 <= k < j - i ensures u[k] == c[i..j][k] {
      assert u[k] == t[i - 1 + k];
    }
  }

  lemma EmitUnpaired(less: Less, o: seq<Elem>, c: seq<Elem>, cnt: nat, p: nat)
    requires StrictWeakOrder(less, Elements(o)) && |c| == |o| + 2 && 1 <= p < |c| - 1
    requires Passing(less, o, c[1..|c| - 1], p - 1, cnt)
    requires Descents(less, c[p..|c| - 1]) == 0
    ensures PassDone(less, o, c[1..|c| - 1], cnt + 1)
  {
    hide Passing, PassDone, Descents, StrictWeakOrder;
    var t := c[1..|c| - 1];
    InnerSlice(c, p, |c| - 1);
    assert t[p - 1..] == t[p - 1..|t|];
    PassEndUnpaired(less, o, t, p - 1, cnt);
  }

  /** One round of a pass: the run at position p is merged with the next one, or is the last and stays as it is. */
  method MergePair(l: List, ghost nodes: set<Elem>, less: Less, ghost o: seq<Elem>, ghost cnt: nat, ghost p: nat, a0: Elem)
    returns (unpaired: bool, b1: Elem, ghost r: nat)
    requires l.Valid() && Within(l.chain, nodes) && StrictWeakOrder(less, Elements(o))
    requires |l.chain| == |o| + 2 && 1 <= p < |l.chain| - 1 && l.chain[p] == a0
    requires Passing(less, o, l.Elems(), p - 1, cnt)
    modifies l`chain, nodes
    ensures l.Valid() && Within(l.chain, nodes) && |l.chain| == |o| + 2
    ensures unpaired ==> PassDone(less, o, l.Elems(), cnt + 1)
    ensures !unpaired ==> p < r < |l.chain| && l.chain[r] == b1 && Passing(less, o, l.Elems(), r - 1, cnt + 1)
  {
    hide Linked, Within, Passing, PassDone, Descents, Merge, StrictWeakOrder;
    ghost var c := l.chain;
    ghost var n := |c| - 1;
    var a1b0, q := FindEndOfRun(l, p, n, a0, l.tail, less);
    unpaired := a1b0 == l.tail;
    if unpaired {
      PositionUnique(l, q, n);
      EmitUnpaired(less, o, c, cnt, p);
      return true, a1b0, q;
    }
    b1, r := FindEndOfRun(l, q, n, a1b0, l.tail, less);
    MergeRuns(l, nodes, less, o, cnt, p, q, r, a0, a1b0, b1);
  }

  /** Merging two runs that were found takes the pass one run further. */
  method MergeRuns(ghost l: List, ghost nodes: set<Elem>, less: Less, ghost o: seq<Elem>, ghost cnt: nat,
                   ghost p: nat, ghost q: nat, ghost r: nat, a0: Elem, a1b0: Elem, b1: Elem)
    requires l.Valid() && Within(l.chain, nodes) && StrictWeakOrder(less, Elements(o))
    requires |l.chain| == |o| + 2 && 1 <= p < q < r < |l.chain|
    requires l.chain[p] == a0 && l.chain[q] == a1b0 && l.chain[r] == b1
    requires Passing(less, o, l.Elems(), p - 1, cnt)
    requires Descents(less, l.chain[p..q]) == 0 && Descents(less, l.chain[q..r]) == 0
    requires less(l.chain[q], l.chain[q - 1]) && (r < |l.chain| - 1 ==> less(l.chain[r], l.chain[r - 1]))
    modifies l`chain, nodes
    ensures l.Valid() && Within(l.chain, nodes) && |l.chain| == |o| + 2
    ensures l.chain[r] == b1 && Passing(less, o, l.Elems(), r - 1, cnt + 1)
  {
    hide Linked, Within, Passing, Descents, Merge, StrictWeakOrder;
    ghost var c := l.chain;
    InplaceMerge(l, nodes, p, q, r, a0, a1b0, b1, less);
    EmitMerged(less, o, c, l.chain, cnt, p, q, r);
  }

  /** One pass of list_sort: adjacent runs are merged in pairs from front to back. */
  method Pass(l: List, ghost nodes: set<Elem>, less: Less) returns (outputRuns: nat)
    requires l.Valid() && Within(l.chain, nodes) && StrictWeakOrder(less, Elements(l.Elems()))
    modifies l`chain, nodes
    ensures l.Valid() && Within(l.chain, nodes)
    ensures PassDone(less, old(l.Elems()), l.Elems(), outputRuns)
  {
    hide Linked, Within, Passing, PassDone, Descents, StrictWeakOrder;
    ghost var o := l.Elems();
    ghost var p := 1;
    outputRuns := 0;
    PassStart(less, o);
    var a0 := l.Begin();
    while a0 != l.tail
      invariant l.Valid() && Within(l.chain, nodes)
      invariant |l.chain| == |o| + 2 && 1 <= p < |l.chain| && a0 == l.chain[p]
      invariant Passing(less, o, l.Elems(), p - 1, outputRuns)
      decreases |o| + 2 - p
    {
      var unpaired;
      unpaired, a0, p := MergePair(l, nodes, less, o, outputRuns, p, a0);
      outputRuns := outputRuns + 1;
      if unpaired {
        return;
      }
    }
    PositionUnique(l, p, |o| + 1);
    PassEnd(less, o, l.Elems(), outputRuns);
  }

  /** list_sort: passes until one of them emits at most one run. The list ends up over the same
      nodes, sorted, with ties in their original order. */
  method Sort(l: List, less: Less)
    requires l.Valid() && StrictWeakOrder(less, Elements(l.Elems()))
    modifies l`chain, l.chain
    ensures l.Valid() && IsStableSort(less, old(l.Elems()), l.Elems())
  {
    hide Linked, Within, PassDone, Descents, StrictWeakOrder, SameTies, Sorted;
    ghost var o := l.Elems();
    ghost var nodes := Elements(l.chain);
    WithinElements(l.chain);
    var outputRuns := Pass(l, nodes, less);
    PassFacts(less, o, l.Elems(), outputRuns);
    while outputRuns > 1
      invariant l.Valid() && Within(l.chain, nodes)
      invariant multiset(o) == multiset(l.Elems()) && SameTies(less, o, l.Elems())
      invariant outputRuns <= 1 ==> Sorted(less, l.Elems())
      decreases outputRuns > 1, Descents(less, l.Elems())
    {
      ghost var s := l.Elems();
      SameElements(o, s);
      outputRuns := Pass(l, nodes, less);
      PassFacts(less, s, l.Elems(), outputRuns);
      TiesTransitive(less, o, s, l.Elems());
    }
  }

  lemma WithinElements(c: seq<Elem>)
    ensures Within(c, Elements(c))
  {
  }

  lemma PassFacts(less: Less, o: seq<Elem>, t: seq<Elem>, cnt: nat)
    requires PassDone(less, o, t, cnt)
    ensures multiset(o) == multiset(t) && SameTies(less, o, t)
    ensures cnt <= 1 ==> Sorted(less, t)
    ensures cnt > 1 ==> Descents(less, t) < Descents(less, o)
  {
  }
}
