/** One pass of the natural merge sort, on sequences: what it preserves and why the passes end. */
module MergePass {
  import opened Ordering
  import opened SequenceSort

  ghost predicate SameUpToOrder<E>(less: (E, E) -> bool, s: seq<E>, t: seq<E>)
  {
    multiset(s) == multiset(t) && SameTies(less, s, t)
  }

  /** A pass over o that has emitted cnt runs covering positions below k and has reached t:
      the emitted part breaks at most cnt - 1 times, where o broke at least 2 * cnt - 1 times, and
      o breaks again at k. */
  ghost predicate Passing<E>(less: (E, E) -> bool, o: seq<E>, t: seq<E>, k: nat, cnt: nat)
  {
    && SameUpToOrder(less, o, t)
    && |t| == |o| && k <= |o| && t[k..] == o[k..]
    && if cnt == 0 then k == 0
       else
         && k > 0
         && Descents(less, t[..k]) <= cnt - 1
         && Descents(less, o[..k]) >= 2 * cnt - 1
         && (k < |o| ==> less(o[k], o[k - 1]))
  }

  lemma PassStart<E>(less: (E, E) -> bool, o: seq<E>)
    ensures Passing(less, o, o, 0, 0)
  {
  }

  /** Emitting one more run: the runs [k, q) and [q, r) are merged. */
  lemma PassStep<E>(less: (E, E) -> bool, o: seq<E>, t: seq<E>, k: nat, cnt: nat, q: nat, r: nat)
    requires StrictWeakOrder(less, Elements(o)) && Passing(less, o, t, k, cnt)
    requires k < q < r <= |t|
    requires Descents(less, t[k..q]) == 0 && Descents(less, t[q..r]) == 0
    requires less(t[q], t[q - 1]) && (r < |t| ==> less(t[r], t[r - 1]))
    ensures Passing(less, o, t[..k] + Merge(less, t[k..q], t[q..r]) + t[r..], r, cnt + 1)
  {
    hide Class, Merge, Descents, SameUpToOrder;
    var a, b := o[k..q], o[q..r];
    SliceOfSuffix(o, t, k, q, r);
    RunsSorted(less, o, k, q);
    RunsSorted(less, o, q, r);
    StepKeepsTies(less, o, t, k, q, r);
    StepCounts(less, o, t, k, cnt, q, r);
    var m := Merge(less, a, b);
    var u := t[..k] + m + t[r..];
    assert |m| == r - k;
    assert u[..r] == t[..k] + m;
    assert u[r..] == o[r..];
  }

  lemma SliceOfSuffix<E>(o: seq<E>, t: seq<E>, k: nat, q: nat, r: nat)
    requires |t| == |o| && k <= q <= r <= |o| && t[k..] == o[k..]
    ensures t[k..q] == o[k..q] && t[q..r] == o[q..r] && t[r..] == o[r..]
    ensures forall i | k <= i < |o| :: t[i] == o[i]
  {
    forall i | k <= i < |o| ensures t[i] == o[i] {
      assert t[k..][i - k] == o[k..][i - k];
    }
  }

  lemma StepCounts<E>(less: (E, E) -> bool, o: seq<E>, t: seq<E>, k: nat, cnt: nat, q: nat, r: nat)
    requires StrictWeakOrder(less, Elements(o)) && Passing(less, o, t, k, cnt)
    requires k < q < r <= |o| && less(o[q], o[q - 1])
    requires Descents(less, o[k..q]) == 0 && Descents(less, o[q..r]) == 0
    ensures Descents(less, t[..k] + Merge(less, o[k..q], o[q..r])) <= cnt
    ensures Descents(less, o[..r]) >= 2 * cnt + 1
  {
    hide Class, Merge, Descents, SameUpToOrder;
    RunsSorted(less, o, k, q);
    RunsSorted(less, o, q, r);
    StepDescents(less, t[..k], o[k..q], o[q..r], Elements(o));
    OriginalDescents(less, o, k, q, r);
    EmptyDescents(less);
    if k == 0 {
      assert o[..k] == [] && t[..k] == [];
    }
  }

  lemma RunsSorted<E>(less: (E, E) -> bool, o: seq<E>, i: nat, j: nat)
    requires i <= j <= |o| && StrictWeakOrder(less, Elements(o)) && Descents(less, o[i..j]) == 0
    ensures Sorted(less, o[i..j]) && Elements(o[i..j]) <= Elements(o)
  {
    OrderOnSubset(less, Elements(o), Elements(o[i..j]));
    NoDescentsSorted(less, o[i..j]);
  }

  lemma StepKeepsTies<E>(less: (E, E) -> bool, o: seq<E>, t: seq<E>, k: nat, q: nat, r: nat)
    requires StrictWeakOrder(less, Elements(o)) && SameUpToOrder(less, o, t)
    requires k <= q <= r <= |t| && Sorted(less, t[k..q]) && Sorted(less, t[q..r])
    ensures SameUpToOrder(less, o, t[..k] + Merge(less, t[k..q], t[q..r]) + t[r..])
  {
    hide Class, Merge;
    var a, b := t[k..q], t[q..r];
    assert t == t[..k] + (a + b) + t[r..];
    SameElements(o, t);
    MergeInPlace(less, t[..k], a, b, t[r..]);
    TiesTransitive(less, o, t, t[..k] + Merge(less, a, b) + t[r..]);
  }

  /** The merged run adds at most the one break in front of it. */
  lemma StepDescents<E>(less: (E, E) -> bool, p: seq<E>, a: seq<E>, b: seq<E>, dom: set<E>)
    requires StrictWeakOrder(less, dom) && Elements(a) + Elements(b) <= dom
    requires Sorted(less, a) && Sorted(less, b)
    ensures Descents(less, p + Merge(less, a, b)) <= Descents(less, p) + (if p == [] then 0 else 1)
  {
    hide Merge, Descents;
    OrderOnSubset(less, dom, Elements(a) + Elements(b));
    MergeSorted(less, a, b);
    SortedNoDescents(less, Merge(less, a, b));
    DescentsConcat(less, p, Merge(less, a, b));
    EmptyDescents(less);
  }

  lemma EmptyDescents<E>(less: (E, E) -> bool)
    ensures Descents(less, []) == 0
  {
  }

  /** In the original, the pair of runs contributed a break in the middle and one in front. */
  lemma OriginalDescents<E>(less: (E, E) -> bool, o: seq<E>, k: nat, q: nat, r: nat)
    requires k < q < r <= |o| && less(o[q], o[q - 1])
    ensures Descents(less, o[..r]) >= Descents(less, o[..k]) + 1 + (if k > 0 && less(o[k], o[k - 1]) then 1 else 0)
  {
    hide Descents;
    assert o[..q] == o[..k] + o[k..q];
    DescentsConcat(less, o[..k], o[k..q]);
    assert o[..r] == o[..q] + o[q..r];
    DescentsConcat(less, o[..q], o[q..r]);
  }

  /** What a finished pass has achieved: at most one emitted run means sorted, and otherwise the
      number of breaks has strictly dropped. */
  ghost predicate PassDone<E>(less: (E, E) -> bool, o: seq<E>, t: seq<E>, cnt: nat)
  {
    && SameUpToOrder(less, o, t)
    && (cnt <= 1 ==> Sorted(less, t))
    && (cnt > 1 ==> Descents(less, t) < Descents(less, o))
  }

  lemma PassEnd<E>(less: (E, E) -> bool, o: seq<E>, t: seq<E>, cnt: nat)
    requires StrictWeakOrder(less, Elements(o)) && Passing(less, o, t, |o|, cnt)
    ensures PassDone(less, o, t, cnt)
  {
    hide Class;
    assert t[..|o|] == t && o[..|o|] == o;
    SameElements(o, t);
    if cnt <= 1 {
      NoDescentsSorted(less, t);
    }
  }

  /** The pass that ends with an unpaired run, emitted as it is. */
  lemma PassEndUnpaired<E>(less: (E, E) -> bool, o: seq<E>, t: seq<E>, k: nat, cnt: nat)
    requires StrictWeakOrder(less, Elements(o)) && Passing(less, o, t, k, cnt)
    requires k < |t| && Descents(less, t[k..]) == 0
    ensures PassDone(less, o, t, cnt + 1)
  {
    hide Class, Descents;
    assert t == t[..k] + t[k..] && o == o[..k] + o[k..];
    DescentsConcat(less, t[..k], t[k..]);
    DescentsConcat(less, o[..k], o[k..]);
    SameElements(o, t);
    EmptyDescents(less);
    if cnt == 0 {
      assert t[..0] == [];
      NoDescentsSorted(less, t);
    }
  }
}
