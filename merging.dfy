/** The merge of two runs and the top-down merge sort built from it, over any
    element type ordered by an integer key. The program's own array sorts its
    integers with the key Identity; a general key makes the tie-break visible:
    tagging each element with its original position shows that equal keys keep
    their relative order. */
module Merging {
  import opened Ordering

  /** Every element of s satisfies P. */
  ghost predicate All<T>(s: seq<T>, P: T -> bool) {
    forall t :: 0 <= t < |s| ==> P(s[t])
  }

  /** Merge two runs, taking from the left run whenever its head's key is not
      greater than the right run's head's key. */
  function MergeBy<T>(l: seq<T>, r: seq<T>, key: T -> int): (m: seq<T>)
    ensures |m| == |l| + |r|
    decreases |l| + |r|
  {
    if |l| == 0 then r
    else if |r| == 0 then l
    else if key(l[0]) <= key(r[0]) then [l[0]] + MergeBy(l[1..], r, key)
    else [r[0]] + MergeBy(l, r[1..], key)
  }

  /** Split at the midpoint (the left half takes the extra element), sort both
      halves, merge them. */
  function MergeSortBy<T>(s: seq<T>, key: T -> int): (r: seq<T>)
    ensures |r| == |s|
    decreases |s|
  {
    if |s| <= 1 then s
    else
      var h := (|s| + 1) / 2;
      MergeBy(MergeSortBy(s[..h], key), MergeSortBy(s[h..], key), key)
  }

  lemma {:induction false} MergeByPermutation<T>(l: seq<T>, r: seq<T>, key: T -> int)
    ensures multiset(MergeBy(l, r, key)) == multiset(l) + multiset(r)
    decreases |l| + |r|
  {
    if |l| > 0 && |r| > 0 {
      if key(l[0]) <= key(r[0]) {
        MergeByPermutation(l[1..], r, key);
        HeadMultiset(l);
      } else {
        MergeByPermutation(l, r[1..], key);
        HeadMultiset(r);
      }
    }
  }

  /** The elements of a non-empty sequence: its head and those of its tail. */
  lemma HeadMultiset<T>(s: seq<T>)
    requires |s| > 0
    ensures multiset(s) == multiset{s[0]} + multiset(s[1..])
  {
    assert s == [s[0]] + s[1..];
  }

  lemma {:induction false} MergeByAll<T>(l: seq<T>, r: seq<T>, key: T -> int, P: T -> bool)
    requires All(l, P) && All(r, P)
    ensures All(MergeBy(l, r, key), P)
    decreases |l| + |r|
  {
    if |l| > 0 && |r| > 0 {
      if key(l[0]) <= key(r[0]) {
        MergeByAll(l[1..], r, key, P);
      } else {
        MergeByAll(l, r[1..], key, P);
      }
    }
  }

  /** Merging two sorted runs yields a sorted run. */
  lemma {:induction false} MergeBySorted<T>(l: seq<T>, r: seq<T>, key: T -> int)
    requires SortedBy(l, key) && SortedBy(r, key)
    ensures SortedBy(MergeBy(l, r, key), key)
    decreases |l| + |r|
  {
    if |l| > 0 && |r| > 0 {
      var m := MergeBy(l, r, key);
      if key(l[0]) <= key(r[0]) {
        var h := l[0];
        MergeBySorted(l[1..], r, key);
        MergeByAll(l[1..], r, key, x => key(h) <= key(x));
        assert m == [h] + MergeBy(l[1..], r, key);
      } else {
        var h := r[0];
        MergeBySorted(l, r[1..], key);
        MergeByAll(l, r[1..], key, x => key(h) <= key(x));
        assert m == [h] + MergeBy(l, r[1..], key);
      }
    }
  }

  /** Order by key, and among equal keys by strictly increasing tag. */
  ghost predicate LexSorted<T>(s: seq<T>, key: T -> int, tag: T -> int) {
    forall p, q :: 0 <= p < q < |s| ==>
      key(s[p]) < key(s[q]) || (key(s[p]) == key(s[q]) && tag(s[p]) < tag(s[q]))
  }

  ghost predicate LexBelow<T>(h: T, x: T, key: T -> int, tag: T -> int) {
    key(h) < key(x) || (key(h) == key(x) && tag(h) < tag(x))
  }

  /** Stability of the merge: if each run is ordered by key and then by tag, and
      every tag of the left run is below every tag of the right run (the left
      run holds the earlier positions), the merged run is ordered by key and
      then by tag, so elements with equal keys keep their original order. */
  lemma {:induction false} MergeByStable<T>(l: seq<T>, r: seq<T>, key: T -> int, tag: T -> int)
    requires LexSorted(l, key, tag) && LexSorted(r, key, tag)
    requires forall p, q :: 0 <= p < |l| && 0 <= q < |r| ==> tag(l[p]) < tag(r[q])
    ensures LexSorted(MergeBy(l, r, key), key, tag)
    decreases |l| + |r|
  {
    if |l| > 0 && |r| > 0 {
      var m := MergeBy(l, r, key);
      if key(l[0]) <= key(r[0]) {
        var h := l[0];
        MergeByStable(l[1..], r, key, tag);
        assert All(l[1..], x => LexBelow(h, x, key, tag));
        assert All(r, x => LexBelow(h, x, key, tag)) by {
          forall q | 0 <= q < |r| ensures LexBelow(h, r[q], key, tag) {
            if q > 0 { assert key(r[0]) <= key(r[q]); }
          }
        }
        MergeByAll(l[1..], r, key, x => LexBelow(h, x, key, tag));
        assert m == [h] + MergeBy(l[1..], r, key);
      } else {
        var h := r[0];
        MergeByStable(l, r[1..], key, tag);
        assert All(l, x => LexBelow(h, x, key, tag)) by {
          forall p | 0 <= p < |l| ensures LexBelow(h, l[p], key, tag) {
            if p > 0 { assert key(l[0]) <= key(l[p]); }
          }
        }
        assert All(r[1..], x => LexBelow(h, x, key, tag));
        MergeByAll(l, r[1..], key, x => LexBelow(h, x, key, tag));
        assert m == [h] + MergeBy(l, r[1..], key);
      }
    }
  }

  lemma {:induction false} MergeSortByAll<T>(s: seq<T>, key: T -> int, P: T -> bool)
    requires All(s, P)
    ensures All(MergeSortBy(s, key), P)
    decreases |s|
  {
    if |s| > 1 {
      var h := (|s| + 1) / 2;
      MergeSortByAll(s[..h], key, P);
      MergeSortByAll(s[h..], key, P);
      MergeByAll(MergeSortBy(s[..h], key), MergeSortBy(s[h..], key), key, P);
    }
  }

  /** Merge sort returns its input reordered. */
  lemma {:induction false} MergeSortByPermutation<T>(s: seq<T>, key: T -> int)
    ensures multiset(MergeSortBy(s, key)) == multiset(s)
    decreases |s|
  {
    if |s| > 1 {
      var h := (|s| + 1) / 2;
      var lo, hi := s[..h], s[h..];
      MergeSortByPermutation(lo, key);
      MergeSortByPermutation(hi, key);
      MergeByPermutation(MergeSortBy(lo, key), MergeSortBy(hi, key), key);
      SplitMultiset(s, h);
    }
  }

  lemma SplitMultiset<T>(s: seq<T>, h: int)
    requires 0 <= h <= |s|
    ensures multiset(s) == multiset(s[..h]) + multiset(s[h..])
  {
    assert s == s[..h] + s[h..];
  }

  /** Merge sort returns a run ordered by key. */
  lemma {:induction false} MergeSortBySorted<T>(s: seq<T>, key: T -> int)
    ensures SortedBy(MergeSortBy(s, key), key)
    decreases |s|
  {
    if |s| > 1 {
      var h := (|s| + 1) / 2;
      MergeSortBySorted(s[..h], key);
      MergeSortBySorted(s[h..], key);
      MergeBySorted(MergeSortBy(s[..h], key), MergeSortBy(s[h..], key), key);
    }
  }

  /** Stability of merge sort: when the tags increase along the input (the tag
      being, for instance, the original position), the output is ordered by key
      and, among equal keys, by tag. */
  lemma {:induction false} MergeSortByStable<T>(s: seq<T>, key: T -> int, tag: T -> int)
    requires forall p, q :: 0 <= p < q < |s| ==> tag(s[p]) < tag(s[q])
    ensures LexSorted(MergeSortBy(s, key), key, tag)
    decreases |s|
  {
    if |s| > 1 {
      var h := (|s| + 1) / 2;
      var lo, hi := s[..h], s[h..];
      var c := tag(s[h]);
      MergeSortByStable(lo, key, tag);
      MergeSortByStable(hi, key, tag);
      assert All(lo, x => tag(x) < c);
      assert All(hi, x => c <= tag(x)) by {
        forall q | 0 <= q < |hi| ensures c <= tag(hi[q]) {
          if q > 0 { assert tag(s[h]) < tag(s[h + q]); }
        }
      }
      MergeSortByAll(lo, key, x => tag(x) < c);
      MergeSortByAll(hi, key, x => c <= tag(x));
      var a, b := MergeSortBy(lo, key), MergeSortBy(hi, key);
      assert forall p :: 0 <= p < |a| ==> tag(a[p]) < c;
      assert forall q :: 0 <= q < |b| ==> c <= tag(b[q]);
      MergeByStable(a, b, key, tag);
    }
  }

  /** On the program's integers: merging sorted runs gives a sorted permutation. */
  lemma MergeSortedRuns(l: seq<int>, r: seq<int>)
    requires Sorted(l) && Sorted(r)
    ensures Sorted(MergeBy(l, r, Identity))
    ensures multiset(MergeBy(l, r, Identity)) == multiset(l) + multiset(r)
  {
    SortedByIdentity(l);
    SortedByIdentity(r);
    MergeBySorted(l, r, Identity);
    SortedByIdentity(MergeBy(l, r, Identity));
    MergeByPermutation(l, r, Identity);
  }

  /** On the program's integers: merge sort gives a sorted permutation. */
  lemma MergeSortSortsIntegers(s: seq<int>)
    ensures Sorted(MergeSortBy(s, Identity))
    ensures multiset(MergeSortBy(s, Identity)) == multiset(s)
  {
    MergeSortBySorted(s, Identity);
    SortedByIdentity(MergeSortBy(s, Identity));
    MergeSortByPermutation(s, Identity);
  }
}
