/** Order on integer sequences: sortedness, the exchange of two cells and the
    number of inversions, the quantity that bubble sort's swaps use up one at a time. */
module Ordering {

  /** The key under which the integer array of the program is sorted. */
  function Identity(x: int): int { x }

  /** Non-decreasing order. */
  predicate Sorted(s: seq<int>) {
    forall p, q :: 0 <= p < q < |s| ==> s[p] <= s[q]
  }

  /** Non-decreasing order of the keys of a sequence. */
  ghost predicate SortedBy<T>(s: seq<T>, key: T -> int) {
    forall p, q :: 0 <= p < q < |s| ==> key(s[p]) <= key(s[q])
  }

  lemma SortedByIdentity(s: seq<int>)
    ensures SortedBy(s, Identity) <==> Sorted(s)
  {
    if SortedBy(s, Identity) {
      forall p, q | 0 <= p < q < |s| ensures s[p] <= s[q] {
        assert Identity(s[p]) <= Identity(s[q]);
      }
    }
    if Sorted(s) {
      forall p, q | 0 <= p < q < |s| ensures Identity(s[p]) <= Identity(s[q]) {
        assert s[p] <= s[q];
      }
    }
  }

  /** The sequence with the cells at i and j exchanged. */
  function Swapped(s: seq<int>, i: int, j: int): (r: seq<int>)
    requires 0 <= i < |s| && 0 <= j < |s|
    ensures |r| == |s| && r[i] == s[j] && r[j] == s[i]
    ensures forall t :: 0 <= t < |s| && t != i && t != j ==> r[t] == s[t]
    ensures multiset(r) == multiset(s)
  {
    s[i := s[j]][j := s[i]]
  }

  /** How many elements of t are strictly smaller than x. */
  function CountBelow(x: int, t: seq<int>): nat
  {
    if |t| == 0 then 0 else (if t[0] < x then 1 else 0) + CountBelow(x, t[1..])
  }

  /** The number of pairs p < q with s[p] > s[q]: every element counts the later
      elements smaller than itself. */
  function Inversions(s: seq<int>): nat
  {
    if |s| == 0 then 0 else CountBelow(s[0], s[1..]) + Inversions(s[1..])
  }

  /** Exchanging two neighbours does not change how many elements are below x. */
  lemma {:induction false} CountBelowSwap(x: int, t: seq<int>, j: int)
    requires 0 <= j < |t| - 1
    ensures CountBelow(x, Swapped(t, j, j + 1)) == CountBelow(x, t)
  {
    var u := Swapped(t, j, j + 1);
    if j == 0 {
      assert u[1..][1..] == t[1..][1..];
      assert CountBelow(x, u[1..]) == (if t[0] < x then 1 else 0) + CountBelow(x, t[2..]);
      assert CountBelow(x, t[1..]) == (if t[1] < x then 1 else 0) + CountBelow(x, t[2..]);
    } else {
      assert u[1..] == Swapped(t[1..], j - 1, j);
      CountBelowSwap(x, t[1..], j - 1);
    }
  }

  /** Exchanging an inverted pair of neighbours removes exactly one inversion. */
  lemma {:induction false} SwapRemovesOneInversion(s: seq<int>, j: int)
    requires 0 <= j < |s| - 1 && s[j] > s[j + 1]
    ensures Inversions(Swapped(s, j, j + 1)) == Inversions(s) - 1
  {
    var u := Swapped(s, j, j + 1);
    if j == 0 {
      var t := s[2..];
      assert s[1..] == [s[1]] + t && s[1..][1..] == t;
      assert u[1..] == [s[0]] + t && u[1..][1..] == t;
      assert CountBelow(s[0], s[1..]) == 1 + CountBelow(s[0], t);
      assert CountBelow(s[1], u[1..]) == CountBelow(s[1], t);
      assert Inversions(s[1..]) == CountBelow(s[1], t) + Inversions(t);
      assert Inversions(u[1..]) == CountBelow(s[0], t) + Inversions(t);
    } else {
      assert u[0] == s[0];
      assert u[1..] == Swapped(s[1..], j - 1, j);
      CountBelowSwap(s[0], s[1..], j - 1);
      SwapRemovesOneInversion(s[1..], j - 1);
    }
  }

  lemma {:induction false} CountBelowZero(x: int, t: seq<int>)
    ensures CountBelow(x, t) == 0 <==> forall q :: 0 <= q < |t| ==> x <= t[q]
  {
    if |t| > 0 {
      CountBelowZero(x, t[1..]);
      assert forall q :: 1 <= q < |t| ==> t[q] == t[1..][q - 1];
    }
  }

  /** A sequence is sorted exactly when it has no inversions. */
  lemma {:induction false} SortedIffNoInversions(s: seq<int>)
    ensures Sorted(s) <==> Inversions(s) == 0
  {
    if |s| > 0 {
      SortedIffNoInversions(s[1..]);
      CountBelowZero(s[0], s[1..]);
      assert forall q :: 1 <= q < |s| ==> s[q] == s[1..][q - 1];
      if Sorted(s) {
        assert Sorted(s[1..]);
      }
    }
  }
}
