/** The sorting engine: swap, bubble sort, merge and merge sort over an integer
    array sorted in place. The visualization callback that the engine calls
    after every elementary write is modelled as a ghost trace of step events;
    the redraw, the tone and the delay it triggers are not modelled. */
module Sort {
  import opened Ordering
  import opened Merging
  import opened WriteCount

  /** The index passed to the callback when there is no second highlighted cell. */
  const NoIndex: int := -1

  /** One call of the visualization callback: the two highlighted indices. */
  datatype Step = Step(first: int, second: int)

  /** Exchange two cells of the array; nothing else changes. */
  method Swap(a: array<int>, i: int, j: int)
    requires 0 <= i < a.Length && 0 <= j < a.Length
    modifies a
    ensures a[i] == old(a[j]) && a[j] == old(a[i])
    ensures forall t :: 0 <= t < a.Length && t != i && t != j ==> a[t] == old(a[t])
    ensures a[..] == Swapped(old(a[..]), i, j)
  {
    var temp := a[i];
    a[i] := a[j];
    a[j] := temp;
  }

  /** The last |s| - m cells hold the largest elements of s, in order. */
  ghost predicate Settled(s: seq<int>, m: int)
    requires 0 <= m <= |s|
  {
    (forall p, q :: m <= p < q < |s| ==> s[p] <= s[q]) &&
    (forall p, q :: 0 <= p < m <= q < |s| ==> s[p] <= s[q])
  }

  /** s[j] is the largest of s[0..j]. */
  ghost predicate LargestAt(s: seq<int>, j: int)
    requires 0 <= j < |s|
  {
    forall p :: 0 <= p < j ==> s[p] <= s[j]
  }

  /** Every event highlights a pair of neighbours inside an array of the given size. */
  ghost predicate NeighbourSteps(events: seq<Step>, size: int) {
    forall e :: e in events ==> 0 <= e.first && e.second == e.first + 1 && e.second < size
  }

  /** Event e swapped an out-of-order pair of neighbours of s, giving u. */
  ghost predicate SwapOf(s: seq<int>, e: Step, u: seq<int>) {
    && 0 <= e.first && e.second == e.first + 1 && e.second < |s|
    && s[e.first] > s[e.second] && u == Swapped(s, e.first, e.second)
  }

  /** states[t] is the array when event t fires, less its swap: every event
      swapped an out-of-order pair of neighbours of the array before it, and
      the swaps lead from one state to the next. */
  ghost predicate SwapChain(states: seq<seq<int>>, events: seq<Step>) {
    && |states| == |events| + 1
    && forall t :: 0 <= t < |events| ==> SwapOf(states[t], events[t], states[t + 1])
  }

  /** One more swap of an out-of-order pair extends the chain by its event
      and the state it leads to. */
  lemma ChainAppend(states: seq<seq<int>>, e: seq<Step>, s: seq<int>, j: int)
    requires SwapChain(states, e) && states[|e|] == s
    requires 0 <= j && j + 1 < |s| && s[j] > s[j + 1]
    ensures SwapChain(states + [Swapped(s, j, j + 1)], e + [Step(j, j + 1)])
  {
    var ns, ne := states + [Swapped(s, j, j + 1)], e + [Step(j, j + 1)];
    forall t | 0 <= t < |ne|
      ensures SwapOf(ns[t], ne[t], ns[t + 1])
    {
      if t < |e| {
        assert ns[t] == states[t] && ns[t + 1] == states[t + 1] && ne[t] == e[t];
      }
    }
  }

  /** What bubble sort keeps true from the input o to the current array s after
      the events so far: the last |s| - m cells are settled, s holds the
      elements of o, every event swapped neighbours, each event used up one
      inversion, and the states lead by those swaps from o to s. */
  ghost predicate BubbleInv(o: seq<int>, s: seq<int>, states: seq<seq<int>>, events: seq<Step>, m: int) {
    && |s| == |o| && 0 <= m <= |s| && Settled(s, m)
    && multiset(s) == multiset(o)
    && |events| + Inversions(s) == Inversions(o)
    && NeighbourSteps(events, |s|)
    && SwapChain(states, events) && states[0] == o && states[|events|] == s
  }

  /** A comparison of the inner loop that swaps the out-of-order pair at j,
      j + 1 carries the largest element of the unsettled prefix one cell
      further, uses up one inversion and extends the chain of swaps. */
  lemma SwapStep(o: seq<int>, s: seq<int>, t: seq<int>, states: seq<seq<int>>, e: seq<Step>, j: int, m: int)
    requires BubbleInv(o, s, states, e, m) && 0 <= j < m - 1 && LargestAt(s, j) && s[j] > s[j + 1]
    requires t == Swapped(s, j, j + 1)
    ensures BubbleInv(o, t, states + [t], e + [Step(j, j + 1)], m) && LargestAt(t, j + 1)
  {
    SwapSettles(s, j, m);
    SwapRemovesOneInversion(s, j);
    NeighbourAppend(e, j, |s|);
    ChainAppend(states, e, s, j);
  }

  /** Swapping the largest element of the unsettled prefix one cell to the
      right keeps the settled suffix and leaves that element at j + 1. */
  lemma SwapSettles(s: seq<int>, j: int, m: int)
    requires 0 <= j < m - 1 && m <= |s| && Settled(s, m) && LargestAt(s, j) && s[j] > s[j + 1]
    ensures Settled(Swapped(s, j, j + 1), m) && LargestAt(Swapped(s, j, j + 1), j + 1)
  {
  }

  /** A swap of neighbours inside the array adds a neighbour event. */
  lemma NeighbourAppend(e: seq<Step>, j: int, n: int)
    requires NeighbourSteps(e, n) && 0 <= j && j + 1 < n
    ensures NeighbourSteps(e + [Step(j, j + 1)], n)
  {
  }

  /** A comparison that finds the pair at j, j + 1 in order changes nothing
      and carries the largest element of the unsettled prefix one cell further. */
  lemma KeepStep(o: seq<int>, s: seq<int>, states: seq<seq<int>>, e: seq<Step>, j: int, m: int)
    requires BubbleInv(o, s, states, e, m) && 0 <= j < m - 1 && LargestAt(s, j) && s[j] <= s[j + 1]
    ensures LargestAt(s, j + 1)
  {
  }

  /** At the end of a pass the largest unsettled element sits at m - 1. */
  lemma PassDone(o: seq<int>, s: seq<int>, states: seq<seq<int>>, e: seq<Step>, m: int)
    requires BubbleInv(o, s, states, e, m) && 1 <= m && LargestAt(s, m - 1)
    ensures BubbleInv(o, s, states, e, m - 1)
  {
  }

  /** When every cell is settled, the array is sorted and the events number
      the inversions of the input. */
  lemma BubbleDone(o: seq<int>, s: seq<int>, states: seq<seq<int>>, e: seq<Step>)
    requires BubbleInv(o, s, states, e, 0)
    ensures Sorted(s) && |e| == Inversions(o) && (Sorted(o) ==> e == [])
  {
    SortedIffNoInversions(s);
    SortedIffNoInversions(o);
  }

  /** One pass of the inner loop over the unsettled prefix a[0..m - 1]: the
      events and states of earlier passes are kept, and the pass adds one
      event and one state per swap. */
  method BubblePass(a: array<int>, m: int, ghost o: seq<int>, ghost states0: seq<seq<int>>, ghost e0: seq<Step>)
    returns (ghost states: seq<seq<int>>, ghost events: seq<Step>)
    requires 1 <= m && BubbleInv(o, a[..], states0, e0, m)
    modifies a
    ensures BubbleInv(o, a[..], states, events, m - 1)
    ensures e0 <= events && states0 <= states
  {
    states, events := states0, e0;
    var j := 0;
    while j < m - 1
      invariant 0 <= j <= m - 1
      invariant BubbleInv(o, a[..], states, events, m) && LargestAt(a[..], j)
      invariant e0 <= events && states0 <= states
    {
      ghost var before := a[..];
      if a[j] > a[j + 1] {
        Swap(a, j, j + 1);
        SwapStep(o, before, a[..], states, events, j, m);
        states, events := states + [a[..]], events + [Step(j, j + 1)];
      } else {
        KeepStep(o, before, states, events, j, m);
      }
      j := j + 1;
    }
    PassDone(o, a[..], states, events, m);
  }

  /** Bubble sort of the whole array, one step event (j, j + 1) after each swap
      of an out-of-order neighbour pair. The states are the array before each
      event and after the last: each event swapped an out-of-order pair of
      the state before it, giving the next state. Every swap removes one
      inversion, so the number of events is the number of inversions of the
      input, and an input already sorted produces none. */
  method BubbleSort(a: array<int>) returns (ghost states: seq<seq<int>>, ghost events: seq<Step>)
    modifies a
    ensures Sorted(a[..])
    ensures multiset(a[..]) == multiset(old(a[..]))
    ensures |events| == Inversions(old(a[..]))
    ensures Sorted(old(a[..])) ==> events == []
    ensures forall e :: e in events ==> 0 <= e.first && e.second == e.first + 1 && e.second < a.Length
    ensures SwapChain(states, events) && states[0] == old(a[..]) && states[|events|] == a[..]
  {
    ghost var o := a[..];
    var size := a.Length;
    states, events := [o], [];
    var i := 0;
    while i < size - 1
      invariant 0 <= i && (i <= size - 1 || i == 0)
      invariant BubbleInv(o, a[..], states, events, size - i)
    {
      states, events := BubblePass(a, size - i, o, states, events);
      i := i + 1;
    }
    if size > 0 {
      PassDone(o, a[..], states, events, 1);
    }
    BubbleDone(o, a[..], states, events);
  }

  /** The next element of a merge in progress: the head of the left rest when
      it is not greater than the head of the right rest, else the right head. */
  lemma MergeAdvance(l: seq<int>, r: seq<int>, i: int, j: int)
    requires 0 <= i < |l| && 0 <= j < |r|
    ensures l[i] <= r[j] ==> MergeBy(l[i..], r[j..], Identity) == [l[i]] + MergeBy(l[i + 1..], r[j..], Identity)
    ensures l[i] > r[j] ==> MergeBy(l[i..], r[j..], Identity) == [r[j]] + MergeBy(l[i..], r[j + 1..], Identity)
  {
    assert l[i..][1..] == l[i + 1..];
    assert r[j..][1..] == r[j + 1..];
  }

  /** The rest of a merge after its next element. */
  lemma MergeTail(m: seq<int>, t: int, v: int, x: seq<int>)
    requires 0 <= t < |m| && m[t..] == [v] + x
    ensures m[t] == v && m[t + 1..] == x
  {
    assert m[t..][1..] == m[t + 1..];
  }

  /** The next element of a merge in progress, and what remains after it: the
      head of the left rest when it is not greater than the head of the right
      rest, else the right head. */
  lemma HeadNext(l: seq<int>, r: seq<int>, m: seq<int>, i: int, j: int, t: int)
    requires 0 <= i < |l| && 0 <= j < |r| && 0 <= t < |m|
    requires MergeBy(l[i..], r[j..], Identity) == m[t..]
    ensures l[i] <= r[j] ==> m[t] == l[i] && MergeBy(l[i + 1..], r[j..], Identity) == m[t + 1..]
    ensures l[i] > r[j] ==> m[t] == r[j] && MergeBy(l[i..], r[j + 1..], Identity) == m[t + 1..]
  {
    MergeAdvance(l, r, i, j);
    if l[i] <= r[j] {
      MergeTail(m, t, l[i], MergeBy(l[i + 1..], r[j..], Identity));
    } else {
      MergeTail(m, t, r[j], MergeBy(l[i..], r[j + 1..], Identity));
    }
  }

  /** Writing the next element of the merge at the end of the part written so
      far extends that part and its run of events by one. */
  lemma HeadWritten(o: seq<int>, left: int, m: seq<int>, n: int, before: seq<int>, after: seq<int>, events: seq<Step>)
    requires 0 <= left && 0 <= n < |m| && left + n < |o|
    requires before == Spliced(o, left, m[..n])
    requires |after| == |before| && after[left + n] == m[n]
    requires forall t :: 0 <= t < |after| && t != left + n ==> after[t] == before[t]
    requires |events| == n + 1 && events[..n] == Writes(left, n) && events[n] == Step(left + n, NoIndex)
    ensures after == Spliced(o, left, m[..n + 1])
    ensures events == Writes(left, n + 1)
  {
    assert after == before[left + n := m[n]];
    SpliceExtend(o, left, m[..n], m[n]);
    PrefixStep(m, n);
    WritesStep(left, n);
    assert events == events[..n] + [events[n]];
  }

  /** Once one run is used up, the merge copies the rest of the other. */
  lemma MergeDrain(l: seq<int>, r: seq<int>, i: int, j: int)
    requires 0 <= i <= |l| && 0 <= j <= |r| && (i == |l| || j == |r|)
    ensures i == |l| ==> MergeBy(l[i..], r[j..], Identity) == r[j..]
    ensures j == |r| ==> MergeBy(l[i..], r[j..], Identity) == l[i..]
  {
  }

  /** The step events of n consecutive writes of the merge, at cells from,
      from + 1, ..., from + n - 1, in that order; none highlights a second cell. */
  function Writes(from: int, n: nat): (w: seq<Step>)
    ensures |w| == n
  {
    seq(n, t => Step(from + t, NoIndex))
  }

  /** One more write extends the run by its event. */
  lemma WritesStep(from: int, n: nat)
    ensures Writes(from, n) + [Step(from + n, NoIndex)] == Writes(from, n + 1)
  {
    var w := Writes(from, n) + [Step(from + n, NoIndex)];
    assert forall t :: 0 <= t < n + 1 ==> w[t] == Writes(from, n + 1)[t];
  }

  /** Two runs of writes, the second starting where the first ends, make one run. */
  lemma WritesJoin(e1: seq<Step>, e2: seq<Step>, from: int, k: int, x: nat, y: nat, n: nat)
    requires e1 == Writes(from, x) && e2 == Writes(k, y)
    requires k == from + x && n == x + y
    ensures e1 + e2 == Writes(from, n)
  {
    var e := e1 + e2;
    forall t | 0 <= t < n
      ensures e[t] == Writes(from, n)[t]
    {
      if t < x {
        assert e[t] == e1[t];
      } else {
        assert e[t] == e2[t - x];
      }
    }
  }

  /** Copy n cells of a, starting at from, into a fresh array: the temporaries
      L and R of the merge. */
  method CopyRun(a: array<int>, from: int, n: int, ghost s: seq<int>) returns (T: array<int>)
    requires a[..] == s && 0 <= from && 0 <= n && from + n <= |s|
    ensures fresh(T) && T[..] == s[from..from + n] && a[..] == s
  {
    T := new int[n];
    for t := 0 to n
      modifies T
      invariant forall p :: 0 <= p < t ==> T[p] == a[from + p]
    {
      T[t] := a[from + t];
    }
  }

  /** s with the cells at..at + |x| - 1 overwritten by x. */
  function Spliced(s: seq<int>, at: int, x: seq<int>): (r: seq<int>)
    requires 0 <= at && at + |x| <= |s|
    ensures |r| == |s|
  {
    s[..at] + x + s[at + |x|..]
  }

  /** Writing v just after the spliced part extends the splice by v. */
  lemma SpliceExtend(s: seq<int>, at: int, x: seq<int>, v: int)
    requires 0 <= at && at + |x| < |s|
    ensures Spliced(s, at, x)[at + |x| := v] == Spliced(s, at, x + [v])
  {
    var u := Spliced(s, at, x)[at + |x| := v];
    assert forall t :: 0 <= t < |s| ==> u[t] == Spliced(s, at, x + [v])[t];
  }

  /** Two splices, the second starting where the first ends, are one splice. */
  lemma SpliceTwice(s: seq<int>, at: int, x: seq<int>, y: seq<int>)
    requires 0 <= at && at + |x| + |y| <= |s|
    ensures Spliced(Spliced(s, at, x), at + |x|, y) == Spliced(s, at, x + y)
  {
    var u := Spliced(Spliced(s, at, x), at + |x|, y);
    assert forall t :: 0 <= t < |s| ==> u[t] == Spliced(s, at, x + y)[t];
  }

  /** The spliced part, and what is left of s on either side of it. */
  lemma SpliceParts(s: seq<int>, at: int, x: seq<int>)
    requires 0 <= at && at + |x| <= |s|
    ensures Spliced(s, at, x)[at..at + |x|] == x
    ensures Spliced(s, at, x)[..at] == s[..at] && Spliced(s, at, x)[at + |x|..] == s[at + |x|..]
  {
  }

  /** A prefix followed by the next element is the longer prefix. */
  lemma PrefixStep(m: seq<int>, n: int)
    requires 0 <= n < |m|
    ensures m[..n] + [m[n]] == m[..n + 1]
  {
  }

  /** One pass of the first loop of the merge: the smaller head of the two
      runs (the left one on ties) goes to a[left + i + j], and the run it came
      from advances. */
  method MergeHead(a: array<int>, L: array<int>, R: array<int>, left: int, ghost l: seq<int>, ghost r: seq<int>,
                   ghost o: seq<int>, ghost merged: seq<int>, i0: int, j0: int, k: int, ghost events0: seq<Step>)
    returns (i: int, j: int, ghost events: seq<Step>)
    requires a != L && a != R && L[..] == l && R[..] == r
    requires 0 <= i0 < |l| && 0 <= j0 < |r| && 0 <= left && left + |l| + |r| <= a.Length && k == left + i0 + j0
    requires |merged| == |l| + |r| && |o| == a.Length
    requires a[..] == Spliced(o, left, merged[..i0 + j0])
    requires MergeBy(l[i0..], r[j0..], Identity) == merged[i0 + j0..]
    requires events0 == Writes(left, i0 + j0)
    modifies a
    ensures i + j == i0 + j0 + 1 && i0 <= i <= |l| && j0 <= j <= |r|
    ensures a[..] == Spliced(o, left, merged[..i + j])
    ensures MergeBy(l[i..], r[j..], Identity) == merged[i + j..]
    ensures events == Writes(left, i + j)
  {
    ghost var before := a[..];
    HeadNext(l, r, merged, i0, j0, i0 + j0);
    var v;
    i, j := i0, j0;
    if L[i] <= R[j] {
      v := L[i];
      i := i + 1;
    } else {
      v := R[j];
      j := j + 1;
    }
    a[k] := v;
    events := events0 + [Step(k, NoIndex)];
    HeadWritten(o, left, merged, i0 + j0, before, a[..], events);
  }

  /** The first loop of the merge: while both runs have elements left, write
      the smaller head (the left one on ties) to a[k]. On exit one run is used
      up, the merge so far fills a[left..left + i + j - 1], the rest of the
      array is as it was, and what remains to be written is the merge of the
      two rests. */
  method MergeHeads(a: array<int>, L: array<int>, R: array<int>, left: int, ghost l: seq<int>, ghost r: seq<int>)
    returns (i: int, j: int, ghost events: seq<Step>)
    requires a != L && a != R && L[..] == l && R[..] == r
    requires 0 <= left && left + |l| + |r| <= a.Length
    modifies a
    ensures 0 <= i <= |l| && 0 <= j <= |r| && (i == |l| || j == |r|)
    ensures a[..] == Spliced(old(a[..]), left, MergeBy(l, r, Identity)[..i + j])
    ensures MergeBy(l[i..], r[j..], Identity) == MergeBy(l, r, Identity)[i + j..]
    ensures events == Writes(left, i + j)
  {
    ghost var o := a[..];
    ghost var merged := MergeBy(l, r, Identity);
    var k := left;
    i, j := 0, 0;
    events := [];
    while i < L.Length && j < R.Length
      invariant 0 <= i <= L.Length && 0 <= j <= R.Length && k == left + i + j
      invariant a[..] == Spliced(o, left, merged[..i + j])
      invariant MergeBy(l[i..], r[j..], Identity) == merged[i + j..]
      invariant events == Writes(left, i + j)
    {
      i, j, events := MergeHead(a, L, R, left, l, r, o, merged, i, j, k, events);
      k := k + 1;
    }
  }

  /** The array between two writes of the merge need not hold the elements it
      started with: merging the runs [4] and [2] of the array [4, 2] first
      writes 2 over the 4, and the callback then sees [2, 2]. */
  lemma MergeMidWrite()
    ensures var o := [4, 2];
      var a1 := Spliced(o, 0, MergeBy([4], [2], Identity)[..1]);
      a1 == [2, 2] && multiset(a1) != multiset(o)
  {
    var o := [4, 2];
    assert MergeBy([4], [2], Identity) == [2, 4];
    assert multiset(o)[4] == 1;
  }

  /** The second and the third loop of the merge: copy the rest T[i..] of a run
      to a[k..], one step event per write; the rest of the array is as it was. */
  method Drain(a: array<int>, T: array<int>, i: int, k: int, ghost s: seq<int>) returns (ghost events: seq<Step>)
    requires a != T && T[..] == s
    requires 0 <= i <= |s| && 0 <= k && k + |s| - i <= a.Length
    modifies a
    ensures a[..] == Spliced(old(a[..]), k, s[i..])
    ensures events == Writes(k, |s| - i)
  {
    ghost var o := a[..];
    var p, q := i, k;
    events := [];
    while p < T.Length
      invariant i <= p <= T.Length && q == k + p - i
      invariant a[..] == Spliced(o, k, s[i..p])
      invariant events == Writes(k, q - k)
    {
      ghost var before := a[..];
      a[q] := T[p];
      assert a[..] == before[q := s[p]];
      SpliceExtend(o, k, s[i..p], s[p]);
      assert s[i..p] + [s[p]] == s[i..p + 1];
      WritesStep(k, q - k);
      events := events + [Step(q, NoIndex)];
      p := p + 1;
      q := q + 1;
    }
    assert s[i..p] == s[i..];
  }

  /** Once one run is used up, the rest of the merge is the rest of the other. */
  lemma MergeFinish(l: seq<int>, r: seq<int>, i: int, j: int)
    requires 0 <= i <= |l| && 0 <= j <= |r| && (i == |l| || j == |r|)
    ensures MergeBy(l[i..], r[j..], Identity) == l[i..] + r[j..]
  {
    MergeDrain(l, r, i, j);
    if i == |l| {
      assert l[i..] + r[j..] == r[j..];
    } else {
      assert l[i..] + r[j..] == l[i..];
    }
  }

  /** Writing the first h elements of m from cell at on, then the rest x of m
      after them, writes m from cell at on. */
  lemma SpliceInTwo(o: seq<int>, a1: seq<int>, a2: seq<int>, m: seq<int>, x: seq<int>, at: int, h: int)
    requires 0 <= at && 0 <= h <= |m| && at + |m| <= |o|
    requires a1 == Spliced(o, at, m[..h]) && m[h..] == x
    requires a2 == Spliced(a1, at + h, x)
    ensures a2 == Spliced(o, at, m)
  {
    SpliceTwice(o, at, m[..h], m[h..]);
    assert m[..h] + m[h..] == m;
  }

  /** The second and the third loop of the merge: the rest of the left run,
      then the rest of the right run, written from cell k on. */
  method MergeRest(a: array<int>, L: array<int>, R: array<int>, i: int, j: int, k: int, ghost l: seq<int>, ghost r: seq<int>)
    returns (ghost events: seq<Step>)
    requires a != L && a != R && L[..] == l && R[..] == r
    requires 0 <= i <= |l| && 0 <= j <= |r|
    requires 0 <= k && k + (|l| - i) + (|r| - j) <= a.Length
    modifies a
    ensures a[..] == Spliced(old(a[..]), k, l[i..] + r[j..])
    ensures events == Writes(k, (|l| - i) + (|r| - j))
  {
    ghost var o := a[..];
    ghost var e1 := Drain(a, L, i, k, l);
    var k2 := k + (L.Length - i);
    ghost var e2 := Drain(a, R, j, k2, r);
    events := e1 + e2;
    SpliceTwice(o, k, l[i..], r[j..]);
    WritesJoin(e1, e2, k, k2, |l| - i, |r| - j, (|l| - i) + (|r| - j));
  }

  /** The three loops of the merge together: the merge of l and r, the
      contents of L and R, is written from cell left on. */
  method MergeInto(a: array<int>, L: array<int>, R: array<int>, left: int, ghost l: seq<int>, ghost r: seq<int>)
    returns (ghost events: seq<Step>)
    requires a != L && a != R && L[..] == l && R[..] == r
    requires 0 <= left && left + |l| + |r| <= a.Length
    modifies a
    ensures a[..] == Spliced(old(a[..]), left, MergeBy(l, r, Identity))
    ensures events == Writes(left, |l| + |r|)
  {
    ghost var o := a[..];
    var i, j, e1 := MergeHeads(a, L, R, left, l, r);
    ghost var a1 := a[..];
    var k := left + i + j;
    ghost var e2 := MergeRest(a, L, R, i, j, k, l, r);
    MergeJoined(o, a1, a[..], l, r, i, j, left, MergeBy(l, r, Identity));
    WritesJoin(e1, e2, left, k, i + j, (|l| - i) + (|r| - j), |l| + |r|);
    events := e1 + e2;
  }

  /** The part of the merge written by the first loop, followed by the rest of
      the runs written by the other two, is the whole merge. */
  lemma MergeJoined(o: seq<int>, a1: seq<int>, a2: seq<int>, l: seq<int>, r: seq<int>, i: int, j: int, left: int, m: seq<int>)
    requires 0 <= left && left + |l| + |r| <= |o| && |m| == |l| + |r|
    requires 0 <= i <= |l| && 0 <= j <= |r| && (i == |l| || j == |r|)
    requires a1 == Spliced(o, left, m[..i + j])
    requires MergeBy(l[i..], r[j..], Identity) == m[i + j..]
    requires a2 == Spliced(a1, left + i + j, l[i..] + r[j..])
    ensures a2 == Spliced(o, left, m)
  {
    var x := l[i..] + r[j..];
    assert m[i + j..] == x by {
      MergeFinish(l, r, i, j);
    }
    SpliceInTwo(o, a1, a2, m, x, left, i + j);
  }

  /** Merge the runs a[left..mid] and a[mid+1..right] (inclusive bounds) through
      the copies L and R, taking from L on ties: the range becomes the merge of
      the two old runs and the rest of the array is as it was; one step event
      (k, none) after each write of a[k], for k = left, left + 1, ..., right in
      that order. */
  method Merge(a: array<int>, left: int, mid: int, right: int) returns (ghost events: seq<Step>)
    requires 0 <= left <= mid + 1 <= right + 1 <= a.Length
    modifies a
    ensures var o := old(a[..]);
      a[..] == Spliced(o, left, MergeBy(o[left..mid + 1], o[mid + 1..right + 1], Identity))
    ensures events == Writes(left, right - left + 1)
  {
    ghost var o := a[..];
    var n1 := mid - left + 1;
    var n2 := right - mid;
    var L := CopyRun(a, left, n1, o);
    var R := CopyRun(a, mid + 1, n2, o);
    events := MergeInto(a, L, R, left, o[left..mid + 1], o[mid + 1..right + 1]);
  }

  /** On the program's integers: merging two sorted runs of the array yields a
      sorted range holding the same elements. */
  lemma MergeRange(o: seq<int>, left: int, mid: int, right: int)
    requires 0 <= left <= mid + 1 <= right + 1 <= |o|
    requires Sorted(o[left..mid + 1]) && Sorted(o[mid + 1..right + 1])
    ensures var m := MergeBy(o[left..mid + 1], o[mid + 1..right + 1], Identity);
      Sorted(m) && multiset(m) == multiset(o[left..right + 1])
  {
    assert o[left..right + 1] == o[left..mid + 1] + o[mid + 1..right + 1];
    MergeSortedRuns(o[left..mid + 1], o[mid + 1..right + 1]);
  }

  /** The split point of a range of at least two elements: it lies inside the
      range and leaves ceil(n / 2) elements on the left, so both halves are
      non-empty and strictly shorter than the range. */
  function Midpoint(left: int, right: int): (mid: int)
    requires left < right
    ensures left <= mid < right
    ensures right - mid <= mid - left + 1 <= right - mid + 1
  {
    left + (right - left) / 2
  }

  /** The step events of merge sort of a[left..right]: those of the left half,
      those of the right half, then one per write of the merge. */
  ghost function MergeSortTrace(left: int, right: int): seq<Step>
    decreases right - left
  {
    if left >= right then []
    else
      var mid := Midpoint(left, right);
      MergeSortTrace(left, mid) + MergeSortTrace(mid + 1, right) + Writes(left, right - left + 1)
  }

  /** One level of the trace, with the split point named. */
  lemma MergeSortTraceSplit(left: int, mid: int, right: int)
    requires left < right && mid == Midpoint(left, right)
    ensures MergeSortTrace(left, right) == MergeSortTrace(left, mid) + MergeSortTrace(mid + 1, right) + Writes(left, right - left + 1)
  {
  }

  /** The events of both halves followed by those of the merge are the events
      of the range. */
  lemma MergeSortTraceJoin(left: int, mid: int, right: int, e1: seq<Step>, e2: seq<Step>, e3: seq<Step>)
    requires left < right && mid == Midpoint(left, right)
    requires e1 == MergeSortTrace(left, mid) && e2 == MergeSortTrace(mid + 1, right)
    requires e3 == Writes(left, right - left + 1)
    ensures e1 + e2 + e3 == MergeSortTrace(left, right)
  {
    MergeSortTraceSplit(left, mid, right);
  }

  /** Merge sort of a range of n >= 1 elements emits MergeSortWrites(n) events. */
  lemma {:induction false} MergeSortTraceLength(left: int, right: int, n: nat)
    requires n >= 1 && n == right - left + 1
    ensures |MergeSortTrace(left, right)| == MergeSortWrites(n)
    decreases n
  {
    if n > 1 {
      var mid := Midpoint(left, right);
      var c, f := mid - left + 1, right - mid;
      MergeSortTraceSplit(left, mid, right);
      MergeSortTraceLength(left, mid, c);
      MergeSortTraceLength(mid + 1, right, f);
      MergeSortWritesSplit(n, c, f);
    }
  }

  /** Each write event names a cell of the written run and no second cell. */
  lemma WritesCells(from: int, n: nat)
    ensures forall e :: e in Writes(from, n) ==> e.second == NoIndex && from <= e.first < from + n
  {
    forall e | e in Writes(from, n)
      ensures e.second == NoIndex && from <= e.first < from + n
    {
      var t :| 0 <= t < n && Writes(from, n)[t] == e;
    }
  }

  /** Every event of merge sort of a[left..right] highlights a cell of the range
      and no second cell. */
  lemma {:induction false} MergeSortTraceCells(left: int, right: int)
    ensures forall e :: e in MergeSortTrace(left, right) ==> e.second == NoIndex && left <= e.first <= right
    decreases right - left
  {
    if left < right {
      var mid := Midpoint(left, right);
      MergeSortTraceSplit(left, mid, right);
      MergeSortTraceCells(left, mid);
      MergeSortTraceCells(mid + 1, right);
      WritesCells(left, right - left + 1);
    }
  }

  /** The cells lo..hi - 1 of s are sorted and hold the elements they held in
      o, and every other cell of s is as in o. */
  ghost predicate SortedRangeOf(o: seq<int>, s: seq<int>, lo: int, hi: int) {
    && |s| == |o| && 0 <= lo <= hi <= |o|
    && Sorted(s[lo..hi]) && multiset(s[lo..hi]) == multiset(o[lo..hi])
    && s[..lo] == o[..lo] && s[hi..] == o[hi..]
  }

  /** After the call on one half, that half is sorted, a half of one element
      included. */
  lemma HalfSorted(o: seq<int>, a1: seq<int>, lo: int, hi: int)
    requires 0 <= lo <= hi < |o|
    requires lo < hi ==> SortedRangeOf(o, a1, lo, hi + 1)
    requires lo >= hi ==> a1 == o
    ensures SortedRangeOf(o, a1, lo, hi + 1)
  {
  }

  /** How the three calls of one level of merge sort compose, stated on the
      array contents before the level (o), after each half (a1, a2) and after
      the merge (a3): the range ends up sorted with the same elements, the
      rest as it was. */
  lemma MergeSortLevel(o: seq<int>, a1: seq<int>, a2: seq<int>, a3: seq<int>, left: int, mid: int, right: int)
    requires 0 <= left <= mid < right < |o|
    requires SortedRangeOf(o, a1, left, mid + 1)
    requires SortedRangeOf(a1, a2, mid + 1, right + 1)
    requires a3 == Spliced(a2, left, MergeBy(a2[left..mid + 1], a2[mid + 1..right + 1], Identity))
    ensures SortedRangeOf(o, a3, left, right + 1)
  {
    LevelHalves(o, a1, a2, left, mid, right);
    MergeRange(a2, left, mid, right);
    LevelSplice(o, a2, a3, MergeBy(a2[left..mid + 1], a2[mid + 1..right + 1], Identity), left, right);
  }

  /** After both halves: each half is sorted, the range holds its old
      elements, and the rest of the array is as it was. */
  lemma LevelHalves(o: seq<int>, a1: seq<int>, a2: seq<int>, left: int, mid: int, right: int)
    requires 0 <= left <= mid < right < |o|
    requires SortedRangeOf(o, a1, left, mid + 1)
    requires SortedRangeOf(a1, a2, mid + 1, right + 1)
    ensures Sorted(a2[left..mid + 1]) && Sorted(a2[mid + 1..right + 1])
    ensures multiset(a2[left..right + 1]) == multiset(o[left..right + 1])
    ensures a2[..left] == o[..left] && a2[right + 1..] == o[right + 1..]
  {
    PrefixSlice(a2, a1, left, mid + 1);
    SuffixSlice(a1, o, mid + 1, right + 1);
    SplitRange(a2, left, mid + 1, right + 1);
    SplitRange(o, left, mid + 1, right + 1);
  }

  /** Writing a sorted rearrangement m of the range over it leaves the range
      sorted with its old elements. */
  lemma LevelSplice(o: seq<int>, a2: seq<int>, a3: seq<int>, m: seq<int>, left: int, right: int)
    requires 0 <= left <= right < |o| == |a2| && |m| == right - left + 1
    requires Sorted(m) && multiset(m) == multiset(a2[left..right + 1])
    requires multiset(a2[left..right + 1]) == multiset(o[left..right + 1])
    requires a2[..left] == o[..left] && a2[right + 1..] == o[right + 1..]
    requires a3 == Spliced(a2, left, m)
    ensures SortedRangeOf(o, a3, left, right + 1)
  {
    SpliceParts(a2, left, m);
  }

  /** The elements of a range are those of its two parts. */
  lemma SplitRange(s: seq<int>, lo: int, k: int, hi: int)
    requires 0 <= lo <= k <= hi <= |s|
    ensures multiset(s[lo..hi]) == multiset(s[lo..k]) + multiset(s[k..hi])
  {
    assert s[lo..hi] == s[lo..k] + s[k..hi];
  }

  /** Two sequences that agree on a prefix agree on every slice inside it. */
  lemma PrefixSlice(x: seq<int>, y: seq<int>, i: int, j: int)
    requires 0 <= i <= j <= |x| && j <= |y| && x[..j] == y[..j]
    ensures x[i..j] == y[i..j] && x[..i] == y[..i]
  {
    assert x[i..j] == x[..j][i..] && y[i..j] == y[..j][i..];
    assert x[..i] == x[..j][..i] && y[..i] == y[..j][..i];
  }

  /** Two sequences that agree on a suffix agree on every slice inside it. */
  lemma SuffixSlice(x: seq<int>, y: seq<int>, i: int, j: int)
    requires 0 <= i <= j <= |x| && |x| == |y| && x[i..] == y[i..]
    ensures x[i..j] == y[i..j] && x[j..] == y[j..]
  {
    assert x[i..j] == x[i..][..j - i] && y[i..j] == y[i..][..j - i];
    assert x[j..] == x[i..][j - i..] && y[j..] == y[i..][j - i..];
  }

  /** Merge sort of a[left..right] (inclusive bounds): the range ends up sorted
      and holding the elements it held, and everything else is unchanged; the
      step events are those of MergeSortTrace. A range of at most one element
      is left alone and emits nothing. */
  method MergeSort(a: array<int>, left: int, right: int) returns (ghost events: seq<Step>)
    requires left < right ==> 0 <= left && right < a.Length
    modifies a
    ensures left >= right ==> a[..] == old(a[..])
    ensures left < right ==> SortedRangeOf(old(a[..]), a[..], left, right + 1)
    ensures events == MergeSortTrace(left, right)
    decreases right - left
  {
    if left < right {
      var mid := Midpoint(left, right);
      ghost var o := a[..];
      ghost var e1 := MergeSort(a, left, mid);
      ghost var a1 := a[..];
      ghost var e2 := MergeSort(a, mid + 1, right);
      ghost var e3 := MergeHalves(a, left, mid, right, o, a1);
      MergeSortTraceJoin(left, mid, right, e1, e2, e3);
      events := e1 + e2 + e3;
    } else {
      events := [];
    }
  }

  /** The merge that ends one level of merge sort, given both halves sorted by
      the two recursive calls: the whole range ends up sorted. */
  method MergeHalves(a: array<int>, left: int, mid: int, right: int, ghost o: seq<int>, ghost a1: seq<int>)
    returns (ghost events: seq<Step>)
    requires 0 <= left && right < |o| && left < right && mid == Midpoint(left, right)
    requires left >= mid ==> a1 == o
    requires left < mid ==> SortedRangeOf(o, a1, left, mid + 1)
    requires mid + 1 >= right ==> a[..] == a1
    requires mid + 1 < right ==> SortedRangeOf(a1, a[..], mid + 1, right + 1)
    modifies a
    ensures SortedRangeOf(o, a[..], left, right + 1)
    ensures events == Writes(left, right - left + 1)
  {
    ghost var a2 := a[..];
    events := Merge(a, left, mid, right);
    MergeSortStep(o, a1, a2, a[..], left, mid, right);
  }

  /** The sortedness half of one level of merge sort: halves sorted by the
      recursive calls (a half of one element is left alone) and then merged
      give a sorted range holding the old elements. */
  lemma MergeSortStep(o: seq<int>, a1: seq<int>, a2: seq<int>, a3: seq<int>, left: int, mid: int, right: int)
    requires 0 <= left && right < |o| && left < right && mid == Midpoint(left, right)
    requires left >= mid ==> a1 == o
    requires left < mid ==> SortedRangeOf(o, a1, left, mid + 1)
    requires mid + 1 >= right ==> a2 == a1
    requires mid + 1 < right ==> SortedRangeOf(a1, a2, mid + 1, right + 1)
    requires a3 == Spliced(a2, left, MergeBy(a2[left..mid + 1], a2[mid + 1..right + 1], Identity))
    ensures SortedRangeOf(o, a3, left, right + 1)
  {
    HalfSorted(o, a1, left, mid);
    HalfSorted(a1, a2, mid + 1, right);
    MergeSortLevel(o, a1, a2, a3, left, mid, right);
  }

  /** The program's run, mergeSort(array, 0, size - 1): the whole array ends up
      sorted, holding the same elements, after MergeSortWrites(size) events. */
  method SortWholeArray(a: array<int>) returns (ghost events: seq<Step>)
    modifies a
    ensures Sorted(a[..])
    ensures multiset(a[..]) == multiset(old(a[..]))
    ensures |events| == MergeSortWrites(a.Length)
  {
    ghost var o := a[..];
    events := MergeSort(a, 0, a.Length - 1);
    WholeArraySorted(o, a[..]);
    WholeArrayEvents(a.Length, events);
  }

  /** After merge sort of the whole range, the array is sorted and holds the
      same elements. */
  lemma WholeArraySorted(o: seq<int>, s: seq<int>)
    requires |o| > 1 ==> SortedRangeOf(o, s, 0, |o|)
    requires |o| <= 1 ==> s == o
    ensures Sorted(s) && multiset(s) == multiset(o)
  {
    if |o| > 1 {
      WholeSlice(o);
      WholeSlice(s);
    }
  }

  /** The slice from 0 to the length is the whole sequence. */
  lemma WholeSlice(o: seq<int>)
    ensures o[0..|o|] == o
  {
  }

  /** Merge sort of the whole range of n cells emits MergeSortWrites(n) events. */
  lemma WholeArrayEvents(n: nat, events: seq<Step>)
    requires events == MergeSortTrace(0, n - 1)
    ensures |events| == MergeSortWrites(n)
  {
    if n > 0 {
      MergeSortTraceLength(0, n - 1, n);
    }
  }

  /** Two sorted sequences with the same elements are equal. */
  lemma {:induction false} SortedUnique(x: seq<int>, y: seq<int>)
    requires Sorted(x) && Sorted(y) && multiset(x) == multiset(y)
    ensures x == y
    decreases |x|
  {
    assert |x| == |multiset(x)| == |multiset(y)| == |y|;
    if |x| > 0 {
      assert x[0] <= y[0] by {
        assert y[0] in multiset(x);
      }
      assert y[0] <= x[0] by {
        assert x[0] in multiset(y);
      }
      HeadTail(x);
      HeadTail(y);
      SortedUnique(x[1..], y[1..]);
    }
  }

  /** A non-empty sequence is its head followed by its tail. */
  lemma HeadTail(x: seq<int>)
    requires |x| > 0
    ensures x == [x[0]] + x[1..]
    ensures multiset(x[1..]) == multiset(x) - multiset{x[0]}
  {
    assert x == [x[0]] + x[1..];
  }

  /** What MergeSort leaves in its range is exactly the reference merge sort
      of the range's old contents (which places equal keys in input order). */
  lemma MergeSortAgrees(o: seq<int>, s: seq<int>, left: int, right: int)
    requires left <= right && SortedRangeOf(o, s, left, right + 1)
    ensures s == Spliced(o, left, MergeSortBy(o[left..right + 1], Identity))
  {
    var x := o[left..right + 1];
    MergeSortSortsIntegers(x);
    SortedRangeIs(o, s, left, right, MergeSortBy(x, Identity));
  }

  /** A range sorted in place holds the one sorted arrangement of its old contents. */
  lemma SortedRangeIs(o: seq<int>, s: seq<int>, left: int, right: int, m: seq<int>)
    requires left <= right && SortedRangeOf(o, s, left, right + 1)
    requires |m| == right - left + 1 && Sorted(m) && multiset(m) == multiset(o[left..right + 1])
    ensures s == Spliced(o, left, m)
  {
    SortedUnique(s[left..right + 1], m);
    assert s == s[..left] + s[left..right + 1] + s[right + 1..];
  }
}
