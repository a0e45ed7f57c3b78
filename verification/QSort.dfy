/** qsort of src/libc/stdlib.c on an array, in place. */
module QSort {
  import opened QSortSpec

  ghost predicate SameOutside<T>(before: seq<T>, after: seq<T>, lo: nat, hi: nat) {
    lo <= hi <= |before| == |after| && after[..lo] == before[..lo] && after[hi..] == before[hi..]
  }

  /** Swaps two items of lo..hi-1; `base` is some earlier state of the array that the rest still agrees with. */
  method SwapItems<T>(a: array<T>, lo: nat, ghost hi: nat, i: nat, j: nat, ghost base: seq<T>)
    requires lo + i < hi <= a.Length && lo + j < hi && SameOutside(base, a[..], lo, hi)
    modifies a
    ensures a[lo..hi] == Swap(old(a[lo..hi]), i, j) && SameOutside(base, a[..], lo, hi)
  {
    a[lo + i], a[lo + j] := a[lo + j], a[lo + i];
  }

  /** Nothing outside lo..hi-1 changed, and the items inside are the same ones. */
  ghost predicate Rearranged<T>(before: seq<T>, after: seq<T>, lo: nat, hi: nat) {
    SameOutside(before, after, lo, hi) && multiset(after[lo..hi]) == multiset(before[lo..hi])
  }

  /** The insertion sort used for fewer than four items. */
  method InsSort<T(!new)>(a: array<T>, lo: nat, count: nat, cmp: (T, T) -> int)
    requires Comparison(cmp) && lo + count <= a.Length
    modifies a
    ensures Sorted(cmp, a[lo..lo + count]) && Rearranged(old(a[..]), a[..], lo, lo + count)
  {
    if count <= 1 {
      return;
    }
    ghost var hi := lo + count;
    var i := 1;
    while i < count
      invariant 1 <= i <= count
      invariant Sorted(cmp, a[lo..hi][..i]) && Rearranged(old(a[..]), a[..], lo, hi)
    {
      Sink(a, lo, hi, i, cmp);
      i := i + 1;
    }
    assert a[lo..hi][..count] == a[lo..hi];
  }

  /** The inner loop: item i sinks to its place among the first i. */
  method Sink<T(!new)>(a: array<T>, lo: nat, ghost hi: nat, i: nat, cmp: (T, T) -> int)
    requires Comparison(cmp) && lo + i < hi <= a.Length && Sorted(cmp, a[lo..hi][..i])
    modifies a
    ensures Sorted(cmp, a[lo..hi][..i + 1]) && Rearranged(old(a[..]), a[..], lo, hi)
  {
    hide Comparison, Sorted, SortedBut, Swap, Rearranged, SameOutside;
    var k := i;
    SinkBegins(cmp, a[lo..hi], i);
    RearrangedNot(a[..], lo, hi);
    while k > 0 && cmp(a[lo + k], a[lo + k - 1]) < 0
      invariant 0 <= k <= i && Rearranged(old(a[..]), a[..], lo, hi)
      invariant SortedBut(cmp, a[lo..hi], i + 1, k)
    {
      SinkStep(cmp, a[lo..hi], i + 1, k);
      ghost var b := a[..];
      RearrangedNot(b, lo, hi);
      SwapItems(a, lo, hi, k, k - 1, b);
      SwapRearranges(b, a[..], lo, hi, k, k - 1);
      RearrangedTwice(old(a[..]), b, a[..], lo, hi);
      k := k - 1;
    }
    SunkSorted(cmp, a[lo..hi], i + 1, k);
  }

  lemma RearrangedNot<T>(b: seq<T>, lo: nat, hi: nat)
    requires lo <= hi <= |b|
    ensures SameOutside(b, b, lo, hi) && Rearranged(b, b, lo, hi)
  {
  }

  lemma SwapRearranges<T>(b: seq<T>, c: seq<T>, lo: nat, hi: nat, i: nat, j: nat)
    requires SameOutside(b, c, lo, hi) && lo + i < hi && lo + j < hi && c[lo..hi] == Swap(b[lo..hi], i, j)
    ensures Rearranged(b, c, lo, hi)
  {
    hide Swap;
    SwapKeeps(b[lo..hi], i, j);
  }

  lemma SinkBegins<T>(cmp: (T, T) -> int, s: seq<T>, i: nat)
    requires i < |s| && Sorted(cmp, s[..i])
    ensures SortedBut(cmp, s, i + 1, i)
  {
    forall k | 0 <= k < i ensures s[..i][k] == s[k] { }
  }

  /** The first n items are sorted but for the one at k, which is not greater than those behind it. */
  ghost predicate SortedBut<T>(cmp: (T, T) -> int, s: seq<T>, n: nat, k: nat) {
    && k < n <= |s|
    && (forall i, j | 0 <= i < j < n && i != k && j != k :: cmp(s[i], s[j]) <= 0)
    && (forall j | k < j < n :: cmp(s[k], s[j]) <= 0)
  }

  lemma SinkStep<T(!new)>(cmp: (T, T) -> int, s: seq<T>, n: nat, k: nat)
    requires Comparison(cmp) && SortedBut(cmp, s, n, k) && k > 0 && cmp(s[k], s[k - 1]) < 0
    ensures SortedBut(cmp, Swap(s, k, k - 1), n, k - 1)
  {
    hide Comparison;
    forall j | k < j < n ensures cmp(s[k], s[j]) <= 0 { }
  }

  lemma SunkSorted<T(!new)>(cmp: (T, T) -> int, s: seq<T>, n: nat, k: nat)
    requires Comparison(cmp) && SortedBut(cmp, s, n, k) && (k > 0 ==> cmp(s[k], s[k - 1]) >= 0)
    ensures Sorted(cmp, s[..n])
  {
    forall i | 0 <= i < k ensures cmp(s[i], s[k]) <= 0 {
      if i < k - 1 { assert cmp(s[i], s[k - 1]) <= 0; }
    }
  }

  /** The median swaps and the partition loop; it is called only where the loop stops. */
  method Partition<T(!new)>(a: array<T>, lo: nat, count: nat, cmp: (T, T) -> int) returns (sep: nat)
    requires Comparison(cmp) && 4 <= count && lo + count <= a.Length
    requires Ready(cmp, Start(cmp, a[lo..lo + count])) && OneTie(cmp, Start(cmp, a[lo..lo + count]))
    modifies a
    ensures var st := Partitioned(cmp, old(a[lo..lo + count]));
      sep == st.right && a[lo..lo + count] == Swap(st.s, 0, st.right)
    ensures SameOutside(old(a[..]), a[..], lo, lo + count)
  {
    hide Comparison, OneTie, Swap, Measure, Round, Rounds, ScanLeft, ScanRight, SameOutside, Partitioned, Start;
    ghost var hi := lo + count;
    ghost var st, done := Start(cmp, a[lo..hi]), Partitioned(cmp, a[lo..hi]);
    ghost var fuel: nat := Measure(cmp, st) + 1;
    PartitionedIs(cmp, a[lo..hi]);
    Median(a, lo, count, cmp);
    var left, right := 1, count - 2;
    while true
      invariant st.Again? && Ready(cmp, st) && OneTie(cmp, st) && Rounds(cmp, st, fuel) == done
      invariant a[lo..hi] == st.s && left == st.left && right == st.right
      invariant SameOutside(old(a[..]), a[..], lo, hi)
      decreases Measure(cmp, st)
    {
      left := RunLeft(a, lo, hi, left, cmp);
      right := RunRight(a, lo, hi, right, cmp);
      RoundIs(cmp, st, fuel, left, right);
      fuel := fuel - 1;
      if left >= right {
        break;
      }
      SwapItems(a, lo, hi, left, right, old(a[..]));
      st := Round(cmp, st);
    }
    SwapItems(a, lo, hi, 0, right, old(a[..]));
    sep := right;
  }

  /** The two swaps before the loop. */
  method Median<T>(a: array<T>, lo: nat, count: nat, cmp: (T, T) -> int)
    requires 4 <= count && lo + count <= a.Length
    modifies a
    ensures a[lo..lo + count] == Start(cmp, old(a[lo..lo + count])).s
    ensures SameOutside(old(a[..]), a[..], lo, lo + count)
  {
    hide Swap, SameOutside;
    ghost var hi := lo + count;
    ghost var b := a[..];
    RearrangedNot(b, lo, hi);
    SwapIfLess(a, lo, hi, 0, count / 2, cmp, b);
    SwapIfLess(a, lo, hi, count - 1, 0, cmp, b);
  }

  /** One of the two swaps. */
  method SwapIfLess<T>(a: array<T>, lo: nat, ghost hi: nat, i: nat, j: nat, cmp: (T, T) -> int, ghost base: seq<T>)
    requires lo + i < hi <= a.Length && lo + j < hi && SameOutside(base, a[..], lo, hi)
    modifies a
    ensures var s := old(a[lo..hi]); a[lo..hi] == if cmp(s[i], s[j]) < 0 then Swap(s, i, j) else s
    ensures SameOutside(base, a[..], lo, hi)
  {
    hide Swap, SameOutside;
    if cmp(a[lo + i], a[lo + j]) < 0 {
      SwapItems(a, lo, hi, i, j, base);
    }
  }

  lemma PartitionedIs<T(!new)>(cmp: (T, T) -> int, s: seq<T>)
    requires Comparison(cmp) && |s| >= 4 && Ready(cmp, Start(cmp, s)) && OneTie(cmp, Start(cmp, s))
    ensures Partitioned(cmp, s) == Rounds(cmp, Start(cmp, s), Measure(cmp, Start(cmp, s)) + 1)
    ensures Start(cmp, s).left == 1 && Start(cmp, s).right == |s| - 2
  {
  }

  method RunLeft<T>(a: array<T>, lo: nat, ghost hi: nat, left: nat, cmp: (T, T) -> int) returns (l: nat)
    requires lo + left < hi <= a.Length && 0 < left && cmp(a[hi - 1], a[lo]) >= 0
    ensures l == ScanLeft(cmp, a[lo..hi], left)
  {
    l := left;
    while cmp(a[lo + l], a[lo]) < 0
      invariant left <= l < hi - lo && ScanLeft(cmp, a[lo..hi], left) == ScanLeft(cmp, a[lo..hi], l)
      decreases hi - lo - l
    {
      assert a[lo..hi][l] == a[lo + l];
      l := l + 1;
    }
    assert a[lo..hi][l] == a[lo + l];
  }

  method RunRight<T>(a: array<T>, lo: nat, ghost hi: nat, right: nat, cmp: (T, T) -> int) returns (r: nat)
    requires lo + right < hi <= a.Length && cmp(a[lo], a[lo]) >= 0
    ensures r == ScanRight(cmp, a[lo..hi], right)
  {
    r := right;
    while cmp(a[lo], a[lo + r]) < 0
      invariant r <= right && ScanRight(cmp, a[lo..hi], right) == ScanRight(cmp, a[lo..hi], r)
      decreases r
    {
      assert a[lo..hi][r] == a[lo + r];
      r := r - 1;
    }
    assert a[lo..hi][r] == a[lo + r];
  }

  /** One round of the loop that still has to reach its end. */
  lemma RoundIs<T(!new)>(cmp: (T, T) -> int, st: State<T>, fuel: nat, l: nat, r: nat)
    requires Comparison(cmp) && Ready(cmp, st) && st.Again? && OneTie(cmp, st) && Rounds(cmp, st, fuel).Done?
    requires l == ScanLeft(cmp, st.s, st.left) && r == ScanRight(cmp, st.s, st.right)
    ensures fuel > 0
    ensures l >= r ==> Rounds(cmp, st, fuel) == Done(st.s, r)
    ensures l < r ==> Round(cmp, st) == Again(Swap(st.s, l, r), l, r) && OneTie(cmp, Round(cmp, st))
                      && Rounds(cmp, Round(cmp, st), fuel - 1) == Rounds(cmp, st, fuel)
                      && Measure(cmp, Round(cmp, st)) < Measure(cmp, st)
  {
    hide Comparison, OneTie, Measure;
    if l < r {
      RoundShrinks(cmp, st);
    } else {
      StaysDone(cmp, Round(cmp, st), fuel - 1);
    }
  }

  /** qsort: sorts in place, for every input on which no partition loop of the recursion stalls. */
  method QSort<T(!new)>(a: array<T>, lo: nat, count: nat, cmp: (T, T) -> int)
    requires Comparison(cmp) && lo + count <= a.Length && NoStall(cmp, a[lo..lo + count])
    modifies a
    ensures Sorted(cmp, a[lo..lo + count]) && Rearranged(old(a[..]), a[..], lo, lo + count)
    decreases count, 1
  {
    if count <= 1 {
      return;
    }
    if count < 4 {
      InsSort(a, lo, count, cmp);
      return;
    }
    SortSides(a, lo, count, cmp);
  }

  /** qsort of four items or more. */
  method SortSides<T(!new)>(a: array<T>, lo: nat, count: nat, cmp: (T, T) -> int)
    requires Comparison(cmp) && 4 <= count && lo + count <= a.Length && NoStall(cmp, a[lo..lo + count])
    modifies a
    ensures Sorted(cmp, a[lo..lo + count]) && Rearranged(old(a[..]), a[..], lo, lo + count)
    decreases count, 0
  {
    hide Comparison, Sorted, Start, OneTie, SplitAt, Rearranged, SameOutside, Swap, Partitioned, NoStall, Ready;
    ghost var hi, s := lo + count, a[lo..lo + count];
    NoStallParts(cmp, s);
    var sep := Partition(a, lo, count, cmp);
    ghost var b := a[..];
    Inside(b, lo, sep, hi);
    RearrangedByParts(old(a[..]), b, lo, hi);
    QSort(a, lo, sep, cmp);
    ghost var c := a[..];
    RightUntouched(b, c, lo, sep, hi);
    QSort(a, lo + sep + 1, count - sep - 1, cmp);
    BothSides(cmp, b, c, a[..], lo, sep, hi);
    RearrangedTwice(old(a[..]), b, a[..], lo, hi);
  }

  lemma NoStallParts<T(!new)>(cmp: (T, T) -> int, s: seq<T>)
    requires Comparison(cmp) && |s| >= 4 && NoStall(cmp, s)
    ensures Ready(cmp, Start(cmp, s)) && OneTie(cmp, Start(cmp, s))
    ensures var st := Partitioned(cmp, s); st.right < |st.s| && var t := Swap(st.s, 0, st.right);
      && multiset(t) == multiset(s) && |t| == |s| && SplitAt(cmp, t, st.right)
      && NoStall(cmp, t[..st.right]) && NoStall(cmp, t[st.right + 1..])
  {
    hide Comparison, Start, OneTie, SplitAt, Swap, Partitioned;
    StartReady(cmp, s);
    PartitionedSplits(cmp, s);
  }

  lemma Inside<T>(b: seq<T>, lo: nat, sep: nat, hi: nat)
    requires lo + sep < hi <= |b|
    ensures b[lo..hi][..sep] == b[lo..lo + sep] && b[lo..hi][sep + 1..] == b[lo + sep + 1..hi]
    ensures b[lo..hi] == b[lo..lo + sep] + [b[lo + sep]] + b[lo + sep + 1..hi]
  {
  }

  lemma RearrangedByParts<T>(b: seq<T>, c: seq<T>, lo: nat, hi: nat)
    requires SameOutside(b, c, lo, hi) && multiset(b[lo..hi]) == multiset(c[lo..hi])
    ensures Rearranged(b, c, lo, hi)
  {
  }

  lemma RightUntouched<T>(b: seq<T>, c: seq<T>, lo: nat, sep: nat, hi: nat)
    requires lo + sep < hi <= |b| && Rearranged(b, c, lo, lo + sep)
    ensures |c| == |b| && c[lo + sep + 1..hi] == b[lo + sep + 1..hi] && c[lo + sep] == b[lo + sep]
  {
    assert c[lo + sep..][1..hi - lo - sep] == c[lo + sep + 1..hi];
    assert b[lo + sep..][1..hi - lo - sep] == b[lo + sep + 1..hi];
    assert c[lo + sep..][0] == c[lo + sep];
  }

  lemma LeftUntouched<T>(c: seq<T>, d: seq<T>, lo: nat, sep: nat, hi: nat)
    requires lo + sep < hi <= |c| && Rearranged(c, d, lo + sep + 1, hi)
    ensures |c| == |d| && d[lo..lo + sep] == c[lo..lo + sep] && d[lo + sep] == c[lo + sep] && d[..lo] == c[..lo]
  {
    var n := lo + sep + 1;
    assert d[..n][lo..lo + sep] == d[lo..lo + sep] && c[..n][lo..lo + sep] == c[lo..lo + sep];
    assert d[..n][lo + sep] == d[lo + sep] && c[..n][lo + sep] == c[lo + sep];
    assert d[..n][..lo] == d[..lo] && c[..n][..lo] == c[..lo];
  }

  lemma RearrangedTwice<T>(b: seq<T>, c: seq<T>, d: seq<T>, lo: nat, hi: nat)
    requires Rearranged(b, c, lo, hi) && Rearranged(c, d, lo, hi)
    ensures Rearranged(b, d, lo, hi)
  {
  }

  /** Sorting both sides of a split sorts the whole. */
  lemma BothSides<T(!new)>(cmp: (T, T) -> int, b: seq<T>, c: seq<T>, d: seq<T>, lo: nat, sep: nat, hi: nat)
    requires Comparison(cmp) && lo + sep < hi <= |b| && |b| == |c| == |d|
    requires Rearranged(b, c, lo, lo + sep) && Sorted(cmp, c[lo..lo + sep])
    requires Rearranged(c, d, lo + sep + 1, hi) && Sorted(cmp, d[lo + sep + 1..hi])
    requires SplitAt(cmp, b[lo..hi], sep)
    ensures Sorted(cmp, d[lo..hi]) && Rearranged(b, d, lo, hi)
  {
    hide Comparison, Sorted, SplitAt;
    RightUntouched(b, c, lo, sep, hi);
    LeftUntouched(c, d, lo, sep, hi);
    Inside(b, lo, sep, hi);
    Inside(d, lo, sep, hi);
    SortedAround(cmp, b[lo..hi], d[lo..hi], sep);
    OutsideBoth(b, c, d, lo, sep, hi);
  }

  lemma OutsideBoth<T>(b: seq<T>, c: seq<T>, d: seq<T>, lo: nat, sep: nat, hi: nat)
    requires lo + sep < hi <= |b| && SameOutside(b, c, lo, lo + sep) && SameOutside(c, d, lo + sep + 1, hi)
    ensures SameOutside(b, d, lo, hi)
  {
    assert c[..lo] == b[..lo] && d[..lo] == c[..lo];
    assert d[hi..] == c[hi..] && c[hi..] == c[lo + sep..][hi - lo - sep..] == b[lo + sep..][hi - lo - sep..] == b[hi..];
  }

  lemma SortedAround<T(!new)>(cmp: (T, T) -> int, t: seq<T>, u: seq<T>, sep: nat)
    requires Comparison(cmp) && SplitAt(cmp, t, sep) && |u| == |t| && u[sep] == t[sep]
    requires Sorted(cmp, u[..sep]) && multiset(u[..sep]) == multiset(t[..sep])
    requires Sorted(cmp, u[sep + 1..]) && multiset(u[sep + 1..]) == multiset(t[sep + 1..])
    ensures Sorted(cmp, u)
  {
    SidesBounded(cmp, t, u, sep);
    forall i, j | 0 <= i < j < |u|
      ensures cmp(u[i], u[j]) <= 0
    {
      if j < sep {
        assert u[..sep][i] == u[i] && u[..sep][j] == u[j];
      } else if i > sep {
        assert u[sep + 1..][i - sep - 1] == u[i] && u[sep + 1..][j - sep - 1] == u[j];
      } else if i < sep < j {
        assert cmp(u[i], u[sep]) <= 0 && cmp(u[sep], u[j]) <= 0;
      }
    }
  }

  lemma SidesBounded<T(!new)>(cmp: (T, T) -> int, t: seq<T>, u: seq<T>, sep: nat)
    requires SplitAt(cmp, t, sep) && |u| == |t| && u[sep] == t[sep]
    requires multiset(u[..sep]) == multiset(t[..sep]) && multiset(u[sep + 1..]) == multiset(t[sep + 1..])
    ensures SplitAt(cmp, u, sep)
  {
    forall i | 0 <= i < sep ensures cmp(u[i], u[sep]) <= 0 {
      assert u[..sep][i] in multiset(t[..sep]);
    }
    forall i | sep < i < |u| ensures cmp(u[sep], u[i]) <= 0 {
      assert u[sep + 1..][i - sep - 1] in multiset(t[sep + 1..]);
    }
  }
}
