/** The partition loop of qsort (src/libc/stdlib.c) as a state machine on sequences: when it stops, and with what. */
module QSortSpec {
  import opened Seqs

  /** What a comparison function has to be: a total order up to ties. */
  ghost predicate Comparison<T(!new)>(cmp: (T, T) -> int) {
    && (forall x, y :: cmp(x, y) < 0 <==> cmp(y, x) > 0)
    && (forall x, y, z :: cmp(x, y) <= 0 && cmp(y, z) <= 0 ==> cmp(x, z) <= 0)
  }

  ghost predicate Sorted<T>(cmp: (T, T) -> int, s: seq<T>) {
    forall i, j | 0 <= i < j < |s| :: cmp(s[i], s[j]) <= 0
  }

  function Swap<T>(s: seq<T>, i: nat, j: nat): (t: seq<T>)
    requires i < |s| && j < |s|
    ensures |t| == |s|
  {
    s[i := s[j]][j := s[i]]
  }

  /** How many items tie with x. */
  function Ties<T>(cmp: (T, T) -> int, s: seq<T>, x: T): nat {
    if s == [] then 0 else (if cmp(s[0], x) == 0 then 1 else 0) + Ties(cmp, s[1..], x)
  }

  lemma {:induction false} TiesConcat<T>(cmp: (T, T) -> int, s: seq<T>, t: seq<T>, x: T)
    ensures Ties(cmp, s + t, x) == Ties(cmp, s, x) + Ties(cmp, t, x)
  {
    if s == [] {
      assert s + t == t;
    } else {
      assert (s + t)[1..] == s[1..] + t;
      TiesConcat(cmp, s[1..], t, x);
    }
  }

  /** The scan from the left: the first item from l on that is not less than the pivot s[0]. */
  function ScanLeft<T>(cmp: (T, T) -> int, s: seq<T>, l: nat): (r: nat)
    requires 0 < l < |s| && cmp(s[|s| - 1], s[0]) >= 0
    ensures l <= r < |s| && cmp(s[r], s[0]) >= 0 && forall i | l <= i < r :: cmp(s[i], s[0]) < 0
    decreases |s| - l
  {
    if cmp(s[l], s[0]) < 0 then ScanLeft(cmp, s, l + 1) else l
  }

  /** The scan from the right: the first item from r down that is not greater than the pivot. */
  function ScanRight<T>(cmp: (T, T) -> int, s: seq<T>, r: nat): (q: nat)
    requires r < |s| && cmp(s[0], s[0]) >= 0
    ensures q <= r && cmp(s[0], s[q]) >= 0 && forall i | q < i <= r :: cmp(s[0], s[i]) < 0
  {
    if cmp(s[0], s[r]) < 0 then ScanRight(cmp, s, r - 1) else r
  }

  /** The loop with its two ends, or over, with the right end where the pivot goes. */
  datatype State<T> = Again(s: seq<T>, left: nat, right: nat) | Done(s: seq<T>, right: nat)

  /** The pivot is the first item; the last item, not less than it, stops the scan from the left. */
  ghost predicate Ready<T>(cmp: (T, T) -> int, st: State<T>) {
    && |st.s| >= 3 && cmp(st.s[0], st.s[0]) == 0 && cmp(st.s[|st.s| - 1], st.s[0]) >= 0
    && st.right < |st.s| - 1 && (st.Again? ==> 0 < st.left < |st.s|)
  }

  /** One round of the loop: both scans, then either the end or a swap that moves neither end. */
  function Round<T>(cmp: (T, T) -> int, st: State<T>): (t: State<T>)
    requires Ready(cmp, st)
    ensures Ready(cmp, t)
  {
    if st.Done? then st
    else
      var l, r := ScanLeft(cmp, st.s, st.left), ScanRight(cmp, st.s, st.right);
      if l >= r then Done(st.s, r) else Again(Swap(st.s, l, r), l, r)
  }

  function Rounds<T>(cmp: (T, T) -> int, st: State<T>, k: nat): (t: State<T>)
    requires Ready(cmp, st)
    ensures Ready(cmp, t)
    decreases k
  {
    if k == 0 then st else Rounds(cmp, Round(cmp, st), k - 1)
  }

  predicate Tie<T>(cmp: (T, T) -> int, s: seq<T>, i: nat)
    requires i < |s|
  {
    cmp(s[i], s[0]) == 0
  }

  /** No two items between the ends, ends included, tie with the pivot. */
  ghost predicate OneTie<T>(cmp: (T, T) -> int, st: State<T>)
    requires Ready(cmp, st) && st.Again?
  {
    forall i, j | st.left <= i < j <= st.right :: !(Tie(cmp, st.s, i) && Tie(cmp, st.s, j))
  }

  /** Neither scan passes an item that ties with the pivot. */
  lemma ScansStopAt<T(!new)>(cmp: (T, T) -> int, st: State<T>, i: nat)
    requires Comparison(cmp) && Ready(cmp, st) && st.Again? && st.left <= i <= st.right && Tie(cmp, st.s, i)
    ensures ScanLeft(cmp, st.s, st.left) <= i <= ScanRight(cmp, st.s, st.right)
  {
    assert cmp(st.s[0], st.s[i]) == 0;
    hide Comparison;
  }

  /** Where item i of s is after a swap. */
  function Moved(l: nat, r: nat, i: nat): nat {
    if i == l then r else if i == r then l else i
  }

  /** With two ties between the ends the loop swaps, and they are still between the ends. */
  lemma RoundStalls<T(!new)>(cmp: (T, T) -> int, st: State<T>)
    requires Comparison(cmp) && Ready(cmp, st) && st.Again? && !OneTie(cmp, st)
    ensures Round(cmp, st).Again? && !OneTie(cmp, Round(cmp, st))
  {
    hide Comparison;
    var i, j :| st.left <= i < j <= st.right && Tie(cmp, st.s, i) && Tie(cmp, st.s, j);
    ScansStopAt(cmp, st, i);
    ScansStopAt(cmp, st, j);
    var t := Round(cmp, st);
    var i', j' := Moved(t.left, t.right, i), Moved(t.left, t.right, j);
    assert Tie(cmp, t.s, i') && Tie(cmp, t.s, j');
    assert t.left <= i' <= t.right && t.left <= j' <= t.right && (i' < j' || j' < i');
  }

  lemma {:induction false} NeverDone<T(!new)>(cmp: (T, T) -> int, st: State<T>, k: nat)
    requires Comparison(cmp) && Ready(cmp, st) && st.Again? && !OneTie(cmp, st)
    ensures Rounds(cmp, st, k).Again?
    decreases k
  {
    hide Comparison, OneTie, Ready, Round;
    if k > 0 {
      RoundStalls(cmp, st);
      NeverDone(cmp, Round(cmp, st), k - 1);
    }
  }

  /** A swap with at most one tie lets the next scan move an end. */
  ghost predicate CanMove<T>(cmp: (T, T) -> int, st: State<T>)
    requires Ready(cmp, st) && st.Again?
  {
    cmp(st.s[st.left], st.s[0]) < 0 || cmp(st.s[0], st.s[st.right]) < 0
  }

  ghost function Measure<T>(cmp: (T, T) -> int, st: State<T>): nat
    requires Ready(cmp, st)
  {
    if st.Done? || st.left >= st.right then 0
    else st.right - st.left + if CanMove(cmp, st) then 0 else 1
  }

  lemma RoundShrinks<T(!new)>(cmp: (T, T) -> int, st: State<T>)
    requires Comparison(cmp) && Ready(cmp, st) && st.Again? && OneTie(cmp, st) && Round(cmp, st).Again?
    ensures OneTie(cmp, Round(cmp, st)) && Measure(cmp, Round(cmp, st)) < Measure(cmp, st)
  {
    hide OneTie, Swap, CanMove;
    RoundMoves(cmp, st);
    StillOneTie(cmp, st);
    if CanMove(cmp, st) { EndsMove(cmp, st); }
  }

  /** An end that can move does. */
  lemma EndsMove<T(!new)>(cmp: (T, T) -> int, st: State<T>)
    requires Comparison(cmp) && Ready(cmp, st) && st.Again? && CanMove(cmp, st) && Round(cmp, st).Again?
    ensures Round(cmp, st).right - Round(cmp, st).left < st.right - st.left
  {
    hide Swap;
  }

  /** After a swap one of the ends can move. */
  lemma RoundMoves<T(!new)>(cmp: (T, T) -> int, st: State<T>)
    requires Comparison(cmp) && Ready(cmp, st) && st.Again? && OneTie(cmp, st) && Round(cmp, st).Again?
    ensures CanMove(cmp, Round(cmp, st))
  {
    hide Swap;
    var t := Round(cmp, st);
    SwapAt(st.s, t.left, t.right);
    if cmp(st.s[t.right], st.s[0]) == 0 { assert Tie(cmp, st.s, t.right) && !Tie(cmp, st.s, t.left); }
  }

  lemma StillOneTie<T(!new)>(cmp: (T, T) -> int, st: State<T>)
    requires Comparison(cmp) && Ready(cmp, st) && st.Again? && OneTie(cmp, st) && Round(cmp, st).Again?
    ensures OneTie(cmp, Round(cmp, st))
  {
    hide Comparison, Swap, ScanLeft, ScanRight;
    var t := Round(cmp, st);
    var l, r := t.left, t.right;
    SwapAt(st.s, l, r);
    forall i, j | l <= i < j <= r
      ensures !(Tie(cmp, t.s, i) && Tie(cmp, t.s, j))
    {
      var i', j' := if i == l then r else i, if j == r then l else j;
      assert Tie(cmp, t.s, i) ==> Tie(cmp, st.s, i');
      assert Tie(cmp, t.s, j) ==> Tie(cmp, st.s, j');
    }
  }

  lemma {:induction false} EventuallyDone<T(!new)>(cmp: (T, T) -> int, st: State<T>, k: nat)
    requires Comparison(cmp) && Ready(cmp, st) && (st.Again? ==> OneTie(cmp, st)) && k > Measure(cmp, st)
    ensures Rounds(cmp, st, k).Done?
    decreases k
  {
    hide Comparison, OneTie, Ready, Round, Measure;
    if st.Done? {
      StaysDone(cmp, st, k);
    } else if Round(cmp, st).Again? {
      RoundShrinks(cmp, st);
      EventuallyDone(cmp, Round(cmp, st), k - 1);
    } else {
      StaysDone(cmp, Round(cmp, st), k - 1);
    }
  }

  lemma {:induction false} StaysDone<T(!new)>(cmp: (T, T) -> int, st: State<T>, k: nat)
    requires Ready(cmp, st) && st.Done?
    ensures Rounds(cmp, st, k) == st
    decreases k
  {
    if k > 0 { StaysDone(cmp, st, k - 1); }
  }

  /** The partition loop stops if and only if no two items strictly between the first and the last tie with the
      pivot. */
  lemma StopsExactly<T(!new)>(cmp: (T, T) -> int, st: State<T>)
    requires Comparison(cmp) && Ready(cmp, st) && st.Again?
    ensures (exists k: nat :: Rounds(cmp, st, k).Done?) <==> OneTie(cmp, st)
  {
    if OneTie(cmp, st) {
      EventuallyDone(cmp, st, Measure(cmp, st) + 1);
    } else {
      forall k: nat ensures Rounds(cmp, st, k).Again? { NeverDone(cmp, st, k); }
    }
  }

  /* What the partition leaves. */

  /** The two swaps that put the pivot first and an item that is not less last. */
  function Start<T>(cmp: (T, T) -> int, s: seq<T>): (st: State<T>)
    requires |s| >= 4
    ensures st.Again? && |st.s| == |s|
  {
    var s1 := if cmp(s[0], s[|s| / 2]) < 0 then Swap(s, 0, |s| / 2) else s;
    var s2 := if cmp(s1[|s| - 1], s1[0]) < 0 then Swap(s1, |s| - 1, 0) else s1;
    Again(s2, 1, |s| - 2)
  }

  lemma StartReady<T(!new)>(cmp: (T, T) -> int, s: seq<T>)
    requires Comparison(cmp) && |s| >= 4
    ensures Ready(cmp, Start(cmp, s)) && multiset(Start(cmp, s).s) == multiset(s)
  {
    hide Swap;
    var n := |s|;
    var s1 := if cmp(s[0], s[n / 2]) < 0 then Swap(s, 0, n / 2) else s;
    SwapKeeps(s, 0, n / 2);
    SwapKeeps(s1, n - 1, 0);
    SelfTie(cmp, Start(cmp, s).s[0]);
  }

  lemma SelfTie<T(!new)>(cmp: (T, T) -> int, x: T)
    requires Comparison(cmp)
    ensures cmp(x, x) == 0
  {
  }

  lemma SwapKeeps<T>(s: seq<T>, i: nat, j: nat)
    requires i < |s| && j < |s|
    ensures multiset(Swap(s, i, j)) == multiset(s)
    ensures Swap(s, i, j)[i] == s[j] && Swap(s, i, j)[j] == s[i]
  {
  }

  /** What has been passed on the left is not greater than the pivot, on the right not less. */
  ghost predicate Passed<T>(cmp: (T, T) -> int, st: State<T>)
    requires Ready(cmp, st)
  {
    && (st.Again? ==> forall i | 1 <= i < st.left :: cmp(st.s[i], st.s[0]) <= 0)
    && (st.Done? ==> forall i | 1 <= i <= st.right :: cmp(st.s[i], st.s[0]) <= 0)
    && (forall i | st.right < i < |st.s| :: cmp(st.s[0], st.s[i]) <= 0)
  }

  lemma ScansPass<T(!new)>(cmp: (T, T) -> int, st: State<T>)
    requires Comparison(cmp) && Ready(cmp, st) && Passed(cmp, st) && st.Again?
    ensures var l, r := ScanLeft(cmp, st.s, st.left), ScanRight(cmp, st.s, st.right);
      && cmp(st.s[r], st.s[0]) <= 0 && cmp(st.s[0], st.s[l]) <= 0
      && (forall i | 1 <= i < l :: cmp(st.s[i], st.s[0]) <= 0)
      && (forall i | r < i < |st.s| :: cmp(st.s[0], st.s[i]) <= 0)
  {
    hide Comparison;
    Flip(cmp, st.s[ScanRight(cmp, st.s, st.right)], st.s[0]);
    Flip(cmp, st.s[0], st.s[ScanLeft(cmp, st.s, st.left)]);
  }

  lemma RoundPasses<T(!new)>(cmp: (T, T) -> int, st: State<T>)
    requires Comparison(cmp) && Ready(cmp, st) && Passed(cmp, st)
    ensures Passed(cmp, Round(cmp, st)) && multiset(Round(cmp, st).s) == multiset(st.s)
  {
    hide Comparison, ScanLeft, ScanRight, Swap, Passed;
    if st.Again? {
      var l, r := ScanLeft(cmp, st.s, st.left), ScanRight(cmp, st.s, st.right);
      if l < r {
        SwapKeeps(st.s, l, r);
        SwapPasses(cmp, st);
      } else {
        DonePasses(cmp, st);
      }
    }
  }

  lemma DonePasses<T(!new)>(cmp: (T, T) -> int, st: State<T>)
    requires Comparison(cmp) && Ready(cmp, st) && Passed(cmp, st) && st.Again?
    requires ScanLeft(cmp, st.s, st.left) >= ScanRight(cmp, st.s, st.right)
    ensures Passed(cmp, Round(cmp, st))
  {
    hide Comparison, ScanLeft, ScanRight, Swap;
    ScansPass(cmp, st);
  }

  lemma SwapPasses<T(!new)>(cmp: (T, T) -> int, st: State<T>)
    requires Comparison(cmp) && Ready(cmp, st) && Passed(cmp, st) && st.Again?
    requires ScanLeft(cmp, st.s, st.left) < ScanRight(cmp, st.s, st.right)
    ensures Passed(cmp, Round(cmp, st))
  {
    hide Comparison, ScanLeft, ScanRight, Swap;
    ScansPass(cmp, st);
    SwapAt(st.s, ScanLeft(cmp, st.s, st.left), ScanRight(cmp, st.s, st.right));
  }

  lemma SwapAt<T>(s: seq<T>, i: nat, j: nat)
    requires i < |s| && j < |s|
    ensures forall k | 0 <= k < |s| :: Swap(s, i, j)[k] == if k == i then s[j] else if k == j then s[i] else s[k]
  {
  }

  lemma Flip<T(!new)>(cmp: (T, T) -> int, x: T, y: T)
    requires Comparison(cmp)
    ensures cmp(x, y) <= 0 <==> cmp(y, x) >= 0
  {
  }

  lemma {:induction false} RoundsPass<T(!new)>(cmp: (T, T) -> int, st: State<T>, k: nat)
    requires Comparison(cmp) && Ready(cmp, st) && Passed(cmp, st)
    ensures Passed(cmp, Rounds(cmp, st, k)) && multiset(Rounds(cmp, st, k).s) == multiset(st.s)
    decreases k
  {
    hide Comparison, Ready, Passed, Round;
    if k > 0 {
      RoundPasses(cmp, st);
      RoundsPass(cmp, Round(cmp, st), k - 1);
    }
  }

  /** The items before `sep` are not greater, and those behind it not less, than the one at `sep`. */
  ghost predicate SplitAt<T>(cmp: (T, T) -> int, t: seq<T>, sep: nat) {
    && sep < |t|
    && (forall i | 0 <= i < sep :: cmp(t[i], t[sep]) <= 0)
    && (forall i | sep < i < |t| :: cmp(t[sep], t[i]) <= 0)
  }

  /** The state in which the loop stops, for an input on which it does. */
  ghost function Partitioned<T(!new)>(cmp: (T, T) -> int, s: seq<T>): (st: State<T>)
    requires Comparison(cmp) && |s| >= 4 && Ready(cmp, Start(cmp, s)) && OneTie(cmp, Start(cmp, s))
    ensures st.Done? && Ready(cmp, st)
  {
    var st := Start(cmp, s);
    EventuallyDone(cmp, st, Measure(cmp, st) + 1);
    Rounds(cmp, st, Measure(cmp, st) + 1)
  }

  /** The partition separates the items around the pivot, which a last swap puts between them. */
  lemma PartitionedSplits<T(!new)>(cmp: (T, T) -> int, s: seq<T>)
    requires Comparison(cmp) && |s| >= 4 && Ready(cmp, Start(cmp, s)) && OneTie(cmp, Start(cmp, s))
    ensures var st := Partitioned(cmp, s); var t := Swap(st.s, 0, st.right);
      multiset(t) == multiset(s) && |t| == |s| && SplitAt(cmp, t, st.right)
  {
    hide OneTie, Comparison, Start, Passed, Ready, SplitAt, Swap, Measure;
    StartReady(cmp, s);
    StartPassed(cmp, s);
    RoundsPass(cmp, Start(cmp, s), Measure(cmp, Start(cmp, s)) + 1);
    DoneSplits(cmp, Partitioned(cmp, s));
    SameSize(Partitioned(cmp, s).s, s);
  }

  lemma DoneSplits<T(!new)>(cmp: (T, T) -> int, st: State<T>)
    requires Ready(cmp, st) && Passed(cmp, st) && st.Done?
    ensures multiset(Swap(st.s, 0, st.right)) == multiset(st.s) && SplitAt(cmp, Swap(st.s, 0, st.right), st.right)
  {
    SwapKeeps(st.s, 0, st.right);
  }

  lemma StartPassed<T(!new)>(cmp: (T, T) -> int, s: seq<T>)
    requires Comparison(cmp) && |s| >= 4 && Ready(cmp, Start(cmp, s))
    ensures Passed(cmp, Start(cmp, s))
  {
  }

  lemma SameSize<T>(s: seq<T>, t: seq<T>)
    requires multiset(s) == multiset(t)
    ensures |s| == |t|
  {
    assert |multiset(s)| == |s| && |multiset(t)| == |t|;
  }

  /* The whole sort. */

  /** At no level of the recursion does the partition loop stall. */
  ghost predicate NoStall<T(!new)>(cmp: (T, T) -> int, s: seq<T>)
    requires Comparison(cmp)
    decreases |s|
  {
    |s| < 4 ||
    (StartReady(cmp, s);
     OneTie(cmp, Start(cmp, s)) &&
     (PartitionedSplits(cmp, s);
      var st := Partitioned(cmp, s);
      var t := Swap(st.s, 0, st.right);
      NoStall(cmp, t[..st.right]) && NoStall(cmp, t[st.right + 1..])))
  }

  lemma WithoutOne<T>(cmp: (T, T) -> int, s: seq<T>, i: nat, x: T)
    requires i < |s|
    ensures multiset(Without(s, i)) == multiset(s) - multiset{s[i]}
    ensures Ties(cmp, s, x) == Ties(cmp, Without(s, i), x) + if cmp(s[i], x) == 0 then 1 else 0
  {
    RemoveOne(s, i);
    TiesRemoved(cmp, s, i, x);
    hide Without, Ties;
  }

  lemma RemoveOne<T>(s: seq<T>, i: nat)
    requires i < |s|
    ensures multiset(Without(s, i)) == multiset(s) - multiset{s[i]}
  {
    assert s == s[..i] + [s[i]] + s[i + 1..];
  }

  lemma TiesRemoved<T>(cmp: (T, T) -> int, s: seq<T>, i: nat, x: T)
    requires i < |s|
    ensures Ties(cmp, s, x) == Ties(cmp, Without(s, i), x) + if cmp(s[i], x) == 0 then 1 else 0
  {
    hide Ties;
    assert s == s[..i] + ([s[i]] + s[i + 1..]);
    TiesConcat(cmp, s[..i], [s[i]] + s[i + 1..], x);
    TiesConcat(cmp, [s[i]], s[i + 1..], x);
    TiesConcat(cmp, s[..i], s[i + 1..], x);
    TiesOne(cmp, s[i], x);
  }

  lemma TiesOne<T>(cmp: (T, T) -> int, y: T, x: T)
    ensures Ties(cmp, [y], x) == if cmp(y, x) == 0 then 1 else 0
  {
    assert [y][1..] == [];
  }

  lemma {:induction false} TiesPermuted<T(!new)>(cmp: (T, T) -> int, s: seq<T>, t: seq<T>, x: T)
    requires multiset(s) == multiset(t)
    ensures Ties(cmp, s, x) == Ties(cmp, t, x)
    decreases |s|
  {
    hide Without, Ties;
    SameSize(s, t);
    if s == [] {
      assert t == [];
    } else {
      assert s[0] in multiset(t);
      var i :| 0 <= i < |t| && t[i] == s[0];
      WithoutOne(cmp, s, 0, x);
      WithoutOne(cmp, t, i, x);
      SmallerWithout(s, 0);
      TiesPermuted(cmp, Without(s, 0), Without(t, i), x);
    }
  }

  lemma SmallerWithout<T>(s: seq<T>, i: nat)
    requires i < |s|
    ensures |Without(s, i)| < |s|
  {
  }

  /** No three items tie with each other. */
  ghost predicate AtMostTwoAlike<T(!new)>(cmp: (T, T) -> int, s: seq<T>) {
    forall x :: Ties(cmp, s, x) <= 2
  }

  lemma TiesAt<T(!new)>(cmp: (T, T) -> int, s: seq<T>, i: nat, x: T)
    requires i < |s| && cmp(s[i], x) == 0
    ensures Ties(cmp, s, x) == Ties(cmp, s[..i], x) + 1 + Ties(cmp, s[i + 1..], x)
  {
    assert s == s[..i] + s[i..];
    TiesConcat(cmp, s[..i], s[i..], x);
    assert s[i..][1..] == s[i + 1..];
  }

  lemma ThreeTies<T(!new)>(cmp: (T, T) -> int, s: seq<T>, i: nat, j: nat)
    requires 0 < i < j < |s| && cmp(s[0], s[0]) == 0 && Tie(cmp, s, i) && Tie(cmp, s, j)
    ensures Ties(cmp, s, s[0]) >= 3
  {
    TiesAt(cmp, s, j, s[0]);
    assert s[..j][i] == s[i];
    TiesAt(cmp, s[..j], i, s[0]);
    TiesAt(cmp, s[..j][..i], 0, s[0]);
  }

  lemma PartsAlike<T(!new)>(cmp: (T, T) -> int, s: seq<T>, t: seq<T>, k: nat)
    requires multiset(s) == multiset(t) && AtMostTwoAlike(cmp, s) && k < |t|
    ensures AtMostTwoAlike(cmp, t[..k]) && AtMostTwoAlike(cmp, t[k + 1..])
  {
    forall x ensures Ties(cmp, t[..k], x) <= 2 { PartTies(cmp, s, t, k, x); }
    var right := t[k + 1..];
    forall x ensures Ties(cmp, right, x) <= 2 { PartTies(cmp, s, t, k, x); }
  }

  lemma PartTies<T(!new)>(cmp: (T, T) -> int, s: seq<T>, t: seq<T>, k: nat, x: T)
    requires multiset(s) == multiset(t) && k < |t|
    ensures Ties(cmp, t[..k], x) <= Ties(cmp, s, x) && Ties(cmp, t[k + 1..], x) <= Ties(cmp, s, x)
  {
    TiesPermuted(cmp, s, t, x);
    assert t == t[..k] + ([t[k]] + t[k + 1..]);
    TiesConcat(cmp, t[..k], [t[k]] + t[k + 1..], x);
    TiesConcat(cmp, [t[k]], t[k + 1..], x);
  }

  /** qsort terminates for every array in which no three items tie with each other. */
  lemma {:induction false} FewTiesNoStall<T(!new)>(cmp: (T, T) -> int, s: seq<T>)
    requires Comparison(cmp) && AtMostTwoAlike(cmp, s)
    ensures NoStall(cmp, s)
    decreases |s|
  {
    if |s| >= 4 {
      StartReady(cmp, s);
      var b := Start(cmp, s);
      if !OneTie(cmp, b) {
        var i, j :| b.left <= i < j <= b.right && Tie(cmp, b.s, i) && Tie(cmp, b.s, j);
        ThreeTies(cmp, b.s, i, j);
        TiesPermuted(cmp, s, b.s, b.s[0]);
        assert false;
      }
      PartitionedSplits(cmp, s);
      var st := Partitioned(cmp, s);
      var t := Swap(st.s, 0, st.right);
      PartsAlike(cmp, s, t, st.right);
      FewTiesNoStall(cmp, t[..st.right]);
      FewTiesNoStall(cmp, t[st.right + 1..]);
    }
  }

  /** Pairwise unequal items are no three that tie. */
  lemma DistinctFewTies<T(!new)>(cmp: (T, T) -> int, s: seq<T>)
    requires Comparison(cmp) && forall i, j | 0 <= i < j < |s| :: cmp(s[i], s[j]) != 0
    ensures AtMostTwoAlike(cmp, s)
  {
    forall x ensures Ties(cmp, s, x) <= 2 { DistinctOneTie(cmp, s, x); }
  }

  lemma {:induction false} DistinctOneTie<T(!new)>(cmp: (T, T) -> int, s: seq<T>, x: T)
    requires Comparison(cmp) && forall i, j | 0 <= i < j < |s| :: cmp(s[i], s[j]) != 0
    ensures Ties(cmp, s, x) <= 1
  {
    if s != [] {
      DistinctOneTie(cmp, s[1..], x);
      if cmp(s[0], x) == 0 {
        forall i | 0 <= i < |s[1..]| ensures cmp(s[1..][i], x) != 0 {
          assert s[1..][i] == s[i + 1];
          if cmp(s[i + 1], x) == 0 { TieTransitive(cmp, s[0], x, s[i + 1]); }
        }
        NoTies(cmp, s[1..], x);
      }
    }
  }

  lemma TieTransitive<T(!new)>(cmp: (T, T) -> int, x: T, y: T, z: T)
    requires Comparison(cmp) && cmp(x, y) == 0 && cmp(z, y) == 0
    ensures cmp(x, z) == 0 && cmp(z, x) == 0
  {
    assert cmp(y, z) == 0 && cmp(y, x) == 0;
  }

  lemma {:induction false} NoTies<T>(cmp: (T, T) -> int, s: seq<T>, x: T)
    requires forall i | 0 <= i < |s| :: cmp(s[i], x) != 0
    ensures Ties(cmp, s, x) == 0
  {
    if s != [] {
      forall i | 0 <= i < |s[1..]| ensures cmp(s[1..][i], x) != 0 { assert s[1..][i] == s[i + 1]; }
      NoTies(cmp, s[1..], x);
    }
  }

  /* The other half: four items that tie always stall. */

  /** The rounds leave the pivot first. */
  lemma {:induction false} PivotStays<T(!new)>(cmp: (T, T) -> int, st: State<T>, k: nat)
    requires Ready(cmp, st)
    ensures Rounds(cmp, st, k).s[0] == st.s[0]
    decreases k
  {
    if k > 0 { PivotStays(cmp, Round(cmp, st), k - 1); }
  }

  /** With one tie between the ends at most three items tie with the pivot. */
  lemma PivotTies<T(!new)>(cmp: (T, T) -> int, st: State<T>)
    requires Comparison(cmp) && Ready(cmp, st) && st.Again? && OneTie(cmp, st) && st.left == 1 && st.right == |st.s| - 2
    ensures Ties(cmp, st.s, st.s[0]) <= 3
  {
    var s, n, x := st.s, |st.s|, st.s[0];
    var mid := s[1..n - 1];
    assert s == [x] + (mid + [s[n - 1]]);
    TiesConcat(cmp, [x], mid + [s[n - 1]], x);
    TiesConcat(cmp, mid, [s[n - 1]], x);
    TiesOne(cmp, x, x);
    TiesOne(cmp, s[n - 1], x);
    forall i, j | 0 <= i < j < |mid| ensures !(cmp(mid[i], x) == 0 && cmp(mid[j], x) == 0) {
      assert mid[i] == s[i + 1] && mid[j] == s[j + 1];
      assert !(Tie(cmp, s, i + 1) && Tie(cmp, s, j + 1));
    }
    OnlyOneTies(cmp, mid, x);
  }

  lemma {:induction false} OnlyOneTies<T>(cmp: (T, T) -> int, s: seq<T>, x: T)
    requires forall i, j | 0 <= i < j < |s| :: !(cmp(s[i], x) == 0 && cmp(s[j], x) == 0)
    ensures Ties(cmp, s, x) <= 1
  {
    if s != [] {
      forall i | 0 <= i < |s[1..]| ensures s[1..][i] == s[i + 1] { }
      OnlyOneTies(cmp, s[1..], x);
      if cmp(s[0], x) == 0 { NoTies(cmp, s[1..], x); }
    }
  }

  /** Items that tie, but not with the pivot, are on one side of it. */
  lemma OneSide<T(!new)>(cmp: (T, T) -> int, t: seq<T>, k: nat, x: T)
    requires Comparison(cmp) && SplitAt(cmp, t, k) && cmp(t[k], x) != 0
    ensures Ties(cmp, t, x) == Ties(cmp, t[..k], x) || Ties(cmp, t, x) == Ties(cmp, t[k + 1..], x)
  {
    var left, right := t[..k], t[k + 1..];
    assert t == left + ([t[k]] + right);
    TiesConcat(cmp, left, [t[k]] + right, x);
    TiesConcat(cmp, [t[k]], right, x);
    TiesOne(cmp, t[k], x);
    if cmp(t[k], x) < 0 {
      forall i | 0 <= i < |left| ensures cmp(left[i], x) != 0 { BelowBelow(cmp, left[i], t[k], x); }
      NoTies(cmp, left, x);
    } else {
      forall i | 0 <= i < |right| ensures cmp(right[i], x) != 0 { BelowBelow(cmp, x, t[k], right[i]); }
      NoTies(cmp, right, x);
    }
  }

  lemma BelowBelow<T(!new)>(cmp: (T, T) -> int, x: T, y: T, z: T)
    requires Comparison(cmp) && cmp(x, y) <= 0 && cmp(y, z) <= 0 && !(cmp(x, y) == 0 && cmp(y, z) == 0)
    ensures cmp(x, z) != 0 && cmp(z, x) != 0
  {
    assert cmp(z, x) <= 0 && cmp(x, y) <= 0 ==> cmp(z, y) <= 0;
    assert cmp(y, z) <= 0 && cmp(z, x) <= 0 ==> cmp(y, x) <= 0;
  }

  /** What a partition that ends leaves: the pivot, with its ties counted, at its place, and two parts. */
  lemma NoStallSplit<T(!new)>(cmp: (T, T) -> int, s: seq<T>) returns (t: seq<T>, k: nat)
    requires Comparison(cmp) && NoStall(cmp, s) && |s| >= 4
    ensures multiset(t) == multiset(s) && |t| == |s| && SplitAt(cmp, t, k) && Ties(cmp, s, t[k]) <= 3
    ensures NoStall(cmp, t[..k]) && NoStall(cmp, t[k + 1..])
  {
    hide Comparison, OneTie, SplitAt, Ties, Rounds;
    StartReady(cmp, s);
    PartitionedSplits(cmp, s);
    var start, st := Start(cmp, s), Partitioned(cmp, s);
    PivotStays(cmp, start, Measure(cmp, start) + 1);
    SwapKeeps(st.s, 0, st.right);
    PivotTies(cmp, start);
    TiesPermuted(cmp, s, start.s, start.s[0]);
    t, k := Swap(st.s, 0, st.right), st.right;
  }

  /** qsort returns only where no four items tie: four that do, anywhere in the array, stall some partition. */
  lemma {:induction false} FourTies<T(!new)>(cmp: (T, T) -> int, s: seq<T>, x: T)
    requires Comparison(cmp) && NoStall(cmp, s)
    ensures Ties(cmp, s, x) <= 3
    decreases |s|
  {
    hide Comparison, NoStall, Ties;
    if |s| < 4 {
      TiesAtMost(cmp, s, x);
    } else {
      var t, k := NoStallSplit(cmp, s);
      TiesPermuted(cmp, s, t, x);
      if cmp(t[k], x) == 0 {
        SameTies(cmp, s, t[k], x);
      } else {
        OneSide(cmp, t, k, x);
        FourTies(cmp, t[..k], x);
        FourTies(cmp, t[k + 1..], x);
      }
    }
  }

  lemma {:induction false} TiesAtMost<T>(cmp: (T, T) -> int, s: seq<T>, x: T)
    ensures Ties(cmp, s, x) <= |s|
  {
    if s != [] { TiesAtMost(cmp, s[1..], x); }
  }

  /** Items that tie have the same ties. */
  lemma {:induction false} SameTies<T(!new)>(cmp: (T, T) -> int, s: seq<T>, x: T, y: T)
    requires Comparison(cmp) && cmp(x, y) == 0
    ensures Ties(cmp, s, x) == Ties(cmp, s, y)
  {
    if s != [] {
      SameTies(cmp, s[1..], x, y);
      TieBoth(cmp, s[0], x, y);
    }
  }

  lemma TieBoth<T(!new)>(cmp: (T, T) -> int, z: T, x: T, y: T)
    requires Comparison(cmp) && cmp(x, y) == 0
    ensures cmp(z, x) == 0 <==> cmp(z, y) == 0
  {
    assert cmp(y, x) == 0;
    if cmp(z, x) == 0 { TieTransitive(cmp, z, x, y); }
    if cmp(z, y) == 0 { TieTransitive(cmp, z, y, x); }
  }

  /** Four items are partitioned once. */
  lemma NoStallOfFour<T(!new)>(cmp: (T, T) -> int, s: seq<T>)
    requires Comparison(cmp) && |s| == 4
    ensures Ready(cmp, Start(cmp, s)) && (NoStall(cmp, s) <==> OneTie(cmp, Start(cmp, s)))
  {
    hide Comparison, Start, OneTie, Ready, Swap;
    StartReady(cmp, s);
    if OneTie(cmp, Start(cmp, s)) { PartitionedSplits(cmp, s); }
  }

  function Minus(a: int, b: int): int { a - b }

  /** The smallest input on which qsort does not terminate. */
  lemma FourEqualStall(x: int)
    ensures Comparison(Minus) && !NoStall(Minus, [x, x, x, x])
  {
    hide NoStall;
    var s := [x, x, x, x];
    NoStallOfFour(Minus, s);
    assert Start(Minus, s).s == s && Tie(Minus, s, 1) && Tie(Minus, s, 2);
  }

  /** Between the two bounds the places decide: three items that tie can stall or not. */
  lemma ThreeTiesEither(x: int)
    ensures Comparison(Minus) && NoStall(Minus, [x, x + 1, x, x]) && !NoStall(Minus, [x, x, x, x + 1])
  {
    hide NoStall;
    var s, t := [x, x + 1, x, x], [x, x, x, x + 1];
    NoStallOfFour(Minus, s);
    NoStallOfFour(Minus, t);
    assert Start(Minus, s).s == s && Start(Minus, t).s == t;
    assert Tie(Minus, t, 1) && Tie(Minus, t, 2);
  }
}
