/** The physical page allocator of src/mem.c: a bitmap searched 32 pages at a time,
    with a hint that says where a search for a free page may begin. */
module Pages {
  /** A 32-bit word of the bitmap as its bits, lowest first; a set bit is a used page. */
  type Word = w: seq<bool> | |w| == 32 witness seq(32, _ => false)

  const FULL: Word := seq(32, _ => true)   // 0xffffffff

  /** One flag a page, true for a free page: what the bitmap means. */
  type FreeMap = seq<bool>

  datatype Area = Heap | Stack

  /** The pages pg, .., pg+count-1 exist and are free; pg itself always must be. */
  predicate RunFree(view: FreeMap, pg: int, count: int) {
    0 <= pg < |view| && view[pg] && AllFree(view, pg, count)
  }

  predicate AllFree(view: FreeMap, pg: nat, count: int) {
    pg + count <= |view| && forall k | pg <= k < pg + count :: view[k]
  }

  /** No start in lo..hi-1 has the run. */
  ghost predicate NoRun(view: FreeMap, lo: int, hi: int, count: int) {
    forall pg | lo <= pg < hi :: !RunFree(view, pg, count)
  }

  /** No page below n is free. */
  ghost predicate NoneFree(view: FreeMap, n: int) {
    forall pg | 0 <= pg < n && pg < |view| :: !view[pg]
  }

  function MarkRange(view: FreeMap, pg: int, count: int, free: bool): (r: FreeMap)
    ensures |r| == |view|
  {
    seq(|view|, k requires 0 <= k < |view| => if pg <= k < pg + count then free else view[k])
  }

  /** Page-by-page search upwards from `from`, -1 when no start below `limit` fits. */
  function FirstFit(view: FreeMap, from: nat, limit: nat, count: int): int
    decreases limit - from
  {
    if from >= limit then -1
    else if RunFree(view, from, count) then from
    else FirstFit(view, from + 1, limit, count)
  }

  /** Page-by-page search downwards from limit-1, -1 when no start fits. */
  function LastFit(view: FreeMap, limit: nat, count: int): int
  {
    if limit == 0 then -1
    else if RunFree(view, limit - 1, count) then limit - 1
    else LastFit(view, limit - 1, count)
  }

  /** FirstFit is the lowest fitting start, and -1 exactly when there is none. */
  lemma {:induction false} FirstFitIsLowest(view: FreeMap, from: nat, limit: nat, count: int)
    ensures var r := FirstFit(view, from, limit, count);
      && (r == -1 <==> NoRun(view, from, limit, count))
      && (r != -1 ==> from <= r < limit && RunFree(view, r, count) && NoRun(view, from, r, count))
    decreases limit - from
  {
    if from < limit && !RunFree(view, from, count) {
      FirstFitIsLowest(view, from + 1, limit, count);
    }
  }

  /** LastFit is the highest fitting start, and -1 exactly when there is none. */
  lemma {:induction false} LastFitIsHighest(view: FreeMap, limit: nat, count: int)
    ensures var r := LastFit(view, limit, count);
      && (r == -1 <==> NoRun(view, 0, limit, count))
      && (r != -1 ==> 0 <= r < limit && RunFree(view, r, count) && NoRun(view, r + 1, limit, count))
  {
    if limit > 0 && !RunFree(view, limit - 1, count) {
      LastFitIsHighest(view, limit - 1, count);
    }
  }

  lemma FirstFitUnique(view: FreeMap, limit: nat, count: int, word: int, r: int)
    requires 0 <= word <= r < limit && RunFree(view, r, count)
    requires NoRun(view, 0, word, count) && NoRun(view, word, r, count)
    ensures FirstFit(view, 0, limit, count) == r
  {
    FirstFitIsLowest(view, 0, limit, count);
  }

  lemma LastFitUnique(view: FreeMap, limit: nat, count: int, word: int, r: int)
    requires 0 <= r < word <= limit && RunFree(view, r, count)
    requires NoRun(view, r + 1, word, count) && NoRun(view, word, limit, count)
    ensures LastFit(view, limit, count) == r
  {
    LastFitIsHighest(view, limit, count);
  }

  /** Where a downward search starts; (bmsize - 1) / 4 truncates to word 0 when bmsize is 0. */
  function StackLimit(nwords: nat): nat {
    if nwords == 0 then 32 else 32 * nwords
  }

  /** What a page-by-page search of the first `nwords` words finds. */
  function Search(view: FreeMap, nwords: nat, count: int, area: Area): int {
    if area.Stack? then LastFit(view, StackLimit(nwords), count) else FirstFit(view, 0, 32 * nwords, count)
  }

  /** MEM_HEAP gets the lowest start of a free run in the first words, MEM_STACK the highest, and -1 means that there is
      none. */
  ghost predicate Extreme(view: FreeMap, nwords: nat, count: int, area: Area, pg: int) {
    match area
    case Heap =>
      if pg == -1 then NoRun(view, 0, 32 * nwords, count)
      else 0 <= pg < 32 * nwords && RunFree(view, pg, count) && NoRun(view, 0, pg, count)
    case Stack =>
      if pg == -1 then NoRun(view, 0, StackLimit(nwords), count)
      else 0 <= pg < StackLimit(nwords) && RunFree(view, pg, count) && NoRun(view, pg + 1, StackLimit(nwords), count)
  }

  /** Which is the only such page. */
  lemma SearchExactly(view: FreeMap, nwords: nat, count: int, area: Area, pg: int)
    ensures pg == Search(view, nwords, count, area) <==> Extreme(view, nwords, count, area, pg)
  {
    FirstFitIsLowest(view, 0, 32 * nwords, count);
    LastFitIsHighest(view, StackLimit(nwords), count);
  }

  lemma FullWordNoRun(view: FreeMap, idx: nat, count: int)
    requires 32 * (idx + 1) <= |view| && forall k | 32 * idx <= k < 32 * (idx + 1) :: !view[k]
    ensures NoRun(view, 32 * idx, 32 * (idx + 1), count)
    ensures NoneFree(view, 32 * idx) ==> NoneFree(view, 32 * (idx + 1))
  {
  }

  /** Marking pages used frees none. */
  lemma MarkedUsed(view: FreeMap, pg: int, count: int, n: int)
    ensures NoneFree(view, n) ==> NoneFree(MarkRange(view, pg, count, false), n)
    ensures forall k | 0 <= k < |view| && !view[k] :: !MarkRange(view, pg, count, false)[k]
  {
  }

  class PageAllocator {
    /** Every word of the bitmap; only the first `nwords` (bmsize / 4) are searched. */
    const bitmap: array<Word>
    const nwords: nat
    var hint: nat      // last_alloc_idx
    var intr: bool     // the processor's interrupt flag

    ghost predicate WellFormed()
      reads this, bitmap
    {
      && nwords <= bitmap.Length && 0 < bitmap.Length
         // a used page past every run that a search can look at
      && !View()[32 * bitmap.Length - 1]
    }

    ghost function View(): (view: FreeMap)
      reads bitmap
      ensures |view| == 32 * bitmap.Length
    {
      seq(32 * bitmap.Length,
          pg requires 0 <= pg < 32 * bitmap.Length reads bitmap => !bitmap[pg / 32][pg % 32])
    }

    /** "All the elements before this have no free pages." */
    ghost predicate HintOk()
      reads this, bitmap
    {
      hint <= nwords <= bitmap.Length && NoneFree(View(), 32 * hint)
    }

    ghost predicate Valid()
      reads this, bitmap
    {
      WellFormed() && HintOk()
    }

    function IsFree(pg: nat): (free: bool)
      requires pg < 32 * bitmap.Length
      reads bitmap
      ensures free == View()[pg]
    {
      !bitmap[pg / 32][pg % 32]
    }

    method MarkPage(pg: nat, used: bool)
      requires pg < 32 * bitmap.Length
      modifies bitmap
      ensures View() == old(View())[pg := !used]
    {
      var idx, bit := pg / 32, pg % 32;
      bitmap[idx] := bitmap[idx][bit := used];
    }

    /** Validates the run first; marks all of it or none of it.  A failure leaves interrupts disabled. */
    method AllocPageRange(start: nat, size: int) returns (ok: bool)
      requires WellFormed()
      requires start < 32 * bitmap.Length
      modifies this`intr, bitmap
      ensures ok <==> AllFree(old(View()), start, size)
      ensures View() == if ok then MarkRange(old(View()), start, size, false) else old(View())
      ensures intr == (ok && old(intr))
    {
      var intrState := intr;
      intr := false;
      var i, pg := 0, start;
      while i < size
        invariant 0 <= i && pg == start + i && (i <= size || i == 0)
        invariant pg < 32 * bitmap.Length
        invariant forall k | start <= k < start + i :: View()[k]
      {
        assert !View()[32 * bitmap.Length - 1];
        if !IsFree(pg) {
          return false;
        }
        pg := pg + 1;
        i := i + 1;
      }
      ghost var before := View();
      pg := start;
      i := 0;
      while i < size
        invariant 0 <= i && pg == start + i && (i <= size || i == 0)
        invariant View() == MarkRange(before, start, i, false)
      {
        MarkPage(pg, true);
        pg := pg + 1;
        i := i + 1;
      }
      intr := intrState;
      ok := true;
    }

    /** The word-at-a-time test: a word of all ones has no free page. */
    lemma FullWordHasNone(idx: nat)
      requires idx < bitmap.Length && bitmap[idx] == FULL
      ensures forall k | 32 * idx <= k < 32 * (idx + 1) :: !View()[k]
    {
    }

    /** The inner loop of the search: tries the 32 pages of one word, in the direction of the search. */
    method SearchWord(idx: nat, dir: int, count: int, found: bool) returns (pg: int, foundFree: bool)
      requires Valid() && idx < bitmap.Length
      requires dir == 1 || dir == -1
      requires dir == 1 ==> hint <= idx < nwords
      requires dir == 1 && !found ==> NoneFree(View(), 32 * idx)
      requires !intr
      modifies this, bitmap
      ensures Valid()
      ensures pg == -1 ==> View() == old(View()) && !intr && NoRun(View(), 32 * idx, 32 * (idx + 1), count)
      ensures pg != -1 ==> 32 * idx <= pg < 32 * (idx + 1) && RunFree(old(View()), pg, count)
      ensures pg != -1 && dir == 1 ==> NoRun(old(View()), 32 * idx, pg, count)
      ensures pg != -1 && dir == -1 ==> NoRun(old(View()), pg + 1, 32 * (idx + 1), count)
      ensures pg != -1 ==> View() == MarkRange(old(View()), pg, count, false)
      ensures if dir == 1 then hint <= idx else hint == old(hint)
      ensures dir == 1 && !foundFree ==> NoneFree(View(), 32 * (idx + 1))
    {
      hide View, AllFree, MarkRange;
      ghost var view := View();
      foundFree := found;
      pg := idx * 32;
      if dir < 0 {
        pg := pg + 31;
      }
      var i := 0;
      while i < 32
        invariant 0 <= i <= 32
        invariant pg == idx * 32 + (if dir > 0 then i else 31 - i)
        invariant Valid() && View() == view && !intr
        invariant if dir == 1 then hint <= idx else hint == old(hint)
        invariant !foundFree && dir == 1 ==> NoneFree(view, pg)
        invariant dir == 1 ==> NoRun(view, 32 * idx, pg, count)
        invariant dir == -1 ==> NoRun(view, pg + 1, 32 * (idx + 1), count)
      {
        if IsFree(pg) {
          if !foundFree && dir > 0 {
            hint := idx;
            foundFree := true;
          }
          var ok := AllocPageRange(pg, count);
          if ok {
            MarkedUsed(view, pg, count, 32 * hint);
            return;
          }
        }
        pg := pg + dir;
        i := i + 1;
      }
      pg := -1;
    }

    /** The word-skipping search from the hint finds exactly what the page-by-page search of all words finds. */
    method AllocPages(count: int, area: Area) returns (pg: int)
      requires Valid()
      modifies this, bitmap
      ensures Valid() && intr == old(intr)
      ensures pg == Search(old(View()), nwords, count, area)
      ensures pg != -1 ==> RunFree(old(View()), pg, count)
      ensures area.Heap? ==> if pg == -1 then NoRun(old(View()), 0, 32 * nwords, count)
                             else 0 <= pg < 32 * nwords && NoRun(old(View()), 0, pg, count)
      ensures area.Stack? ==> if pg == -1 then NoRun(old(View()), 0, StackLimit(nwords), count)
                              else 0 <= pg < StackLimit(nwords) && NoRun(old(View()), pg + 1, StackLimit(nwords), count)
      ensures View() == if pg == -1 then old(View()) else MarkRange(old(View()), pg, count, false)
    {
      var intrState := intr;
      intr := false;
      var idx, max, dir;
      if area.Stack? {
        idx := if nwords == 0 then 0 else nwords - 1;
        max := -1;
        dir := -1;
      } else {
        idx := hint;
        max := nwords;
        dir := 1;
      }
      ghost var view := View();
      var foundFree := false;
      pg := -1;
      while idx != max
        invariant Valid() && View() == view && !intr
        invariant if dir == 1 then area.Heap? && max == nwords && hint <= idx <= max
                  else dir == -1 && area.Stack? && max == -1 <= idx < bitmap.Length
        invariant dir == 1 && !foundFree ==> NoneFree(view, 32 * idx)
        invariant dir == 1 ==> NoRun(view, 0, 32 * idx, count)
        invariant dir == -1 ==> NoRun(view, 32 * (idx + 1), StackLimit(nwords), count)
        invariant pg == -1
        decreases if dir > 0 then max - idx else idx + 1
      {
        if bitmap[idx] != FULL {
          pg, foundFree := SearchWord(idx, dir, count, foundFree);
          if pg != -1 {
            if dir == 1 {
              FirstFitUnique(view, 32 * nwords, count, 32 * idx, pg);
            } else {
              LastFitUnique(view, StackLimit(nwords), count, 32 * (idx + 1), pg);
            }
            intr := intrState;
            return;
          }
        } else {
          FullWordHasNone(idx);
          FullWordNoRun(view, idx, count);
        }
        idx := idx + dir;
      }
      FirstFitIsLowest(view, 0, 32 * nwords, count);
      LastFitIsHighest(view, StackLimit(nwords), count);
      intr := intrState;
    }

    /** Frees one used page; a page that is already free is a panic, which returns false here.
        The page past all runs is never handed out, so never freed. */
    method FreePage(pg: nat) returns (ok: bool)
      requires Valid() && pg < 32 * bitmap.Length - 1
      modifies this, bitmap
      ensures Valid()
      ensures ok == !old(View())[pg]
      ensures View() == old(View())[pg := true]
      ensures intr == (ok && old(intr))
    {
      var bmidx := pg / 32;
      var intrState := intr;
      intr := false;
      if IsFree(pg) {
        return false;
      }
      MarkPage(pg, false);
      if bmidx < hint {
        hint := bmidx;
      }
      intr := intrState;
      ok := true;
    }

    /** Frees a run page by page, up to the first page that is already free. */
    method FreePages(pg0: nat, count: int) returns (ok: bool)
      requires Valid() && pg0 + count < 32 * bitmap.Length
      modifies this, bitmap
      ensures Valid()
      ensures ok <==> forall k | pg0 <= k < pg0 + count :: !old(View())[k]
      ensures ok ==> View() == MarkRange(old(View()), pg0, count, true) && intr == old(intr)
    {
      var i, pg := 0, pg0;
      while i < count
        invariant 0 <= i && pg == pg0 + i && (i <= count || i == 0)
        invariant Valid() && intr == old(intr)
        invariant forall k | pg0 <= k < pg :: !old(View())[k]
        invariant forall k | pg0 <= k < pg :: View()[k]
        invariant forall k | 0 <= k < |View()| && !(pg0 <= k < pg) :: View()[k] == old(View())[k]
      {
        ok := FreePage(pg);
        if !ok {
          return;
        }
        pg := pg + 1;
        i := i + 1;
      }
      ok := true;
    }
  }

  /* Whole runs of allocations and matching frees. */

  datatype Run = Run(start: nat, count: nat)

  datatype Op = Alloc(count: nat, area: Area) | Free(run: Run)

  /** The map and the runs handed out and not given back. */
  datatype State = State(view: FreeMap, out: set<Run>)

  function Step(s: State, nwords: nat, op: Op): State {
    match op
    case Alloc(count, area) =>
      var pg := Search(s.view, nwords, count, area);
      if pg < 0 || count == 0 then s
      else State(MarkRange(s.view, pg, count, false), s.out + {Run(pg, count)})
    case Free(r) =>
      if r !in s.out then s
      else State(MarkRange(s.view, r.start, r.count, true), s.out - {r})
  }

  predicate Covers(r: Run, pg: int) {
    r.start <= pg < r.start + r.count
  }

  /** A page is free exactly when it was free in `base` and no outstanding run covers it. */
  ghost predicate Accounted(base: FreeMap, s: State) {
    && |s.view| == |base|
    && (forall r, pg | r in s.out && Covers(r, pg) :: pg < |base| && base[pg] && !s.view[pg])
    && (forall r, q, pg | r in s.out && q in s.out && Covers(r, pg) && Covers(q, pg) :: r == q)
    && (forall pg | 0 <= pg < |base| && s.view[pg] != base[pg] :: exists r :: r in s.out && Covers(r, pg))
  }

  lemma StepKeepsAccount(base: FreeMap, s: State, nwords: nat, op: Op)
    requires Accounted(base, s)
    ensures Accounted(base, Step(s, nwords, op))
  {
    match op
    case Alloc(count, area) =>
      var pg := Search(s.view, nwords, count, area);
      FirstFitIsLowest(s.view, 0, 32 * nwords, count);
      LastFitIsHighest(s.view, StackLimit(nwords), count);
      if 0 <= pg && count != 0 {
        AddRun(base, s, Run(pg, count));
      }
    case Free(r) =>
      if r in s.out {
        RemoveRun(base, s, r);
      }
  }

  lemma AddRun(base: FreeMap, s: State, r: Run)
    requires Accounted(base, s) && AllFree(s.view, r.start, r.count)
    ensures Accounted(base, State(MarkRange(s.view, r.start, r.count, false), s.out + {r}))
  {
    var t := State(MarkRange(s.view, r.start, r.count, false), s.out + {r});
    forall q, pg | q in s.out && Covers(q, pg)
      ensures !Covers(r, pg)
    {
    }
    forall pg | 0 <= pg < |base| && t.view[pg] != base[pg]
      ensures exists q :: q in t.out && Covers(q, pg)
    {
      if Covers(r, pg) {
        assert r in t.out;
      } else {
        var q :| q in s.out && Covers(q, pg);
        assert q in t.out;
      }
    }
    forall pg | Covers(r, pg)
      ensures base[pg]
    {
      assert s.view[pg];
    }
  }

  lemma RemoveRun(base: FreeMap, s: State, r: Run)
    requires Accounted(base, s) && r in s.out
    ensures Accounted(base, State(MarkRange(s.view, r.start, r.count, true), s.out - {r}))
  {
    var t := State(MarkRange(s.view, r.start, r.count, true), s.out - {r});
    forall pg | 0 <= pg < |base| && t.view[pg] != base[pg]
      ensures exists q :: q in t.out && Covers(q, pg)
    {
      var q :| q in s.out && Covers(q, pg);
      assert q in t.out;
    }
  }

  function RunAll(s: State, nwords: nat, ops: seq<Op>): State
    decreases |ops|
  {
    if ops == [] then s else RunAll(Step(s, nwords, ops[0]), nwords, ops[1..])
  }

  /** Over every run, every page is accounted for, so giving everything back restores the map bit for bit. */
  lemma {:induction false} RunsRestore(base: FreeMap, s: State, nwords: nat, ops: seq<Op>)
    requires Accounted(base, s)
    ensures Accounted(base, RunAll(s, nwords, ops))
    ensures RunAll(s, nwords, ops).out == {} ==> RunAll(s, nwords, ops).view == base
    decreases |ops|
  {
    if ops != [] {
      StepKeepsAccount(base, s, nwords, ops[0]);
      RunsRestore(base, Step(s, nwords, ops[0]), nwords, ops[1..]);
    }
  }
}
