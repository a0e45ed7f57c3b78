/** The heap as a value: the pool, the blocks handed out, and the bytes accounted for, over whole runs. */
module HeapRuns {
  import opened HeapSpec
  import opened Seqs
  import opened Words
  import Pages

  /** `got` counts the bytes obtained from pages, `lost` the bytes that near fits gave up. */
  datatype State = State(pool: Pool, live: seq<Block>, got: nat, lost: nat, mallocs: nat)

  const NULL: nat := 0

  /** The addresses of pages that the page allocator has handed out. */
  predicate OnUsedPage(view: Pages.FreeMap, a: int) {
    0 <= a < PAGE * |view| && !view[a / PAGE]
  }

  ghost predicate LiveOk(live: seq<Block>) {
    && (forall i | 0 <= i < |live| :: WellSized(live[i]))
    && (forall i, j | 0 <= i < j < |live| :: live[i].End() <= live[j].addr || live[j].End() <= live[i].addr)
  }

  ghost predicate Disjoint(xs: seq<Block>, ys: seq<Block>) {
    forall a | Covered(xs, a) :: !Covered(ys, a)
  }

  ghost predicate OnUsedPages(view: Pages.FreeMap, bs: seq<Block>) {
    forall a | Covered(bs, a) :: OnUsedPage(view, a)
  }

  /** Pool blocks lie in address order, no two blocks of either kind overlap, all lie on used pages, and
      every byte obtained is in the pool, in a live block, or among at most 20 bytes lost by each malloc. */
  ghost predicate Inv(s: State, view: Pages.FreeMap) {
    && Sorted(s.pool) && LiveOk(s.live) && Disjoint(s.live, s.pool)
    && OnUsedPages(view, s.pool) && OnUsedPages(view, s.live)
    && s.got == Bytes(s.pool) + Bytes(s.live) + s.lost
    && s.lost <= 20 * s.mallocs
  }

  lemma ApartFrom(b: Block, bs: seq<Block>)
    requires b.size > 0 && forall i | 0 <= i < |bs| :: bs[i].size > 0
    requires forall a | In(b, a) :: !Covered(bs, a)
    ensures Apart(b, bs)
  {
    forall i | 0 <= i < |bs|
      ensures b.End() <= bs[i].addr || bs[i].End() <= b.addr
    {
      assert In(b, b.addr) && (In(bs[i], b.addr) ==> Covered(bs, b.addr));
      assert In(b, bs[i].addr) ==> Covered(bs, bs[i].addr);
      assert In(bs[i], bs[i].addr);
    }
  }

  /* free */

  function IndexOf(live: seq<Block>, addr: int): (i: nat)
    ensures i <= |live| && (i < |live| ==> live[i].addr == addr) && (forall j | 0 <= j < i :: live[j].addr != addr)
  {
    if live == [] || live[0].addr == addr then 0 else 1 + IndexOf(live[1..], addr)
  }

  predicate IsLive(s: State, addr: int) {
    IndexOf(s.live, addr) < |s.live|
  }

  /** Frees the live block whose descriptor is at `addr`. */
  function Release(s: State, addr: int): State
    requires IsLive(s, addr)
  {
    var i := IndexOf(s.live, addr);
    s.(pool := Insert(s.pool, s.live[i]), live := Without(s.live, i))
  }

  lemma WithoutCovers(live: seq<Block>, i: nat)
    requires LiveOk(live) && i < |live|
    ensures LiveOk(Without(live, i))
    ensures Bytes(live) == Bytes(Without(live, i)) + live[i].size
    ensures forall a :: Covered(Without(live, i), a) <==> Covered(live, a) && !In(live[i], a)
  {
    WithoutOk(live, i);
    hide LiveOk, Covered, In, Bytes;
    BytesAt(live, i);
    BytesConcat(live[..i], live[i + 1..]);
    forall a
      ensures Covered(Without(live, i), a) <==> Covered(live, a) && !In(live[i], a)
    {
      CoveredAt(live, i, a);
      CoveredConcat(live[..i], live[i + 1..], a);
      if In(live[i], a) { OnlyOneHolds(live, i, a); }
    }
  }

  lemma WithoutOk(live: seq<Block>, i: nat)
    requires LiveOk(live) && i < |live|
    ensures LiveOk(Without(live, i))
  {
  }

  lemma OnlyOneHolds(live: seq<Block>, i: nat, a: int)
    requires LiveOk(live) && i < |live| && In(live[i], a)
    ensures !Covered(live[..i], a) && !Covered(live[i + 1..], a)
  {
  }

  lemma LiveBlock(s: State, view: Pages.FreeMap, i: nat)
    requires Inv(s, view) && i < |s.live|
    ensures WellSized(s.live[i])
    ensures forall a | In(s.live[i], a) :: Covered(s.live, a) && !Covered(s.pool, a)
  {
    forall a | In(s.live[i], a) ensures Covered(s.live, a) { }
    hide Sorted;
  }

  /** Insert of a block that the pool does not touch. */
  lemma InsertOutside(pool: Pool, b: Block)
    requires Sorted(pool) && WellSized(b)
    requires forall a | In(b, a) :: !Covered(pool, a)
    ensures Sorted(Insert(pool, b))
    ensures forall a :: Covered(Insert(pool, b), a) <==> Covered(pool, a) || In(b, a)
    ensures Bytes(Insert(pool, b)) == Bytes(pool) + b.size
  {
    ApartFrom(b, pool);
    InsertCovers(pool, b);
    hide Insert;
  }

  lemma ReleaseKeepsInv(s: State, view: Pages.FreeMap, addr: int)
    requires Inv(s, view) && IsLive(s, addr)
    ensures Inv(Release(s, addr), view)
  {
    var i := IndexOf(s.live, addr);
    hide Sorted, LiveOk, Covered, In, Insert, Without;
    LiveBlock(s, view, i);
    WithoutCovers(s.live, i);
    InsertOutside(s.pool, s.live[i]);
  }

  /* malloc */

  predicate FitsPool(s: State, sz: nat) {
    Take(s.pool, TotalSize(sz)).Fit?
  }

  function FromPool(s: State, sz: nat): State
    requires FitsPool(s, sz)
  {
    var f := Take(s.pool, TotalSize(sz));
    s.(pool := f.pool, live := s.live + [f.block], lost := s.lost + f.lost, mallocs := s.mallocs + 1)
  }

  /** Nothing wraps in 32 bits, and the tail of the pages, unless empty, holds a descriptor. */
  predicate Servable(sz: nat) {
    sz + DESC + 3 < WORD_END && TotalSize(sz) <= WORD_END - PAGE && !Spills(TotalSize(sz))
  }

  /** The request leaves 4 or 8 bytes at the end of its pages. */
  predicate Spills(total: nat) {
    total % PAGE == PAGE - 4 || total % PAGE == PAGE - 8
  }

  /** The bytes after the block in the pages of a request. */
  function RestSize(sz: nat): int {
    PAGE * BytesToPages(TotalSize(sz)) - TotalSize(sz)
  }

  /** A fresh run of pages at `base`: the block at its start, and the rest as a block of its own if there is any. */
  function WithRun(s: State, sz: nat, base: nat): State {
    var total, rest := TotalSize(sz), RestSize(sz);
    var blocks := if rest > 0 then [Block(base, total), Block(base + total, rest)] else [Block(base, total)];
    s.(live := s.live + blocks, got := s.got + Bytes(blocks), mallocs := s.mallocs + 1)
  }

  /** The rest goes to the pool by way of free. */
  function FromPages(s: State, sz: nat, base: nat): State {
    var t := WithRun(s, sz, base);
    if RestSize(sz) > 0 then
      RestIsLive(s, sz, base);
      Release(t, base + TotalSize(sz))
    else t
  }

  lemma {:induction false} IndexFound(live: seq<Block>, i: nat)
    requires i < |live|
    ensures IndexOf(live, live[i].addr) <= i
  {
    if i > 0 && live[0].addr != live[i].addr { IndexFound(live[1..], i - 1); }
  }

  lemma RestIsLive(s: State, sz: nat, base: nat)
    requires RestSize(sz) > 0
    ensures IsLive(WithRun(s, sz, base), base + TotalSize(sz))
  {
    var live := WithRun(s, sz, base).live;
    IndexFound(live, |s.live| + 1);
  }

  lemma IndexUnique(live: seq<Block>, i: nat)
    requires LiveOk(live) && i < |live|
    ensures IndexOf(live, live[i].addr) == i
  {
    IndexFound(live, i);
  }

  /** What a refill comes to: one more live block, the rest in the pool. */
  lemma FromPagesShape(s: State, view: Pages.FreeMap, sz: nat, base: nat)
    requires Inv(WithRun(s, sz, base), view)
    ensures FromPages(s, sz, base).live == s.live + [Block(base, TotalSize(sz))]
    ensures FromPages(s, sz, base).pool ==
      if RestSize(sz) > 0 then Insert(s.pool, Block(base + TotalSize(sz), RestSize(sz))) else s.pool
  {
    if RestSize(sz) > 0 {
      IndexUnique(WithRun(s, sz, base).live, |s.live| + 1);
    }
  }

  lemma AppendCovers(live: seq<Block>, b: Block)
    requires LiveOk(live) && WellSized(b)
    requires forall a | In(b, a) :: !Covered(live, a)
    ensures LiveOk(live + [b])
    ensures Bytes(live + [b]) == Bytes(live) + b.size
    ensures forall a :: Covered(live + [b], a) <==> Covered(live, a) || In(b, a)
  {
    ApartFrom(b, live);
    assert (live + [b])[..|live|] == live;
    forall a
      ensures Covered(live + [b], a) <==> Covered(live, a) || In(b, a)
    {
      CoveredAt(live + [b], |live|, a);
    }
  }

  lemma FromPoolKeepsInv(s: State, view: Pages.FreeMap, sz: nat)
    requires Inv(s, view) && sz + DESC + 3 < WORD_END && FitsPool(s, sz)
    ensures Inv(FromPool(s, sz), view)
  {
    hide Sorted, LiveOk, Covered, In, Take, Gone, TotalSize;
    TotalSizeHoldsRequest(sz);
    TakeCovers(s.pool, TotalSize(sz));
    GoneHoldsBlock(Take(s.pool, TotalSize(sz)));
    AppendCovers(s.live, Take(s.pool, TotalSize(sz)).block);
  }

  lemma GoneHoldsBlock(f: Fit)
    requires f.Fit?
    ensures forall a | In(f.block, a) :: In(Gone(f), a)
  {
  }

  /** The bytes of a run of pages. */
  function RunBlock(pg: nat, npages: nat): Block {
    Block(PAGE * pg, PAGE * npages)
  }

  lemma FromPagesKeepsInv(s: State, view: Pages.FreeMap, sz: nat, pg: nat)
    requires Inv(s, view) && Servable(sz) && pg > 0
    requires Pages.RunFree(view, pg, BytesToPages(TotalSize(sz)))
    ensures Inv(FromPages(s, sz, PAGE * pg), Pages.MarkRange(view, pg, BytesToPages(TotalSize(sz)), false))
  {
    hide Inv, WithRun, Release, TotalSize, BytesToPages;
    WithRunKeepsInv(s, view, sz, pg);
    if RestSize(sz) > 0 {
      RestIsLive(s, sz, PAGE * pg);
      ReleaseKeepsInv(WithRun(s, sz, PAGE * pg), Pages.MarkRange(view, pg, BytesToPages(TotalSize(sz)), false),
        PAGE * pg + TotalSize(sz));
    }
  }

  lemma WithRunKeepsInv(s: State, view: Pages.FreeMap, sz: nat, pg: nat)
    requires Inv(s, view) && Servable(sz) && pg > 0
    requires Pages.RunFree(view, pg, BytesToPages(TotalSize(sz)))
    ensures Inv(WithRun(s, sz, PAGE * pg), Pages.MarkRange(view, pg, BytesToPages(TotalSize(sz)), false))
  {
    hide Sorted, LiveOk, Covered, In, TotalSize, BytesToPages, OnUsedPage, Pages.RunFree, Pages.MarkRange, Bytes,
      Servable, RunBlock;
    var n := BytesToPages(TotalSize(sz));
    var b, rest := SplitRun(sz, pg);
    FreshRun(view, pg, n);
    OneBlock(b);
    AppendCovers(s.live, b);
    if rest.size > 0 {
      AppendCovers(s.live + [b], rest);
      AppendBoth(s.live, b, rest);
    }
  }

  lemma OneBlock(b: Block)
    ensures Bytes([b]) == b.size
  {
    assert [b][..0] == [];
  }

  lemma AppendBoth(live: seq<Block>, b: Block, c: Block)
    ensures live + [b] + [c] == live + [b, c] && Bytes([b, c]) == b.size + c.size
  {
    assert [b, c][..1] == [b];
    assert Bytes([b]) == b.size;
  }

  /** The two blocks a fresh run is cut into. */
  lemma SplitRun(sz: nat, pg: nat) returns (b: Block, rest: Block)
    requires Servable(sz) && pg > 0
    ensures var total, n := TotalSize(sz), BytesToPages(TotalSize(sz));
      && b == Block(PAGE * pg, total) && PAGE * n >= total && rest == Block(PAGE * pg + total, PAGE * n - total)
      && WellSized(b)
      && (rest.size > 0 ==> WellSized(rest))
      && (forall a :: In(RunBlock(pg, n), a) <==> In(b, a) || In(rest, a))
      && (forall a :: !In(b, a) || !In(rest, a))
  {
    hide TotalSize, BytesToPages;
    var total := TotalSize(sz);
    TotalSizeHoldsRequest(sz);
    PagesHoldBlock(total);
    b, rest := CutBlock(pg, BytesToPages(total), total);
  }

  lemma CutBlock(pg: nat, n: nat, total: nat) returns (b: Block, rest: Block)
    requires pg > 0 && DESC <= total <= PAGE * n && total % 4 == 0
    requires PAGE * n < total + PAGE && !Spills(total)
    ensures b == Block(PAGE * pg, total) && rest == Block(PAGE * pg + total, PAGE * n - total) && WellSized(b)
    ensures rest.size > 0 ==> WellSized(rest)
    ensures forall a :: In(RunBlock(pg, n), a) <==> In(b, a) || In(rest, a)
    ensures forall a :: !In(b, a) || !In(rest, a)
  {
    b, rest := Block(PAGE * pg, total), Block(PAGE * pg + total, PAGE * n - total);
  }

  /** No covered address lies in a run of free pages; afterwards the run lies on used pages too. */
  lemma FreshRun(view: Pages.FreeMap, pg: nat, n: nat)
    requires Pages.RunFree(view, pg, n)
    ensures forall a | In(RunBlock(pg, n), a) :: !OnUsedPage(view, a)
    ensures forall a | In(RunBlock(pg, n), a) :: OnUsedPage(Pages.MarkRange(view, pg, n, false), a)
    ensures forall a | OnUsedPage(view, a) :: OnUsedPage(Pages.MarkRange(view, pg, n, false), a)
  {
  }

  /* Whole runs, with other clients of the page allocator. */

  /** The heap, the page map, and the pages that other clients hold. */
  datatype System = System(heap: State, view: Pages.FreeMap, foreign: set<nat>)

  datatype Op = Malloc(sz: nat) | Free(addr: nat) | PageAlloc(count: nat, area: Pages.Area) | PageFree(pg: nat)

  /** The map in which only the heap's and the reserved pages are used. */
  function Own(view: Pages.FreeMap, foreign: set<nat>): (own: Pages.FreeMap)
    ensures |own| == |view|
  {
    seq(|view|, pg requires 0 <= pg < |view| => view[pg] || pg in foreign)
  }

  predicate Admissible(s: System, op: Op) {
    op.Malloc? ==> if FitsPool(s.heap, op.sz) then op.sz + DESC + 3 < WORD_END else Servable(op.sz)
  }

  function Step(s: System, nwords: nat, op: Op): System {
    match op
    case Malloc(sz) =>
      if FitsPool(s.heap, sz) then s.(heap := FromPool(s.heap, sz))
      else
        var n := BytesToPages(TotalSize(sz));
        var pg := Pages.Search(s.view, nwords, n, Pages.Heap);
        if pg < 0 then s
        else s.(heap := FromPages(s.heap, sz, PAGE * pg), view := Pages.MarkRange(s.view, pg, n, false))
    case Free(addr) =>
      if IsLive(s.heap, addr) then s.(heap := Release(s.heap, addr)) else s
    case PageAlloc(count, area) =>
      var pg := Pages.Search(s.view, nwords, count, area);
      if pg < 0 then s
      else s.(view := Pages.MarkRange(s.view, pg, count, false),
              foreign := s.foreign + set k: nat | k < |s.view| && Pages.Covers(Pages.Run(pg, count), k))
    case PageFree(pg) =>
      if pg < |s.view| && pg in s.foreign then s.(view := s.view[pg := true], foreign := s.foreign - {pg}) else s
  }

  ghost predicate SystemInv(s: System) {
    && Inv(s.heap, Own(s.view, s.foreign))
    && 0 < |s.view| && !Own(s.view, s.foreign)[0]
    && forall pg | pg in s.foreign :: pg < |s.view| && !s.view[pg]
  }

  lemma SearchFindsRun(view: Pages.FreeMap, nwords: nat, count: nat, area: Pages.Area)
    ensures var pg := Pages.Search(view, nwords, count, area); pg >= 0 ==> Pages.RunFree(view, pg, count)
  {
    Pages.FirstFitIsLowest(view, 0, 32 * nwords, count);
    Pages.LastFitIsHighest(view, Pages.StackLimit(nwords), count);
  }

  /** malloc yields null only when no pool block is large enough and no run of free pages is long enough. */
  lemma NullExactly(s: System, nwords: nat, sz: nat)
    requires SystemInv(s) && Admissible(s, Malloc(sz))
    ensures Step(s, nwords, Malloc(sz)).heap.mallocs == s.heap.mallocs <==>
      && (forall i | 0 <= i < |s.heap.pool| :: s.heap.pool[i].size < TotalSize(sz))
      && Pages.NoRun(s.view, 0, 32 * nwords, BytesToPages(TotalSize(sz)))
  {
    hide Inv, TotalSize, BytesToPages;
    NoFitExactly(s.heap.pool, TotalSize(sz));
    Pages.FirstFitIsLowest(s.view, 0, 32 * nwords, BytesToPages(TotalSize(sz)));
  }

  /** A refill puts the new block at the lowest run of free pages that holds it; without one nothing changes. */
  lemma RefillIsLowest(s: System, nwords: nat, sz: nat)
    requires SystemInv(s) && Servable(sz) && !FitsPool(s.heap, sz)
    ensures var n, t := BytesToPages(TotalSize(sz)), Step(s, nwords, Malloc(sz));
      if Pages.NoRun(s.view, 0, 32 * nwords, n) then t == s
      else exists pg | 0 <= pg < 32 * nwords && Pages.RunFree(s.view, pg, n) && Pages.NoRun(s.view, 0, pg, n) ::
        && t.view == Pages.MarkRange(s.view, pg, n, false)
        && t.heap.live == s.heap.live + [Block(PAGE * pg, TotalSize(sz))]
  {
    hide Inv, TotalSize, BytesToPages, FromPages, Servable, Pages.RunFree, Pages.MarkRange, FitsPool;
    var n := BytesToPages(TotalSize(sz));
    var pg := Pages.Search(s.view, nwords, n, Pages.Heap);
    Pages.FirstFitIsLowest(s.view, 0, 32 * nwords, n);
    if pg >= 0 {
      OwnRun(s, pg, n);
      WithRunKeepsInv(s.heap, Own(s.view, s.foreign), sz, pg);
      FromPagesShape(s.heap, Pages.MarkRange(Own(s.view, s.foreign), pg, n, false), sz, PAGE * pg);
    }
  }

  /** A run that is free is free of the heap too, and not at page 0. */
  lemma OwnRun(s: System, pg: nat, n: nat)
    requires SystemInv(s) && Pages.RunFree(s.view, pg, n)
    ensures pg > 0 && Pages.RunFree(Own(s.view, s.foreign), pg, n)
  {
    hide Inv;
  }

  lemma StepKeepsInv(s: System, nwords: nat, op: Op)
    requires SystemInv(s) && Admissible(s, op)
    ensures SystemInv(Step(s, nwords, op))
  {
    hide Inv, FromPool, FromPages, Release, Servable, TotalSize, BytesToPages, Pages.Search, Take;
    var own := Own(s.view, s.foreign);
    match op
    case Malloc(sz) =>
      if FitsPool(s.heap, sz) {
        FromPoolKeepsInv(s.heap, own, sz);
      } else {
        var n := BytesToPages(TotalSize(sz));
        var pg := Pages.Search(s.view, nwords, n, Pages.Heap);
        SearchFindsRun(s.view, nwords, n, Pages.Heap);
        if pg >= 0 {
          assert Own(Pages.MarkRange(s.view, pg, n, false), s.foreign) == Pages.MarkRange(own, pg, n, false);
          FromPagesKeepsInv(s.heap, own, sz, pg);
        }
      }
    case Free(addr) =>
      if IsLive(s.heap, addr) {
        ReleaseKeepsInv(s.heap, own, addr);
      }
    case PageAlloc(count, area) =>
      SearchFindsRun(s.view, nwords, count, area);
      var t := Step(s, nwords, op);
      assert Own(t.view, t.foreign) == own;
    case PageFree(pg) =>
      var t := Step(s, nwords, op);
      assert Own(t.view, t.foreign) == own;
  }

  function RunAll(s: System, nwords: nat, ops: seq<Op>): System
    decreases |ops|
  {
    if ops == [] then s else RunAll(Step(s, nwords, ops[0]), nwords, ops[1..])
  }

  ghost predicate AllAdmissible(s: System, nwords: nat, ops: seq<Op>)
    decreases |ops|
  {
    ops != [] ==> Admissible(s, ops[0]) && AllAdmissible(Step(s, nwords, ops[0]), nwords, ops[1..])
  }

  /** Safety and conservation over every run of heap calls and foreign page allocations. */
  lemma {:induction false} RunsKeepInv(s: System, nwords: nat, ops: seq<Op>)
    requires SystemInv(s) && AllAdmissible(s, nwords, ops)
    ensures SystemInv(RunAll(s, nwords, ops))
    decreases |ops|
  {
    if ops != [] {
      StepKeepsInv(s, nwords, ops[0]);
      RunsKeepInv(Step(s, nwords, ops[0]), nwords, ops[1..]);
    }
  }

  /** What the invariant says of two blocks: whatever was handed out or is in the pool never overlaps. */
  lemma NoOverlap(s: System, i: nat, j: nat)
    requires SystemInv(s)
    ensures i < |s.heap.live| && j < |s.heap.pool| ==> Apart(s.heap.live[i], [s.heap.pool[j]])
    ensures i < j < |s.heap.live| ==> Apart(s.heap.live[i], [s.heap.live[j]])
  {
    if i < |s.heap.live| && j < |s.heap.pool| {
      LiveBlock(s.heap, Own(s.view, s.foreign), i);
      ApartFrom(s.heap.live[i], s.heap.pool);
    }
  }
}
