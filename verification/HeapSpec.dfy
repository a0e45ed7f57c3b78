/** What malloc and free of src/libc/malloc.c (SINGLE_POOL) do to the pool, on values. */
module HeapSpec {
  import opened Words

  const DESC: nat := 12               // sizeof(struct mem_desc)
  const MIN_BLOCK: nat := 2 * DESC    // MIN_BLOCK_SIZE
  const PAGE: nat := 4096

  /** A block, descriptor included. */
  datatype Block = Block(addr: nat, size: nat) {
    function End(): nat { addr + size }
  }

  type Pool = seq<Block>

  /** The rounding of line 86, in 32-bit arithmetic. */
  function TotalSize(sz: nat): nat {
    (sz + DESC + 3) % WORD_END / 4 * 4
  }

  /** BYTES_TO_PAGES. */
  function BytesToPages(x: nat): nat {
    (x + PAGE - 1) % WORD_END / PAGE
  }

  /** A request is rounded up by at most 3 bytes, or wraps to less than a descriptor and its payload. */
  lemma TotalSizeHoldsRequest(sz: nat)
    requires sz < WORD_END
    ensures TotalSize(sz) >= sz + DESC <==> sz <= 0xffff_fff0
    ensures sz <= 0xffff_fff0 ==> TotalSize(sz) <= sz + DESC + 3
    ensures TotalSize(sz) % 4 == 0
  {
  }

  /** The pages asked for hold the block unless the rounding to pages wraps. */
  lemma PagesHoldBlock(total: nat)
    requires total < WORD_END && total % 4 == 0
    ensures PAGE * BytesToPages(total) >= total <==> total <= WORD_END - PAGE
    ensures total <= WORD_END - PAGE ==> PAGE * BytesToPages(total) < total + PAGE
  {
  }

  /** Room for a descriptor at a non-null address, in whole words. */
  predicate WellSized(b: Block) {
    b.addr > 0 && b.size >= DESC && b.size % 4 == 0
  }

  predicate In(b: Block, a: int) {
    b.addr <= a < b.End()
  }

  ghost predicate Covered(bs: seq<Block>, a: int) {
    exists i :: 0 <= i < |bs| && In(bs[i], a)
  }

  /** Address order without overlap; touching blocks are allowed, for free never merges with a predecessor
      it inserts behind. */
  ghost predicate Sorted(pool: Pool) {
    && (forall i | 0 <= i < |pool| :: WellSized(pool[i]))
    && (forall i, j | 0 <= i < j < |pool| :: pool[i].End() <= pool[j].addr)
  }

  ghost predicate Apart(b: Block, pool: Pool) {
    forall i | 0 <= i < |pool| :: b.End() <= pool[i].addr || pool[i].End() <= b.addr
  }

  function Bytes(bs: seq<Block>): nat {
    if bs == [] then 0 else Bytes(bs[..|bs| - 1]) + bs[|bs| - 1].size
  }

  lemma {:induction false} BytesConcat(a: seq<Block>, b: seq<Block>)
    ensures Bytes(a + b) == Bytes(a) + Bytes(b)
    decreases |b|
  {
    if b == [] {
      assert a + b == a;
    } else {
      assert (a + b)[..|a + b| - 1] == a + b[..|b| - 1];
      BytesConcat(a, b[..|b| - 1]);
    }
  }

  lemma CoveredConcat(x: seq<Block>, y: seq<Block>, a: int)
    ensures Covered(x + y, a) <==> Covered(x, a) || Covered(y, a)
  {
    if i :| 0 <= i < |x| && In(x[i], a) { assert (x + y)[i] == x[i]; }
    if i :| 0 <= i < |y| && In(y[i], a) { assert (x + y)[|x| + i] == y[i]; }
  }

  /** Coverage of a list with one block singled out. */
  lemma CoveredAt(bs: seq<Block>, i: nat, a: int)
    requires i < |bs|
    ensures Covered(bs, a) <==> Covered(bs[..i], a) || In(bs[i], a) || Covered(bs[i + 1..], a)
  {
    assert bs == bs[..i] + [bs[i]] + bs[i + 1..];
    CoveredConcat(bs[..i] + [bs[i]], bs[i + 1..], a);
    CoveredConcat(bs[..i], [bs[i]], a);
    assert [bs[i]][0] == bs[i];
  }

  /** Bytes of a list with one block singled out. */
  lemma BytesAt(bs: seq<Block>, i: nat)
    requires i < |bs|
    ensures Bytes(bs) == Bytes(bs[..i]) + bs[i].size + Bytes(bs[i + 1..])
  {
    assert bs == bs[..i] + [bs[i]] + bs[i + 1..];
    BytesConcat(bs[..i] + [bs[i]], bs[i + 1..]);
    BytesConcat(bs[..i], [bs[i]]);
    assert Bytes([bs[i]]) == bs[i].size;
  }

  /* free */

  /** How many leading blocks start before `end`. */
  function Leading(pool: Pool, end: nat): (k: nat)
    ensures k <= |pool| && (forall i | 0 <= i < k :: pool[i].addr < end) && (k < |pool| ==> pool[k].addr >= end)
  {
    if pool == [] || pool[0].addr >= end then 0 else 1 + Leading(pool[1..], end)
  }

  /** The block b between the first i blocks and those from j on. */
  function With(pool: Pool, i: nat, b: Block, j: nat): Pool
    requires i <= j <= |pool|
  {
    pool[..i] + ([b] + pool[j..])
  }

  /** The list after free has put b back: before its successor, merged into it if it touches,
      or at the end, merged into the last block if it touches that. */
  function Insert(pool: Pool, b: Block): Pool {
    var k := Leading(pool, b.End());
    if k < |pool| && pool[k].addr == b.End() then
      With(pool, k, Block(b.addr, b.size + pool[k].size), k + 1)
    else if k == |pool| && k > 0 && pool[k - 1].End() == b.addr then
      pool[..k - 1] + [Block(pool[k - 1].addr, pool[k - 1].size + b.size)]
    else With(pool, k, b, k)
  }

  lemma LeadingEndsBefore(pool: Pool, b: Block, i: nat)
    requires Sorted(pool) && Apart(b, pool) && b.size >= DESC && i < Leading(pool, b.End())
    ensures pool[i].End() <= b.addr
  {
  }

  /** All four insert and merge paths keep the order, cover exactly the freed block in addition, and lose no byte. */
  lemma InsertCovers(pool: Pool, b: Block)
    requires Sorted(pool) && Apart(b, pool) && WellSized(b)
    ensures Sorted(Insert(pool, b))
    ensures forall a :: Covered(Insert(pool, b), a) <==> Covered(pool, a) || In(b, a)
    ensures Bytes(Insert(pool, b)) == Bytes(pool) + b.size
  {
    InsertSorted(pool, b);
    InsertBytes(pool, b);
    forall a { InsertCoversAt(pool, b, a); }
  }

  lemma InsertSorted(pool: Pool, b: Block)
    requires Sorted(pool) && Apart(b, pool) && WellSized(b)
    ensures Sorted(Insert(pool, b))
  {
    hide Sorted, Apart, Leading;
    InsertFits(pool, b);
    var k := Leading(pool, b.End());
    if k < |pool| && pool[k].addr == b.End() {
      SortedWith(pool, k, Block(b.addr, b.size + pool[k].size), k + 1);
    } else if k == |pool| && k > 0 && pool[k - 1].End() == b.addr {
      SortedGrown(pool, b.size);
    } else {
      SortedWith(pool, k, b, k);
    }
  }

  /** Where b goes there is room for it, and for what it merges with. */
  lemma InsertFits(pool: Pool, b: Block)
    requires Sorted(pool) && Apart(b, pool) && WellSized(b)
    ensures var k := Leading(pool, b.End());
      && (k > 0 ==> pool[k - 1].End() <= b.addr)
      && (k < |pool| ==> b.End() <= pool[k].addr && WellSized(pool[k]))
      && (k < |pool| ==> WellSized(Block(b.addr, b.size + pool[k].size)))
      && (k + 1 < |pool| && pool[k].addr == b.End() ==> b.End() + pool[k].size <= pool[k + 1].addr)
  {
    hide WellSized, Sorted, Apart;
    var k := Leading(pool, b.End());
    Smallest(b);
    if k > 0 { LeadingEndsBefore(pool, b, k - 1); }
    if k < |pool| {
      BlockInPool(pool, k);
      MergedSize(b, pool[k]);
    }
  }

  lemma Smallest(b: Block)
    requires WellSized(b)
    ensures b.size >= DESC
  {
  }

  lemma BlockInPool(pool: Pool, k: nat)
    requires Sorted(pool) && k < |pool|
    ensures WellSized(pool[k]) && (k + 1 < |pool| ==> pool[k].End() <= pool[k + 1].addr)
  {
  }

  lemma MergedSize(b: Block, c: Block)
    requires WellSized(b) && WellSized(c)
    ensures WellSized(Block(b.addr, b.size + c.size))
  {
  }

  lemma SortedGrown(pool: Pool, more: nat)
    requires Sorted(pool) && pool != [] && more >= 0 && more % 4 == 0
    ensures var n := |pool| - 1; Sorted(pool[..n] + [Block(pool[n].addr, pool[n].size + more)])
  {
    var n := |pool| - 1;
    var grown := Block(pool[n].addr, pool[n].size + more);
    assert WellSized(pool[n]);
    SortedOne(grown);
    hide WellSized;
    SortedConcat(pool[..n], [grown]);
  }

  lemma SortedOne(b: Block)
    requires WellSized(b)
    ensures Sorted([b])
  {
  }

  /** A block put between the first i blocks and those from j on, where it fits. */
  lemma SortedWith(pool: Pool, i: nat, b: Block, j: nat)
    requires Sorted(pool) && i <= j <= |pool| && WellSized(b)
    requires i > 0 ==> pool[i - 1].End() <= b.addr
    requires j < |pool| ==> b.End() <= pool[j].addr
    ensures Sorted(With(pool, i, b, j))
  {
    SortedOne(b);
    hide WellSized;
    SortedConcat([b], pool[j..]);
    SortedConcat(pool[..i], [b] + pool[j..]);
  }

  lemma SortedWithout(pool: Pool, k: nat)
    requires Sorted(pool) && k < |pool|
    ensures Sorted(pool[..k] + pool[k + 1..])
  {
    SortedConcat(pool[..k], pool[k + 1..]);
  }

  lemma SortedConcat(x: Pool, y: Pool)
    requires Sorted(x) && Sorted(y)
    requires x != [] && y != [] ==> x[|x| - 1].End() <= y[0].addr
    ensures Sorted(x + y)
  {
    forall i, j | 0 <= i < |x| && 0 <= j < |y|
      ensures x[i].End() <= y[j].addr
    {
      assert x[i].End() <= x[|x| - 1].End();
      assert y[0].addr <= y[j].addr;
    }
  }

  lemma InsertBytes(pool: Pool, b: Block)
    ensures Bytes(Insert(pool, b)) == Bytes(pool) + b.size
  {
    hide *;
    var k := Leading(pool, b.End());
    if k < |pool| && pool[k].addr == b.End() {
      BytesAhead(pool, k, b);
    } else if k == |pool| && k > 0 && pool[k - 1].End() == b.addr {
      BytesBehind(pool, k, b);
    } else {
      BytesBetween(pool, k, b);
    }
  }

  lemma BytesAhead(pool: Pool, k: nat, b: Block)
    requires k == Leading(pool, b.End()) < |pool| && pool[k].addr == b.End()
    ensures Bytes(Insert(pool, b)) == Bytes(pool) + b.size
  {
    hide Bytes, Leading, With;
    BytesWith(pool, k, Block(b.addr, b.size + pool[k].size), k + 1);
    BytesAt(pool, k);
  }

  lemma BytesBehind(pool: Pool, k: nat, b: Block)
    requires k == Leading(pool, b.End()) == |pool| > 0 && pool[k - 1].End() == b.addr
    ensures Bytes(Insert(pool, b)) == Bytes(pool) + b.size
  {
    hide Bytes, Leading;
    BytesGrown(pool, b.size);
  }

  lemma BytesBetween(pool: Pool, k: nat, b: Block)
    requires k == Leading(pool, b.End()) && (k < |pool| ==> pool[k].addr != b.End())
    requires k == |pool| > 0 ==> pool[k - 1].End() != b.addr
    ensures Bytes(Insert(pool, b)) == Bytes(pool) + b.size
  {
    hide Bytes, Leading;
    BytesWith(pool, k, b, k);
    BytesSplit(pool, k);
  }

  lemma BytesSplit(pool: Pool, k: nat)
    requires k <= |pool|
    ensures Bytes(pool) == Bytes(pool[..k]) + Bytes(pool[k..])
  {
    assert pool == pool[..k] + pool[k..];
    BytesConcat(pool[..k], pool[k..]);
  }

  lemma CoveredSplit(pool: Pool, k: nat, a: int)
    requires k <= |pool|
    ensures Covered(pool, a) <==> Covered(pool[..k], a) || Covered(pool[k..], a)
  {
    assert pool == pool[..k] + pool[k..];
    CoveredConcat(pool[..k], pool[k..], a);
  }

  lemma BytesGrown(pool: Pool, more: nat)
    requires pool != []
    ensures var n := |pool| - 1; Bytes(pool[..n] + [Block(pool[n].addr, pool[n].size + more)]) == Bytes(pool) + more
  {
    var n := |pool| - 1;
    BytesConcat(pool[..n], [Block(pool[n].addr, pool[n].size + more)]);
  }

  lemma BytesWith(pool: Pool, i: nat, b: Block, j: nat)
    requires i <= j <= |pool|
    ensures Bytes(With(pool, i, b, j)) == Bytes(pool[..i]) + b.size + Bytes(pool[j..])
  {
    BytesConcat([b], pool[j..]);
    BytesConcat(pool[..i], [b] + pool[j..]);
    assert Bytes([b]) == b.size;
  }

  lemma CoveredWith(pool: Pool, i: nat, b: Block, j: nat, a: int)
    requires i <= j <= |pool|
    ensures Covered(With(pool, i, b, j), a) <==> Covered(pool[..i], a) || In(b, a) || Covered(pool[j..], a)
  {
    assert [b][0] == b;
    CoveredConcat([b], pool[j..], a);
    CoveredConcat(pool[..i], [b] + pool[j..], a);
  }

  lemma InsertCoversAt(pool: Pool, b: Block, a: int)
    ensures Covered(Insert(pool, b), a) <==> Covered(pool, a) || In(b, a)
  {
    hide *;
    var k := Leading(pool, b.End());
    if k < |pool| && pool[k].addr == b.End() {
      CoversAhead(pool, k, b, a);
    } else if k == |pool| && k > 0 && pool[k - 1].End() == b.addr {
      CoversBehind(pool, k, b, a);
    } else {
      CoversBetween(pool, k, b, a);
    }
  }

  lemma CoversAhead(pool: Pool, k: nat, b: Block, a: int)
    requires k == Leading(pool, b.End()) < |pool| && pool[k].addr == b.End()
    ensures Covered(Insert(pool, b), a) <==> Covered(pool, a) || In(b, a)
  {
    hide Covered, In, Leading;
    CoveredWith(pool, k, Block(b.addr, b.size + pool[k].size), k + 1, a);
    CoveredAt(pool, k, a);
    InJoined(b, pool[k], a);
  }

  lemma CoversBehind(pool: Pool, k: nat, b: Block, a: int)
    requires k == Leading(pool, b.End()) == |pool| > 0 && pool[k - 1].End() == b.addr
    ensures Covered(Insert(pool, b), a) <==> Covered(pool, a) || In(b, a)
  {
    hide Covered, In, Leading;
    CoveredAt(pool, k - 1, a);
    assert pool[k..] == [];
    NoneCovered(a);
    CoveredLast(pool[..k - 1], Block(pool[k - 1].addr, pool[k - 1].size + b.size), a);
    InJoined(pool[k - 1], b, a);
  }

  lemma CoversBetween(pool: Pool, k: nat, b: Block, a: int)
    requires k == Leading(pool, b.End()) && (k < |pool| ==> pool[k].addr != b.End())
    requires k == |pool| > 0 ==> pool[k - 1].End() != b.addr
    ensures Covered(Insert(pool, b), a) <==> Covered(pool, a) || In(b, a)
  {
    hide Covered, In, Leading;
    CoveredWith(pool, k, b, k, a);
    CoveredSplit(pool, k, a);
  }

  lemma InJoined(b: Block, c: Block, a: int)
    requires b.End() == c.addr
    ensures In(Block(b.addr, b.size + c.size), a) <==> In(b, a) || In(c, a)
  {
  }

  lemma NoneCovered(a: int)
    ensures !Covered([], a)
  {
  }

  lemma CoveredLast(bs: seq<Block>, b: Block, a: int)
    ensures Covered(bs + [b], a) <==> Covered(bs, a) || In(b, a)
  {
    assert [b][0] == b;
    CoveredConcat(bs, [b], a);
  }

  /** No block of the pool ends where the next one starts. */
  predicate Coalesced(pool: Pool) {
    forall i | 0 < i < |pool| :: pool[i - 1].End() != pool[i].addr
  }

  /** free keeps the pool coalesced exactly when the block does not touch a predecessor that still has a successor:
      on the two paths in front of a successor it never looks back. */
  lemma CoalescedExactly(pool: Pool, b: Block)
    requires Coalesced(pool)
    ensures var k := Leading(pool, b.End());
      Coalesced(Insert(pool, b)) <==> !(0 < k < |pool| && pool[k - 1].End() == b.addr)
  {
    hide *;
    var k := Leading(pool, b.End());
    if k < |pool| && pool[k].addr == b.End() {
      MergedAhead(pool, k, b);
    } else if k == |pool| && k > 0 && pool[k - 1].End() == b.addr {
      MergedBehind(pool, k, b);
    } else {
      NotMerged(pool, k, b);
    }
  }

  lemma MergedAhead(pool: Pool, k: nat, b: Block)
    requires Coalesced(pool) && k == Leading(pool, b.End()) < |pool| && pool[k].addr == b.End()
    ensures Coalesced(Insert(pool, b)) <==> (k > 0 ==> pool[k - 1].End() != b.addr)
  {
    hide Coalesced, Leading;
    PutBetween(pool, k, Block(b.addr, b.size + pool[k].size), k + 1);
    if k + 1 < |pool| { Neighbours(pool, k + 1); }
  }

  lemma MergedBehind(pool: Pool, k: nat, b: Block)
    requires Coalesced(pool) && k == Leading(pool, b.End()) == |pool| > 0 && pool[k - 1].End() == b.addr
    ensures Coalesced(Insert(pool, b))
  {
    hide Coalesced, Leading;
    var grown := Block(pool[k - 1].addr, pool[k - 1].size + b.size);
    PutBetween(pool, k - 1, grown, k);
    if k > 1 { Neighbours(pool, k - 1); }
    assert [grown] + pool[k..] == [grown];
  }

  lemma NotMerged(pool: Pool, k: nat, b: Block)
    requires Coalesced(pool) && k == Leading(pool, b.End()) && (k < |pool| ==> pool[k].addr != b.End())
    requires k == |pool| > 0 ==> pool[k - 1].End() != b.addr
    ensures Coalesced(Insert(pool, b)) <==> (k > 0 ==> pool[k - 1].End() != b.addr)
  {
    hide Coalesced, Leading;
    PutBetween(pool, k, b, k);
  }

  lemma Neighbours(pool: Pool, i: nat)
    requires Coalesced(pool) && 0 < i < |pool|
    ensures pool[i - 1].End() != pool[i].addr
  {
  }

  lemma PutBetween(pool: Pool, i: nat, b: Block, j: nat)
    requires Coalesced(pool) && i <= j <= |pool|
    ensures Coalesced(With(pool, i, b, j))
      <==> (i > 0 ==> pool[i - 1].End() != b.addr) && (j < |pool| ==> b.End() != pool[j].addr)
  {
    var r := With(pool, i, b, j);
    assert forall m | 0 <= m < |r| :: r[m] == if m < i then pool[m] else if m == i then b else pool[m - i - 1 + j];
    if i > 0 { assert r[i - 1] == pool[i - 1] && r[i] == b; }
    if j < |pool| { assert r[i + 1] == pool[j] && r[i] == b; }
  }

  /* malloc served from the pool */

  datatype Fit = NoFit | Fit(pool: Pool, block: Block, lost: nat)

  /** The first block that is large enough, |pool| if there is none. */
  function FirstFit(pool: Pool, total: nat): (k: nat)
    ensures k <= |pool| && (forall i | 0 <= i < k :: pool[i].size < total) && (k < |pool| ==> pool[k].size >= total)
  {
    if pool == [] || pool[0].size >= total then 0 else 1 + FirstFit(pool[1..], total)
  }

  /** The near fit is taken whole and its header shrunk; a larger block gives its upper part. */
  function Take(pool: Pool, total: nat): Fit {
    var k := FirstFit(pool, total);
    if k == |pool| then NoFit
    else
      var b := pool[k];
      if b.size < total + MIN_BLOCK then Fit(pool[..k] + pool[k + 1..], Block(b.addr, total), b.size - total)
      else Fit(With(pool, k, Block(b.addr, b.size - total), k + 1), Block(b.End() - total, total), 0)
  }

  /** The addresses that leave the pool: the block handed out and the bytes after it that are lost. */
  function Gone(f: Fit): Block
    requires f.Fit?
  {
    Block(f.block.addr, f.block.size + f.lost)
  }

  /** A malloc served from the pool removes exactly the whole block it took. */
  lemma TakeCovers(pool: Pool, total: nat)
    requires Sorted(pool) && total >= DESC && total % 4 == 0 && Take(pool, total).Fit?
    ensures var f := Take(pool, total);
      && Sorted(f.pool) && f.block.size == total && f.block.addr > 0
      && (forall a :: Covered(f.pool, a) <==> Covered(pool, a) && !In(Gone(f), a))
      && (forall a | In(Gone(f), a) :: Covered(pool, a))
      && Bytes(pool) == Bytes(f.pool) + total + f.lost
      && f.lost <= 20 && f.lost % 4 == 0
  {
    TakeSorted(pool, total);
    TakeBlock(pool, total);
    TakeBytes(pool, total);
    forall a { TakeCoversAt(pool, total, a); }
  }

  lemma TakeSorted(pool: Pool, total: nat)
    requires Sorted(pool) && total >= DESC && total % 4 == 0 && Take(pool, total).Fit?
    ensures Sorted(Take(pool, total).pool)
  {
    hide Sorted;
    var k := FirstFit(pool, total);
    if pool[k].size < total + MIN_BLOCK {
      SortedWithout(pool, k);
    } else {
      SortedShrunk(pool, k, total);
    }
  }

  lemma SortedShrunk(pool: Pool, k: nat, total: nat)
    requires Sorted(pool) && k < |pool| && total % 4 == 0 && total + MIN_BLOCK <= pool[k].size
    ensures Sorted(With(pool, k, Block(pool[k].addr, pool[k].size - total), k + 1))
  {
    assert WellSized(pool[k]) && WellSized(Block(pool[k].addr, pool[k].size - total));
    hide WellSized;
    SortedWith(pool, k, Block(pool[k].addr, pool[k].size - total), k + 1);
  }

  lemma TakeBlock(pool: Pool, total: nat)
    requires Sorted(pool) && total >= DESC && total % 4 == 0 && Take(pool, total).Fit?
    ensures var f := Take(pool, total);
      f.block.size == total && f.block.addr > 0 && f.lost <= 20 && f.lost % 4 == 0
  {
    var b := pool[FirstFit(pool, total)];
    assert WellSized(b);
  }

  lemma TakeBytes(pool: Pool, total: nat)
    requires Take(pool, total).Fit?
    ensures var f := Take(pool, total); Bytes(pool) == Bytes(f.pool) + total + f.lost
  {
    hide Bytes;
    var f := Take(pool, total);
    var k := FirstFit(pool, total);
    BytesAt(pool, k);
    if pool[k].size < total + MIN_BLOCK {
      BytesConcat(pool[..k], pool[k + 1..]);
    } else {
      BytesWith(pool, k, f.pool[k], k + 1);
    }
  }

  lemma TakeCoversAt(pool: Pool, total: nat, a: int)
    requires Sorted(pool) && Take(pool, total).Fit?
    ensures var f := Take(pool, total);
      && (Covered(f.pool, a) <==> Covered(pool, a) && !In(Gone(f), a))
      && (In(Gone(f), a) ==> Covered(pool, a))
  {
    hide Covered, In, Sorted, FirstFit;
    var k := FirstFit(pool, total);
    CoveredAt(pool, k, a);
    if In(pool[k], a) { OthersOutside(pool, k, a); }
    if pool[k].size < total + MIN_BLOCK {
      CoveredConcat(pool[..k], pool[k + 1..], a);
    } else {
      var low := Block(pool[k].addr, pool[k].size - total);
      CoveredWith(pool, k, low, k + 1, a);
      InJoined(low, Block(pool[k].End() - total, total), a);
      InOnce(low, Block(pool[k].End() - total, total), a);
    }
  }

  lemma InOnce(b: Block, c: Block, a: int)
    requires b.End() == c.addr
    ensures !(In(b, a) && In(c, a))
  {
  }

  lemma OthersOutside(pool: Pool, k: nat, a: int)
    requires Sorted(pool) && k < |pool| && In(pool[k], a)
    ensures !Covered(pool[..k], a) && !Covered(pool[k + 1..], a)
  {
  }

  /** A split leaves at least MIN_BLOCK_SIZE behind; nothing is lost by it. */
  lemma SplitLeavesBlock(pool: Pool, total: nat, i: nat)
    requires Take(pool, total).Fit? && i < |Take(pool, total).pool|
    requires |Take(pool, total).pool| == |pool| && Take(pool, total).pool[i] != pool[i]
    ensures Take(pool, total).pool[i].size >= MIN_BLOCK && Take(pool, total).lost == 0
  {
  }

  /** The search fails exactly when no block is large enough. */
  lemma NoFitExactly(pool: Pool, total: nat)
    ensures Take(pool, total) == NoFit <==> forall i | 0 <= i < |pool| :: pool[i].size < total
  {
  }
}
