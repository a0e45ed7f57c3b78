/** malloc and free of src/libc/malloc.c over raw memory: block headers are words of memory,
    the pool is a list threaded through them. */
module Heap {
  import opened HeapSpec
  import opened HeapRuns
  import opened Seqs
  import opened Words
  import Pages

  const MAGIC_USED := 0xdeadf00d
  const MAGIC_FREE := 0x1ee7d00d

  /** The 32-bit words of memory by their byte address; a word never written reads as 0. */
  type Memory = map<int, int>

  function Word(mem: Memory, a: int): int {
    if a in mem then mem[a] else 0
  }

  function SizeOf(mem: Memory, b: int): int { Word(mem, b) }
  function MagicOf(mem: Memory, b: int): int { Word(mem, b + 4) }
  function NextOf(mem: Memory, b: int): int { Word(mem, b + 8) }

  datatype FreeResult = Freed | DoubleFree | CorruptedMagic

  ghost predicate FreeHeader(mem: Memory, b: Block, next: int) {
    SizeOf(mem, b.addr) == b.size && MagicOf(mem, b.addr) == MAGIC_FREE && NextOf(mem, b.addr) == next
  }

  ghost predicate UsedHeader(mem: Memory, b: Block) {
    SizeOf(mem, b.addr) == b.size && MagicOf(mem, b.addr) == MAGIC_USED
  }

  /** The address of the first block, or `after` of an empty list. */
  function First(bs: Pool, after: int): int {
    if bs == [] then after else bs[0].addr
  }

  /** Free blocks each linked to the next one, the last one to `after`. */
  ghost predicate Chain(mem: Memory, bs: Pool, after: int) {
    bs == [] || (FreeHeader(mem, bs[0], First(bs[1..], after)) && Chain(mem, bs[1..], after))
  }

  /** The null-terminated list that starts at `head` is exactly `pool`. */
  ghost predicate Linked(mem: Memory, head: int, pool: Pool) {
    head == First(pool, NULL) && Chain(mem, pool, NULL)
  }

  ghost predicate UsedHeaders(mem: Memory, live: seq<Block>) {
    forall i | 0 <= i < |live| :: UsedHeader(mem, live[i])
  }

  /** Memory holds the heap s: its pool as a list, and the header of every live block. */
  ghost predicate Intact(mem: Memory, head: int, s: State, view: Pages.FreeMap) {
    Inv(s, view) && Linked(mem, head, s.pool) && UsedHeaders(mem, s.live)
  }

  ghost predicate Sized(bs: seq<Block>) {
    forall i | 0 <= i < |bs| :: bs[i].size >= DESC
  }

  /** Nothing inside a block of `live` changed. */
  ghost predicate Untouched(before: Memory, after: Memory, live: seq<Block>) {
    forall a | Covered(live, a) :: Word(after, a) == Word(before, a)
  }

  /* The link of a block, or of the dummy in front of the list when `prev` is null. */

  function Next(mem: Memory, prev: int, head: int): int {
    if prev == NULL then head else NextOf(mem, prev)
  }

  function WithNext(mem: Memory, prev: int, next: int): Memory {
    if prev == NULL then mem else mem[prev + 8 := next]
  }

  function HeadWith(prev: int, head: int, next: int): int {
    if prev == NULL then next else head
  }

  function PrevOf(pool: Pool): nat {
    if pool == [] then NULL else pool[|pool| - 1].addr
  }

  lemma {:induction false} ChainConcat(mem: Memory, x: Pool, y: Pool, after: int)
    ensures Chain(mem, x + y, after) <==> Chain(mem, x, First(y, after)) && Chain(mem, y, after)
  {
    if x == [] {
      assert x + y == y;
    } else {
      assert (x + y)[1..] == x[1..] + y;
      ChainConcat(mem, x[1..], y, after);
    }
  }

  /** A chain only depends on the memory of its blocks. */
  lemma {:induction false} ChainFrame(mem: Memory, mem': Memory, bs: Pool, after: int)
    requires Chain(mem, bs, after) && Sized(bs)
    requires Untouched(mem, mem', bs)
    ensures Chain(mem', bs, after)
  {
    if bs != [] {
      assert In(bs[0], bs[0].addr) && In(bs[0], bs[0].addr + 4) && In(bs[0], bs[0].addr + 8);
      assert bs == [bs[0]] + bs[1..];
      forall a | Covered(bs[1..], a) ensures Covered(bs, a) { CoveredConcat([bs[0]], bs[1..], a); }
      ChainFrame(mem, mem', bs[1..], after);
    }
  }

  /** Changing the link of the last block. */
  lemma Retarget(mem: Memory, x: Pool, after: int, new': int)
    requires Chain(mem, x, after) && Sorted(x) && x != []
    ensures Chain(mem[PrevOf(x) + 8 := new'], x, new')
  {
    hide Sorted, Covered, In, Chain;
    var n := |x| - 1;
    var mem' := mem[PrevOf(x) + 8 := new'];
    LastAlone(x);
    ChainConcat(mem, x[..n], [x[n]], after);
    ChainFrame(mem, mem', x[..n], x[n].addr);
    OneRetargeted(mem, x[n], after, new');
    ChainConcat(mem', x[..n], [x[n]], new');
  }

  lemma LastAlone(x: Pool)
    requires Sorted(x) && x != []
    ensures var n := |x| - 1; x == x[..n] + [x[n]] && Sized(x[..n]) && !Covered(x[..n], x[n].addr + 8)
  {
    OthersOutside(x, |x| - 1, x[|x| - 1].addr + 8);
  }

  lemma OneRetargeted(mem: Memory, b: Block, after: int, new': int)
    requires Chain(mem, [b], after)
    ensures Chain(mem[b.addr + 8 := new'], [b], new')
  {
    assert [b][1..] == [];
  }

  /** Links the chain z behind the blocks x, whatever x was linked to before. */
  lemma Relink(mem: Memory, head: int, x: Pool, after: int, z: Pool)
    requires Chain(mem, x, after) && Chain(mem, z, NULL) && Sorted(x + z)
    requires x != [] ==> head == x[0].addr
    ensures Linked(WithNext(mem, PrevOf(x), First(z, NULL)), HeadWith(PrevOf(x), head, First(z, NULL)), x + z)
  {
    hide Sorted, Covered, Chain;
    var mem' := WithNext(mem, PrevOf(x), First(z, NULL));
    if x == [] {
      assert x + z == z;
    } else {
      LastOutside(x, z);
      Retarget(mem, x, after, First(z, NULL));
      ChainFrame(mem, mem', z, NULL);
      ChainConcat(mem', x, z, NULL);
    }
  }

  lemma LastOutside(x: Pool, z: Pool)
    requires Sorted(x + z) && x != []
    ensures Sorted(x) && PrevOf(x) > 0 && !Covered(z, PrevOf(x) + 8)
    ensures Sized(z)
  {
    var n := |x| - 1;
    SortedParts(x, z);
    assert (x + z)[n] == x[n] && (x + z)[n + 1..] == z;
    OthersOutside(x + z, n, x[n].addr + 8);
  }

  lemma SortedParts(x: Pool, y: Pool)
    requires Sorted(x + y)
    ensures Sorted(x) && Sorted(y)
  {
    assert x == (x + y)[..|x|] && y == (x + y)[|x|..];
  }

  /** Following the list from the dummy: the successor of the first k blocks is block k. */
  lemma NextAt(mem: Memory, head: int, pool: Pool, k: nat)
    requires Linked(mem, head, pool) && Sorted(pool) && k <= |pool|
    ensures Next(mem, PrevOf(pool[..k]), head) == First(pool[k..], NULL)
  {
    if k > 0 {
      HeaderAt(mem, head, pool, k - 1);
      hide Chain;
    }
  }

  /** The same by cases, and the next step of the walk. */
  lemma WalkAt(mem: Memory, head: int, pool: Pool, k: nat)
    requires Linked(mem, head, pool) && Sorted(pool) && k <= |pool|
    ensures Next(mem, PrevOf(pool[..k]), head) == if k < |pool| then pool[k].addr else NULL
    ensures k < |pool| ==> pool[k].addr > 0 && PrevOf(pool[..k + 1]) == pool[k].addr
    ensures k > 0 ==> PrevOf(pool[..k]) == pool[k - 1].addr && SizeOf(mem, pool[k - 1].addr) == pool[k - 1].size
  {
    NextAt(mem, head, pool, k);
    if k < |pool| { assert WellSized(pool[k]); }
    if k > 0 { HeaderAt(mem, head, pool, k - 1); }
  }

  /** What free knows when it starts to walk the list. */
  ghost predicate ReadyToLink(mem: Memory, head: int, pool: Pool, b: Block) {
    && Sorted(pool) && Apart(b, pool) && WellSized(b)
    && Linked(mem, head, pool) && FreeHeader(mem, b, NULL)
  }

  /** The blocks around some position of the pool survive writes to other memory. */
  lemma SplitAt(mem: Memory, mem': Memory, head: int, pool: Pool, b: Block, i: nat, j: nat)
    requires ReadyToLink(mem, head, pool, b) && i <= j <= |pool|
    requires forall a | Word(mem', a) != Word(mem, a) :: In(b, a) || Covered(pool[i..j], a)
    ensures Chain(mem', pool[..i], First(pool[i..], NULL)) && Chain(mem', pool[j..], NULL)
  {
    hide Covered, In, Apart, Chain, Word;
    ChainParts(mem, pool, i, j);
    SplitFrame(mem, mem', pool, b, i, j);
    ChainFrame(mem, mem', pool[..i], First(pool[i..], NULL));
    ChainFrame(mem, mem', pool[j..], NULL);
  }

  lemma ChainParts(mem: Memory, pool: Pool, i: nat, j: nat)
    requires Chain(mem, pool, NULL) && i <= j <= |pool|
    ensures Chain(mem, pool[..i], First(pool[i..], NULL)) && Chain(mem, pool[j..], NULL)
  {
    assert pool == pool[..i] + pool[i..] && pool == pool[..j] + pool[j..];
    ChainConcat(mem, pool[..i], pool[i..], NULL);
    ChainConcat(mem, pool[..j], pool[j..], NULL);
  }

  lemma SplitFrame(mem: Memory, mem': Memory, pool: Pool, b: Block, i: nat, j: nat)
    requires Sorted(pool) && Apart(b, pool) && i <= j <= |pool|
    requires forall a | Word(mem', a) != Word(mem, a) :: In(b, a) || Covered(pool[i..j], a)
    ensures Untouched(mem, mem', pool[..i]) && Untouched(mem, mem', pool[j..])
  {
    hide Sorted, Covered, In, Apart;
    forall a | Covered(pool[..i], a) || Covered(pool[j..], a)
      ensures Word(mem', a) == Word(mem, a)
    {
      CoveredOnce(pool, i, j, a);
      if In(b, a) { NotInApart(b, pool, a); }
    }
  }

  lemma CoveredOnce(pool: Pool, i: nat, j: nat, a: int)
    requires Sorted(pool) && i <= j <= |pool| && (Covered(pool[..i], a) || Covered(pool[j..], a))
    ensures Covered(pool, a) && !Covered(pool[i..j], a)
  {
    assert pool == pool[..i] + pool[i..j] + pool[j..];
    CoveredConcat(pool[..i] + pool[i..j], pool[j..], a);
    CoveredConcat(pool[..i], pool[i..j], a);
  }

  lemma NotInApart(b: Block, pool: Pool, a: int)
    requires Apart(b, pool) && In(b, a)
    ensures !Covered(pool, a)
  {
  }

  /* The four ways free puts b into a non-empty pool; k is where the walk stops. */

  function MergeNext(mem: Memory, b: int, cur: int): Memory {
    mem[b := SizeOf(mem, b) + SizeOf(mem, cur)][b + 8 := NextOf(mem, cur)][cur + 4 := 0]
  }

  function MergePrev(mem: Memory, b: int, prev: int): Memory {
    mem[b + 4 := 0][prev := SizeOf(mem, prev) + SizeOf(mem, b)]
  }

  lemma ChainCons(mem: Memory, b: Block, rest: Pool, after: int)
    requires FreeHeader(mem, b, First(rest, after)) && Chain(mem, rest, after)
    ensures Chain(mem, [b] + rest, after)
  {
    assert ([b] + rest)[1..] == rest;
  }

  lemma ChainOne(mem: Memory, b: Block)
    requires FreeHeader(mem, b, NULL)
    ensures Chain(mem, [b], NULL)
  {
    ChainCons(mem, b, [], NULL);
    assert [b] + [] == [b];
  }

  /** What free does to memory: the pool is now Insert(pool, b), the header at b no longer says that the
      block is in use, and only the memory of b and of pool blocks changed. */
  ghost predicate LinkedInto(mem: Memory, mem': Memory, head': int, pool: Pool, b: Block) {
    && Linked(mem', head', Insert(pool, b))
    && MagicOf(mem', b.addr) != MAGIC_USED
    && Confined(mem, mem', pool, b)
  }

  ghost predicate Confined(mem: Memory, mem': Memory, pool: Pool, b: Block) {
    forall a | Word(mem', a) != Word(mem, a) :: In(b, a) || Covered(pool, a)
  }

  /** Relinking for a block put between the first k blocks and those from j on. */
  lemma LinkBetween(mem: Memory, mem': Memory, head: int, pool: Pool, b: Block, k: nat, j: nat, linked: Block)
    requires ReadyToLink(mem, head, pool, b) && k <= j <= |pool| && linked.addr == b.addr
    requires Insert(pool, b) == With(pool, k, linked, j)
    requires forall a | Word(mem', a) != Word(mem, a) :: In(b, a) || Covered(pool[k..j], a)
    requires FreeHeader(mem', linked, First(pool[j..], NULL))
    ensures LinkedInto(mem, WithNext(mem', PrevOf(pool[..k]), b.addr), HeadWith(PrevOf(pool[..k]), head, b.addr),
      pool, b)
  {
    WithNextConfined(mem, mem', head, pool, b, k, j);
    hide Covered, In, Chain, Word, Insert, FreeHeader, Confined, MagicOf;
    InsertSorted(pool, b);
    hide Sorted, Apart;
    SplitAt(mem, mem', head, pool, b, k, j);
    ChainCons(mem', linked, pool[j..], NULL);
    Relink(mem', head, pool[..k], First(pool[k..], NULL), [linked] + pool[j..]);
  }

  lemma WithNextConfined(mem: Memory, mem': Memory, head: int, pool: Pool, b: Block, k: nat, j: nat)
    requires ReadyToLink(mem, head, pool, b) && k <= j <= |pool|
    requires forall a | Word(mem', a) != Word(mem, a) :: In(b, a) || Covered(pool[k..j], a)
    requires MagicOf(mem', b.addr) != MAGIC_USED
    ensures var m := WithNext(mem', PrevOf(pool[..k]), b.addr);
      Confined(mem, m, pool, b) && MagicOf(m, b.addr) != MAGIC_USED
  {
    hide Covered, In, Chain, Word, Apart;
    forall a { PartCovered(pool, k, j, a); }
    LinkConfined(mem', pool, k, b.addr);
    LinkMisses(mem, mem', head, pool, b, k);
  }

  lemma PartCovered(pool: Pool, k: nat, j: nat, a: int)
    requires k <= j <= |pool|
    ensures Covered(pool[k..j], a) ==> Covered(pool, a)
  {
    hide Covered;
    CoveredSplit(pool, k, a);
    CoveredSplit(pool[k..], j - k, a);
    assert pool[k..][..j - k] == pool[k..j];
  }

  /** The link in front of block k lies in a pool block. */
  lemma LinkConfined(mem: Memory, pool: Pool, k: nat, next: int)
    requires Sorted(pool) && k <= |pool|
    ensures forall a | Word(WithNext(mem, PrevOf(pool[..k]), next), a) != Word(mem, a) :: Covered(pool, a)
  {
    if k > 0 {
      assert WellSized(pool[k - 1]) && In(pool[k - 1], pool[k - 1].addr + 8);
    }
  }

  lemma LinkMisses(mem: Memory, mem': Memory, head: int, pool: Pool, b: Block, k: nat)
    requires ReadyToLink(mem, head, pool, b) && k <= |pool|
    ensures MagicOf(WithNext(mem', PrevOf(pool[..k]), b.addr), b.addr) == MagicOf(mem', b.addr)
  {
    if k > 0 { assert WellSized(pool[k - 1]); }
  }

  lemma LinkMergingNext(mem: Memory, head: int, pool: Pool, b: Block, k: nat)
    requires ReadyToLink(mem, head, pool, b) && k == Leading(pool, b.End()) < |pool| && pool[k].addr == b.End()
    ensures LinkedInto(mem, WithNext(MergeNext(mem, b.addr, pool[k].addr), PrevOf(pool[..k]), b.addr),
                       HeadWith(PrevOf(pool[..k]), head, b.addr), pool, b)
  {
    hide Covered, In, Apart, Chain, Word, FreeHeader, Linked, MergeNext, Sorted, LinkedInto, ReadyToLink, WithNext,
      HeadWith, PrevOf;
    var m := MergeNext(mem, b.addr, pool[k].addr);
    var merged := Block(b.addr, b.size + pool[k].size);
    MergedHeader(mem, head, pool, b, k);
    LinkBetween(mem, m, head, pool, b, k, k + 1, merged);
  }

  lemma HeaderAt(mem: Memory, head: int, pool: Pool, k: nat)
    requires Linked(mem, head, pool) && k < |pool|
    ensures FreeHeader(mem, pool[k], First(pool[k + 1..], NULL))
  {
    ChainParts(mem, pool, k, k);
    assert pool[k..][1..] == pool[k + 1..];
  }

  lemma MergedHeader(mem: Memory, head: int, pool: Pool, b: Block, k: nat)
    requires ReadyToLink(mem, head, pool, b) && k < |pool| && pool[k].addr == b.End()
    ensures var m := MergeNext(mem, b.addr, pool[k].addr);
      && FreeHeader(m, Block(b.addr, b.size + pool[k].size), First(pool[k + 1..], NULL))
      && forall a | Word(m, a) != Word(mem, a) :: In(b, a) || Covered(pool[k..k + 1], a)
  {
    HeaderAt(mem, head, pool, k);
    assert pool[k..k + 1][0] == pool[k] && pool[k].size >= DESC;
  }

  lemma LinkBefore(mem: Memory, head: int, pool: Pool, b: Block, k: nat)
    requires ReadyToLink(mem, head, pool, b) && k == Leading(pool, b.End()) < |pool| && pool[k].addr > b.End()
    ensures LinkedInto(mem, WithNext(mem[b.addr + 8 := pool[k].addr], PrevOf(pool[..k]), b.addr),
                       HeadWith(PrevOf(pool[..k]), head, b.addr), pool, b)
  {
    hide Covered, In, Apart, Chain, Word, FreeHeader, Linked, Sorted, LinkedInto, ReadyToLink;
    var m := mem[b.addr + 8 := pool[k].addr];
    LinkedAhead(mem, m, head, pool, b, k);
    LinkBetween(mem, m, head, pool, b, k, k, b);
  }

  lemma LinkedAhead(mem: Memory, m: Memory, head: int, pool: Pool, b: Block, k: nat)
    requires ReadyToLink(mem, head, pool, b) && k < |pool| && m == mem[b.addr + 8 := pool[k].addr]
    ensures FreeHeader(m, b, First(pool[k..], NULL))
    ensures forall a | Word(m, a) != Word(mem, a) :: In(b, a)
  {
    hide Linked, Sorted, Apart, Covered;
  }

  lemma LinkLast(mem: Memory, head: int, pool: Pool, b: Block, k: nat)
    requires ReadyToLink(mem, head, pool, b) && k == Leading(pool, b.End()) == |pool|
    requires k > 0 ==> pool[k - 1].End() != b.addr
    ensures LinkedInto(mem, WithNext(mem, PrevOf(pool[..k]), b.addr), HeadWith(PrevOf(pool[..k]), head, b.addr),
      pool, b)
  {
    hide Covered, In, Apart, Chain, Word, FreeHeader, Linked, Sorted, LinkedInto;
    LinkBetween(mem, mem, head, pool, b, k, k, b);
  }

  lemma LinkMergingLast(mem: Memory, head: int, pool: Pool, b: Block, k: nat)
    requires ReadyToLink(mem, head, pool, b) && 0 < k == Leading(pool, b.End()) == |pool| && pool[k - 1].End() == b.addr
    ensures LinkedInto(mem, MergePrev(mem, b.addr, pool[k - 1].addr), head, pool, b)
  {
    hide Covered, In, Apart, Chain, Word, FreeHeader, MergePrev, Sorted, MagicOf, ReadyToLink, Confined, Linked,
      LinkedInto, Insert, Leading;
    var m := MergePrev(mem, b.addr, pool[k - 1].addr);
    var merged := Block(pool[k - 1].addr, pool[k - 1].size + b.size);
    HeadIsFirst(mem, head, pool, b);
    GrownHeader(mem, head, pool, b);
    SplitAt(mem, m, head, pool, b, k - 1, k);
    ChainOne(m, merged);
    ChainConcat(m, pool[..k - 1], [merged], NULL);
    InsertedLast(mem, m, head, pool, b, k);
  }

  /** What a merge into the last block comes to. */
  lemma InsertedLast(mem: Memory, m: Memory, head: int, pool: Pool, b: Block, k: nat)
    requires 0 < k == Leading(pool, b.End()) == |pool| && pool[k - 1].End() == b.addr && head == First(pool, NULL)
    requires Chain(m, pool[..k - 1] + [Block(pool[k - 1].addr, pool[k - 1].size + b.size)], NULL)
    requires Confined(mem, m, pool, b) && MagicOf(m, b.addr) != MAGIC_USED
    ensures LinkedInto(mem, m, head, pool, b)
  {
    hide Chain, Confined, MagicOf, Leading;
  }

  lemma HeadIsFirst(mem: Memory, head: int, pool: Pool, b: Block)
    requires ReadyToLink(mem, head, pool, b)
    ensures head == First(pool, NULL)
  {
  }

  lemma GrownHeader(mem: Memory, head: int, pool: Pool, b: Block)
    requires ReadyToLink(mem, head, pool, b) && pool != [] && pool[|pool| - 1].End() == b.addr
    ensures var k := |pool| - 1; var m := MergePrev(mem, b.addr, pool[k].addr);
      && FreeHeader(m, Block(pool[k].addr, pool[k].size + b.size), NULL)
      && (forall a | Word(m, a) != Word(mem, a) :: In(b, a) || Covered(pool[k..k + 1], a))
      && Confined(mem, m, pool, b) && MagicOf(m, b.addr) != MAGIC_USED
  {
    var k := |pool| - 1;
    HeaderAt(mem, head, pool, k);
    assert pool[k..k + 1][0] == pool[k] && pool[k].size >= DESC;
    assert In(pool[k], pool[k].addr);
  }

  lemma NotNull(mem: Memory, head: int, pool: Pool, b: Block)
    requires ReadyToLink(mem, head, pool, b)
    ensures (head == NULL <==> pool == []) && SizeOf(mem, b.addr) == b.size
    ensures forall i | 0 <= i < |pool| :: pool[i].addr > 0
  {
  }

  /** Into an empty pool. */
  lemma ReadyParts(mem: Memory, head: int, pool: Pool, b: Block)
    requires ReadyToLink(mem, head, pool, b)
    ensures Linked(mem, head, pool) && Sorted(pool) && b.addr > 0
  {
  }

  /** The walk stops where the block belongs. */
  lemma LeadingIs(pool: Pool, end: nat, k: nat)
    requires k <= |pool| && (forall i | 0 <= i < k :: pool[i].addr < end) && (k < |pool| ==> pool[k].addr >= end)
    ensures Leading(pool, end) == k
  {
  }

  lemma LinkOnly(mem: Memory, b: Block)
    requires ReadyToLink(mem, NULL, [], b)
    ensures LinkedInto(mem, mem, b.addr, [], b)
  {
    ChainOne(mem, b);
    assert [] + ([b] + []) == [b];
  }

  /* malloc served from the pool. */

  /** The header that a block handed out gets. */
  function StampUsed(mem: Memory, b: int, total: int): Memory {
    mem[b := total][b + 4 := MAGIC_USED][b + 8 := NULL]
  }

  /** What a malloc served from the pool does to memory. */
  ghost predicate TakenFrom(mem: Memory, mem': Memory, head': int, pool: Pool, f: Fit)
    requires f.Fit?
  {
    && Linked(mem', head', f.pool) && UsedHeader(mem', f.block)
    && forall a | Word(mem', a) != Word(mem, a) :: Covered(pool, a)
  }

  /** Stamping the block taken leaves the rest of the pool linked. */
  lemma StampTaken(mem: Memory, mem': Memory, head': int, pool: Pool, total: nat)
    requires Sorted(pool) && total >= DESC && total % 4 == 0 && Take(pool, total).Fit?
    requires Linked(mem', head', Take(pool, total).pool)
    requires forall a | Word(mem', a) != Word(mem, a) :: Covered(pool, a)
    ensures TakenFrom(mem, StampUsed(mem', Take(pool, total).block.addr, total), head', pool, Take(pool, total))
  {
    var f := Take(pool, total);
    var m := StampUsed(mem', f.block.addr, total);
    TakeCovers(pool, total);
    hide Take, Chain, Covered, TotalSize, Gone;
    StampFrame(pool, total, mem', f);
    ChainFrame(mem', m, f.pool, NULL);
  }

  lemma StampFrame(pool: Pool, total: nat, mem: Memory, f: Fit)
    requires f.Fit? && total >= DESC && f.block.size == total && Sorted(f.pool)
    requires forall a | Covered(f.pool, a) :: !In(Gone(f), a)
    requires forall a | In(Gone(f), a) :: Covered(pool, a)
    ensures var m := StampUsed(mem, f.block.addr, total);
      && Untouched(mem, m, f.pool) && UsedHeader(m, f.block)
      && (forall a | Word(m, a) != Word(mem, a) :: Covered(pool, a)) && Sized(f.pool)
  {
    assert In(Gone(f), f.block.addr) && In(Gone(f), f.block.addr + 4) && In(Gone(f), f.block.addr + 8);
    hide Covered;
  }

  /** The near fit: the whole block is unlinked. */
  lemma UnlinkWhole(mem: Memory, head: int, pool: Pool, total: nat, k: nat)
    requires Sorted(pool) && Linked(mem, head, pool) && total >= DESC && total % 4 == 0
    requires k == HeapSpec.FirstFit(pool, total) < |pool| && pool[k].size < total + MIN_BLOCK
    ensures var m := WithNext(mem, PrevOf(pool[..k]), NextOf(mem, pool[k].addr));
      && Linked(m, HeadWith(PrevOf(pool[..k]), head, NextOf(mem, pool[k].addr)), Take(pool, total).pool)
      && forall a | Word(m, a) != Word(mem, a) :: Covered(pool, a)
  {
    hide Covered, Linked, Sorted, Word, WithNext, HeadWith, PrevOf, NextOf;
    LinkConfined(mem, pool, k, NextOf(mem, pool[k].addr));
    WithoutLinked(mem, head, pool, k);
  }

  lemma WithoutLinked(mem: Memory, head: int, pool: Pool, k: nat)
    requires Sorted(pool) && Linked(mem, head, pool) && k < |pool|
    ensures var m := WithNext(mem, PrevOf(pool[..k]), NextOf(mem, pool[k].addr));
      Linked(m, HeadWith(PrevOf(pool[..k]), head, NextOf(mem, pool[k].addr)), pool[..k] + pool[k + 1..])
  {
    HeaderAt(mem, head, pool, k);
    HeaderNext(mem, pool[k], First(pool[k + 1..], NULL));
    SortedWithout(pool, k);
    hide Sorted, Chain, FreeHeader, WithNext, HeadWith, PrevOf, NextOf;
    ChainParts(mem, pool, k, k + 1);
    Relink(mem, head, pool[..k], First(pool[k..], NULL), pool[k + 1..]);
  }

  lemma HeaderNext(mem: Memory, b: Block, next: int)
    requires FreeHeader(mem, b, next)
    ensures NextOf(mem, b.addr) == next && SizeOf(mem, b.addr) == b.size
  {
  }

  /** The split: the block stays where it is and shrinks. */
  lemma ShrinkBlock(mem: Memory, head: int, pool: Pool, total: nat, k: nat)
    requires Sorted(pool) && Linked(mem, head, pool) && total >= DESC && total % 4 == 0
    requires k == HeapSpec.FirstFit(pool, total) < |pool| && pool[k].size >= total + MIN_BLOCK
    ensures var m := mem[pool[k].addr := pool[k].size - total];
      && Linked(m, head, Take(pool, total).pool)
      && forall a | Word(m, a) != Word(mem, a) :: Covered(pool, a)
  {
    hide Covered, Linked, Sorted, Word;
    ShrinkFrame(mem, pool, total, k);
    ShrinkLinked(mem, head, pool, total, k);
  }

  lemma ShrinkLinked(mem: Memory, head: int, pool: Pool, total: nat, k: nat)
    requires Sorted(pool) && Linked(mem, head, pool) && k < |pool| && pool[k].size >= total
    ensures Linked(mem[pool[k].addr := pool[k].size - total], head,
                   With(pool, k, Block(pool[k].addr, pool[k].size - total), k + 1))
  {
    hide Covered, In, FreeHeader, Word, Chain, Sorted;
    var m := mem[pool[k].addr := pool[k].size - total];
    var shrunk := Block(pool[k].addr, pool[k].size - total);
    ShrunkHeader(mem, head, pool, total, k);
    ShrinkFrame(mem, pool, total, k);
    ChainParts(mem, pool, k, k + 1);
    ChainFrame(mem, m, pool[..k], First(pool[k..], NULL));
    ChainFrame(mem, m, pool[k + 1..], NULL);
    ChainCons(m, shrunk, pool[k + 1..], NULL);
    ChainConcat(m, pool[..k], [shrunk] + pool[k + 1..], NULL);
  }

  lemma ShrunkHeader(mem: Memory, head: int, pool: Pool, total: nat, k: nat)
    requires Linked(mem, head, pool) && k < |pool| && total <= pool[k].size
    ensures FreeHeader(mem[pool[k].addr := pool[k].size - total], Block(pool[k].addr, pool[k].size - total),
      First(pool[k + 1..], NULL))
  {
    HeaderAt(mem, head, pool, k);
  }

  lemma ShrinkFrame(mem: Memory, pool: Pool, total: int, k: nat)
    requires Sorted(pool) && k < |pool|
    ensures var m := mem[pool[k].addr := pool[k].size - total];
      && Untouched(mem, m, pool[..k]) && Untouched(mem, m, pool[k + 1..])
      && (forall a | Word(m, a) != Word(mem, a) :: Covered(pool, a))
      && Sized(pool[..k]) && Sized(pool[k + 1..])
  {
    assert In(pool[k], pool[k].addr);
    OthersOutside(pool, k, pool[k].addr);
    hide Sorted;
  }

  /** A live block whose memory is untouched keeps its header. */
  lemma LiveHeaders(live: seq<Block>, mem: Memory, mem': Memory)
    requires LiveOk(live) && UsedHeaders(mem, live) && Untouched(mem, mem', live)
    ensures UsedHeaders(mem', live)
  {
    forall i | 0 <= i < |live|
      ensures UsedHeader(mem', live[i])
    {
      assert In(live[i], live[i].addr) && In(live[i], live[i].addr + 4);
    }
  }

  /** What marking the header of live block i free leaves for the list walk. */
  lemma FreeReady(s: State, view: Pages.FreeMap, mem: Memory, marked: Memory, head: int, i: nat)
    requires Inv(s, view) && i < |s.live| && Linked(mem, head, s.pool) && UsedHeaders(mem, s.live)
    requires marked == mem[s.live[i].addr + 4 := MAGIC_FREE][s.live[i].addr + 8 := NULL]
    ensures ReadyToLink(marked, head, s.pool, s.live[i])
    ensures forall a | Word(marked, a) != Word(mem, a) :: In(s.live[i], a)
  {
    MarkedHeader(mem, marked, s.live, i);
    PoolIsSorted(s, view);
    hide Inv, UsedHeaders, FreeHeader, Covered, Sorted, LiveOk, Chain, In;
    LiveBlock(s, view, i);
    SortedIsSized(s.pool);
    ApartFrom(s.live[i], s.pool);
    MarkFrame(mem, marked, s.pool, s.live[i]);
    ChainFrame(mem, marked, s.pool, NULL);
  }

  lemma MarkedHeader(mem: Memory, marked: Memory, live: seq<Block>, i: nat)
    requires i < |live| && UsedHeaders(mem, live)
    requires marked == mem[live[i].addr + 4 := MAGIC_FREE][live[i].addr + 8 := NULL]
    ensures FreeHeader(marked, live[i], NULL)
  {
    assert UsedHeader(mem, live[i]);
  }

  lemma SortedIsSized(pool: Pool)
    requires Sorted(pool)
    ensures Sized(pool) && forall i | 0 <= i < |pool| :: pool[i].size > 0
  {
  }

  /** No other live block notices the free of block i. */
  lemma FreeUntouched(s: State, view: Pages.FreeMap, mem: Memory, marked: Memory, mem': Memory, i: nat)
    requires Inv(s, view) && i < |s.live| && UsedHeaders(mem, s.live)
    requires forall a | Word(marked, a) != Word(mem, a) :: In(s.live[i], a)
    requires Confined(marked, mem', s.pool, s.live[i])
    ensures Untouched(mem, mem', Without(s.live, i)) && UsedHeaders(mem', Without(s.live, i))
  {
    OthersUsed(mem, s.live, i);
    hide Covered, In, Sorted, Without, LiveOk, UsedHeaders, Bytes;
    WithoutCovers(s.live, i);
    LiveHeaders(Without(s.live, i), mem, mem');
  }

  lemma OthersUsed(mem: Memory, live: seq<Block>, i: nat)
    requires i < |live| && UsedHeaders(mem, live)
    ensures UsedHeaders(mem, Without(live, i))
  {
    var rest := Without(live, i);
    forall j | 0 <= j < |rest|
      ensures UsedHeader(mem, rest[j])
    {
      assert rest[j] == live[if j < i then j else j + 1];
    }
  }

  lemma MarkFrame(mem: Memory, marked: Memory, pool: Pool, b: Block)
    requires b.size >= DESC && forall a | In(b, a) :: !Covered(pool, a)
    requires marked == mem[b.addr + 4 := MAGIC_FREE][b.addr + 8 := NULL]
    ensures Untouched(mem, marked, pool)
    ensures forall a | Word(marked, a) != Word(mem, a) :: In(b, a)
  {
    hide Covered;
  }

  lemma PoolIsSorted(s: State, view: Pages.FreeMap)
    requires Inv(s, view)
    ensures Sorted(s.pool)
  {
  }

  lemma PoolIsLinked(mem: Memory, head: int, s: State, view: Pages.FreeMap)
    requires Intact(mem, head, s, view)
    ensures Sorted(s.pool) && Linked(mem, head, s.pool)
  {
  }

  lemma RoundedSize(sz: nat)
    requires sz + DESC + 3 < WORD_END
    ensures TotalSize(sz) >= sz + DESC && TotalSize(sz) % 4 == 0
  {
  }

  /** What malloc returns and what it does to the heap, in each of its two ways. */
  ghost predicate ServedFromPool(s: State, sz: nat, p: nat, t: State) {
    FitsPool(s, sz) && p > DESC && t == FromPool(s, sz) && t.live == s.live + [Block(p - DESC, TotalSize(sz))]
  }

  ghost predicate ServedFromPages(s: System, nwords: nat, sz: nat, p: nat, t: System) {
    var pg, n := Pages.Search(s.view, nwords, BytesToPages(TotalSize(sz)), Pages.Heap), BytesToPages(TotalSize(sz));
    && (pg < 0 ==> p == NULL && t == s)
    && (pg >= 0 ==>
      && pg > 0 && p == PAGE * pg + DESC
      && t == s.(heap := FromPages(s.heap, sz, PAGE * pg), view := Pages.MarkRange(s.view, pg, n, false))
      && t.heap.live == s.heap.live + [Block(PAGE * pg, TotalSize(sz))])
  }

  /** The block of a refill starts at the lowest run of free pages that holds it; p is null if there is none. */
  ghost predicate LowestRun(view: Pages.FreeMap, nwords: nat, sz: nat, p: nat) {
    Pages.Extreme(view, nwords, BytesToPages(TotalSize(sz)), Pages.Heap, if p == NULL then -1 else (p - DESC) / PAGE)
  }

  lemma AtPage(pg: nat)
    ensures (PAGE * pg + DESC - DESC) / PAGE == pg
  {
  }

  /** malloc takes one step of the system; p is null exactly when nothing was allocated, and otherwise points
      behind the header of a new live block that holds sz bytes. */
  ghost predicate Allocated(s: System, nwords: nat, sz: nat, p: nat, t: System) {
    && t == Step(s, nwords, Op.Malloc(sz))
    && if p == NULL then t == s
       else p > DESC && t.heap.live == s.heap.live + [Block(p - DESC, TotalSize(sz))] && TotalSize(sz) >= sz + DESC
  }

  lemma AllocatedFromPool(s: System, nwords: nat, sz: nat, p: nat, t: State)
    requires sz + DESC + 3 < WORD_END && ServedFromPool(s.heap, sz, p, t)
    ensures Allocated(s, nwords, sz, p, s.(heap := t))
  {
    RoundedSize(sz);
    hide Take, TotalSize;
  }

  lemma AllocatedFromPages(s: System, nwords: nat, sz: nat, p: nat, t: System)
    requires Servable(sz) && !FitsPool(s.heap, sz) && ServedFromPages(s, nwords, sz, p, t)
    ensures Allocated(s, nwords, sz, p, t)
  {
    RoundedSize(sz);
    hide Take, TotalSize, BytesToPages, FromPages, Pages.Search, Pages.MarkRange;
  }

  lemma PoolBlock(s: State, sz: nat, b: nat)
    requires Sorted(s.pool) && sz + DESC + 3 < WORD_END && FitsPool(s, sz)
    requires b == Take(s.pool, TotalSize(sz)).block.addr
    ensures ServedFromPool(s, sz, b + DESC, FromPool(s, sz))
  {
    RoundedSize(sz);
    TakeBlock(s.pool, TotalSize(sz));
    hide TotalSize, Sorted, Take;
  }

  /** What a malloc served from the pool leaves. */
  lemma PoolServed(s: State, view: Pages.FreeMap, mem: Memory, head: int, mem': Memory, head': int, sz: nat)
    requires Intact(mem, head, s, view) && sz + DESC + 3 < WORD_END && FitsPool(s, sz)
    requires TakenFrom(mem, mem', head', s.pool, Take(s.pool, TotalSize(sz)))
    ensures Intact(mem', head', FromPool(s, sz), view) && Untouched(mem, mem', s.live)
  {
    hide Inv, Take, Covered, Sorted, LiveOk, In, UsedHeader, UsedHeaders, TotalSize, Linked, OnUsedPages, Untouched;
    FromPoolKeepsInv(s, view, sz);
    PoolWritesMissLive(s, view, mem, mem');
    LiveHeaders(s.live, mem, mem');
    UsedAppend(mem', s.live, Take(s.pool, TotalSize(sz)).block);
  }

  lemma PoolWritesMissLive(s: State, view: Pages.FreeMap, mem: Memory, mem': Memory)
    requires Inv(s, view) && forall a | Word(mem', a) != Word(mem, a) :: Covered(s.pool, a)
    ensures Untouched(mem, mem', s.live) && LiveOk(s.live)
  {
    hide Covered;
  }

  lemma UsedAppend(mem: Memory, live: seq<Block>, b: Block)
    requires UsedHeaders(mem, live) && UsedHeader(mem, b)
    ensures UsedHeaders(mem, live + [b])
  {
  }

  /** Stamping the blocks of a fresh run: memory that was not the heap's before. */
  function StampRun(mem: Memory, base: nat, sz: nat): Memory {
    var m := StampUsed(mem, base, TotalSize(sz));
    if RestSize(sz) > 0 then StampUsed(m, base + TotalSize(sz), RestSize(sz)) else m
  }

  /** The heap with the blocks of a fresh run. */
  lemma IntactWithRun(s: State, view: Pages.FreeMap, mem: Memory, head: int, sz: nat, pg: nat)
    requires Intact(mem, head, s, view) && Servable(sz) && pg > 0
    requires Pages.RunFree(view, pg, BytesToPages(TotalSize(sz)))
    ensures var m, view' := StampRun(mem, PAGE * pg, sz), Pages.MarkRange(view, pg, BytesToPages(TotalSize(sz)), false);
      && Intact(m, head, WithRun(s, sz, PAGE * pg), view') && Untouched(mem, m, s.live)
      && FromPages(s, sz, PAGE * pg).live == s.live + [Block(PAGE * pg, TotalSize(sz))]
  {
    hide Inv, Linked, UsedHeaders, WithRun, FromPages, Servable, TotalSize, BytesToPages, Pages.RunFree,
      Pages.MarkRange, StampRun, Untouched;
    FreshStamped(s, view, mem, head, sz, pg);
    WithRunKeepsInv(s, view, sz, pg);
    FromPagesShape(s, Pages.MarkRange(view, pg, BytesToPages(TotalSize(sz)), false), sz, PAGE * pg);
  }

  lemma FreshStamped(s: State, view: Pages.FreeMap, mem: Memory, head: int, sz: nat, pg: nat)
    requires Inv(s, view) && Servable(sz) && pg > 0
    requires Pages.RunFree(view, pg, BytesToPages(TotalSize(sz)))
    requires Linked(mem, head, s.pool) && UsedHeaders(mem, s.live)
    ensures var m := StampRun(mem, PAGE * pg, sz);
      && Linked(m, head, WithRun(s, sz, PAGE * pg).pool) && UsedHeaders(m, WithRun(s, sz, PAGE * pg).live)
      && Untouched(mem, m, s.live)
  {
    var m := StampRun(mem, PAGE * pg, sz);
    var n := BytesToPages(TotalSize(sz));
    assert Sized(s.pool);
    hide Inv, Covered, In, Sorted, LiveOk, UsedHeader, UsedHeaders, TotalSize, BytesToPages, OnUsedPage, Pages.RunFree,
      Chain, StampRun, Untouched, Word;
    StampConfined(mem, PAGE * pg, sz, n);
    FreshRun(view, pg, n);
    RunUntouched(s, view, mem, m, pg, n);
    ChainFrame(mem, m, s.pool, NULL);
    LiveHeaders(s.live, mem, m);
    StampedHeaders(mem, PAGE * pg, sz);
    WithRunHeaders(s, m, PAGE * pg, sz);
  }

  lemma WithRunHeaders(s: State, m: Memory, base: nat, sz: nat)
    requires UsedHeaders(m, s.live) && UsedHeader(m, Block(base, TotalSize(sz)))
    requires RestSize(sz) > 0 ==> UsedHeader(m, Block(base + TotalSize(sz), RestSize(sz)))
    ensures UsedHeaders(m, WithRun(s, sz, base).live)
  {
    hide TotalSize, RestSize, UsedHeader;
  }

  lemma RunUntouched(s: State, view: Pages.FreeMap, mem: Memory, m: Memory, pg: nat, n: nat)
    requires Inv(s, view)
    requires forall a | Word(m, a) != Word(mem, a) :: In(RunBlock(pg, n), a)
    requires forall a | In(RunBlock(pg, n), a) :: !OnUsedPage(view, a)
    ensures Untouched(mem, m, s.pool) && Untouched(mem, m, s.live) && LiveOk(s.live)
  {
    hide Covered, In, Sorted, LiveOk, OnUsedPage;
  }

  lemma StampConfined(mem: Memory, base: nat, sz: nat, n: nat)
    requires Servable(sz) && n == BytesToPages(TotalSize(sz)) && base % PAGE == 0 && base > 0
    ensures forall a | Word(StampRun(mem, base, sz), a) != Word(mem, a) :: In(Block(base, PAGE * n), a)
  {
    var b, rest := SplitRun(sz, base / PAGE);
    hide TotalSize, BytesToPages, Servable;
  }

  lemma RunAboveZero(view: Pages.FreeMap, pg: nat, n: nat)
    requires Pages.RunFree(view, pg, n) && !view[0]
    ensures pg > 0 && !Pages.MarkRange(view, pg, n, false)[0]
  {
  }

  lemma RestMagic(mem: Memory, base: nat, sz: nat)
    requires RestSize(sz) > 0
    ensures MagicOf(StampRun(mem, base, sz), base + TotalSize(sz)) == MAGIC_USED
  {
  }

  lemma UntouchedPart(mem: Memory, mem': Memory, x: seq<Block>, y: seq<Block>)
    requires Untouched(mem, mem', x + y)
    ensures Untouched(mem, mem', x)
  {
    forall a | Covered(x, a) ensures Covered(x + y, a) { CoveredConcat(x, y, a); }
  }

  lemma NothingTouched(mem: Memory, live: seq<Block>)
    ensures Untouched(mem, mem, live)
  {
  }

  lemma UntouchedBoth(mem: Memory, m: Memory, mem': Memory, live: seq<Block>)
    requires Untouched(mem, m, live) && Untouched(m, mem', live)
    ensures Untouched(mem, mem', live)
  {
  }

  lemma StampedHeaders(mem: Memory, base: nat, sz: nat)
    requires Servable(sz)
    ensures var m := StampRun(mem, base, sz);
      && UsedHeader(m, Block(base, TotalSize(sz)))
      && (RestSize(sz) > 0 ==> UsedHeader(m, Block(base + TotalSize(sz), RestSize(sz))))
  {
    TotalSizeHoldsRequest(sz);
    hide TotalSize, BytesToPages;
  }

  lemma CurrentBlock(mem: Memory, head: int, pool: Pool, k: nat)
    requires Linked(mem, head, pool) && Sorted(pool) && k <= |pool| && First(pool[k..], NULL) != NULL
    ensures k < |pool| && First(pool[k..], NULL) == pool[k].addr > 0 && SizeOf(mem, pool[k].addr) == pool[k].size
    ensures PrevOf(pool[..k + 1]) == pool[k].addr
  {
    HeaderAt(mem, head, pool, k);
    HeaderNext(mem, pool[k], First(pool[k + 1..], NULL));
  }

  /** The first block that is large enough is the one that is taken. */
  lemma TakeIs(pool: Pool, total: nat, k: nat)
    requires k < |pool| && pool[k].size >= total && forall i | 0 <= i < k :: pool[i].size < total
    ensures k == HeapSpec.FirstFit(pool, total) && Take(pool, total).Fit?
    ensures Take(pool, total).block.addr
         == if pool[k].size < total + MIN_BLOCK then pool[k].addr else pool[k].addr + pool[k].size - total
  {
  }

  lemma EndOfList(mem: Memory, head: int, pool: Pool, k: nat)
    requires Sorted(pool) && k <= |pool| && First(pool[k..], NULL) == NULL
    ensures k == |pool|
  {
  }

  /** The refill writes only to its own pages, whatever memory held before. */
  ghost predicate StaysInRun(base: nat, sz: nat) {
    forall mem: Memory, a | Word(StampRun(mem, base, sz), a) != Word(mem, a) ::
      In(Block(base, PAGE * BytesToPages(TotalSize(sz))), a)
  }

  /** A refill stays inside its pages exactly when it does not leave 4 or 8 bytes at their end:
      such a rest is smaller than the descriptor that is written for it. */
  lemma RefillStaysInRun(base: nat, sz: nat)
    requires base > 0 && base % PAGE == 0 && sz + DESC + 3 < WORD_END && TotalSize(sz) <= WORD_END - PAGE
    ensures StaysInRun(base, sz) <==> !Spills(TotalSize(sz))
  {
    if Spills(TotalSize(sz)) {
      SpillWrites(base, sz);
    } else {
      var n := BytesToPages(TotalSize(sz));
      forall mem: Memory, a | Word(StampRun(mem, base, sz), a) != Word(mem, a)
        ensures In(Block(base, PAGE * n), a)
      {
        StampConfined(mem, base, sz, n);
      }
    }
  }

  /** Memory just behind the pages that a spill changes. */
  lemma SpillWrites(base: nat, sz: nat)
    requires sz + DESC + 3 < WORD_END && TotalSize(sz) <= WORD_END - PAGE && Spills(TotalSize(sz))
    ensures !StaysInRun(base, sz)
  {
    SpilledRest(sz);
    hide TotalSize, BytesToPages, Spills;
    var end := base + PAGE * BytesToPages(TotalSize(sz));
    var before: Memory := map[end := 1];
    assert Word(StampRun(before, base, sz), end) != Word(before, end);
    assert !In(Block(base, PAGE * BytesToPages(TotalSize(sz))), end);
  }

  lemma SpilledRest(sz: nat)
    requires TotalSize(sz) <= WORD_END - PAGE
    ensures Spills(TotalSize(sz)) <==> RestSize(sz) == 4 || RestSize(sz) == 8
  {
    hide TotalSize;
    RestOf(TotalSize(sz));
  }

  lemma RestOf(total: nat)
    requires total <= WORD_END - PAGE
    ensures Spills(total) <==> PAGE * BytesToPages(total) - total == 4 || PAGE * BytesToPages(total) - total == 8
  {
  }

  /** What a spill does: the header of a live block that starts on the next page is lost. */
  lemma SpillHitsNeighbour(mem: Memory, base: nat, sz: nat, victim: Block)
    requires Spills(TotalSize(sz)) && sz + DESC + 3 < WORD_END && TotalSize(sz) <= WORD_END - PAGE
    requires WellSized(victim) && victim.addr == base + PAGE * BytesToPages(TotalSize(sz))
    ensures !UsedHeader(StampRun(mem, base, sz), victim)
  {
    SpilledRest(sz);
    hide TotalSize, BytesToPages;
  }

  /** Distinct live blocks share no address. */
  lemma OneOwner(live: seq<Block>, i: nat, j: nat, a: int)
    requires LiveOk(live) && i < |live| && j < |live| && In(live[i], a) && In(live[j], a)
    ensures i == j
  {
  }

  /** A program's write to the payload of block i. */
  lemma PayloadWrite(s: State, view: Pages.FreeMap, mem: Memory, mem': Memory, i: nat, a: int)
    requires Inv(s, view) && i < |s.live| && UsedHeaders(mem, s.live)
    requires s.live[i].addr + DESC <= a && In(s.live[i], a)
    requires forall x | x != a :: Word(mem', x) == Word(mem, x)
    ensures Untouched(mem, mem', s.pool) && UsedHeaders(mem', s.live)
  {
    forall j | 0 <= j < |s.live|
      ensures UsedHeader(mem', s.live[j])
    {
      assert UsedHeader(mem, s.live[j]) && WellSized(s.live[j]);
      if In(s.live[j], a) { OneOwner(s.live, i, j, a); }
    }
    hide Sorted;
    assert Covered(s.live, a);
  }

  class Allocator {
    var mem: Memory
    var pool: int
    const pages: Pages.PageAllocator
    ghost var h: State

    ghost predicate Valid()
      reads this, pages, pages.bitmap
    {
      && pages.Valid() && !pages.View()[0]
      && Intact(mem, pool, h, pages.View())
    }

    /** A kernel that has not allocated yet. */
    constructor (pages: Pages.PageAllocator)
      requires pages.Valid() && !pages.View()[0]
      ensures Valid() && h == State([], [], 0, 0, 0) && this.pages == pages
    {
      this.pages := pages;
      mem, pool := map[], NULL;
      h := State([], [], 0, 0, 0);
    }

    /** The list walk of free: links the block b, whose header is free and unlinked, into the pool. */
    method Link(addr: nat, ghost b: Block)
      requires addr == b.addr && ReadyToLink(mem, pool, h.pool, b)
      modifies this`mem, this`pool
      ensures LinkedInto(old(mem), mem, pool, h.pool, b)
    {
      hide Covered, In, Apart, Sorted, LinkedInto, Confined, Chain, MergeNext, MergePrev, Insert, Leading, ReadyToLink,
        Linked, Next, WithNext, HeadWith, SizeOf;
      ReadyParts(mem, pool, h.pool, b);
      if pool == NULL {
        NotNull(mem, pool, h.pool, b);
        LinkOnly(mem, b);
        pool := addr;
        return;
      }
      NotNull(mem, pool, h.pool, b);
      var end := addr + SizeOf(mem, addr);
      var head, prev := pool, NULL;
      ghost var k := 0;
      while Next(mem, prev, head) != NULL
        invariant k <= |h.pool|
        invariant prev == PrevOf(h.pool[..k])
        invariant head == pool == old(pool) && mem == old(mem)
        invariant forall i | 0 <= i < k :: h.pool[i].addr < end
        decreases |h.pool| - k
      {
        WalkAt(mem, head, h.pool, k);
        var cur := Next(mem, prev, head);
        if cur >= end { LeadingIs(h.pool, end, k); }
        if cur == end {
          LinkMergingNext(mem, head, h.pool, b, k);
          mem := MergeNext(mem, addr, cur);
          mem, pool := WithNext(mem, prev, addr), HeadWith(prev, head, addr);
          return;
        }
        if cur > end {
          LinkBefore(mem, head, h.pool, b, k);
          mem := mem[addr + 8 := cur];
          mem, pool := WithNext(mem, prev, addr), HeadWith(prev, head, addr);
          return;
        }
        prev := cur;
        k := k + 1;
      }
      WalkAt(mem, head, h.pool, k);
      LeadingIs(h.pool, end, k);
      if prev + SizeOf(mem, prev) == addr {
        LinkMergingLast(mem, head, h.pool, b, k);
        mem := MergePrev(mem, addr, prev);
        return;
      }
      LinkLast(mem, head, h.pool, b, k);
      mem, pool := WithNext(mem, prev, addr), HeadWith(prev, head, addr);
    }

    /** free: a panic for anything but a block in use; otherwise the block joins the pool, and the header at p
        no longer says "in use", so freeing p again is a panic. */
    method Free(p: nat) returns (r: FreeResult)
      requires Valid()
      requires p != NULL && MagicOf(mem, p - DESC) == MAGIC_USED ==> IsLive(h, p - DESC)
      modifies this
      ensures Valid()
      ensures r == if p == NULL || old(MagicOf(mem, p - DESC)) == MAGIC_USED then Freed
                   else if old(MagicOf(mem, p - DESC)) == MAGIC_FREE then DoubleFree else CorruptedMagic
      ensures p == NULL || r != Freed ==> unchanged(this)
      ensures p != NULL && r == Freed ==>
        && h == Release(old(h), p - DESC) && MagicOf(mem, p - DESC) != MAGIC_USED
        && Untouched(old(mem), mem, h.live)
    {
      hide Inv, Covered, In, Chain, Insert, ReadyToLink;
      if p == NULL {
        return Freed;
      }
      var b := p - DESC;
      if MagicOf(mem, b) != MAGIC_USED {
        return if MagicOf(mem, b) == MAGIC_FREE then DoubleFree else CorruptedMagic;
      }
      ghost var i := IndexOf(h.live, b);
      ghost var block := h.live[i];
      ghost var s := h;
      mem := mem[b + 4 := MAGIC_FREE];
      mem := mem[b + 8 := NULL];
      ghost var marked := mem;
      FreeReady(s, pages.View(), old(mem), marked, pool, i);
      Link(b, block);
      FreeUntouched(s, pages.View(), old(mem), marked, mem, i);
      ReleaseKeepsInv(s, pages.View(), b);
      h := Release(s, b);
      r := Freed;
    }

    /** The first-fit loop of malloc: the block it hands out, null if no block is large enough. */
    method TakeFromPool(total: nat) returns (b: nat)
      requires Sorted(h.pool) && Linked(mem, pool, h.pool) && total >= DESC && total % 4 == 0
      modifies this`mem, this`pool
      ensures b == NULL <==> Take(h.pool, total).NoFit?
      ensures b == NULL ==> unchanged(this)
      ensures b != NULL ==> b == Take(h.pool, total).block.addr
      ensures b != NULL ==> TakenFrom(old(mem), mem, pool, h.pool, Take(h.pool, total))
    {
      hide Covered, In, Sorted, Chain, TakenFrom, Linked, Take, HeapSpec.FirstFit;
      var head, prev := pool, NULL;
      ghost var k := 0;
      NextAt(mem, head, h.pool, 0);
      while Next(mem, prev, head) != NULL
        invariant k <= |h.pool|
        invariant prev == PrevOf(h.pool[..k])
        invariant head == pool == old(pool) && mem == old(mem)
        invariant Next(mem, prev, head) == First(h.pool[k..], NULL)
        invariant forall i | 0 <= i < k :: h.pool[i].size < total
        decreases |h.pool| - k
      {
        var cur := Next(mem, prev, head);
        CurrentBlock(mem, head, h.pool, k);
        if SizeOf(mem, cur) >= total { TakeIs(h.pool, total, k); }
        if SizeOf(mem, cur) >= total && SizeOf(mem, cur) < total + MIN_BLOCK {
          UnlinkWhole(mem, head, h.pool, total, k);
          var next := NextOf(mem, cur);
          mem, pool := WithNext(mem, prev, next), HeadWith(prev, head, next);
          StampTaken(old(mem), mem, pool, h.pool, total);
          mem := StampUsed(mem, cur, total);
          return cur;
        }
        if SizeOf(mem, cur) > total {
          ShrinkBlock(mem, head, h.pool, total, k);
          b := cur + SizeOf(mem, cur) - total;
          mem := mem[cur := SizeOf(mem, cur) - total];
          StampTaken(old(mem), mem, pool, h.pool, total);
          mem := StampUsed(mem, b, total);
          return;
        }
        prev := cur;
        k := k + 1;
        NextAt(mem, head, h.pool, k);
      }
      EndOfList(mem, head, h.pool, k);
      NoFitExactly(h.pool, total);
      b := NULL;
    }

    /** Cuts a fresh run of pages into the block asked for and the rest, which goes to the pool by way of free. */
    method CutRun(sz: nat, pg: nat, ghost view: Pages.FreeMap)
      requires Servable(sz) && pg > 0 && Pages.RunFree(view, pg, BytesToPages(TotalSize(sz)))
      requires pages.Valid() && !pages.View()[0]
      requires pages.View() == Pages.MarkRange(view, pg, BytesToPages(TotalSize(sz)), false)
      requires Intact(mem, pool, h, view)
      modifies this
      ensures Valid() && Untouched(old(mem), mem, old(h).live)
      ensures h == FromPages(old(h), sz, PAGE * pg) && h.live == old(h).live + [Block(PAGE * pg, TotalSize(sz))]
    {
      hide Intact, BytesToPages, TotalSize, WithRun, Release, MagicOf, Servable, StampUsed, Untouched,
        Pages.MarkRange, Pages.RunFree;
      var total := TotalSize(sz);
      var npages := BytesToPages(total);
      var base := PAGE * pg;
      IntactWithRun(h, view, mem, pool, sz, pg);
      h := WithRun(h, sz, base);
      var restSize := npages * PAGE - total;
      mem := StampUsed(mem, base, total);
      if restSize > 0 {
        mem := StampUsed(mem, base + total, restSize);
        RestIsLive(old(h), sz, base);
        RestMagic(old(mem), base, sz);
        ghost var stamped := mem;
        var r := Free(base + total + DESC);
        UntouchedPart(stamped, mem, old(h).live, [Block(base, total)]);
        UntouchedBoth(old(mem), stamped, mem, old(h).live);
      }
    }

    /** The refill of malloc. */
    method MallocFromPages(sz: nat) returns (p: nat)
      requires Valid() && Servable(sz)
      modifies this, pages, pages.bitmap
      ensures Valid() && Untouched(old(mem), mem, old(h).live)
      ensures ServedFromPages(System(old(h), old(pages.View()), {}), pages.nwords, sz, p, System(h, pages.View(), {}))
      ensures LowestRun(old(pages.View()), pages.nwords, sz, p)
    {
      hide Intact, Inv, Linked, BytesToPages, TotalSize, Servable, UsedHeaders, Untouched, Pages.Search,
        Pages.MarkRange, Pages.RunFree, Pages.NoRun;
      NothingTouched(mem, h.live);
      ghost var view := pages.View();
      var npages := BytesToPages(TotalSize(sz));
      SearchFindsRun(view, pages.nwords, npages, Pages.Heap);
      var pg := pages.AllocPages(npages, Pages.Heap);
      Pages.SearchExactly(view, pages.nwords, npages, Pages.Heap, pg);
      if pg < 0 {
        return NULL;
      }
      RunAboveZero(view, pg, npages);
      CutRun(sz, pg, view);
      p := PAGE * pg + DESC;
      AtPage(pg);
    }

    /** malloc served from the pool; null if no pool block is large enough. */
    method MallocFromPool(sz: nat) returns (p: nat)
      requires Valid() && sz + DESC + 3 < WORD_END
      modifies this
      ensures Valid() && Untouched(old(mem), mem, old(h).live)
      ensures if p == NULL then h == old(h) && !FitsPool(h, sz) else ServedFromPool(old(h), sz, p, h)
    {
      hide Intact, Take, TakenFrom, TotalSize, FromPool, Untouched, Sorted, Linked, ServedFromPool;
      NothingTouched(mem, h.live);
      PoolIsLinked(mem, pool, h, pages.View());
      RoundedSize(sz);
      var b := TakeFromPool(TotalSize(sz));
      if b == NULL {
        return NULL;
      }
      PoolServed(h, pages.View(), old(mem), old(pool), mem, pool, sz);
      PoolBlock(h, sz, b);
      h := FromPool(h, sz);
      p := b + DESC;
    }

    /** malloc: from the pool if a block fits, else from fresh pages, else null.  No live block notices. */
    method Malloc(sz: nat) returns (p: nat)
      requires Valid() && if FitsPool(h, sz) then sz + DESC + 3 < WORD_END else Servable(sz)
      modifies this, pages, pages.bitmap
      ensures Valid() && Untouched(old(mem), mem, old(h).live)
      ensures Allocated(System(old(h), old(pages.View()), {}), pages.nwords, sz, p, System(h, pages.View(), {}))
      ensures old(!FitsPool(h, sz)) ==> LowestRun(old(pages.View()), pages.nwords, sz, p)
    {
      ghost var s := System(h, pages.View(), {});
      hide Intact, Take, TotalSize, BytesToPages, Untouched, Servable, ServedFromPool, ServedFromPages, Allocated,
        LowestRun;
      p := MallocFromPool(sz);
      if p != NULL {
        AllocatedFromPool(s, pages.nwords, sz, p, h);
        return;
      }
      p := MallocFromPages(sz);
      AllocatedFromPages(s, pages.nwords, sz, p, System(h, pages.View(), {}));
    }

    /** Any write inside the payload of a live block leaves the heap intact. */
    method Store(ghost i: nat, a: int, v: int)
      requires Valid() && i < |h.live| && h.live[i].addr + DESC <= a && In(h.live[i], a)
      modifies this`mem
      ensures Valid() && mem == old(mem)[a := v]
    {
      PayloadWrite(h, pages.View(), mem, mem[a := v], i, a);
      PoolIsSorted(h, pages.View());
      hide Inv, Covered, Chain, Sorted;
      SortedIsSized(h.pool);
      ChainFrame(mem, mem[a := v], h.pool, NULL);
      mem := mem[a := v];
    }

    /** An immediate second free of the same pointer is a panic. */
    method FreeTwice(p: nat) returns (r: FreeResult)
      requires Valid() && p != NULL && MagicOf(mem, p - DESC) == MAGIC_USED && IsLive(h, p - DESC)
      modifies this
      ensures r == DoubleFree || r == CorruptedMagic
      ensures Valid() && h == Release(old(h), p - DESC)
    {
      r := Free(p);
      r := Free(p);
    }
  }
}
