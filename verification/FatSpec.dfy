/** The cluster chains of src/fsfat.c and the bytes of a file, on values. */
module FatSpec {
  import opened Words

  const SECTOR: nat := 512

  datatype Kind = Fat16 | Fat32

  /** A mounted volume: the file allocation table, the sectors of the disk, the sectors of a cluster, the sector of
      cluster 2, and the clusters of the chains that are looked at.  Other entries of the table may be anything. */
  datatype Volume = Volume(kind: Kind, fat: seq<nat>, disk: seq<seq<byte>>, clusterSize: nat, dataStart: nat,
                           used: set<int>) {
    /** Bytes of a cluster, a power of two: the code divides by it with clust_shift and clust_mask. */
    function ClusterBytes(): nat { clusterSize * SECTOR }
  }

  /** next_cluster: the entry of a cluster, -1 for a free entry and for the end marks. */
  function EntryNext(kind: Kind, entry: nat): int {
    if entry == 0 then -1
    else if kind.Fat16? && entry >= 0xfff8 then -1
    else if kind.Fat32? && entry >= 0xffffff8 then -1
    else entry
  }

  /** A FAT32 entry has 28 bits; the code compares all 32.  It agrees with the masked entry exactly when the top four
      bits are zero or the masked entry ends the chain anyway. */
  lemma TopNibble(entry: nat)
    requires entry < 0x1_0000_0000
    ensures EntryNext(Fat32, entry) == EntryNext(Fat32, entry % 0x1000_0000)
      <==> entry < 0x1000_0000 || entry % 0x1000_0000 == 0 || entry % 0x1000_0000 >= 0xffffff8
  {
  }

  /** The end marks: the bits above the low three are all set, in 16 bits and in the 28 that a FAT32 entry has; an
      entry ends a chain exactly if it is 0 or, without the top four bits that FAT32 reserves, such a mark. */
  lemma EntryEnds(entry: nat)
    ensures entry < 0x1_0000 ==> (EntryNext(Fat16, entry) < 0 <==> entry == 0 || entry / 8 == 0x1fff)
    ensures entry < 0x1000_0000 ==> (EntryNext(Fat32, entry) < 0 <==> entry == 0 || entry / 8 == 0x1ff_ffff)
    ensures forall k :: EntryNext(k, entry) == -1 || EntryNext(k, entry) == entry
  {
  }

  predicate IsCluster(v: Volume, c: int) {
    2 <= c < |v.fat| && c in v.used
  }

  /** Every link of a used cluster leads to a used one, and every cluster is inside the disk. */
  ghost predicate WellFormed(v: Volume) {
    && v.clusterSize > 0
    && (forall c | IsCluster(v, c) :: var n := EntryNext(v.kind, v.fat[c]); n < 0 || IsCluster(v, n))
    && (|v.fat| >= 2 ==> v.dataStart + (|v.fat| - 2) * v.clusterSize <= |v.disk|)
    && (forall i | 0 <= i < |v.disk| :: |v.disk[i]| == SECTOR)
  }

  /** Clusters that next_cluster may be asked about: those of chains, and 0, which an empty file has for its first one,
      on a volume whose entry 0 is an end mark. */
  predicate Linkable(v: Volume, c: int) {
    IsCluster(v, c) || (c == 0 < |v.fat| && EntryNext(v.kind, v.fat[0]) < 0)
  }

  function Next(v: Volume, c: int): (n: int)
    requires WellFormed(v) && Linkable(v, c)
    ensures n == -1 || IsCluster(v, n)
  {
    EntryNext(v.kind, v.fat[c])
  }

  /** find_cluster: `count` links on, -1 if the chain ends before. */
  function Find(v: Volume, count: int, c: int): (r: int)
    requires WellFormed(v) && (Linkable(v, c) || (c == -1 && count <= 0))
    ensures r == -1 || IsCluster(v, r) || (r == c && count <= 0)
    decreases count
  {
    if count <= 0 then c
    else
      var n := Next(v, c);
      if n < 0 then n else Find(v, count - 1, n)
  }

  /** Walking forward from a cluster of the chain and restarting from its first cluster agree. */
  lemma {:induction false} FindAdds(v: Volume, i: nat, j: nat, c: int)
    requires WellFormed(v) && Linkable(v, c) && Find(v, i, c) >= 0
    ensures Find(v, i + j, c) == Find(v, j, Find(v, i, c))
    decreases i
  {
    if i > 0 { FindAdds(v, i - 1, j, Next(v, c)); }
  }

  /** Once the chain has ended it stays ended. */
  lemma {:induction false} FindEnds(v: Volume, i: nat, j: nat, c: int)
    requires WellFormed(v) && Linkable(v, c) && i <= j && Find(v, i, c) < 0
    ensures Find(v, j, c) == -1
    decreases i
  {
    if i > 0 && Next(v, c) >= 0 { FindEnds(v, i - 1, j - 1, Next(v, c)); }
  }

  function Flatten(sectors: seq<seq<byte>>): (bytes: seq<byte>)
    ensures (forall i | 0 <= i < |sectors| :: |sectors[i]| == SECTOR) ==> |bytes| == |sectors| * SECTOR
  {
    if sectors == [] then [] else sectors[0] + Flatten(sectors[1..])
  }

  /** The first sector of a cluster. */
  function SectorOf(v: Volume, c: int): int {
    (c - 2) * v.clusterSize + v.dataStart
  }

  /** read_cluster. */
  function ClusterData(v: Volume, c: int): (data: seq<byte>)
    requires WellFormed(v) && IsCluster(v, c)
    ensures |data| == v.ClusterBytes()
  {
    SectorInRange(v, c);
    Flatten(v.disk[SectorOf(v, c)..SectorOf(v, c) + v.clusterSize])
  }

  lemma SectorInRange(v: Volume, c: int)
    requires WellFormed(v) && IsCluster(v, c)
    ensures 0 <= SectorOf(v, c) && SectorOf(v, c) + v.clusterSize <= |v.disk|
  {
    MulGap(c - 2, |v.fat| - 2, v.clusterSize);
  }

  /** The bytes of a chain from cluster c on, at most `size` of them. */
  function Bytes(v: Volume, c: int, size: nat): (bytes: seq<byte>)
    requires WellFormed(v) && (c <= 0 || IsCluster(v, c))
    ensures |bytes| <= size
    decreases size
  {
    if size == 0 || c <= 0 then []
    else
      var cb := v.ClusterBytes();
      if size <= cb then ClusterData(v, c)[..size] else ClusterData(v, c) + Bytes(v, Next(v, c), size - cb)
  }

  lemma BytesCons(v: Volume, c: int, size: nat)
    requires WellFormed(v) && IsCluster(v, c) && v.ClusterBytes() <= size
    ensures Bytes(v, c, size) == ClusterData(v, c) + Bytes(v, Next(v, c), size - v.ClusterBytes())
  {
  }

  lemma OneLess(i: nat, cb: nat)
    requires i > 0
    ensures i * cb == cb + (i - 1) * cb && (i - 1) * cb >= 0
  {
  }

  /** The bytes from the i-th cluster on, which start at offset o, are those of the chain that starts there. */
  lemma {:induction false} BytesFrom(v: Volume, c: int, size: nat, i: nat, o: nat)
    requires WellFormed(v) && IsCluster(v, c) && o == i * v.ClusterBytes() <= size && Find(v, i, c) >= 0
    ensures o <= |Bytes(v, c, size)| && Bytes(v, c, size)[o..] == Bytes(v, Find(v, i, c), size - o)
    decreases i
  {
    hide Bytes, ClusterData, Next, WellFormed;
    if i > 0 {
      var cb := v.ClusterBytes();
      OneLess(i, cb);
      BytesCons(v, c, size);
      var rest := Bytes(v, Next(v, c), size - cb);
      BytesFrom(v, Next(v, c), size - cb, i - 1, o - cb);
      DropFirst(ClusterData(v, c), rest, o);
    }
  }

  lemma DropFirst(x: seq<byte>, y: seq<byte>, o: nat)
    requires |x| <= o <= |x| + |y|
    ensures (x + y)[o..] == y[o - |x|..]
  {
  }

  /* Where the bytes are on the disk */

  /** Byte i of cluster c is b: the clusters follow one another from dataStart on, the first one being number 2. */
  predicate InCluster(v: Volume, c: int, i: nat, b: byte) {
    var s := v.dataStart + (c - 2) * v.clusterSize + i / SECTOR;
    0 <= s < |v.disk| && i % SECTOR < |v.disk[s]| && v.disk[s][i % SECTOR] == b
  }

  /** Byte i of the chain that starts at a cluster is b. */
  predicate InChain(v: Volume, first: int, i: nat, b: byte)
    requires WellFormed(v) && IsCluster(v, first)
  {
    InCluster(v, Find(v, Quot(i, v.ClusterBytes()), first), i % v.ClusterBytes(), b)
  }

  /** The bytes are those of the file from a position on. */
  ghost predicate OnDisk(f: File, pos: nat, data: seq<byte>)
    requires f.Ok()
  {
    data == [] || (IsCluster(f.v, f.first) && forall i | 0 <= i < |data| :: InChain(f.v, f.first, pos + i, data[i]))
  }

  lemma {:induction false} FlattenAt(sectors: seq<seq<byte>>, i: nat)
    requires (forall k | 0 <= k < |sectors| :: |sectors[k]| == SECTOR) && i < |sectors| * SECTOR
    ensures Flatten(sectors)[i] == sectors[i / SECTOR][i % SECTOR]
  {
    if i >= SECTOR {
      FlattenAt(sectors[1..], i - SECTOR);
      assert (i - SECTOR) / SECTOR == i / SECTOR - 1 && (i - SECTOR) % SECTOR == i % SECTOR;
    }
  }

  /** read_cluster reads the sectors of the cluster. */
  lemma ClusterOnDisk(v: Volume, c: int)
    requires WellFormed(v) && IsCluster(v, c)
    ensures forall i: nat | i < v.ClusterBytes() :: InCluster(v, c, i, ClusterData(v, c)[i])
  {
    forall i: nat | i < v.ClusterBytes()
      ensures InCluster(v, c, i, ClusterData(v, c)[i])
    {
      SectorInRange(v, c);
      hide Flatten;
      var first := SectorOf(v, c);
      var sectors := v.disk[first..first + v.clusterSize];
      FlattenAt(sectors, i);
      assert sectors[i / SECTOR] == v.disk[first + i / SECTOR];
    }
  }

  /** So do all bytes of a chain: each is in the cluster that many links on, at its offset there. */
  lemma BytesOnDisk(v: Volume, c: int, size: nat, i: nat)
    requires WellFormed(v) && IsCluster(v, c) && i < |Bytes(v, c, size)|
    ensures InChain(v, c, i, Bytes(v, c, size)[i])
  {
    hide Bytes, ClusterData, Find, InCluster;
    var cb := v.ClusterBytes();
    assert cb > 0;
    hide WellFormed;
    QuotRem(i, cb);
    ByteOfCluster(v, c, size, Quot(i, cb), Quot(i, cb) * cb, i % cb);
  }

  lemma QuotRem(i: nat, cb: nat)
    requires cb > 0
    ensures Quot(i, cb) * cb + i % cb == i && Quot(i, cb) * cb >= 0 && 0 <= i % cb < cb
  {
  }

  lemma ByteOfCluster(v: Volume, c: int, size: nat, q: nat, o: nat, r: nat)
    requires WellFormed(v) && IsCluster(v, c) && o == q * v.ClusterBytes() && r < v.ClusterBytes()
    requires o + r < |Bytes(v, c, size)|
    ensures InCluster(v, Find(v, q, c), r, Bytes(v, c, size)[o + r])
  {
    hide Bytes, ClusterData, WellFormed, Find, InCluster, Next;
    ChainCovers(v, c, size, q, o + r);
    BytesFrom(v, c, size, q, o);
    var d := Find(v, q, c);
    FirstBytes(v, d, size - o, r + 1);
    ClusterOnDisk(v, d);
    PrefixAt(Bytes(v, c, size), o, Bytes(v, d, size - o), ClusterData(v, d), r);
  }

  lemma PrefixAt(all: seq<byte>, o: nat, tail: seq<byte>, data: seq<byte>, r: nat)
    requires o <= |all| && all[o..] == tail && r < |tail| && r < |data| && tail[..r + 1] == data[..r + 1]
    ensures all[o + r] == data[r]
  {
    assert all[o + r] == all[o..][r] == tail[..r + 1][r] == data[..r + 1][r];
  }

  /* An open file. */

  function Quot(a: nat, b: nat): nat
    requires b > 0
  {
    a / b
  }

  datatype File = File(v: Volume, first: int, size: nat) {
    /** The size is a 32-bit word; an empty file may have no cluster. */
    ghost predicate Ok() {
      WellFormed(v) && size < WORD_END && (IsCluster(v, first) || (first == 0 == size && Linkable(v, first)))
    }

    /** The file's bytes: the chain cut to the size, or all of the chain if it is shorter. */
    function Content(): (bytes: seq<byte>)
      requires Ok()
    {
      Bytes(v, first, size)
    }

    /** pos >> clust_shift and pos & clust_mask. */
    function Index(pos: nat): nat
      requires Ok()
    {
      Quot(pos, v.ClusterBytes())
    }

    function Offset(pos: nat): nat
      requires Ok()
    {
      pos % v.ClusterBytes()
    }
  }

  /** A position and the cluster cached for it, -1 after the end of the file or of the chain. */
  datatype Cursor = Cursor(pos: nat, clust: int)

  /** A live cached cluster is the element of the chain at the position. */
  ghost predicate Consistent(f: File, c: Cursor) {
    f.Ok() && (c.clust == -1 || (Linkable(f.v, c.clust) && c.clust == Find(f.v, f.Index(c.pos), f.first)))
  }

  /** Every byte of a file is the one of the disk at its place in the cluster that its chain has there. */
  lemma ContentAt(f: File, i: nat)
    requires f.Ok() && i < |f.Content()|
    ensures var cb := f.v.ClusterBytes(); var q, r := i / cb, i % cb;
      var s := f.v.dataStart + (Find(f.v, q, f.first) - 2) * f.v.clusterSize + r / 512;
      0 <= s < |f.v.disk| && |f.v.disk[s]| == 512 && f.Content()[i] == f.v.disk[s][r % 512]
  {
    hide Find, Bytes;
    BytesOnDisk(f.v, f.first, f.size, i);
  }

  /** The content is as long as the size says, unless the chain ends before: then it is all of the chain. */
  lemma ContentLength(f: File)
    requires f.Ok()
    ensures |f.Content()| <= f.size
    ensures |f.Content()| < f.size ==> |f.Content()| % f.v.ClusterBytes() == 0
    ensures |f.Content()| < f.size ==> Find(f.v, |f.Content()| / f.v.ClusterBytes(), f.first) == -1
  {
    if |f.Content()| < f.size {
      EndOfContent(f, |f.Content()|);
      WholeClusters(f.v, f.first, f.size);
    }
  }

  lemma {:induction false} WholeClusters(v: Volume, c: int, size: nat)
    requires WellFormed(v) && (c <= 0 || IsCluster(v, c)) && |Bytes(v, c, size)| < size
    ensures |Bytes(v, c, size)| % v.ClusterBytes() == 0
    decreases size
  {
    assert v.ClusterBytes() > 0;
    hide ClusterData, WellFormed;
    var cb := v.ClusterBytes();
    if c > 0 && size > cb {
      WholeClusters(v, Next(v, c), size - cb);
      AddOne(|Bytes(v, Next(v, c), size - cb)|, cb);
    }
  }

  lemma AddOne(x: nat, cb: nat)
    requires cb > 0 && x % cb == 0
    ensures (cb + x) % cb == 0
  {
    var q := x / cb;
    assert x == q * cb && cb + x == (q + 1) * cb;
    DivUnique(cb + x, cb, q + 1, 0);
    assert cb + x == (cb + x) / cb * cb + (cb + x) % cb;
  }

  lemma IndexOffset(f: File, pos: nat)
    requires f.Ok()
    ensures f.Index(pos) * f.v.ClusterBytes() + f.Offset(pos) == pos && f.Offset(pos) < f.v.ClusterBytes()
  {
  }

  /** From a live cursor on, the content is that of the chain at its cluster. */
  lemma AtCursor(f: File, c: Cursor)
    requires Consistent(f, c) && c.clust >= 0 && c.pos <= f.size
    ensures var o := c.pos - f.Offset(c.pos);
      0 <= o <= |f.Content()| && f.Content()[o..] == Bytes(f.v, c.clust, f.size - o)
  {
    IndexOffset(f, c.pos);
    if f.first > 0 { BytesFrom(f.v, f.first, f.size, f.Index(c.pos), c.pos - f.Offset(c.pos)); }
  }

  lemma FirstBytes(v: Volume, c: int, size: nat, n: nat)
    requires WellFormed(v) && IsCluster(v, c) && n <= size && n <= v.ClusterBytes()
    ensures n <= |Bytes(v, c, size)| && Bytes(v, c, size)[..n] == ClusterData(v, c)[..n]
  {
  }

  /** What the read loop copies out of the cluster buffer is the content at the position. */
  lemma ClusterSlice(f: File, c: Cursor, len: nat)
    requires Consistent(f, c) && c.clust > 0 && c.pos + len <= f.size && f.Offset(c.pos) + len <= f.v.ClusterBytes()
    ensures c.pos + len <= |f.Content()|
    ensures ClusterData(f.v, c.clust)[f.Offset(c.pos)..f.Offset(c.pos) + len] == f.Content()[c.pos..c.pos + len]
  {
    hide Consistent, Bytes, ClusterData, WellFormed;
    CursorOk(f, c);
    AtCursor(f, c);
    var offs := f.Offset(c.pos);
    var o := c.pos - offs;
    FirstBytes(f.v, c.clust, f.size - o, offs + len);
    SliceOfPrefix(f.Content(), o, Bytes(f.v, c.clust, f.size - o), ClusterData(f.v, c.clust), offs, len);
  }

  lemma CursorOk(f: File, c: Cursor)
    requires Consistent(f, c) && c.clust > 0
    ensures f.Ok() && IsCluster(f.v, c.clust)
  {
  }

  lemma SliceOfPrefix(content: seq<byte>, o: nat, tail: seq<byte>, data: seq<byte>, offs: nat, len: nat)
    requires o <= |content| && content[o..] == tail && offs + len <= |tail| && offs + len <= |data|
    requires tail[..offs + len] == data[..offs + len]
    ensures o + offs + len <= |content| && data[offs..offs + len] == content[o + offs..o + offs + len]
  {
    assert data[offs..offs + len] == data[..offs + len][offs..];
    assert content[o + offs..o + offs + len] == content[o..][..offs + len][offs..];
  }

  /* read */

  /** How many bytes a read of sz bytes yields at the cursor. */
  function Avail(f: File, c: Cursor, sz: nat): nat
    requires f.Ok()
  {
    if c.clust < 0 || c.pos >= |f.Content()| then 0
    else if sz < |f.Content()| - c.pos then sz else |f.Content()| - c.pos
  }

  function ReadData(f: File, c: Cursor, sz: nat): (data: seq<byte>)
    requires f.Ok()
    ensures |data| == Avail(f, c, sz)
  {
    if c.clust < 0 || c.pos >= |f.Content()| then [] else f.Content()[c.pos..c.pos + Avail(f, c, sz)]
  }

  function AfterRead(f: File, c: Cursor, sz: nat): Cursor
    requires f.Ok()
  {
    if c.clust < 0 || sz == 0 then c
    else
      var pos := c.pos + Avail(f, c, sz);
      Cursor(pos, if pos >= f.size then -1 else Find(f.v, f.Index(pos), f.first))
  }

  lemma ReadKeeps(f: File, c: Cursor, sz: nat)
    requires Consistent(f, c)
    ensures Consistent(f, AfterRead(f, c, sz))
  {
  }

  /** Two reads in a row yield what one read of the sum yields, and end in the same state. */
  lemma ReadTwice(f: File, c: Cursor, a: nat, b: nat)
    requires Consistent(f, c) && c.pos <= f.size
    ensures ReadData(f, c, a) + ReadData(f, AfterRead(f, c, a), b) == ReadData(f, c, a + b)
    ensures AfterRead(f, AfterRead(f, c, a), b) == AfterRead(f, c, a + b)
  {
    hide WellFormed, Bytes, ClusterData;
    if c.clust >= 0 && a > 0 {
      var p := c.pos + Avail(f, c, a);
      LiveIsInside(f, c);
      if p >= |f.Content()| {
        if p < f.size { EndOfContent(f, p); }
      } else {
        LiveInside(f, p);
        JoinSlices(f.Content(), c.pos, p, p + Avail(f, AfterRead(f, c, a), b));
      }
    }
  }

  lemma LiveIsInside(f: File, c: Cursor)
    requires Consistent(f, c) && c.clust >= 0 && c.pos <= f.size
    ensures c.pos <= |f.Content()|
  {
    IndexOffset(f, c.pos);
    if c.clust > 0 { ClusterSlice(f, c, 0); }
  }

  lemma JoinSlices(s: seq<byte>, i: nat, j: nat, k: nat)
    requires i <= j <= k <= |s|
    ensures s[i..j] + s[j..k] == s[i..k]
  {
  }

  /** One turn of the read loop: a part of one cluster, then the end of the file, the next cluster or the same one. */
  lemma ChunkIsRead(f: File, c: Cursor, len: nat)
    requires Consistent(f, c) && c.clust > 0 && 0 < len && c.pos + len <= f.size
    requires f.Offset(c.pos) + len <= f.v.ClusterBytes()
    ensures var pos := c.pos + len;
      && ReadData(f, c, len) == ClusterData(f.v, c.clust)[f.Offset(c.pos)..f.Offset(c.pos) + len]
      && AfterRead(f, c, len) == Cursor(pos, if pos >= f.size then -1
                                             else if f.Index(pos) != f.Index(c.pos) then Next(f.v, c.clust)
                                             else c.clust)
  {
    hide WellFormed, Bytes, ClusterData;
    ClusterSlice(f, c, len);
    IndexStep(c.pos, len, f.v.ClusterBytes());
    FindAdds(f.v, f.Index(c.pos), 1, f.first);
  }

  lemma IndexStep(pos: nat, len: nat, cb: nat)
    requires cb > 0 && pos % cb + len <= cb
    ensures Quot(pos + len, cb) == Quot(pos, cb) || Quot(pos + len, cb) == Quot(pos, cb) + 1
  {
    var q := pos / cb;
    assert pos == q * cb + pos % cb;
    if pos % cb + len == cb {
      assert pos + len == (q + 1) * cb;
      DivUnique(pos + len, cb, q + 1, 0);
    } else {
      DivUnique(pos + len, cb, q, pos % cb + len);
    }
  }

  lemma DivUnique(x: nat, cb: nat, q: nat, r: nat)
    requires 0 <= r < cb && x == q * cb + r
    ensures x / cb == q
  {
    assert x == (x / cb) * cb + x % cb;
    MulGap(q, x / cb, cb);
    MulGap(x / cb, q, cb);
  }

  lemma MulGap(a: nat, b: nat, cb: nat)
    ensures a * cb >= 0 && (a < b ==> a * cb + cb <= b * cb)
  {
    if a < b { MulAdd(a, b - a - 1, cb); }
  }

  lemma MulAdd(a: nat, d: nat, cb: nat)
    ensures (a + d + 1) * cb == a * cb + d * cb + cb && d * cb >= 0
  {
  }

  /** At the end of the content there is no cluster left, unless it is the end of the file. */
  lemma EndOfContent(f: File, pos: nat)
    requires f.Ok() && pos == |f.Content()| < f.size
    ensures Find(f.v, f.Index(pos), f.first) == -1
  {
    var c := Find(f.v, f.Index(pos), f.first);
    if c >= 0 {
      IndexOffset(f, pos);
      ClusterSlice(f, Cursor(pos, c), 1);
    }
  }

  /* seek */

  datatype Whence = Set | Cur | End

  /** The position that a seek asks for, 0 if it is negative.  From the end the sum is that of a 32-bit unsigned size
      and an int, modulo 2^32 and never negative. */
  function Target(f: File, c: Cursor, offs: int, whence: Whence): nat {
    match whence
    case Set => Clamp(offs)
    case Cur => Clamp(c.pos + offs)
    case End => (f.size + offs) % WORD_END
  }

  function Clamp(pos: int): nat { if pos < 0 then 0 else pos }

  /** From the start and from the position a seek moves by the offset, but to no position before the start. */
  lemma SeekMoves(f: File, c: Cursor, offs: int)
    ensures Target(f, c, offs, Set) == if offs < 0 then 0 else offs
    ensures Target(f, c, offs, Cur) == if c.pos + offs < 0 then 0 else c.pos + offs
  {
  }

  /** A seek from the end is clamped like the others exactly while the sum is an unsigned 32-bit number. */
  lemma SeekEndExactly(f: File, c: Cursor, offs: int)
    requires -0x8000_0000 <= offs < 0x8000_0000
    ensures Target(f, c, offs, End) == Clamp(f.size + offs) <==> 0 <= f.size + offs < WORD_END
  {
  }

  /** Otherwise it ends up far behind the end, where a cursor without a cluster yields nothing: 200 bytes before the end
      of a file of 100 is position 4294967196. */
  lemma SeekEndWraps(f: File, c: Cursor, offs: int)
    requires f.size < WORD_END && -0x8000_0000 <= offs < 0 && f.size + offs < 0
    ensures Target(f, c, offs, End) == WORD_END + f.size + offs >= f.size + 0x8000_0000
    ensures f.size == 100 && offs == -200 ==> Target(f, c, offs, End) == 4294967196
  {
  }

  /** The cursor after a seek to `target`; a forward walk needs a live cluster to start from. */
  function AfterSeek(f: File, c: Cursor, target: nat): Cursor
    requires Consistent(f, c) && (c.clust >= 0 || f.Index(target) <= f.Index(c.pos))
  {
    var i, j := f.Index(c.pos), f.Index(target);
    Cursor(target, if j == i then c.clust else if j < i then Find(f.v, j, f.first) else Find(f.v, j - i, c.clust))
  }

  /** Every entry that find_cluster looks up is in the table. */
  predicate LooksInside(v: Volume, count: int, c: int)
    decreases count
  {
    count <= 0 ||
    (0 <= c < |v.fat| &&
     var n := EntryNext(v.kind, v.fat[c]);
     n < 0 || LooksInside(v, count - 1, n))
  }

  /** Every entry that a seek looks up is, on whichever way it walks. */
  predicate SeekInside(f: File, c: Cursor, target: nat)
    requires f.Ok()
  {
    var i, j := f.Index(c.pos), f.Index(target);
    j == i || if j < i then LooksInside(f.v, j, f.first) else LooksInside(f.v, j - i, c.clust)
  }

  lemma {:induction false} ChainInside(v: Volume, count: int, c: int)
    requires WellFormed(v) && Linkable(v, c)
    ensures LooksInside(v, count, c)
    decreases count
  {
    if count > 0 && Next(v, c) >= 0 { ChainInside(v, count - 1, Next(v, c)); }
  }

  /** A seek stays inside the table exactly unless it goes to a later cluster after the cached one was dropped: then it
      looks up entry -1. */
  lemma SeekInsideExactly(f: File, c: Cursor, target: nat)
    requires Consistent(f, c)
    ensures SeekInside(f, c, target) <==> c.clust >= 0 || f.Index(target) <= f.Index(c.pos)
  {
    var i: int, j: int := f.Index(c.pos), f.Index(target);
    ChainInside(f.v, j, f.first);
    if c.clust >= 0 { ChainInside(f.v, j - i, c.clust); }
  }

  /** For a file of 100 bytes in clusters of 512, read to its end, a seek to 512 does so. */
  lemma SeekOutside(f: File)
    requires f.Ok() && f.size == |f.Content()| == 100 && f.v.ClusterBytes() == 512
    ensures var c := AfterRead(f, Cursor(0, f.first), 100);
      Consistent(f, c) && c == Cursor(100, -1) && !SeekInside(f, c, 512)
  {
    var c := Cursor(100, -1);
    assert f.Index(100) == 0 && f.Index(512) == 1;
    SeekInsideExactly(f, c, 512);
  }

  /** Both ways of walking land on the same element of the chain. */
  lemma SeekAgrees(f: File, c: Cursor, target: nat)
    requires Consistent(f, c) && (c.clust >= 0 || f.Index(target) <= f.Index(c.pos))
    ensures Consistent(f, AfterSeek(f, c, target))
    ensures c.clust >= 0 || f.Index(target) < f.Index(c.pos)
      ==> AfterSeek(f, c, target).clust == Find(f.v, f.Index(target), f.first)
  {
    var i, j := f.Index(c.pos), f.Index(target);
    if j > i { FindAdds(f.v, i, j - i, f.first); }
  }

  /** A seek into the content followed by reads yields the content at the target, from any earlier state, except when
      the end of the file had been reached and the target is in the cluster that the position was in:
      then the cluster stays dropped and the reads yield nothing. */
  lemma SeekThenRead(f: File, c: Cursor, target: nat)
    requires Consistent(f, c) && (c.clust >= 0 || f.Index(target) <= f.Index(c.pos)) && target < |f.Content()|
    ensures (forall sz: nat :: ReadData(f, AfterSeek(f, c, target), sz)
                            == f.Content()[target..if target + sz < |f.Content()| then target + sz else |f.Content()|])
      <==> c.clust >= 0 || f.Index(target) < f.Index(c.pos)
  {
    hide WellFormed, Bytes;
    SeekAgrees(f, c, target);
    LiveInside(f, target);
    var s := AfterSeek(f, c, target);
    if c.clust < 0 && f.Index(target) == f.Index(c.pos) {
      assert ReadData(f, s, 1) == [];
      assert |f.Content()[target..target + 1]| == 1;
    }
  }

  /** Inside the content every position has a cluster. */
  lemma LiveInside(f: File, pos: nat)
    requires f.Ok() && pos < |f.Content()|
    ensures Find(f.v, f.Index(pos), f.first) >= 0
  {
    IndexOffset(f, pos);
    ChainCovers(f.v, f.first, f.size, f.Index(pos), pos);
  }

  lemma {:induction false} ChainCovers(v: Volume, c: int, size: nat, i: nat, pos: nat)
    requires WellFormed(v) && IsCluster(v, c) && i * v.ClusterBytes() <= pos < |Bytes(v, c, size)|
    ensures Find(v, i, c) >= 0
    decreases i
  {
    hide Bytes, ClusterData, Next, WellFormed;
    if i > 0 {
      var cb := v.ClusterBytes();
      OneLess(i, cb);
      BytesCons(v, c, size);
      NoBytes(v, size - cb);
      ChainCovers(v, Next(v, c), size - cb, i - 1, pos - cb);
    }
  }

  lemma NoBytes(v: Volume, size: nat)
    requires WellFormed(v)
    ensures Bytes(v, -1, size) == []
  {
  }

  /** How many bytes a turn of the read loop copies, as the code computes it. */
  function CopyLength(f: File, pos: nat, want: nat): int
    requires f.Ok()
  {
    var bufLeft := f.v.ClusterBytes() - f.Offset(pos);
    var len := if bufLeft < want then bufLeft else want;
    if pos + len > f.size then f.size - pos else len
  }

  /** It is a length exactly when the position is not past the end, which a seek within the last cluster reaches. */
  lemma LengthExactly(f: File, c: Cursor, target: nat, want: nat)
    requires Consistent(f, c) && c.clust >= 0 && want > 0 && f.Index(target) == f.Index(c.pos)
    ensures AfterSeek(f, c, target) == Cursor(target, c.clust)
    ensures CopyLength(f, target, want) >= 0 <==> target <= f.size
  {
    IndexOffset(f, target);
  }

  /* Runs of reads and seeks */

  datatype Op = Read(sz: nat) | Seek(target: nat)

  /** No seek goes past the end of the file within its last cluster.  Once a cluster has been dropped no seek goes to a
      later one, and one within the same goes to where there is no content. */
  predicate Allowed(f: File, c: Cursor, op: Op)
    requires f.Ok()
  {
    op.Read? ||
    var i, j := f.Index(c.pos), f.Index(op.target);
    if c.clust >= 0 || j < i then op.target <= f.size || Find(f.v, j, f.first) < 0
    else j == i && op.target >= |f.Content()|
  }

  function After(f: File, c: Cursor, op: Op): (d: Cursor)
    requires Consistent(f, c) && Allowed(f, c, op)
    ensures Consistent(f, d)
  {
    match op
    case Read(sz) => ReadKeeps(f, c, sz); AfterRead(f, c, sz)
    case Seek(target) => SeekAgrees(f, c, target); AfterSeek(f, c, target)
  }

  function Run(f: File, c: Cursor, ops: seq<Op>): (outs: seq<seq<byte>>)
    requires Consistent(f, c) && AllAllowed(f, c, ops)
    decreases |ops|
  {
    if ops == [] then []
    else [if ops[0].Read? then ReadData(f, c, ops[0].sz) else []] + Run(f, After(f, c, ops[0]), ops[1..])
  }

  predicate AllAllowed(f: File, c: Cursor, ops: seq<Op>)
    requires Consistent(f, c)
    decreases |ops|
  {
    ops == [] || (Allowed(f, c, ops[0]) && AllAllowed(f, After(f, c, ops[0]), ops[1..]))
  }

  /** What an open file is meant to be: a sequence of bytes and an offset. */
  function Plain(content: seq<byte>, pos: nat, sz: nat): seq<byte> {
    if pos >= |content| then [] else content[pos..if pos + sz < |content| then pos + sz else |content|]
  }

  function PlainRun(content: seq<byte>, pos: nat, ops: seq<Op>): (outs: seq<seq<byte>>)
    decreases |ops|
  {
    if ops == [] then []
    else if ops[0].Seek? then [[]] + PlainRun(content, ops[0].target, ops[1..])
    else [Plain(content, pos, ops[0].sz)] + PlainRun(content, pos + |Plain(content, pos, ops[0].sz)|, ops[1..])
  }

  /** Over every such run the cached cluster reader yields what a sequence and an offset would. */
  lemma {:induction false} RunRefines(f: File, c: Cursor, ops: seq<Op>)
    requires Consistent(f, c) && Right(f, c) && AllAllowed(f, c, ops)
    ensures Run(f, c, ops) == PlainRun(f.Content(), c.pos, ops)
    decreases |ops|
  {
    hide WellFormed, Bytes, ClusterData, Find, Consistent, AfterRead, AfterSeek, ReadData, Plain, Allowed;
    if ops != [] {
      StepRefines(f, c, ops[0]);
      RunRefines(f, After(f, c, ops[0]), ops[1..]);
    }
  }

  /** A cluster is dropped only where there is no content, and cached only up to the end. */
  ghost predicate Right(f: File, c: Cursor)
    requires f.Ok()
  {
    if c.clust < 0 then c.pos >= |f.Content()| else c.pos <= f.size
  }

  lemma StepRefines(f: File, c: Cursor, op: Op)
    requires Consistent(f, c) && Right(f, c) && Allowed(f, c, op)
    ensures var d := After(f, c, op);
      && Right(f, d)
      && (op.Seek? ==> d.pos == op.target)
      && (op.Read? ==> ReadData(f, c, op.sz) == Plain(f.Content(), c.pos, op.sz))
      && (op.Read? ==> d.pos == c.pos + |Plain(f.Content(), c.pos, op.sz)|)
  {
    hide WellFormed, Bytes, ClusterData, Find;
    var d := After(f, c, op);
    if op.Seek? { SeekAgrees(f, c, op.target); }
    if d.pos < |f.Content()| { LiveInside(f, d.pos); }
  }

  /* Whole chains, as load_dir reads them */

  /** The first k clusters of a chain. */
  lemma {:induction false} BytesSnoc(v: Volume, c: int, k: nat, o: nat)
    requires WellFormed(v) && IsCluster(v, c) && o == k * v.ClusterBytes() && Find(v, k, c) >= 0
    ensures Bytes(v, c, o + v.ClusterBytes()) == Bytes(v, c, o) + ClusterData(v, Find(v, k, c))
    decreases k
  {
    hide ClusterData, Next, WellFormed;
    var cb := v.ClusterBytes();
    if k == 0 {
      assert ClusterData(v, c)[..cb] == ClusterData(v, c);
    } else {
      OneLess(k, cb);
      FirstLinks(v, c, k);
      BytesSnoc(v, Next(v, c), k - 1, o - cb);
      BytesCons(v, c, o);
      BytesCons(v, c, o + cb);
      AddAssoc(ClusterData(v, c), Bytes(v, Next(v, c), o - cb), ClusterData(v, Find(v, k, c)));
    }
  }

  lemma FirstLinks(v: Volume, c: int, k: nat)
    requires WellFormed(v) && IsCluster(v, c) && k > 0 && Find(v, k, c) >= 0
    ensures IsCluster(v, Next(v, c)) && Find(v, k, c) == Find(v, k - 1, Next(v, c))
  {
  }

  lemma AddAssoc(a: seq<byte>, b: seq<byte>, c: seq<byte>)
    ensures a + (b + c) == a + b + c
  {
  }

  /** Past the last cluster a larger size adds nothing. */
  lemma {:induction false} BytesAll(v: Volume, c: int, k: nat, o: nat, size: nat)
    requires WellFormed(v) && IsCluster(v, c) && k > 0 && o == k * v.ClusterBytes() <= size && Find(v, k, c) < 0
    ensures Bytes(v, c, size) == Bytes(v, c, o)
    decreases k
  {
    hide ClusterData, WellFormed;
    var cb := v.ClusterBytes();
    OneLess(k, cb);
    BytesCons(v, c, size);
    BytesCons(v, c, o);
    if k > 1 && Next(v, c) >= 0 { BytesAll(v, Next(v, c), k - 1, o - cb, size - cb); }
  }

  /** The chain never comes to a cluster twice. */
  ghost predicate NeverBack(v: Volume, c: int)
    requires WellFormed(v) && IsCluster(v, c)
  {
    forall i: nat, j: nat :: i < j && Find(v, j, c) >= 0 ==> Find(v, i, c) != Find(v, j, c)
  }

  /** A chain ends exactly when it never comes back to one of its clusters. */
  lemma EndsExactly(v: Volume, c: int)
    requires WellFormed(v) && IsCluster(v, c)
    ensures (exists n: nat :: Find(v, n, c) < 0) <==> NeverBack(v, c)
  {
    hide WellFormed, Find;
    if NeverBack(v, c) {
      EndsInTable(v, c);
    } else {
      var i: nat, j: nat :| i < j && Find(v, j, c) >= 0 && Find(v, i, c) == Find(v, j, c);
      forall n: nat { Circles(v, c, i, j, n); }
    }
  }

  /** A chain that never comes back ends within the size of the table. */
  lemma EndsInTable(v: Volume, c: int)
    requires WellFormed(v) && IsCluster(v, c) && NeverBack(v, c)
    ensures Find(v, |v.fat|, c) < 0
  {
    hide NeverBack, WellFormed, Find;
    if Find(v, |v.fat|, c) >= 0 {
      Distinct(v, c, |v.fat|);
      Inside(Range(|v.fat|), Reached(v, c, |v.fat|));
    }
  }

  lemma {:induction false} Circles(v: Volume, c: int, i: nat, j: nat, n: nat)
    requires WellFormed(v) && IsCluster(v, c) && i < j && Find(v, i, c) == Find(v, j, c) >= 0
    ensures Find(v, n, c) >= 0
    decreases n
  {
    if n <= j {
      if Find(v, n, c) < 0 { FindEnds(v, n, j, c); }
    } else {
      FindAdds(v, i, n - j, c);
      FindAdds(v, j, n - j, c);
      Circles(v, c, i, j, n - (j - i));
    }
  }

  /** The first n + 1 clusters of a chain. */
  ghost function Reached(v: Volume, c: int, n: nat): (r: set<int>)
    requires WellFormed(v) && IsCluster(v, c)
    ensures forall x :: x in r ==> x == -1 || IsCluster(v, x)
  {
    if n == 0 then {Find(v, 0, c)} else Reached(v, c, n - 1) + {Find(v, n, c)}
  }

  lemma {:induction false} IsNew(v: Volume, c: int, m: nat, n: nat)
    requires WellFormed(v) && IsCluster(v, c) && NeverBack(v, c) && m < n && Find(v, n, c) >= 0
    ensures Find(v, n, c) !in Reached(v, c, m)
    decreases m
  {
    if m > 0 { IsNew(v, c, m - 1, n); }
  }

  lemma {:induction false} Distinct(v: Volume, c: int, n: nat)
    requires WellFormed(v) && IsCluster(v, c) && NeverBack(v, c) && Find(v, n, c) >= 0
    ensures |Reached(v, c, n)| == n + 1 && Reached(v, c, n) <= Range(|v.fat|)
    decreases n
  {
    hide NeverBack, WellFormed, Find;
    if n > 0 {
      EndsLater(v, n, c);
      Distinct(v, c, n - 1);
      IsNew(v, c, n - 1, n);
    }
  }

  lemma EndsLater(v: Volume, n: nat, c: int)
    requires WellFormed(v) && IsCluster(v, c) && n > 0 && Find(v, n, c) >= 0
    ensures Find(v, n - 1, c) >= 0
  {
    if Find(v, n - 1, c) < 0 { FindEnds(v, n - 1, n, c); }
  }

  lemma Inside(big: set<int>, small: set<int>)
    ensures small <= big ==> |small| <= |big|
  {
    if small <= big { assert big == small + (big - small); }
  }

  ghost function Range(n: nat): (r: set<int>)
    ensures |r| == n && forall k :: k in r <==> 0 <= k < n
  {
    if n == 0 then {} else Range(n - 1) + {n - 1}
  }
}
