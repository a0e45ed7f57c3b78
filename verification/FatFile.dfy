/** Reading and seeking of src/fsfat.c: an open file with its cached cluster, cluster buffer and position. */
module FatFile {
  import opened FatSpec
  import opened Words

  class OpenFile {
    const f: File
    var curPos: nat
    var curClust: int
    const clustbuf: array<byte>
    var bufValid: bool

    function Here(): Cursor
      reads this
    {
      Cursor(curPos, curClust)
    }

    /** A live cluster is the one at the position, and a valid buffer holds it. */
    ghost predicate Valid()
      reads this, clustbuf
    {
      && Consistent(f, Here()) && clustbuf.Length == f.v.ClusterBytes()
      && (bufValid ==> curClust >= 0 && (curClust > 0 ==> clustbuf[..] == ClusterData(f.v, curClust)))
    }

    /** init_file. */
    constructor (f: File)
      requires f.Ok()
      ensures Valid() && this.f == f && Here() == Cursor(0, f.first) && fresh(clustbuf)
    {
      this.f := f;
      curPos, curClust, bufValid := 0, f.first, false;
      clustbuf := new byte[f.v.ClusterBytes()];
      new;
      IndexOffset(f, 0);
    }

    /** read_cluster of the cached cluster; for the first "cluster" 0 of an empty file nothing is said of the bytes. */
    method FillBuffer()
      requires Valid() && curClust >= 0
      modifies clustbuf, this`bufValid
      ensures Valid() && bufValid && Here() == old(Here())
      ensures curClust > 0 ==> forall i | 0 <= i < clustbuf.Length :: InCluster(f.v, curClust, i, clustbuf[i])
    {
      if curClust > 0 { ClusterOnDisk(f.v, curClust); }
      if !bufValid {
        if curClust > 0 {
          var data := ClusterData(f.v, curClust);
          forall i | 0 <= i < clustbuf.Length { clustbuf[i] := data[i]; }
          assert clustbuf[..] == data;
        }
        bufValid := true;
      }
    }

    /** One turn of the read loop. */
    method ReadChunk(dst: array<byte>, at: nat, want: nat) returns (len: nat)
      requires Valid() && curClust >= 0 && curPos <= f.size && 0 < want && at + want <= dst.Length && dst != clustbuf
      modifies this`curPos, this`curClust, this`bufValid, clustbuf, dst
      ensures Valid() && len <= want && curPos == old(curPos) + len <= f.size
      ensures if len == 0 then old(curPos) == f.size && Here() == Cursor(old(curPos), -1)
        else Here() == AfterRead(f, old(Here()), len)
      ensures dst[at..at + len] == ReadData(f, old(Here()), len)
      ensures dst[..at] == old(dst[..at]) && dst[at + len..] == old(dst[at + len..])
    {
      hide AfterRead, ReadData, ClusterData, WellFormed, Next;
      FillBuffer();
      ghost var c := Here();
      IndexOffset(f, curPos);
      var curIdx, offs := f.Index(curPos), f.Offset(curPos);
      len := CopyLength(f, curPos, want);
      Copy(dst, at, offs, len);
      if len > 0 {
        ChunkIsRead(f, c, len);
        ReadKeeps(f, c, len);
      } else {
        ReadEnds(f, c, 0);
      }
      curPos := curPos + len;
      if curPos >= f.size {
        curClust := -1;
        bufValid := false;
      } else {
        var newIdx := f.Index(curPos);
        if newIdx != curIdx {
          bufValid := false;
          curClust := Next(f.v, curClust);
        }
      }
    }

    method Copy(dst: array<byte>, at: nat, offs: nat, len: nat)
      requires dst != clustbuf && at + len <= dst.Length && offs + len <= clustbuf.Length
      modifies dst
      ensures dst[at..at + len] == clustbuf[offs..offs + len]
      ensures dst[..at] == old(dst[..at]) && dst[at + len..] == old(dst[at + len..])
    {
      forall i | 0 <= i < len { dst[at + i] := clustbuf[offs + i]; }
    }

    /** read: at most sz bytes of the content at the position into dst. */
    method Read(dst: array<byte>, sz: nat) returns (numRead: nat)
      requires Valid() && (curClust >= 0 ==> curPos <= f.size) && sz <= dst.Length && dst != clustbuf
      modifies this`curPos, this`curClust, this`bufValid, clustbuf, dst
      ensures Valid() && Here() == AfterRead(f, old(Here()), sz)
      ensures numRead <= sz && dst[..numRead] == ReadData(f, old(Here()), sz)
        && dst[numRead..] == old(dst[..])[numRead..]
      ensures OnDisk(f, old(curPos), dst[..numRead])
    {
      hide AfterRead, ReadData, ClusterData, WellFormed, Find, Consistent, SoFar, OnDisk;
      numRead := 0;
      ghost var c0 := Here();
      ReadOnDisk(f, c0, sz);
      NoneSoFar(f, c0, sz);
      if curClust < 0 {
        AllSoFar(f, c0, c0, sz, 0, dst[..0]);
        return;
      }
      while numRead < sz && curClust >= 0
        invariant Valid() && numRead <= sz && (curClust >= 0 ==> curPos <= f.size)
        invariant SoFar(f, c0, Here(), sz, numRead, dst[..numRead])
        invariant dst[numRead..] == old(dst[numRead..])
        decreases sz - numRead, curClust
      {
        ghost var c, had := Here(), dst[..numRead];
        var len := ReadChunk(dst, numRead, sz - numRead);
        MoreSoFar(f, c0, c, Here(), sz, numRead, len, had);
        assert dst[..numRead + len] == had + dst[numRead..numRead + len];
        numRead := numRead + len;
      }
      AllSoFar(f, c0, Here(), sz, numRead, dst[..numRead]);
    }

    /** seek, as long as the entries it looks up are in the table. */
    method Seek(offs: int, whence: Whence)
      requires Valid()
      requires SeekInside(f, Here(), Target(f, Here(), offs, whence))
      modifies this`curPos, this`curClust, this`bufValid
      ensures Valid() && Here() == AfterSeek(f, old(Here()), Target(f, old(Here()), offs, whence))
    {
      hide WellFormed, Find, ClusterData;
      var newPos := match whence
        case Set => offs
        case Cur => curPos + offs
        case End => (f.size + offs) % WORD_END;
      if newPos < 0 { newPos := 0; }
      SeekInsideExactly(f, Here(), newPos);
      SeekAgrees(f, Here(), newPos);
      var curIdx, newIdx := f.Index(curPos), f.Index(newPos);
      if newIdx != curIdx {
        if newIdx < curIdx {
          curClust := FindCluster(f.v, newIdx, f.first);
        } else {
          curClust := FindCluster(f.v, newIdx - curIdx, curClust);
        }
        bufValid := false;
      }
      curPos := newPos;
    }
  }

  /** find_cluster. */
  method FindCluster(v: Volume, count: nat, clust: int) returns (r: int)
    requires WellFormed(v) && (Linkable(v, clust) || count == 0)
    ensures count == 0 ==> r == clust
    ensures Linkable(v, clust) ==> r == Find(v, count, clust)
  {
    r := clust;
    var left := count;
    while left > 0
      invariant Linkable(v, r) || left == 0
      invariant Linkable(v, clust) ==> Find(v, count, clust) == if left == 0 then r else Find(v, left, r)
      invariant count == 0 ==> r == clust
    {
      left := left - 1;
      r := Next(v, r);
      if r < 0 { left := 0; }
    }
  }

  lemma ChainStart(v: Volume, c: int)
    requires WellFormed(v) && IsCluster(v, c)
    ensures Find(v, 0, c) == c && Bytes(v, c, 0) == []
  {
  }

  lemma ClusterNotEmpty(v: Volume)
    requires WellFormed(v)
    ensures v.ClusterBytes() > 0
  {
  }

  lemma ChainStep(v: Volume, c: int, k: nat, o: nat)
    requires WellFormed(v) && IsCluster(v, c) && o == k * v.ClusterBytes() && Find(v, k, c) >= 0
    ensures Find(v, k + 1, c) == Next(v, Find(v, k, c))
    ensures o + v.ClusterBytes() == (k + 1) * v.ClusterBytes() > 0
    ensures Bytes(v, c, o + v.ClusterBytes()) == Bytes(v, c, o) + ClusterData(v, Find(v, k, c))
  {
    hide ClusterData, Bytes, WellFormed;
    OneLess(k + 1, v.ClusterBytes());
    ClusterNotEmpty(v);
    FindAdds(v, k, 1, c);
    BytesSnoc(v, c, k, o);
  }

  /** The chain loop of load_dir: all the bytes of the chain, those of a file of any size that is not shorter. */
  method LoadChain(v: Volume, first: int, ghost n: nat) returns (buf: seq<byte>)
    requires WellFormed(v) && IsCluster(v, first) && Find(v, n, first) < 0
    ensures |buf| > 0 && forall size: nat :: |buf| <= size ==> Bytes(v, first, size) == buf
    ensures forall i | 0 <= i < |buf| :: InChain(v, first, i, buf[i])
    ensures |buf| % v.ClusterBytes() == 0 && Find(v, |buf| / v.ClusterBytes(), first) == -1
  {
    hide WellFormed, Find, ClusterData, Bytes, Next;
    var addr := first;
    buf := [];
    ChainStart(v, first);
    ghost var k: nat := 0;
    while true
      invariant 0 <= addr == Find(v, k, first) && k < n
      invariant |buf| == k * v.ClusterBytes() && buf == Bytes(v, first, |buf|)
      decreases n - k
    {
      ChainStep(v, first, k, |buf|);
      buf := buf + ClusterData(v, addr);
      addr := Next(v, addr);
      k := k + 1;
      if addr < 0 { break; }
      if k >= n { FindEnds(v, n, k, first); }
    }
    forall size: nat | |buf| <= size { BytesAll(v, first, k, |buf|, size); }
    forall i | 0 <= i < |buf| { BytesOnDisk(v, first, |buf|, i); }
    Divided(v, |buf|, k);
  }

  lemma Divided(v: Volume, len: nat, k: nat)
    requires WellFormed(v) && len == k * v.ClusterBytes()
    ensures len % v.ClusterBytes() == 0 && len / v.ClusterBytes() == k
  {
    DivUnique(len, v.ClusterBytes(), k, 0);
    assert len == len / v.ClusterBytes() * v.ClusterBytes() + len % v.ClusterBytes();
  }

  /** The bytes that a read yields are those of the disk. */
  lemma ReadOnDisk(f: File, c: Cursor, sz: nat)
    requires Consistent(f, c) && (c.clust >= 0 ==> c.pos <= f.size)
    ensures f.Ok() && OnDisk(f, c.pos, ReadData(f, c, sz))
  {
    hide InChain, Bytes, Find;
    NoneOfZero(f);
    forall i | 0 <= i < |ReadData(f, c, sz)|
      ensures InChain(f.v, f.first, c.pos + i, ReadData(f, c, sz)[i])
    {
      BytesOnDisk(f.v, f.first, f.size, c.pos + i);
    }
  }

  lemma NoneOfZero(f: File)
    requires f.Ok()
    ensures |f.Content()| > 0 ==> IsCluster(f.v, f.first)
  {
  }

  /** A turn of the loop leaves the rest of the read to do. */
  lemma ReadStep(f: File, c: Cursor, next: Cursor, len: nat, want: nat)
    requires Consistent(f, c) && c.clust >= 0 && c.pos <= f.size && 0 < want && len <= want
    requires if len == 0 then c.pos == f.size && next == Cursor(c.pos, -1) else next == AfterRead(f, c, len)
    ensures AfterRead(f, c, want) == AfterRead(f, next, want - len)
    ensures ReadData(f, c, want) == ReadData(f, c, len) + ReadData(f, next, want - len)
  {
    ReadTwice(f, c, len, want - len);
  }

  /** After `done` bytes, which are `got`, the cursor is at c with the rest of the read from c0 to do. */
  ghost predicate SoFar(f: File, c0: Cursor, c: Cursor, sz: nat, done: nat, got: seq<byte>)
    requires f.Ok()
  {
    && Consistent(f, c) && done <= sz
    && AfterRead(f, c0, sz) == AfterRead(f, c, sz - done)
    && ReadData(f, c0, sz) == got + ReadData(f, c, sz - done)
  }

  lemma NoneSoFar(f: File, c: Cursor, sz: nat)
    requires Consistent(f, c)
    ensures SoFar(f, c, c, sz, 0, [])
  {
  }

  lemma MoreSoFar(f: File, c0: Cursor, c: Cursor, next: Cursor, sz: nat, done: nat, len: nat, got: seq<byte>)
    requires f.Ok() && SoFar(f, c0, c, sz, done, got) && Consistent(f, next)
    requires c.clust >= 0 && c.pos <= f.size && done < sz && done + len <= sz
    requires if len == 0 then c.pos == f.size && next == Cursor(c.pos, -1) else next == AfterRead(f, c, len)
    ensures SoFar(f, c0, next, sz, done + len, got + ReadData(f, c, len))
  {
    hide AfterRead, ReadData, Consistent;
    ReadStep(f, c, next, len, sz - done);
    AddAssoc(got, ReadData(f, c, len), ReadData(f, next, sz - done - len));
  }

  lemma AllSoFar(f: File, c0: Cursor, c: Cursor, sz: nat, done: nat, got: seq<byte>)
    requires f.Ok() && SoFar(f, c0, c, sz, done, got) && (c.clust < 0 || done == sz)
    ensures AfterRead(f, c0, sz) == c && ReadData(f, c0, sz) == got
  {
    hide AfterRead, ReadData;
    ReadEnds(f, c, sz - done);
  }

  /** Reads after the end and reads of nothing. */
  lemma ReadEnds(f: File, c: Cursor, sz: nat)
    requires f.Ok() && (c.clust < 0 || sz == 0)
    ensures ReadData(f, c, sz) == [] && AfterRead(f, c, sz) == c
  {
  }
}
