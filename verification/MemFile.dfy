/** read, write and seek of src/fsmem.c: a file buffer that grows in place, shared by the handles open on it. */
module MemFile {
  import opened MemFileSpec
  import opened Words

  class FileData {
    var data: array<byte>
    var size: nat
    ghost var copied: nat

    ghost predicate Valid()
      reads this
    {
      size <= data.Length
    }

    ghost function View(): File
      reads this, data
    {
      File(data[..], size, copied)
    }

    constructor ()
      ensures Valid() && View() == EMPTY.f && fresh(data)
    {
      data := new byte[0];
      size, copied := 0, 0;
    }

    /** realloc to n bytes: the old bytes move over, the rest is what the memory held. */
    method Realloc(n: nat) returns (ghost junk: seq<byte>)
      requires Valid() && data.Length < n
      modifies this`data, this`copied
      ensures Valid() && fresh(data) && data.Length == n && |junk| == n - old(data.Length)
      ensures View() == Resized(old(View()), junk)
    {
      var tmp := new byte[n];
      forall i | 0 <= i < data.Length { tmp[i] := data[i]; }
      junk := tmp[data.Length..];
      assert tmp[..] == data[..] + junk;
      copied := copied + data.Length;
      data := tmp;
    }

    /** The copy at the end of write, and the new size. */
    method Store(at: nat, buf: seq<byte>)
      requires Valid() && at + |buf| <= data.Length
      modifies this`size, data
      ensures Valid() && View() == Stored(old(View()), at, buf)
    {
      CopyIn(data, at, buf);
      if at + |buf| > size { size := at + |buf|; }
    }
  }

  class Handle {
    const file: FileData
    var curPos: nat

    constructor (file: FileData)
      ensures this.file == file && curPos == 0
    {
      this.file := file;
      curPos := 0;
    }

    method Seek(offs: int, whence: Whence)
      modifies this`curPos
      ensures curPos == Target(file.View(), old(curPos), offs, whence)
    {
      var newPos := match whence
        case Set => Wrap(offs)
        case Cur => Wrap(curPos + offs)
        case End => Wrap(file.size + offs);
      if newPos < 0 { newPos := 0; }
      curPos := newPos;
    }

    /** read: past the end the length would be negative. */
    method Read(buf: array<byte>, sz: nat) returns (res: nat)
      requires file.Valid() && curPos <= file.size && sz <= buf.Length && buf != file.data
      modifies this`curPos, buf
      ensures res == ReadLength(file.View(), old(curPos), sz) && curPos == old(curPos) + res
      ensures res <= sz && old(curPos) + res <= file.size && (res == sz || old(curPos) + res == file.size)
      ensures buf[..res] == file.View().Content()[old(curPos)..curPos] && buf[res..] == old(buf[..])[res..]
    {
      res := sz;
      if sz > file.size - curPos {
        res := file.size - curPos;
      }
      CopyOut(file.data, curPos, res, buf);
      curPos := curPos + res;
      ContentSlice(file.View(), old(curPos), res);
    }

    /** write; `granted` says whether realloc finds memory.  On failure nothing changes. */
    method Write(buf: seq<byte>, granted: bool) returns (res: int, ghost junk: seq<byte>)
      requires file.Valid() && FitsInt(file.View(), curPos, |buf|)
      modifies this`curPos, file, file.data
      ensures file.Valid() && (file.data == old(file.data) || fresh(file.data))
      ensures res == if old(MustGrow(file.View(), curPos, |buf|)) && !granted then -1 else |buf|
      ensures res < 0 ==> file.View() == old(file.View()) && curPos == old(curPos)
      ensures res >= 0 ==> |junk| == old(Growth(file.View(), curPos, |buf|)) && curPos == old(curPos) + |buf|
      ensures res >= 0 ==> file.View() == Written(old(file.View()), old(curPos), buf, junk)
    {
      hide Stored;
      junk := [];
      var totalSz := curPos + |buf|;
      if totalSz > file.data.Length {
        GrownBounds(file.data.Length, totalSz);
        var newMaxSz := if totalSz < file.data.Length * 2 then file.data.Length * 2 else totalSz;
        if !granted {
          return -1, junk;
        }
        junk := file.Realloc(newMaxSz);
      }
      file.Store(curPos, buf);
      curPos := curPos + |buf|;
      return |buf|, junk;
    }
  }

  lemma ContentSlice(f: File, pos: nat, len: nat)
    requires f.Ok() && pos + len <= f.size
    ensures f.Content()[pos..pos + len] == f.data[pos..pos + len]
  {
  }

  method CopyOut(data: array<byte>, at: nat, len: nat, buf: array<byte>)
    requires at + len <= data.Length && len <= buf.Length && buf != data
    modifies buf
    ensures buf[..len] == data[at..at + len] && buf[len..] == old(buf[..])[len..]
  {
    forall i | 0 <= i < len { buf[i] := data[at + i]; }
  }

  method CopyIn(data: array<byte>, at: nat, buf: seq<byte>)
    requires at + |buf| <= data.Length
    modifies data
    ensures data[..] == old(data[..at]) + buf + old(data[at + |buf|..])
  {
    forall i | 0 <= i < |buf| { data[at + i] := buf[i]; }
  }
}
