/** The current directory string of fs_chdir in src/fs.c. */
module Cwd {
  import opened Chars

  const SIZE: nat := 1024

  /** The index of the last separator, 0 if there is none. */
  function LastSep(s: string): (i: nat)
    ensures s == "" || i < |s|
  {
    if s == "" then 0
    else if s[|s| - 1] == '/' then |s| - 1
    else LastSep(s[..|s| - 1])
  }

  /** What ".." stands for. */
  function Parent(s: string): (r: string)
    requires |s| > 1
    ensures r != "" && |r| < |s|
  {
    if LastSep(s) == 0 then s[..1] else s[..LastSep(s)]
  }

  /** The string for a path to a directory that is neither "." nor "..". */
  function Entered(s: string, path: string): string
    requires path != ""
  {
    if path[0] == '/' then path
    else if |s| > 1 then s + "/" + path
    else s + path
  }

  /** A rooted path that does not end in a separator, unless it is the root. */
  predicate Rooted(s: string) {
    s != "" && s[0] == '/' && (|s| > 1 ==> s[|s| - 1] != '/')
  }

  lemma {:induction false} LastSepOf(s: string, name: string)
    requires '/' !in name
    ensures LastSep(s + "/" + name) == |s|
    decreases |name|
  {
    var p := s + "/" + name;
    if name != "" {
      var init := name[..|name| - 1];
      assert p[..|p| - 1] == s + "/" + init;
      assert p[|p| - 1] == name[|name| - 1] && name[|name| - 1] in name;
      LastSepOf(s, init);
    }
  }

  /** Past the last separator there is none. */
  lemma {:induction false} LastSepIsLast(s: string, i: nat)
    requires LastSep(s) < i < |s|
    ensures s[i] != '/'
    decreases |s|
  {
    if s[|s| - 1] != '/' && i < |s| - 1 {
      LastSepIsLast(s[..|s| - 1], i);
    }
  }

  /** Entering a directory by a relative path and leaving it by ".." restores the string exactly for a single name;
      a path with a separator, even one at its end, does not come back. */
  lemma UpExactly(s: string, path: string)
    requires Rooted(s) && path != "" && path[0] != '/'
    ensures |Entered(s, path)| > 1 && (Parent(Entered(s, path)) == s <==> '/' !in path)
  {
    var e := Entered(s, path);
    var front := if |s| > 1 then s else "";
    assert e == front + "/" + path;
    if '/' !in path {
      LastSepOf(front, path);
      assert e[..|front|] == front;
    } else {
      var i :| 0 <= i < |path| && path[i] == '/';
      assert e[|front| + 1 + i] == '/';
      if LastSep(e) < |front| + 1 + i { LastSepIsLast(e, |front| + 1 + i); }
    }
  }

  /** The length test of fs_chdir. */
  predicate LengthTest(s: string, path: string) { |s| + |path| <= SIZE }

  /** The new string and its terminator fit the buffer. */
  predicate FitsBuffer(s: string, path: string)
    requires path != ""
  {
    |Entered(s, path)| < SIZE
  }

  /** For a relative path the test is right exactly while the separator and the terminator have room too. */
  lemma RelativeExactly(s: string, path: string)
    requires path != "" && path[0] != '/'
    ensures s <= Entered(s, path) && Entered(s, path)[|Entered(s, path)| - |path|..] == path
    ensures |s| > 1 ==> Entered(s, path)[|s|] == '/' && |Entered(s, path)| == |s| + 1 + |path|
    ensures |s| <= 1 ==> |Entered(s, path)| == |s| + |path|
    ensures (LengthTest(s, path) <==> FitsBuffer(s, path))
      <==> |s| + |path| > SIZE || |s| + |path| + (if |s| > 1 then 1 else 0) < SIZE
  {
    assert |Entered(s, path)| == |s| + |path| + if |s| > 1 then 1 else 0;
  }

  /** It lets through what overruns the buffer: 24 characters behind 1000, or any path that just passes. */
  lemma RelativeOverruns(s: string, path: string)
    requires path != "" && path[0] != '/'
    ensures |s| == 1000 && |path| == 24 ==> LengthTest(s, path) && |Entered(s, path)| == SIZE + 1
    ensures |s| > 1 && |s| + |path| == SIZE ==> LengthTest(s, path) && !FitsBuffer(s, path)
  {
  }

  /** For an absolute path, which replaces the string, it is right exactly while the old length makes no difference. */
  lemma AbsoluteExactly(s: string, path: string)
    requires path != "" && path[0] == '/'
    ensures Entered(s, path) == path
    ensures (LengthTest(s, path) <==> FitsBuffer(s, path))
      <==> if |path| < SIZE then |s| + |path| <= SIZE else |s| + |path| > SIZE
  {
  }

  /** It panics on absolute paths that fit: 100 characters while the old string has 1000. */
  lemma AbsolutePanics(s: string, path: string)
    requires path != "" && path[0] == '/' && |s| == 1000 && |path| == 100
    ensures !LengthTest(s, path) && FitsBuffer(s, path)
  {
  }

  datatype Outcome = Done | Failed | Panic

  /** The path is stored in, or behind, the string. */
  predicate Stores(path: string, isDir: bool) {
    isDir && path !in {"", ".", ".."}
  }

  class WorkDir {
    const buf: array<char>
    var end: nat

    ghost predicate Valid()
      reads this, buf
    {
      buf.Length == SIZE && end < SIZE && buf[end] == NUL
    }

    ghost function View(): string
      requires Valid()
      reads this, buf
    {
      buf[..end]
    }

    constructor ()
      ensures Valid() && View() == "" && fresh(buf)
    {
      buf := new char[SIZE](_ => NUL);
      end := 0;
    }

    /** fs_chdir; `isDir` says whether the path, or for ".." the parent, opens as a directory.  A path that its length
        test lets through must fit the buffer. */
    method ChDir(path: string, isDir: bool) returns (res: Outcome)
      requires Valid() && NUL !in path
      requires Stores(path, isDir) && LengthTest(View(), path) ==> FitsBuffer(View(), path)
      modifies this`end, buf
      ensures Valid()
      ensures res == Panic <==> Stores(path, isDir) && !LengthTest(old(View()), path)
      ensures res == Failed <==> path == "" || (path == ".." && |old(View())| <= 1) || (path != "." && !isDir)
      ensures View() == if res != Done || path == "." then old(View())
                        else if path == ".." then Parent(old(View())) else Entered(old(View()), path)
    {
      if path == "" { return Failed; }
      if path == "." { return Done; }
      if path == ".." {
        if end <= 1 { return Failed; }
        var upLen := ParentLength();
        if !isDir { return Failed; }
        Shorten(upLen);
        return Done;
      }
      if !isDir { return Failed; }
      if end + |path| > SIZE { return Panic; }
      if path[0] == '/' {
        Shorten(0);
      } else if end > 1 {
        Extend("/");
      }
      Extend(path);
      return Done;
    }

    method Shorten(len: nat)
      requires Valid() && len <= end
      modifies this`end, buf
      ensures Valid() && View() == old(View())[..len] && end == len
    {
      end := len;
      buf[end] := NUL;
    }

    method Extend(s: string)
      requires Valid() && end + |s| < SIZE
      modifies this`end, buf
      ensures Valid() && View() == old(View()) + s && end == old(end) + |s|
    {
      forall i | 0 <= i < |s| { buf[end + i] := s[i]; }
      buf[end + |s|] := NUL;
      end := end + |s|;
    }

    /** The backward scan for a separator. */
    method ParentLength() returns (upLen: nat)
      requires Valid() && end > 1
      ensures upLen < end && View()[..upLen] == Parent(View())
    {
      var endptr := end;
      var found := false;
      while endptr > 0 && !found
        invariant 0 <= endptr <= end
        invariant if found then endptr < end && endptr == LastSep(View()) else LastSep(buf[..endptr]) == LastSep(View())
      {
        endptr := endptr - 1;
        assert buf[..endptr + 1][..endptr] == buf[..endptr];
        found := buf[endptr] == '/';
      }
      upLen := if endptr == 0 then 1 else endptr;
    }
  }
}
