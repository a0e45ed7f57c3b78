/** Path splitting of src/fs.c: fs_path_skipsep and fs_path_next. */
module Paths {
  import opened Chars

  /* Paths without their terminator */

  function SkipSep(p: string): (r: string)
    ensures |r| <= |p| && (r != "" ==> r[0] != '/')
  {
    if p != "" && p[0] == '/' then SkipSep(p[1..]) else p
  }

  /** The characters before the first separator. */
  function Head(p: string): (r: string)
    ensures |r| <= |p| && r == p[..|r|] && '/' !in r && (|r| < |p| ==> p[|r|] == '/')
  {
    if p == "" || p[0] == '/' then "" else [p[0]] + Head(p[1..])
  }

  function Truncate(name: string, bufsz: nat): (r: string)
    requires bufsz > 0
    ensures r == name <==> |name| < bufsz
    ensures r <= name && |r| == if |name| < bufsz then |name| else bufsz - 1
  {
    if |name| >= bufsz then name[..bufsz - 1] else name
  }

  function First(p: string, bufsz: nat): string
    requires bufsz > 0
  {
    Truncate(Head(SkipSep(p)), bufsz)
  }

  function Rest(p: string): (r: string)
    ensures |r| <= |p| && (p != "" ==> |r| < |p|)
  {
    var s := SkipSep(p);
    SkipSep(s[|Head(s)|..])
  }

  /** The names that the loop of open sees. */
  function Split(p: string, bufsz: nat): (names: seq<string>)
    requires bufsz > 0
    decreases |p|
  {
    if p == "" then [] else [First(p, bufsz)] + Split(Rest(p), bufsz)
  }

  predicate Name(c: string) {
    c != "" && '/' !in c && NUL !in c
  }

  function Join(names: seq<string>): string {
    if names == [] then "" else "/" + names[0] + Join(names[1..])
  }

  function AllTruncated(names: seq<string>, bufsz: nat): (r: seq<string>)
    requires bufsz > 0
    ensures |r| == |names| && forall k | 0 <= k < |r| :: r[k] == Truncate(names[k], bufsz)
  {
    seq(|names|, k requires 0 <= k < |names| => Truncate(names[k], bufsz))
  }

  lemma {:induction false} HeadOf(c: string, rest: string)
    requires Name(c) || c == ""
    requires rest == "" || rest[0] == '/'
    ensures Head(c + rest) == c
  {
    if c != "" {
      assert (c + rest)[1..] == c[1..] + rest;
      HeadOf(c[1..], rest);
    }
  }

  /** Splitting a joined path gives the names back, cut to what the name buffer holds. */
  lemma {:induction false} SplitJoin(names: seq<string>, bufsz: nat)
    requires bufsz > 0 && forall k | 0 <= k < |names| :: Name(names[k])
    ensures Split(SkipSep(Join(names)), bufsz) == AllTruncated(names, bufsz)
  {
    hide Truncate, Head, SkipSep, Split, Name;
    if names == [] {
      SplitNone(bufsz);
    } else {
      var rest := Join(names[1..]);
      SplitCons(names[0], rest, bufsz);
      SplitJoin(names[1..], bufsz);
      assert Join(names) == "/" + names[0] + rest;
      assert AllTruncated(names, bufsz) == [Truncate(names[0], bufsz)] + AllTruncated(names[1..], bufsz);
    }
  }

  lemma SplitNone(bufsz: nat)
    requires bufsz > 0
    ensures Split(SkipSep(""), bufsz) == []
  {
  }

  /** One name in front of a joined path. */
  lemma SplitCons(c: string, rest: string, bufsz: nat)
    requires bufsz > 0 && Name(c) && (rest == "" || rest[0] == '/')
    ensures Split(SkipSep("/" + c + rest), bufsz) == [Truncate(c, bufsz)] + Split(SkipSep(rest), bufsz)
  {
    hide Truncate, Head;
    assert ("/" + c + rest)[1..] == c + rest;
    assert SkipSep(c + rest) == c + rest;
    HeadOf(c, rest);
    assert (c + rest)[|c|..] == rest;
  }

  /** After leading separators every name is a proper one and fits the buffer. */
  lemma {:induction false} SplitNames(p: string, bufsz: nat)
    requires bufsz > 1 && (p == "" || p[0] != '/') && NUL !in p
    ensures forall k | 0 <= k < |Split(p, bufsz)| :: Name(Split(p, bufsz)[k]) && |Split(p, bufsz)[k]| < bufsz
    decreases |p|
  {
    if p != "" {
      assert SkipSep(p) == p;
      SkipKeeps(p[|Head(p)|..]);
      SplitNames(Rest(p), bufsz);
    }
  }

  lemma {:induction false} SkipKeeps(p: string)
    ensures forall c | c in SkipSep(p) :: c in p
  {
    if p != "" && p[0] == '/' { SkipKeeps(p[1..]); }
  }

  /* Terminated strings in memory, a pointer is an index */

  ghost predicate Terminated(s: seq<char>, at: nat) {
    exists k | at <= k < |s| :: s[k] == NUL
  }

  /** The string that starts at an index. */
  ghost function Text(s: seq<char>, at: nat): (r: string)
    requires Terminated(s, at)
    ensures at + |r| < |s| && s[at + |r|] == NUL && NUL !in r && forall i | 0 <= i < |r| :: r[i] == s[at + i]
    decreases |s| - at
  {
    if s[at] == NUL then "" else [s[at]] + Text(s, at + 1)
  }

  lemma {:induction false} TextFrom(s: seq<char>, at: nat, k: nat)
    requires Terminated(s, at) && k <= |Text(s, at)|
    ensures Terminated(s, at + k) && Text(s, at + k) == Text(s, at)[k..]
    decreases k
  {
    assert s[at + |Text(s, at)|] == NUL;
    if k > 0 { TextFrom(s, at + 1, k - 1); }
  }

  lemma TextAt(s: seq<char>, at: nat)
    requires Terminated(s, at)
    ensures s[at] == NUL <==> Text(s, at) == ""
    ensures s[at] != NUL ==> Text(s, at)[0] == s[at]
  {
  }

  method PathSkipSep(s: seq<char>, at: nat) returns (r: nat)
    requires Terminated(s, at)
    ensures at <= r && Terminated(s, r) && Text(s, r) == SkipSep(Text(s, at))
  {
    r := at;
    while s[r] == '/'
      invariant at <= r && Terminated(s, r) && SkipSep(Text(s, r)) == SkipSep(Text(s, at))
      decreases |s| - r
    {
      TextFrom(s, r, 1);
      r := r + 1;
    }
  }

  /** The end of the name that starts at an index. */
  method NameEnd(s: seq<char>, start: nat) returns (ptr: nat)
    requires Terminated(s, start)
    ensures ptr == start + |Head(Text(s, start))|
  {
    hide Text;
    ptr := start;
    ghost var p := Text(s, start);
    TextFrom(s, start, 0);
    TextAt(s, start);
    while s[ptr] != NUL && s[ptr] != '/'
      invariant start <= ptr <= start + |p| && Terminated(s, ptr) && Text(s, ptr) == p[ptr - start..]
      invariant ptr - start <= |Head(p)|
      decreases |s| - ptr
    {
      TextAt(s, ptr);
      TextFrom(s, ptr, 1);
      ptr := ptr + 1;
    }
    TextAt(s, ptr);
  }

  method FillName(s: seq<char>, start: nat, len: nat, namebuf: array<char>)
    requires start + len <= |s| && len < namebuf.Length
    modifies namebuf
    ensures namebuf[..] == s[start..start + len] + [NUL] + old(namebuf[len + 1..])
  {
    forall i | 0 <= i < len { namebuf[i] := s[start + i]; }
    namebuf[len] := NUL;
  }

  /** fs_path_next with a name buffer. */
  method PathNext(s: seq<char>, at: nat, namebuf: array<char>) returns (rest: nat)
    requires Terminated(s, at) && namebuf.Length > 0
    modifies namebuf
    ensures Terminated(s, rest) && Text(s, rest) == Rest(Text(s, at))
    ensures var name := First(Text(s, at), namebuf.Length);
      |name| < namebuf.Length && namebuf[..] == name + [NUL] + old(namebuf[..])[|name| + 1..]
  {
    hide Text, SkipSep, Head;
    var start := PathSkipSep(s, at);
    var ptr := NameEnd(s, start);
    var len := ptr - start;
    if len >= namebuf.Length { len := namebuf.Length - 1; }
    ghost var p := Text(s, start);
    SliceOf(s, start, p, len);
    assert s[start..start + len] == Truncate(Head(p), namebuf.Length);
    FillName(s, start, len, namebuf);
    TextFrom(s, start, ptr - start);
    rest := PathSkipSep(s, ptr);
  }

  lemma SliceOf(s: seq<char>, at: nat, p: string, len: nat)
    requires Terminated(s, at) && p == Text(s, at) && len <= |Head(p)|
    ensures at + len <= |s| && s[at..at + len] == Head(p)[..len]
  {
  }
}
