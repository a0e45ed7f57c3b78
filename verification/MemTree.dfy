/** The linked nodes of src/fsmem.c: open, find_entry, add_child and remove over child lists with head and tail. */
module MemTree {
  import opened Chars
  import opened Paths
  import opened MemTreeSpec

  class Node {
    var isDir: bool
    var name: string
    var parent: Node?
    var next: Node?
    var clist: Node?
    var ctail: Node?

    /** alloc_node. */
    constructor (isDir: bool)
      ensures this.isDir == isDir && name == "" && parent == next == clist == ctail == null
    {
      this.isDir, name := isDir, "";
      parent, next, clist, ctail := null, null, null, null;
    }
  }

  /** strcasecmp. */
  method StrCaseCmp(a: string, b: string) returns (diff: int)
    requires NUL !in a && NUL !in b
    ensures diff == 0 <==> Fold(a) == Fold(b)
  {
    hide Fold;
    var i := 0;
    while i < |a| && i < |b| && Lower(a[i]) == Lower(b[i])
      invariant i <= |a| && i <= |b| && forall k | 0 <= k < i :: Lower(a[k]) == Lower(b[k])
    {
      i := i + 1;
    }
    var x := if i < |a| then Lower(a[i]) else NUL;
    var y := if i < |b| then Lower(b[i]) else NUL;
    diff := x as int - y as int;
    FoldExactly(a, b);
    assert i < |a| ==> a[i] in a;
    assert i < |b| ==> b[i] in b;
  }

  lemma FoldExactly(a: string, b: string)
    ensures Fold(a) == Fold(b) <==> |a| == |b| && forall k | 0 <= k < |a| :: Lower(a[k]) == Lower(b[k])
  {
    if Fold(a) == Fold(b) {
      forall k | 0 <= k < |a| ensures Lower(a[k]) == Lower(b[k]) { assert Fold(a)[k] == Fold(b)[k]; }
    }
  }

  /** The string in a buffer. */
  method StrCpy(buf: array<char>) returns (s: string)
    requires Terminated(buf[..], 0)
    ensures s == Text(buf[..], 0)
  {
    s := "";
    while buf[|s|] != NUL
      invariant |s| <= |Text(buf[..], 0)| && s == Text(buf[..], 0)[..|s|]
      decreases buf.Length - |s|
    {
      assert buf[|s|] == Text(buf[..], 0)[|s|];
      s := s + [buf[|s|]];
    }
    TextFrom(buf[..], 0, |s|);
    TextAt(buf[..], |s|);
  }

  class MemFs {
    const root: Node
    ghost var t: Tree<Node>

    ghost predicate Holds(n: Node, e: Entry<Node>)
      reads n
    {
      n.isDir == e.dir && n.name == e.name && n.parent == if e.parent.None? then null else e.parent.value
    }

    /** The child list of a directory. */
    ghost predicate ListOf(d: Node, kids: seq<Node>)
      reads d, kids
    {
      && (if kids == [] then d.clist == null else d.clist == kids[0] && d.ctail == kids[|kids| - 1])
      && forall i {:trigger kids[i].next} | 0 <= i < |kids| ::
        kids[i].next == if i + 1 < |kids| then kids[i + 1] else null
    }

    ghost predicate NodeAt(n: Node)
      requires n in t && Wf(t, root)
      reads this, t.Keys
    {
      assert NodeOk(t, root, n);
      Holds(n, t[n]) && ListOf(n, t[n].kids)
    }

    ghost predicate Valid()
      reads this, t.Keys
    {
      Wf(t, root) && forall n {:trigger NodeAt(n)} | n in t :: NodeAt(n)
    }

    constructor ()
      ensures Valid() && t == NewTree(root) && fresh(root)
    {
      var r := new Node(true);
      root, t := r, NewTree(r);
    }

    method FindEntry(d: Node, name: string) returns (n: Node?)
      requires Valid() && d in t && d.isDir && NUL !in name
      ensures n == (match Lookup(t, root, d, name) case None => null case Some(m) => m)
    {
      hide Wf, Lookup, Search, Fold;
      assert NodeAt(d);
      Dots(t, root, d);
      if name == "." { return d; }
      if name == ".." { return d.parent; }
      n := d.clist;
      ghost var kids, i := t[d].kids, 0;
      Family(t, root, d);
      while n != null
        invariant 0 <= i <= |kids| && n == if i < |kids| then kids[i] else null
        invariant forall j | 0 <= j < i :: Fold(t[kids[j]].name) != Fold(name)
        decreases |kids| - i
      {
        assert NodeAt(n);
        NoNul(t, root, d, n);
        var diff := StrCaseCmp(n.name, name);
        if diff == 0 {
          LookupExactly(t, root, d, name, n);
          return n;
        }
        n := n.next;
        i := i + 1;
      }
      NotFound(t, root, d, name);
    }

    /** The links of add_child. */
    method Append(d: Node, n: Node, ghost kids: seq<Node>)
      requires ListOf(d, kids) && n.next == null && n !in kids
      requires forall i, j | 0 <= i < j < |kids| :: kids[i] != kids[j]
      modifies d`clist, d`ctail, Tail(kids)`next
      ensures ListOf(d, kids + [n])
    {
      if d.clist != null {
        d.ctail.next := n;
        d.ctail := n;
      } else {
        d.clist := n;
        d.ctail := n;
      }
    }

    /** The links of add_child leave every other node as it was. */
    method LinkChild(d: Node, n: Node)
      requires Valid() && d in t && n !in t && n.next == null
      modifies t.Keys, n
      ensures ListOf(d, t[d].kids + [n]) && Holds(d, t[d])
      ensures n.parent == d && n.clist == old(n.clist) && n.name == old(n.name) && n.isDir == old(n.isDir)
      ensures forall m {:trigger NodeAt(m)} | m in t && m != d :: NodeAt(m)
    {
      hide Wf, Lookup, Proper, NamesDiffer, KidsOk, Placed, NodeOk;
      assert NodeAt(d);
      Family(t, root, d);
      NotAChild(t, root, d, n);
      Append(d, n, t[d].kids);
      n.parent := d;
      forall m | m in t && m != d ensures NodeAt(m) {
        assert old(NodeAt(m));
        Family(t, root, m);
        NotAChild(t, root, m, n);
        NotTail(t, root, m, d);
        KeptAt(m);
      }
    }

    /** A node whose own fields and whose children's links have not changed. */
    twostate lemma KeptAt(m: Node)
      requires t == old(t) && Wf(t, root) && m in t && old(NodeAt(m))
      requires m.isDir == old(m.isDir) && m.name == old(m.name) && m.parent == old(m.parent)
      requires m.clist == old(m.clist) && m.ctail == old(m.ctail)
      requires forall k | k in t[m].kids :: k.next == old(k.next)
      ensures NodeAt(m)
    {
    }

    method AddChild(d: Node, n: Node)
      requires Valid() && Addable(t, root, d, n, n.name)
      requires n.next == null && n.clist == null
      modifies this`t, t.Keys, n
      ensures Valid() && t == Add(old(t), d, n, old(n.name), old(n.isDir))
    {
      hide Wf, Lookup, Proper, NamesDiffer, KidsOk, Placed, NodeOk, Add;
      LinkChild(d, n);
      AddKeepsWf(t, root, d, n, n.name, n.isDir);
      AddKeys(t, d, n, n.name, n.isDir);
      ghost var was := t;
      label linked:
      t := Add(t, d, n, n.name, n.isDir);
      forall m | m in t ensures NodeAt(m) {
        AddEntry(was, d, n, n.name, n.isDir, m);
        assert m in was && m != d ==> old@linked(NodeAt(m));
      }
    }

    /** The links of remove leave every other node as it was. */
    method UnlinkChild(n: Node, par: Node)
      requires Valid() && n in t && par in t && t[n].parent == Some(par)
      modifies t.Keys
      ensures ListOf(par, Without(t[par].kids, n)) && Holds(par, t[par])
      ensures forall m {:trigger NodeAt(m)} | m in t && m != par && m != n :: NodeAt(m)
    {
      hide Wf, NamesDiffer, Proper, KidsOk, Placed, NodeOk, Without;
      assert NodeAt(par);
      Parent(t, root, n);
      Unlink(par, n, t[par].kids);
      forall m | m in t && m != par && m != n ensures NodeAt(m) {
        assert old(NodeAt(m));
        OthersKids(t, root, m, par);
        KeptAt(m);
      }
    }

    /** remove: a directory must be empty, the root stays. */
    method Remove(n: Node) returns (res: Option<Errno>)
      requires Valid() && n in t
      modifies this`t, t.Keys
      ensures Valid() && (res, t) == MemTreeSpec.Remove(old(t), root, n)
    {
      hide Wf, NamesDiffer, Proper, KidsOk, Placed, NodeOk, Without, Removed, MemTreeSpec.Remove;
      assert NodeAt(n);
      RemoveIs(t, root, n);
      if n.clist != null { return Some(EEXIST); }
      if n.parent == null { return Some(EBUSY); }
      RemoveKeepsWf(t, root, n);
      UnlinkChild(n, n.parent);
      RemovedKeys(t, n);
      ghost var was := t;
      label unlinked:
      t := Removed(t, n);
      res := None;
      forall m | m in t ensures NodeAt(m) {
        RemovedEntry(was, n, m);
        assert m != was[n].parent.value ==> old@unlinked(NodeAt(m));
      }
    }

    /** The loop of remove over the children, with a dummy node in front of them. */
    method Unlink(par: Node, n: Node, ghost kids: seq<Node>)
      requires ListOf(par, kids) && n in kids && par !in kids
      requires forall i, j | 0 <= i < j < |kids| :: kids[i] != kids[j]
      modifies par`clist, par`ctail, (set k | k in kids)`next
      ensures ListOf(par, Without(kids, n))
    {
      var dummy := new Node(false);
      dummy.next := par.clist;
      var prev := dummy;
      ghost var i := 0;
      while prev.next != null && prev.next != n
        invariant 0 <= i <= |kids| && n !in kids[..i]
        invariant prev == if i == 0 then dummy else kids[i - 1]
        invariant ListOf(par, kids) && dummy.next == kids[0] && fresh(dummy)
        decreases |kids| - i
      {
        prev := prev.next;
        i := i + 1;
      }
      WithoutAt(kids, i, n);
      Detach(par, n, prev, dummy, kids, i);
    }

    /** What the loop does at the node it looks for. */
    method Detach(par: Node, n: Node, prev: Node, dummy: Node, ghost kids: seq<Node>, ghost i: nat)
      requires ListOf(par, kids) && i < |kids| && n == kids[i] && par !in kids && dummy !in kids && dummy != par
      requires forall i, j | 0 <= i < j < |kids| :: kids[i] != kids[j]
      requires dummy.next == kids[0] && prev == if i == 0 then dummy else kids[i - 1]
      modifies par`clist, par`ctail, prev`next, dummy`next
      ensures ListOf(par, kids[..i] + kids[i + 1..])
    {
      ghost var w := kids[..i] + kids[i + 1..];
      if par.ctail == n {
        par.ctail := prev;
      }
      prev.next := n.next;
      par.clist := dummy.next;
      forall j | 0 <= j < |w| ensures w[j].next == if j + 1 < |w| then w[j + 1] else null {
        if j < i - 1 {
          assert w[j] == kids[j] && kids[j] != kids[i - 1];
        } else if j >= i {
          assert w[j] == kids[j + 1];
        }
      }
    }

    ghost function Start(path: seq<char>, cwd: Node): Node
      requires Terminated(path, 0)
    {
      if path[0] == '/' then root else cwd
    }

    /** The loop of open: what the names of the path lead to. */
    method Resolve(path: seq<char>, cwd: Node) returns (w: Walked<Node>)
      requires Valid() && Terminated(path, 0) && cwd in t && cwd.isDir
      ensures w == Walk(t, root, Start(path, cwd), NamesIn(Text(path, 0)))
    {
      hide Wf, Walk, Lookup, Split, SkipSep, Head, Text, Names, Proper, NamesDiffer, Name;
      var node: Node, at: nat := cwd, 0;
      TextAt(path, 0);
      SkipNone(Text(path, 0));
      RootIn(t, root);
      if path[0] == '/' {
        node := root;
        at := PathSkipSep(path, 0);
      }
      ghost var walked := Walk(t, root, Start(path, cwd), NamesIn(Text(path, 0)));
      var namebuf := new char[MAX_NAME + 1];
      while path[at] != NUL
        invariant Terminated(path, at) && node in t && Valid()
        invariant NoSep(Text(path, at)) && walked == Walk(t, root, node, Split(Text(path, at), MAX_NAME + 1))
        decreases |Text(path, at)|
      {
        assert NodeAt(node);
        TextAt(path, at);
        WalkPath(t, root, node, Text(path, at));
        if !node.isDir {
          return NotDir;
        }
        var rest := PathNext(path, at, namebuf);
        var name := CurrentName(path, at, namebuf);
        var n := FindEntry(node, name);
        TextAt(path, rest);
        if n == null {
          return Missing(node, name, path[rest] == NUL);
        }
        node, at := n, rest;
      }
      TextAt(path, at);
      WalkNone(t, root, node);
      return Found(node);
    }

    /** open; `made` is the node that a create adds. */
    method OpenPath(path: seq<char>, cwd: Node, flags: Flags, granted: bool)
      returns (res: Result<Node>, ghost made: Node)
      requires Valid() && Terminated(path, 0) && cwd in t && cwd.isDir
      modifies this`t, t.Keys
      ensures Valid() && (t == old(t) || fresh(made))
      ensures var s := if path[0] == '/' then root else cwd;
        (res, t) == Open(old(t), root, s, NamesIn(Text(path, 0)), flags, granted, made)
      ensures fresh(made) ==> res == Opened(made) && made.isDir == flags.dir && made.clist == null
    {
      hide Wf, Walk, Lookup, Split, SkipSep, Head, Text, Names, Proper, NamesDiffer, Name;
      made := root;
      RootIn(t, root);
      var w := Resolve(path, cwd);
      match w
      case NotDir => return Failed(ENOTDIR), made;
      case Found(node) =>
        if flags.excl {
          return Failed(EEXIST), made;
        }
        return Opened(node), made;
      case Missing(d, name, last) =>
        if !last || !flags.create {
          return Failed(ENOENT), made;
        }
        if !granted {
          return Failed(ENOMEM), made;
        }
        MissingProper(t, root, Start(path, cwd), Text(path, 0));
        var n := Create(d, name, flags.dir);
        return Opened(n), n;
    }

    /** The end of open that adds a node. */
    method Create(d: Node, name: string, dir: bool) returns (n: Node)
      requires Valid() && d in t && t[d].dir && Proper(name) && Lookup(t, root, d, name).None?
      modifies this`t, t.Keys
      ensures Valid() && fresh(n) && t == Add(old(t), d, n, name, dir)
      ensures n.isDir == dir && n.clist == null
    {
      hide Wf, Lookup, Proper, NamesDiffer;
      n := new Node(dir);
      n.name := name;
      AddChild(d, n);
      assert NodeAt(n);
    }
  }

  lemma AddKeys(t: Tree<Node>, d: Node, n: Node, name: string, dir: bool)
    requires d in t
    ensures Add(t, d, n, name, dir).Keys == t.Keys + {n}
  {
  }

  lemma AddEntry(t: Tree<Node>, d: Node, n: Node, name: string, dir: bool, m: Node)
    requires d in t && d != n && (m in t || m == n)
    ensures m in Add(t, d, n, name, dir)
    ensures Add(t, d, n, name, dir)[m] == if m == n then Entry(dir, name, Some(d), [], t[d].depth + 1)
                                          else if m == d then t[d].(kids := t[d].kids + [n]) else t[m]
  {
  }

  lemma RemovedKeys(t: Tree<Node>, n: Node)
    requires n in t && t[n].parent.Some? && t[n].parent.value in t
    ensures Removed(t, n).Keys == t.Keys - {n}
  {
  }

  lemma RemovedEntry(t: Tree<Node>, n: Node, m: Node)
    requires n in t && t[n].parent.Some? && t[n].parent.value in t && m in t && m != n
    ensures m in Removed(t, n)
    ensures Removed(t, n)[m] == if m == t[n].parent.value then t[m].(kids := Without(t[m].kids, n)) else t[m]
  {
    hide Without;
  }

  lemma RemoveIs(t: Tree<Node>, root: Node, n: Node)
    requires Wf(t, root) && n in t
    ensures t[n].kids != [] ==> MemTreeSpec.Remove(t, root, n) == (Some(EEXIST), t)
    ensures t[n].kids == [] && t[n].parent.None? ==> MemTreeSpec.Remove(t, root, n) == (Some(EBUSY), t)
    ensures t[n].kids == [] && t[n].parent.Some? ==>
      t[n].parent.value in t && MemTreeSpec.Remove(t, root, n) == (None, Removed(t, n))
  {
    hide Wf, Removed;
    if t[n].kids == [] && t[n].parent.Some? { RemoveKeepsWf(t, root, n); }
  }

  /** The names that open sees in a path. */
  function NamesIn(p: string): seq<string> {
    Split(SkipSep(p), MAX_NAME + 1)
  }

  /** Both a rooted path and the same one without its first separator name what they were joined from, each name cut to
      its first 120 characters. */
  lemma NamesOfPath(names: seq<string>)
    requires forall k | 0 <= k < |names| :: Name(names[k])
    ensures |NamesIn(Join(names))| == |names|
    ensures forall k | 0 <= k < |names| ::
      NamesIn(Join(names))[k] == if |names[k]| <= 120 then names[k] else names[k][..120]
    ensures names != [] ==> Join(names)[0] == '/' && NamesIn(Join(names)[1..]) == NamesIn(Join(names))
  {
    hide Split, Name;
    SplitJoin(names, MAX_NAME + 1);
  }

  lemma NamesInNames(p: string)
    requires NUL !in p
    ensures Names(NamesIn(p))
  {
    SkipKeeps(p);
    SplitNames(SkipSep(p), MAX_NAME + 1);
  }

  predicate NoSep(p: string) { p != "" ==> p[0] != '/' }

  lemma SkipNone(p: string)
    ensures NoSep(p) ==> SkipSep(p) == p
    ensures NoSep(SkipSep(p))
  {
  }

  /** One turn of the loop of open. */
  lemma WalkPath(t: Tree<Node>, root: Node, d: Node, p: string)
    requires Wf(t, root) && d in t && p != "" && NoSep(p) && NUL !in p
    ensures var name, rest := First(p, MAX_NAME + 1), Rest(p);
      && NoSep(rest) && NUL !in name
      && Walk(t, root, d, Split(p, MAX_NAME + 1))
         == if !t[d].dir then NotDir
            else match Lookup(t, root, d, name)
            case Some(n) => Walk(t, root, n, Split(rest, MAX_NAME + 1))
            case None => Missing(d, name, rest == "")
  {
    hide Lookup, Wf;
    SplitNames(p, MAX_NAME + 1);
    assert Split(p, MAX_NAME + 1)[0] == First(p, MAX_NAME + 1);
    assert Split(p, MAX_NAME + 1)[1..] == Split(Rest(p), MAX_NAME + 1);
  }

  lemma RootIn(t: Tree<Node>, root: Node)
    requires Wf(t, root)
    ensures root in t && t[root].dir
  {
  }

  /** What a path misses can be created. */
  lemma MissingProper(t: Tree<Node>, root: Node, d: Node, p: string)
    requires Wf(t, root) && d in t && NUL !in p
    requires var w := Walk(t, root, d, NamesIn(p)); w.Missing?
    ensures var w := Walk(t, root, d, NamesIn(p)); w.dir in t && t[w.dir].dir && Proper(w.name)
    ensures var w := Walk(t, root, d, NamesIn(p)); Lookup(t, root, w.dir, w.name).None?
  {
    NamesInNames(p);
  }

  lemma WalkNone(t: Tree<Node>, root: Node, d: Node)
    requires Wf(t, root) && d in t
    ensures Walk(t, root, d, Split("", MAX_NAME + 1)) == Found(d)
  {
  }

  /** The name that fs_path_next left in the buffer. */
  method CurrentName(path: seq<char>, at: nat, namebuf: array<char>) returns (name: string)
    requires Terminated(path, at) && NUL !in First(Text(path, at), MAX_NAME + 1)
    requires var first := First(Text(path, at), MAX_NAME + 1);
      |first| < namebuf.Length && namebuf[..|first| + 1] == first + [NUL]
    ensures name == First(Text(path, at), MAX_NAME + 1)
  {
    ghost var first := First(Text(path, at), MAX_NAME + 1);
    assert forall i | 0 <= i <= |first| :: namebuf[..][i] == namebuf[..|first| + 1][i];
    TextIs(namebuf[..], 0, first);
    name := StrCpy(namebuf);
  }

  lemma {:induction false} TextIs(s: seq<char>, at: nat, p: string)
    requires at + |p| < |s| && s[at + |p|] == NUL && NUL !in p && forall i | 0 <= i < |p| :: p[i] == s[at + i]
    ensures Terminated(s, at) && Text(s, at) == p
    decreases |p|
  {
    if p != "" {
      assert p[0] in p && p == [p[0]] + p[1..];
      TextIs(s, at + 1, p[1..]);
    }
  }

  lemma Dots(t: Tree<Node>, root: Node, d: Node)
    requires Wf(t, root) && d in t
    ensures Lookup(t, root, d, ".") == Some(d) && Lookup(t, root, d, "..") == t[d].parent
  {
    assert NodeOk(t, root, d);
  }

  lemma NotFound(t: Tree<Node>, root: Node, d: Node, name: string)
    requires Wf(t, root) && d in t && !Special(name)
    requires forall k | k in t[d].kids :: k in t && Fold(t[k].name) != Fold(name)
    ensures Lookup(t, root, d, name) == None
  {
  }

  lemma NoNul(t: Tree<Node>, root: Node, d: Node, n: Node)
    requires Wf(t, root) && d in t && n in t[d].kids
    ensures n in t && NUL !in t[n].name
  {
    assert NodeOk(t, root, d);
    assert NodeOk(t, root, n);
  }

  /** The node whose link a new child goes into. */
  ghost function Tail(kids: seq<Node>): set<Node> {
    if kids == [] then {} else {kids[|kids| - 1]}
  }

  lemma {:induction false} WithoutAt(kids: seq<Node>, i: nat, n: Node)
    requires i < |kids| && kids[i] == n && n !in kids[..i]
    ensures Without(kids, n) == kids[..i] + kids[i + 1..]
  {
    if i > 0 {
      assert kids[0] in kids[..i];
      assert kids[1..][..i - 1] == kids[..i][1..];
      WithoutAt(kids[1..], i - 1, n);
    }
  }

  lemma OthersKids(t: Tree<Node>, root: Node, m: Node, d: Node)
    requires Wf(t, root) && m in t && d in t && m != d
    ensures forall k | k in t[m].kids :: k !in t[d].kids
  {
    assert NodeOk(t, root, m) && NodeOk(t, root, d);
  }

  lemma Parent(t: Tree<Node>, root: Node, n: Node)
    requires Wf(t, root) && n in t && t[n].parent.Some?
    ensures var d := t[n].parent.value; d in t && n in t[d].kids && d !in t[d].kids
    ensures var d := t[n].parent.value; forall k | k in t[d].kids :: k in t
    ensures var kids := t[t[n].parent.value].kids; forall i, j | 0 <= i < j < |kids| :: kids[i] != kids[j]
  {
    assert NodeOk(t, root, n) && NodeOk(t, root, t[n].parent.value);
    Family(t, root, t[n].parent.value);
  }

  lemma NotTail(t: Tree<Node>, root: Node, m: Node, d: Node)
    requires Wf(t, root) && m in t && d in t && m != d
    ensures forall k | k in t[m].kids :: k !in Tail(t[d].kids)
  {
    assert NodeOk(t, root, m) && NodeOk(t, root, d);
  }

  /** The children of a directory are distinct, and no one else's. */
  lemma Family(t: Tree<Node>, root: Node, d: Node)
    requires Wf(t, root) && d in t
    ensures forall k | k in t[d].kids :: k in t && t[k].parent == Some(d)
    ensures forall i, j | 0 <= i < j < |t[d].kids| :: t[d].kids[i] != t[d].kids[j]
  {
    assert NodeOk(t, root, d);
  }

  lemma NotAChild(t: Tree<Node>, root: Node, d: Node, n: Node)
    requires Wf(t, root) && d in t && n !in t
    ensures n !in t[d].kids
  {
    assert NodeOk(t, root, d);
  }
}
