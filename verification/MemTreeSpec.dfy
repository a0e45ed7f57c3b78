/** The directory tree of src/fsmem.c on values: a map from nodes to what they hold. */
module MemTreeSpec {
  import opened Chars
  import opened Paths

  const MAX_NAME: nat := 120

  datatype Option<T> = None | Some(value: T)

  /** struct memfs_node: the children of a directory in list order, and the depth below the root. */
  datatype Entry<Id> = Entry(dir: bool, name: string, parent: Option<Id>, kids: seq<Id>, depth: nat)

  type Tree<Id> = map<Id, Entry<Id>>

  /** strcasecmp finds two strings equal exactly when they fold to the same. */
  function Fold(name: string): (r: string)
    ensures |r| == |name| && forall i | 0 <= i < |r| :: r[i] == Lower(name[i])
  {
    if name == "" then "" else [Lower(name[0])] + Fold(name[1..])
  }

  predicate Special(name: string) { name == "." || name == ".." }

  /** The names that entries get: "." is never missing, and ".." only in the root. */
  predicate Proper(name: string) { Name(name) && |name| <= MAX_NAME && name != "." }

  lemma FoldSpecial(a: string, b: string)
    requires Fold(a) == Fold(b)
    ensures a == "." <==> b == "."
    ensures a == ".." <==> b == ".."
  {
    if a == "." || b == "." { assert Fold(a)[0] == '.' && Fold(b)[0] == '.'; }
    if a == ".." || b == ".." { assert Fold(a)[0] == Fold(a)[1] == '.' && Fold(b)[0] == Fold(b)[1] == '.'; }
  }

  /* The invariant */

  ghost predicate KidsOk<Id>(t: Tree<Id>, d: Id)
    requires d in t
  {
    forall k | k in t[d].kids :: k in t && t[k].parent == Some(d) && t[k].depth == t[d].depth + 1
  }

  /** Two children of a directory have names that differ even without their case, unless they are ".." in the root. */
  predicate Differ<Id(==)>(t: Tree<Id>, a: Id, b: Id)
    requires a in t && b in t
  {
    a != b && (Fold(t[a].name) != Fold(t[b].name) || t[a].name == "..")
  }

  ghost predicate NamesDiffer<Id>(t: Tree<Id>, kids: seq<Id>)
    requires forall k | k in kids :: k in t
  {
    forall i, j | 0 <= i < j < |kids| :: Differ(t, kids[i], kids[j])
  }

  ghost predicate Placed<Id>(t: Tree<Id>, n: Id)
    requires n in t
  {
    && t[n].parent.Some? && t[n].parent.value in t && t[t[n].parent.value].dir
    && n in t[t[n].parent.value].kids && Proper(t[n].name)
  }

  /** What Wf asks of a node. */
  ghost predicate NodeOk<Id>(t: Tree<Id>, root: Id, d: Id)
    requires d in t
  {
    && KidsOk(t, d) && NamesDiffer(t, t[d].kids) && (!t[d].dir ==> t[d].kids == [])
    && (d != root ==> Placed(t, d) && (t[d].name == ".." ==> t[d].parent == Some(root)))
  }

  ghost predicate Wf<Id>(t: Tree<Id>, root: Id) {
    && root in t && t[root].dir && t[root].parent.None? && t[root].depth == 0
    && (forall d {:trigger NodeOk(t, root, d)} | d in t :: NodeOk(t, root, d))
  }

  /* find_entry */

  function Search<Id(==)>(t: Tree<Id>, kids: seq<Id>, folded: string): (r: Option<Id>)
    requires forall k | k in kids :: k in t
    ensures r.Some? ==> r.value in kids && Fold(t[r.value].name) == folded
    ensures r.None? ==> forall k | k in kids :: Fold(t[k].name) != folded
  {
    if kids == [] then None
    else if Fold(t[kids[0]].name) == folded then Some(kids[0])
    else Search(t, kids[1..], folded)
  }

  function Lookup<Id(==)>(t: Tree<Id>, root: Id, d: Id, name: string): (r: Option<Id>)
    requires Wf(t, root) && d in t
    ensures r.Some? ==> r.value in t
  {
    assert NodeOk(t, root, d);
    if name == "." then Some(d)
    else if name == ".." then (if d == root then None else assert NodeOk(t, root, d); t[d].parent)
    else Search(t, t[d].kids, Fold(name))
  }

  /** Lookup of a proper name is by folded name alone, whatever the order of the children. */
  lemma LookupExactly<Id>(t: Tree<Id>, root: Id, d: Id, name: string, n: Id)
    requires Wf(t, root) && d in t && n in t && !Special(name)
    ensures Lookup(t, root, d, name) == Some(n) <==> t[n].parent == Some(d) && Fold(t[n].name) == Fold(name)
  {
    assert NodeOk(t, root, d);
    if t[n].parent == Some(d) && Fold(t[n].name) == Fold(name) {
      assert NodeOk(t, root, n);
      var m := Search(t, t[d].kids, Fold(name)).value;
      FoldSpecial(t[m].name, name);
      FoldSpecial(t[n].name, name);
      Alone(t, t[d].kids, m, n);
    }
  }

  lemma Alone<Id>(t: Tree<Id>, kids: seq<Id>, a: Id, b: Id)
    requires forall k | k in kids :: k in t
    requires NamesDiffer(t, kids) && a in kids && b in kids
    requires Fold(t[a].name) == Fold(t[b].name) && t[a].name != ".." && t[b].name != ".."
    ensures a == b
  {
    var i :| 0 <= i < |kids| && kids[i] == a;
    var j :| 0 <= j < |kids| && kids[j] == b;
    assert !Differ(t, kids[i], kids[j]) && !Differ(t, kids[j], kids[i]);
  }

  /* The walk of open */

  datatype Walked<Id> = Found(node: Id) | NotDir | Missing(dir: Id, name: string, last: bool)

  function Walk<Id(==)>(t: Tree<Id>, root: Id, d: Id, names: seq<string>): (w: Walked<Id>)
    requires Wf(t, root) && d in t
    ensures w.Found? ==> w.node in t
    ensures w.Missing? ==> w.dir in t && t[w.dir].dir && Lookup(t, root, w.dir, w.name).None? && w.name in names
    decreases |names|
  {
    if names == [] then Found(d)
    else if !t[d].dir then NotDir
    else match Lookup(t, root, d, names[0])
      case Some(n) => Walk(t, root, n, names[1..])
      case None => Missing(d, names[0], |names| == 1)
  }

  lemma {:induction false} WalkJoins<Id>(t: Tree<Id>, root: Id, d: Id, a: seq<string>, b: seq<string>)
    requires Wf(t, root) && d in t && Walk(t, root, d, a).Found?
    ensures Walk(t, root, d, a + b) == Walk(t, root, Walk(t, root, d, a).node, b)
    decreases |a|
  {
    hide Wf, Lookup;
    if a == [] {
      assert a + b == b;
    } else {
      assert (a + b)[1..] == a[1..] + b;
      WalkJoins(t, root, Lookup(t, root, d, a[0]).value, a[1..], b);
    }
  }

  /** What the first k names of a path lead to, one name on. */
  lemma WalkPrefix<Id>(t: Tree<Id>, root: Id, d: Id, names: seq<string>, k: nat)
    requires Wf(t, root) && d in t && 0 < k <= |names|
    ensures Walk(t, root, d, names[..k])
      == if !t[d].dir then NotDir
         else match Lookup(t, root, d, names[0])
         case Some(n) => Walk(t, root, n, names[1..][..k - 1])
         case None => Missing(d, names[0], k == 1)
  {
    hide Wf, Lookup;
    assert names[..k][1..] == names[1..][..k - 1];
  }

  /** Some names of the path lead to a file, and there are more of them. */
  ghost predicate ThroughFile<Id>(t: Tree<Id>, root: Id, d: Id, names: seq<string>)
    requires Wf(t, root) && d in t
  {
    exists k | 0 <= k < |names| :: var w := Walk(t, root, d, names[..k]); w.Found? && !t[w.node].dir
  }

  /** open fails with ENOTDIR exactly for a path that goes on after a file. */
  lemma {:induction false} NotDirExactly<Id>(t: Tree<Id>, root: Id, d: Id, names: seq<string>)
    requires Wf(t, root) && d in t
    ensures Walk(t, root, d, names).NotDir? <==> ThroughFile(t, root, d, names)
    decreases |names|
  {
    hide Wf, Lookup;
    if names != [] {
      assert names[..0] == [] && names[..|names|] == names;
      if t[d].dir {
        forall k | 0 < k <= |names| { WalkPrefix(t, root, d, names, k); }
        if Lookup(t, root, d, names[0]).Some? {
          var n := Lookup(t, root, d, names[0]).value;
          var rest := names[1..];
          NotDirExactly(t, root, n, rest);
          if ThroughFile(t, root, n, rest) {
            var k :| 0 <= k < |rest| && var w := Walk(t, root, n, rest[..k]); w.Found? && !t[w.node].dir;
            assert Walk(t, root, d, names[..k + 1]) == Walk(t, root, n, rest[..k]);
          }
        }
      }
    }
  }

  /** The first k names lead to a directory without an entry of the next name. */
  ghost predicate StopsAt<Id>(t: Tree<Id>, root: Id, d: Id, names: seq<string>, k: int)
    requires Wf(t, root) && d in t
  {
    0 <= k < |names| &&
    var w := Walk(t, root, d, names[..k]); w.Found? && t[w.node].dir && Lookup(t, root, w.node, names[k]).None?
  }

  /** The walk of open misses a name exactly where a directory has no such entry, and knows whether it is the last. */
  lemma MissingExactly<Id>(t: Tree<Id>, root: Id, d: Id, names: seq<string>)
    requires Wf(t, root) && d in t
    ensures Walk(t, root, d, names).Missing? <==> exists k :: StopsAt(t, root, d, names, k)
    ensures forall k | StopsAt(t, root, d, names, k) ::
      Walk(t, root, d, names) == Missing(Walk(t, root, d, names[..k]).node, names[k], k == |names| - 1)
  {
    hide Wf, Lookup;
    forall k | StopsAt(t, root, d, names, k)
      ensures Walk(t, root, d, names) == Missing(Walk(t, root, d, names[..k]).node, names[k], k == |names| - 1)
    {
      assert names == names[..k] + names[k..];
      WalkJoins(t, root, d, names[..k], names[k..]);
    }
    if Walk(t, root, d, names).Missing? { var k := MissesAt(t, root, d, names); }
  }

  lemma {:induction false} MissesAt<Id>(t: Tree<Id>, root: Id, d: Id, names: seq<string>) returns (k: nat)
    requires Wf(t, root) && d in t && Walk(t, root, d, names).Missing?
    ensures StopsAt(t, root, d, names, k)
    decreases |names|
  {
    hide Wf, Lookup;
    assert names[..0] == [];
    if Lookup(t, root, d, names[0]).Some? {
      k := MissesAt(t, root, Lookup(t, root, d, names[0]).value, names[1..]);
      WalkPrefix(t, root, d, names, k + 1);
      k := k + 1;
    } else {
      k := 0;
    }
  }

  /** The names on the way from the root to a node. */
  ghost function NamesOf<Id>(t: Tree<Id>, root: Id, n: Id): seq<string>
    requires Wf(t, root) && n in t
    decreases t[n].depth
  {
    if n == root then []
    else
      assert NodeOk(t, root, n) && NodeOk(t, root, t[n].parent.value);
      NamesOf(t, root, t[n].parent.value) + [t[n].name]
  }

  predicate SameNames(a: seq<string>, b: seq<string>) {
    |a| == |b| && forall i | 0 <= i < |a| :: Fold(a[i]) == Fold(b[i])
  }

  predicate NoneSpecial(names: seq<string>) {
    forall i | 0 <= i < |names| :: !Special(names[i])
  }

  /** A path without "." and ".." resolves to a node exactly when its names are those above the node, up to case. */
  lemma {:induction false} ResolvesExactly<Id>(t: Tree<Id>, root: Id, names: seq<string>, n: Id)
    requires Wf(t, root) && n in t && NoneSpecial(names)
    ensures Walk(t, root, root, names) == Found(n) <==> SameNames(names, NamesOf(t, root, n))
    decreases |names|
  {
    if names == [] {
      if n != root { assert |NamesOf(t, root, n)| > 0; }
    } else {
      var k := |names| - 1;
      var init, last := names[..k], names[k];
      assert names == init + [last];
      if n == root {
        LastStep(t, root, init, last, root);
      } else {
        assert NodeOk(t, root, n);
        var p := t[n].parent.value;
        ResolvesExactly(t, root, init, p);
        LastStep(t, root, init, last, n);
        SameSnoc(init, last, NamesOf(t, root, p), t[n].name);
      }
    }
  }

  lemma SameSnoc(a: seq<string>, x: string, b: seq<string>, y: string)
    ensures SameNames(a + [x], b + [y]) <==> SameNames(a, b) && Fold(x) == Fold(y)
  {
    if SameNames(a + [x], b + [y]) {
      forall i | 0 <= i < |a| ensures Fold(a[i]) == Fold(b[i]) {
        assert (a + [x])[i] == a[i] && (b + [y])[i] == b[i];
      }
      assert (a + [x])[|a|] == x && (b + [y])[|b|] == y;
    }
  }

  /** The last step of a path is a lookup in what the rest resolves to. */
  lemma LastStep<Id>(t: Tree<Id>, root: Id, init: seq<string>, last: string, n: Id)
    requires Wf(t, root) && n in t && !Special(last)
    ensures Walk(t, root, root, init + [last]) == Found(n)
      <==> n != root && t[n].parent.Some? && t[n].parent.value in t
           && Walk(t, root, root, init) == Found(t[n].parent.value) && Fold(t[n].name) == Fold(last)
  {
    if Walk(t, root, root, init).Found? {
      var m := Walk(t, root, root, init).node;
      WalkJoins(t, root, root, init, [last]);
      assert Walk(t, root, m, [last]) == Found(n) <==> t[m].dir && Lookup(t, root, m, last) == Some(n);
      LookupExactly(t, root, m, last, n);
      if n != root { assert NodeOk(t, root, n); }
    } else {
      WalkStops(t, root, root, init, [last]);
    }
  }

  lemma {:induction false} WalkStops<Id>(t: Tree<Id>, root: Id, d: Id, a: seq<string>, b: seq<string>)
    requires Wf(t, root) && d in t && !Walk(t, root, d, a).Found?
    ensures !Walk(t, root, d, a + b).Found?
    decreases |a|
  {
    hide Wf, Lookup;
    assert a != [] && (a + b)[1..] == a[1..] + b;
    if t[d].dir && Lookup(t, root, d, a[0]).Some? { WalkStops(t, root, Lookup(t, root, d, a[0]).value, a[1..], b); }
  }

  /* add_child of a new node, and remove */

  function Add<Id(==)>(t: Tree<Id>, d: Id, n: Id, name: string, dir: bool): Tree<Id>
    requires d in t
  {
    t[d := t[d].(kids := t[d].kids + [n])][n := Entry(dir, name, Some(d), [], t[d].depth + 1)]
  }

  predicate Addable<Id>(t: Tree<Id>, root: Id, d: Id, n: Id, name: string)
    requires Wf(t, root)
  {
    d in t && t[d].dir && n !in t && Proper(name) && Lookup(t, root, d, name).None?
  }

  lemma AddKeepsWf<Id>(t: Tree<Id>, root: Id, d: Id, n: Id, name: string, dir: bool)
    requires Wf(t, root) && Addable(t, root, d, n, name)
    ensures Wf(Add(t, d, n, name, dir), root)
  {
    hide NodeOk, Proper, Lookup;
    var u := Add(t, d, n, name, dir);
    forall e | e in u ensures NodeOk(u, root, e) {
      AddKeepsNode(t, root, d, n, name, dir, e);
    }
  }

  lemma AddKeepsNode<Id>(t: Tree<Id>, root: Id, d: Id, n: Id, name: string, dir: bool, e: Id)
    requires Wf(t, root) && Addable(t, root, d, n, name) && (e in t || e == n)
    ensures NodeOk(Add(t, d, n, name, dir), root, e)
  {
    hide *;
    if e == n {
      NewNodeOk(t, root, d, n, name, dir);
    } else {
      NodeOfWf(t, root, e);
      if e == d { GrownNodeOk(t, root, d, n, name, dir); } else { OtherNodeOk(t, root, d, n, name, dir, e); }
    }
  }

  lemma NodeOfWf<Id>(t: Tree<Id>, root: Id, e: Id)
    requires Wf(t, root) && e in t
    ensures NodeOk(t, root, e)
  {
  }

  lemma NewNodeOk<Id>(t: Tree<Id>, root: Id, d: Id, n: Id, name: string, dir: bool)
    requires Wf(t, root) && Addable(t, root, d, n, name)
    ensures NodeOk(Add(t, d, n, name, dir), root, n)
  {
    hide NamesDiffer, Proper;
    assert NodeOk(t, root, d);
    NoNames(Add(t, d, n, name, dir));
  }

  lemma GrownNodeOk<Id>(t: Tree<Id>, root: Id, d: Id, n: Id, name: string, dir: bool)
    requires Wf(t, root) && Addable(t, root, d, n, name) && NodeOk(t, root, d)
    ensures NodeOk(Add(t, d, n, name, dir), root, d)
  {
    hide NamesDiffer;
    forall k | k in t[d].kids ensures Fold(t[k].name) != Fold(name) || t[k].name == ".." {
      FoldSpecial(t[k].name, if Fold(t[k].name) == Fold(name) then name else t[k].name);
    }
    AddedDiffers(t, Add(t, d, n, name, dir), t[d].kids, n);
  }

  lemma OtherNodeOk<Id>(t: Tree<Id>, root: Id, d: Id, n: Id, name: string, dir: bool, e: Id)
    requires Wf(t, root) && Addable(t, root, d, n, name) && e in t && e != d && NodeOk(t, root, e)
    ensures NodeOk(Add(t, d, n, name, dir), root, e)
  {
    hide NamesDiffer, Proper, Lookup;
    SameNamesDiffer(t, Add(t, d, n, name, dir), t[e].kids);
  }

  lemma NoNames<Id>(t: Tree<Id>)
    ensures NamesDiffer(t, [])
  {
  }

  lemma SameNamesDiffer<Id>(t: Tree<Id>, u: Tree<Id>, kids: seq<Id>)
    requires forall k | k in kids :: k in t && k in u && u[k].name == t[k].name
    ensures NamesDiffer(t, kids) ==> NamesDiffer(u, kids)
  {
  }

  lemma AddedDiffers<Id>(t: Tree<Id>, u: Tree<Id>, kids: seq<Id>, n: Id)
    requires forall k | k in kids :: k in t && k in u && u[k].name == t[k].name
    requires NamesDiffer(t, kids) && n in u && n !in kids
    requires forall k | k in kids :: Fold(t[k].name) != Fold(u[n].name) || t[k].name == ".."
    ensures NamesDiffer(u, kids + [n])
  {
    var more := kids + [n];
    forall i, j | 0 <= i < j < |more| ensures Differ(u, more[i], more[j]) {
      assert more[i] == kids[i];
      if j < |kids| { assert Differ(t, kids[i], kids[j]); }
    }
  }

  function Without<Id(==)>(kids: seq<Id>, n: Id): (r: seq<Id>)
    ensures forall k | k in r :: k in kids
    ensures forall k | k in kids && k != n :: k in r
  {
    if kids == [] then []
    else if kids[0] == n then kids[1..]
    else [kids[0]] + Without(kids[1..], n)
  }

  predicate Removable<Id(==)>(t: Tree<Id>, n: Id)
    requires n in t
  {
    t[n].kids == [] && t[n].parent.Some?
  }

  function Removed<Id(==)>(t: Tree<Id>, n: Id): Tree<Id>
    requires n in t && t[n].parent.Some? && t[n].parent.value in t
  {
    var p := t[n].parent.value;
    t[p := t[p].(kids := Without(t[p].kids, n))] - {n}
  }

  lemma RemoveKeepsWf<Id>(t: Tree<Id>, root: Id, n: Id)
    requires Wf(t, root) && n in t && Removable(t, n)
    ensures t[n].parent.value in t && n != root && Wf(Removed(t, n), root)
  {
    hide NamesDiffer, Proper;
    assert NodeOk(t, root, n);
    var u := Removed(t, n);
    forall e | e in u ensures NodeOk(u, root, e) {
      RemoveKeepsNode(t, root, n, e);
    }
  }

  lemma RemoveKeepsNode<Id>(t: Tree<Id>, root: Id, n: Id, e: Id)
    requires Wf(t, root) && n in t && Removable(t, n) && e in t && e != n
    ensures t[n].parent.value in t && NodeOk(Removed(t, n), root, e)
  {
    hide NamesDiffer, Proper;
    assert NodeOk(t, root, n) && NodeOk(t, root, e) && NodeOk(t, root, t[n].parent.value);
    var u := Removed(t, n);
    if e == t[n].parent.value {
      WithoutDiffers(t, t[e].kids, n);
      SameNamesDiffer(t, u, Without(t[e].kids, n));
    } else {
      assert n !in t[e].kids;
      SameNamesDiffer(t, u, t[e].kids);
    }
  }

  lemma {:induction false} WithoutDiffers<Id>(t: Tree<Id>, kids: seq<Id>, n: Id)
    requires (forall k | k in kids :: k in t) && NamesDiffer(t, kids)
    ensures NamesDiffer(t, Without(kids, n)) && n !in Without(kids, n)
  {
    hide Differ;
    if kids != [] {
      var rest := kids[1..];
      forall i, j | 0 <= i < j < |rest| ensures Differ(t, rest[i], rest[j]) {
        assert rest[i] == kids[i + 1] && rest[j] == kids[j + 1];
      }
      HeadDiffers(t, kids);
      WithoutDiffers(t, rest, n);
      if kids[0] != n {
        var w := Without(rest, n);
        var r := [kids[0]] + w;
        forall i, j | 0 <= i < j < |r| ensures Differ(t, r[i], r[j]) {
          assert r[j] == w[j - 1] && w[j - 1] in w;
          if i > 0 { assert r[i] == w[i - 1]; }
        }
      }
    }
  }

  lemma HeadDiffers<Id>(t: Tree<Id>, kids: seq<Id>)
    requires kids != [] && (forall k | k in kids :: k in t) && NamesDiffer(t, kids)
    ensures (forall k | k in kids[1..] :: Differ(t, kids[0], k)) && kids[0] !in kids[1..]
  {
    forall k | k in kids[1..] ensures Differ(t, kids[0], k) {
      var i :| 0 <= i < |kids[1..]| && kids[1..][i] == k;
      assert kids[i + 1] == k;
    }
  }

  /* What a change means for paths */

  predicate NoParent(names: seq<string>) {
    ".." !in names
  }

  /** After add_child the path that missed its last name resolves to the new node. */
  lemma {:induction false} AddResolves<Id>(t: Tree<Id>, root: Id, s: Id, names: seq<string>, n: Id, dir: bool)
    requires Wf(t, root) && s in t
    requires var w := Walk(t, root, s, names);
      w.Missing? && w.last && w.name != ".." && Addable(t, root, w.dir, n, w.name)
    ensures var w := Walk(t, root, s, names); var u := Add(t, w.dir, n, w.name, dir);
      Wf(u, root) && Walk(u, root, s, names) == Found(n)
    decreases |names|
  {
    hide Wf, Lookup, Proper;
    var w := Walk(t, root, s, names);
    var u := Add(t, w.dir, n, w.name, dir);
    AddKeepsWf(t, root, w.dir, n, w.name, dir);
    AddLookup(t, root, w.dir, n, w.name, dir, s, names[0]);
    if Lookup(t, root, s, names[0]).Some? {
      AddResolves(t, root, Lookup(t, root, s, names[0]).value, names[1..], n, dir);
    } else {
      assert names[1..] == [];
    }
  }

  /** A lookup after add_child: the new node under its name, everything that was found before otherwise. */
  lemma AddLookup<Id>(t: Tree<Id>, root: Id, d: Id, n: Id, name: string, dir: bool, s: Id, x: string)
    requires Wf(t, root) && Addable(t, root, d, n, name) && s in t
    ensures var u := Add(t, d, n, name, dir);
      && Wf(u, root) && u[s].dir == t[s].dir
      && (Lookup(t, root, s, x).Some? ==> Lookup(u, root, s, x) == Lookup(t, root, s, x))
      && (s == d && name != ".." ==> Lookup(u, root, s, name) == Some(n))
  {
    hide NamesDiffer;
    var u := Add(t, d, n, name, dir);
    AddKeepsWf(t, root, d, n, name, dir);
    if name != ".." { LookupExactly(u, root, d, name, n); }
    if !Special(x) && Lookup(t, root, s, x).Some? {
      var m := Lookup(t, root, s, x).value;
      LookupExactly(t, root, s, x, m);
      LookupExactly(u, root, s, x, m);
    }
  }

  /** What could be opened before a create still can. */
  lemma {:induction false} AddKeepsPaths<Id>(t: Tree<Id>, root: Id, d: Id, n: Id, name: string, dir: bool, s: Id,
                                             names: seq<string>)
    requires Wf(t, root) && Addable(t, root, d, n, name) && s in t && Walk(t, root, s, names).Found?
    ensures var u := Add(t, d, n, name, dir); Wf(u, root) && Walk(u, root, s, names) == Walk(t, root, s, names)
    decreases |names|
  {
    hide Wf, Lookup, Proper;
    AddKeepsWf(t, root, d, n, name, dir);
    if names != [] {
      AddLookup(t, root, d, n, name, dir, s, names[0]);
      AddKeepsPaths(t, root, d, n, name, dir, Lookup(t, root, s, names[0]).value, names[1..]);
    }
  }

  /** A lookup after remove. */
  lemma RemoveLookup<Id>(t: Tree<Id>, root: Id, n: Id, s: Id, x: string)
    requires Wf(t, root) && n in t && Removable(t, n) && s in t && s != n && x != ".."
    ensures t[n].parent.value in t
    ensures var u := Removed(t, n);
      && Wf(u, root) && u[s].dir == t[s].dir
      && Lookup(u, root, s, x) == if Lookup(t, root, s, x) == Some(n) then None else Lookup(t, root, s, x)
  {
    hide NamesDiffer, Proper;
    RemoveKeepsWf(t, root, n);
    var u := Removed(t, n);
    if x != "." {
      if Lookup(u, root, s, x).Some? {
        var m := Lookup(u, root, s, x).value;
        LookupExactly(u, root, s, x, m);
        LookupExactly(t, root, s, x, m);
      } else if Lookup(t, root, s, x).Some? && Lookup(t, root, s, x) != Some(n) {
        var m := Lookup(t, root, s, x).value;
        LookupExactly(t, root, s, x, m);
        LookupExactly(u, root, s, x, m);
      }
    }
  }

  /** After remove every path to the node misses, and every other path still resolves; paths through ".." of a removed
      directory are the exception. */
  lemma {:induction false} RemoveWalk<Id>(t: Tree<Id>, root: Id, n: Id, s: Id, names: seq<string>)
    requires Wf(t, root) && n in t && Removable(t, n) && s in t && s != n && NoParent(names)
    requires Walk(t, root, s, names).Found?
    ensures t[n].parent.value in t && Wf(Removed(t, n), root)
    ensures var w := Walk(t, root, s, names); var v := Walk(Removed(t, n), root, s, names);
      if w.node == n then v.Missing? else v == w
    decreases |names|
  {
    hide Wf, Lookup;
    RemoveKeepsWf(t, root, n);
    if names != [] {
      RemoveLookup(t, root, n, s, names[0]);
      var m := Lookup(t, root, s, names[0]).value;
      if m == n {
        StaysAt(t, root, n, names[1..]);
      } else {
        RemoveWalk(t, root, n, m, names[1..]);
      }
    }
  }

  /** From a node without children only its parent can be reached. */
  lemma {:induction false} StaysAt<Id>(t: Tree<Id>, root: Id, n: Id, names: seq<string>)
    requires Wf(t, root) && n in t && t[n].kids == [] && NoParent(names) && Walk(t, root, n, names).Found?
    ensures Walk(t, root, n, names) == Found(n)
    decreases |names|
  {
    if names != [] { StaysAt(t, root, n, names[1..]); }
  }

  /* open and remove */

  datatype Flags = Flags(create: bool, dir: bool, excl: bool)

  datatype Errno = ENOENT | ENOTDIR | EEXIST | ENOMEM | EBUSY

  datatype Result<Id> = Opened(node: Id) | Failed(errno: Errno)

  /** Nothing is created, or not "..", which is missing only in the root. */
  predicate NotParent<Id>(w: Walked<Id>, flags: Flags) {
    flags.create && w.Missing? && w.last ==> w.name != ".."
  }

  /** open of the names from a node; `granted` and n say whether alloc_node finds memory, and where. */
  function Open<Id(==)>(t: Tree<Id>, root: Id, s: Id, names: seq<string>, flags: Flags, granted: bool, n: Id)
    : (r: (Result<Id>, Tree<Id>))
    requires Wf(t, root) && s in t
  {
    match Walk(t, root, s, names)
    case NotDir => (Failed(ENOTDIR), t)
    case Found(m) => (if flags.excl then Failed(EEXIST) else Opened(m), t)
    case Missing(d, name, last) =>
      if !last || !flags.create then (Failed(ENOENT), t)
      else if !granted then (Failed(ENOMEM), t)
      else (Opened(n), Add(t, d, n, name, flags.dir))
  }

  /** What open yields, case by case.  EEXIST does not ask whether the node would have been created. */
  lemma OpenExactly<Id>(t: Tree<Id>, root: Id, s: Id, names: seq<string>, flags: Flags, granted: bool, n: Id)
    requires Wf(t, root) && s in t && n !in t
    ensures var r, last := Open(t, root, s, names, flags, granted, n).0, |names| - 1;
      && (r == Failed(ENOTDIR) <==> ThroughFile(t, root, s, names))
      && (r == Failed(EEXIST) <==> Walk(t, root, s, names).Found? && flags.excl)
      && (r == Failed(ENOENT) <==> exists k | StopsAt(t, root, s, names, k) :: k < last || !flags.create)
      && (r == Failed(ENOMEM) <==> StopsAt(t, root, s, names, last) && flags.create && !granted)
      && (r == Opened(n) <==> StopsAt(t, root, s, names, last) && flags.create && granted)
      && (forall m | m in t :: r == Opened(m) <==> Walk(t, root, s, names) == Found(m) && !flags.excl)
  {
    hide Wf, Walk, StopsAt, ThroughFile;
    NotDirExactly(t, root, s, names);
    MissingExactly(t, root, s, names);
    InRange(t, root, s, names);
  }

  lemma InRange<Id>(t: Tree<Id>, root: Id, d: Id, names: seq<string>)
    requires Wf(t, root) && d in t
    ensures forall k | StopsAt(t, root, d, names, k) :: 0 <= k < |names|
  {
  }

  /** open adds at most the node it creates: a file or a directory as the flags say, without children, named as the
      path ends, behind the other children of the directory that the names before lead to.  Nothing else changes. */
  lemma CreatedExactly<Id>(t: Tree<Id>, root: Id, s: Id, names: seq<string>, flags: Flags, granted: bool, n: Id)
    requires Wf(t, root) && s in t && n !in t
    ensures var (r, u) := Open(t, root, s, names, flags, granted, n); var last := |names| - 1;
      if r != Opened(n) then u == t
      else
        && last >= 0 && Walk(t, root, s, names[..last]).Found?
        && var d := Walk(t, root, s, names[..last]).node;
        && u.Keys == t.Keys + {n}
        && u[n] == Entry(flags.dir, names[last], Some(d), [], t[d].depth + 1)
        && u[d] == t[d].(kids := t[d].kids + [n])
        && (forall m | m in t && m != d :: u[m] == t[m])
  {
    hide Wf, Walk, Lookup;
    if Open(t, root, s, names, flags, granted, n).0 == Opened(n) {
      OpenExactly(t, root, s, names, flags, granted, n);
      MissingExactly(t, root, s, names);
    }
  }

  function Remove<Id(==)>(t: Tree<Id>, root: Id, n: Id): (r: (Option<Errno>, Tree<Id>))
    requires Wf(t, root) && n in t
  {
    if t[n].kids != [] then (Some(EEXIST), t)
    else if t[n].parent.None? then (Some(EBUSY), t)
    else RemoveKeepsWf(t, root, n); (None, Removed(t, n))
  }

  /** remove fails exactly for a directory with children and for the root, and then changes nothing.  Otherwise it takes
      the node out of the tree and out of its parent's children, whose order it keeps. */
  lemma RemoveExactly<Id>(t: Tree<Id>, root: Id, n: Id)
    requires Wf(t, root) && n in t
    ensures var (e, u) := Remove(t, root, n);
      && (e == Some(EEXIST) <==> t[n].kids != [])
      && (e == Some(EBUSY) <==> n == root && t[n].kids == [])
      && (e.Some? ==> u == t)
    ensures var (e, u) := Remove(t, root, n);
      e.None? <==> exists p, a, b | p in t && t[p].kids == a + [n] + b && t[n].kids == [] ::
        u == t[p := t[p].(kids := a + b)] - {n}
  {
    assert NodeOk(t, root, n);
    if n != root && t[n].kids == [] {
      var p := t[n].parent.value;
      var a, b := WithoutSplits(t[p].kids, n);
      assert Removed(t, n) == t[p := t[p].(kids := a + b)] - {n};
    }
  }

  lemma {:induction false} WithoutSplits<Id>(kids: seq<Id>, n: Id) returns (a: seq<Id>, b: seq<Id>)
    requires n in kids
    ensures kids == a + [n] + b && Without(kids, n) == a + b
  {
    if kids[0] == n {
      a, b := [], kids[1..];
    } else {
      a, b := WithoutSplits(kids[1..], n);
      a := [kids[0]] + a;
    }
  }

  /** The names of a path are proper ones where something is missing. */
  predicate Names(names: seq<string>) {
    forall x | x in names :: Name(x) && |x| <= MAX_NAME
  }

  lemma MissingIsAddable<Id>(t: Tree<Id>, root: Id, s: Id, names: seq<string>, n: Id)
    requires Wf(t, root) && s in t && Names(names) && n !in t
    requires var w := Walk(t, root, s, names); w.Missing? && w.last
    ensures var w := Walk(t, root, s, names); Addable(t, root, w.dir, n, w.name)
  {
  }

  /** open keeps the tree, and when it succeeds the same path opens the same node again, without creating, unless it
      created "..". */
  lemma OpenAgain<Id>(t: Tree<Id>, root: Id, s: Id, names: seq<string>, flags: Flags, granted: bool, n: Id)
    requires Wf(t, root) && s in t && n !in t && Names(names)
    ensures var (r, u) := Open(t, root, s, names, flags, granted, n);
      && Wf(u, root) && s in u
      && (r.Opened? && NotParent(Walk(t, root, s, names), flags)
          ==> forall m: Id :: Open(u, root, s, names, Flags(false, false, false), granted, m) == (r, u))
      && (r.Failed? ==> u == t)
  {
    hide Wf, Walk;
    var w := Walk(t, root, s, names);
    if w.Missing? && w.last && flags.create && granted {
      MissingIsAddable(t, root, s, names, n);
      AddKeepsWf(t, root, w.dir, n, w.name, flags.dir);
      if w.name != ".." { AddResolves(t, root, s, names, n, flags.dir); }
    }
  }

  /** After a successful remove no path without ".." opens the node, and every other one opens what it did. */
  lemma RemovedIsGone<Id>(t: Tree<Id>, root: Id, n: Id, s: Id, names: seq<string>, m: Id)
    requires Wf(t, root) && n in t && s in t && s != n && NoParent(names) && Remove(t, root, n).0.None?
    requires Walk(t, root, s, names).Found?
    ensures var u := Remove(t, root, n).1; var plain := Flags(false, false, false);
      && Wf(u, root) && s in u
      && (if Open(t, root, s, names, plain, true, m).0 == Opened(n)
          then Open(u, root, s, names, plain, true, m).0 == Failed(ENOENT)
          else Open(u, root, s, names, plain, true, m).0 == Open(t, root, s, names, plain, true, m).0)
  {
    hide Wf, Walk;
    RemoveKeepsWf(t, root, n);
    RemoveWalk(t, root, n, s, names);
  }

  /* Runs */

  datatype Op<Id> =
    | OpenPath(start: Id, names: seq<string>, flags: Flags, granted: bool, node: Id)
    | RemoveNode(node: Id)

  predicate Allowed<Id(==)>(t: Tree<Id>, root: Id, op: Op<Id>)
    requires Wf(t, root)
  {
    match op
    case OpenPath(s, names, flags, granted, n) =>
      s in t && n !in t && Names(names)
    case RemoveNode(n) => n in t
  }

  function Step<Id(==)>(t: Tree<Id>, root: Id, op: Op<Id>): (u: Tree<Id>)
    requires Wf(t, root) && Allowed(t, root, op)
    ensures Wf(u, root)
  {
    match op
    case OpenPath(s, names, flags, granted, n) =>
      OpenAgain(t, root, s, names, flags, granted, n);
      Open(t, root, s, names, flags, granted, n).1
    case RemoveNode(n) =>
      if Removable(t, n) then RemoveKeepsWf(t, root, n); Remove(t, root, n).1 else t
  }

  ghost predicate AllAllowed<Id>(t: Tree<Id>, root: Id, ops: seq<Op<Id>>)
    requires Wf(t, root)
    decreases |ops|
  {
    ops == [] || (Allowed(t, root, ops[0]) && AllAllowed(Step(t, root, ops[0]), root, ops[1..]))
  }

  ghost function RunAll<Id>(t: Tree<Id>, root: Id, ops: seq<Op<Id>>): (u: Tree<Id>)
    requires Wf(t, root) && AllAllowed(t, root, ops)
    ensures Wf(u, root)
    decreases |ops|
  {
    if ops == [] then t else RunAll(Step(t, root, ops[0]), root, ops[1..])
  }

  function NewTree<Id>(root: Id): (t: Tree<Id>)
    ensures Wf(t, root)
  {
    var t := map[root := Entry(true, "", None, [], 0)];
    assert NodeOk(t, root, root);
    t
  }

  /** Over every run a path without ".." keeps opening the node it opened, for as long as the node is not removed. */
  lemma {:induction false} RunKeepsPath<Id>(t: Tree<Id>, root: Id, ops: seq<Op<Id>>, s: Id, names: seq<string>, n: Id)
    requires Wf(t, root) && AllAllowed(t, root, ops) && NoParent(names)
    requires s in t && Walk(t, root, s, names) == Found(n)
    requires forall op | op in ops && op.RemoveNode? :: op.node != n && op.node != s
    ensures s in RunAll(t, root, ops) && Walk(RunAll(t, root, ops), root, s, names) == Found(n)
    decreases |ops|
  {
    hide Wf, Walk, NoParent;
    if ops != [] {
      StepKeepsPath(t, root, ops[0], s, names, n);
      RunKeepsPath(Step(t, root, ops[0]), root, ops[1..], s, names, n);
    }
  }

  lemma StepKeepsPath<Id>(t: Tree<Id>, root: Id, op: Op<Id>, s: Id, names: seq<string>, n: Id)
    requires Wf(t, root) && Allowed(t, root, op) && NoParent(names)
    requires s in t && Walk(t, root, s, names) == Found(n)
    requires op.RemoveNode? ==> op.node != n && op.node != s
    ensures var u := Step(t, root, op); s in u && Walk(u, root, s, names) == Found(n)
  {
    hide Wf, NoParent, Names;
    match op
    case OpenPath(start, path, flags, granted, new') =>
      var w := Walk(t, root, start, path);
      if w.Missing? && w.last && flags.create && granted {
        MissingIsAddable(t, root, start, path, new');
        AddKeepsPaths(t, root, w.dir, new', w.name, flags.dir, s, names);
      }
    case RemoveNode(m) =>
      if Removable(t, m) { RemoveWalk(t, root, m, s, names); }
  }

  /** Every create keeps the tree, but a path from another node can lead to the new one exactly unless it is named
      "..", which happens only in the root. */
  lemma CreateExactly<Id>(t: Tree<Id>, root: Id, s: Id, names: seq<string>, n: Id, dir: bool)
    requires Wf(t, root) && s in t && n !in t && Names(names)
    requires var w := Walk(t, root, s, names); w.Missing? && w.last
    ensures var w := Walk(t, root, s, names); var u := Add(t, w.dir, n, w.name, dir);
      && Wf(u, root) && (w.name == ".." ==> w.dir == root)
      && (w.name != ".." <==> exists e, path :: e in u && e != n && Walk(u, root, e, path) == Found(n))
  {
    var w := Walk(t, root, s, names);
    var u := Add(t, w.dir, n, w.name, dir);
    MissingIsAddable(t, root, s, names, n);
    AddKeepsWf(t, root, w.dir, n, w.name, dir);
    if w.name == ".." {
      assert NodeOk(t, root, w.dir);
      forall e, path | e in u && e != n ensures Walk(u, root, e, path) != Found(n) {
        NeverReached(t, root, n, dir, e, path);
      }
    } else {
      AddResolves(t, root, s, names, n, dir);
    }
  }

  /** No lookup finds a ".." that was created in the root, so no path does. */
  lemma {:induction false} NeverReached<Id>(t: Tree<Id>, root: Id, n: Id, dir: bool, e: Id, path: seq<string>)
    requires Wf(t, root) && n !in t && e in t && Wf(Add(t, root, n, "..", dir), root)
    ensures Walk(Add(t, root, n, "..", dir), root, e, path) != Found(n)
    decreases |path|
  {
    var u := Add(t, root, n, "..", dir);
    if path != [] {
      NeverFound(t, root, n, dir, e, path[0]);
      var r := Lookup(u, root, e, path[0]);
      if r.Some? { NeverReached(t, root, n, dir, r.value, path[1..]); }
    }
  }

  lemma NeverFound<Id>(t: Tree<Id>, root: Id, n: Id, dir: bool, e: Id, x: string)
    requires Wf(t, root) && n !in t && e in t && Wf(Add(t, root, n, "..", dir), root)
    ensures Lookup(Add(t, root, n, "..", dir), root, e, x) != Some(n)
  {
    var u := Add(t, root, n, "..", dir);
    assert NodeOk(t, root, e) && NodeOk(u, root, e);
    if !Special(x) {
      LookupExactly(u, root, e, x, n);
      if Fold(u[n].name) == Fold(x) { FoldSpecial(u[n].name, x); }
    }
  }
}
