/**
 * The object namespace: named objects in directories, found by a path of names between backslashes, and the
 * full path of an object.
 */
module Namespace {
  import opened Bits
  import opened Lists

  type Name = seq<WChar>

  const BACKSLASH: WChar := 0x5c
  const ROOT := 0
  const DIRECTORY := 0   // the kind of a directory; other kinds of objects have other numbers

  /** A name that can be an element of a path. */
  predicate Plain(n: Name) {
    n != [] && BACKSLASH !in n
  }

  /** An object: its name and the directory it is in, if it is named; a directory has chains of named objects. */
  datatype Node = Node(name: Option<Name>, parent: int, kind: int, names: seq<seq<int>>) {
    predicate IsDir() {
      kind == DIRECTORY
    }
  }

  /** The objects that exist, and the lower-case table that the hash and comparison of names use. */
  datatype Tree = Tree(lower: WChar -> WChar, nodes: map<int, Node>, next: int)

  /** The hash of a name, over its lower-case characters. */
  function HashOf(lower: WChar -> WChar, n: Name): nat {
    if n == [] then 0 else Xor(HashOf(lower, n[..|n| - 1]), lower(n[|n| - 1]))
  }

  function Bucket(lower: WChar -> WChar, n: Name, size: int): (h: int)
    requires size > 0
    ensures 0 <= h < size
  {
    HashOf(lower, n) % size
  }

  /** The comparison that ignores case; it stops at a zero character. */
  predicate SameIgnoringCase(lower: WChar -> WChar, a: Name, b: Name)
    requires |a| == |b|
    decreases |a|
  {
    a == [] || (lower(a[0]) == lower(b[0]) && (a[0] == 0 || SameIgnoringCase(lower, a[1..], b[1..])))
  }

  predicate Matches(lower: WChar -> WChar, a: Name, b: Name, ignoreCase: bool) {
    |a| == |b| && if ignoreCase then SameIgnoringCase(lower, a, b) else a == b
  }

  lemma {:induction false} EqualMatches(lower: WChar -> WChar, a: Name, ignoreCase: bool)
    ensures Matches(lower, a, a, ignoreCase)
    decreases |a|
  {
    if ignoreCase && a != [] {
      EqualMatches(lower, a[1..], true);
    }
  }

  predicate Named(t: Tree, id: int) {
    id in t.nodes && t.nodes[id].name.Some?
  }

  predicate IsDirectory(t: Tree, id: int) {
    id in t.nodes && t.nodes[id].IsDir()
  }

  /** The chain where a name is looked up in a directory. */
  function Chain(t: Tree, d: int, n: Name): seq<int>
    requires IsDirectory(t, d) && |t.nodes[d].names| > 0
  {
    t.nodes[d].names[Bucket(t.lower, n, |t.nodes[d].names|)]
  }

  /** A named object is in its directory, older than itself, in the chain of its name. */
  ghost predicate NodeOk(t: Tree, id: int) {
    id in t.nodes ==>
      && 0 <= id < t.next && (t.nodes[id].IsDir() ==> |t.nodes[id].names| > 0)
      && (t.nodes[id].name.Some? ==>
            var d := t.nodes[id].parent;
            && Plain(t.nodes[id].name.value) && d < id && IsDirectory(t, d) && |t.nodes[d].names| > 0
            && id in Chain(t, d, t.nodes[id].name.value))
  }

  /** A chain holds objects named in its directory. */
  ghost predicate EntryOk(t: Tree, d: int, h: int, id: int) {
    IsDirectory(t, d) && 0 <= h < |t.nodes[d].names| && id in t.nodes[d].names[h] ==>
      Named(t, id) && t.nodes[id].parent == d && Bucket(t.lower, t.nodes[id].name.value, |t.nodes[d].names|) == h
  }

  /** No two objects of a directory have the same name. */
  ghost predicate Distinct(t: Tree, a: int, b: int) {
    Named(t, a) && Named(t, b) && t.nodes[a].parent == t.nodes[b].parent && t.nodes[a].name == t.nodes[b].name ==> a == b
  }

  ghost predicate Inv(t: Tree) {
    && IsDirectory(t, ROOT) && !Named(t, ROOT)
    && (forall id :: NodeOk(t, id))
    && (forall d, h, id :: EntryOk(t, d, h, id))
    && (forall a, b :: Distinct(t, a, b))
  }

  function Start(lower: WChar -> WChar, size: nat): Tree
    requires size > 0
  {
    Tree(lower, map[ROOT := Node(None, ROOT, DIRECTORY, seq(size, _ => []))], 1)
  }

  /** The first object in a chain whose name matches. */
  function FirstMatch(t: Tree, chain: seq<int>, n: Name, ignoreCase: bool): (r: Option<int>)
    ensures r.Some? ==> r.value in chain && Named(t, r.value) && Matches(t.lower, t.nodes[r.value].name.value, n, ignoreCase)
    ensures r.None? ==> forall id :: id in chain && Named(t, id) ==> !Matches(t.lower, t.nodes[id].name.value, n, ignoreCase)
    decreases |chain|
  {
    if chain == [] then None
    else if Named(t, chain[0]) && Matches(t.lower, t.nodes[chain[0]].name.value, n, ignoreCase) then Some(chain[0])
    else FirstMatch(t, chain[1..], n, ignoreCase)
  }

  function FindObject(t: Tree, d: int, n: Name, ignoreCase: bool): Option<int>
    requires IsDirectory(t, d) && |t.nodes[d].names| > 0
  {
    if n == [] then None else FirstMatch(t, Chain(t, d, n), n, ignoreCase)
  }

  /** Looking up the name of an object in its directory finds it. */
  lemma FindsItself(t: Tree, id: int)
    requires Inv(t) && Named(t, id)
    ensures NodeOk(t, id) && FindObject(t, t.nodes[id].parent, t.nodes[id].name.value, false) == Some(id)
  {
    hide Bucket, FirstMatch;
    var d, n := t.nodes[id].parent, t.nodes[id].name.value;
    assert NodeOk(t, id);
    var r := FirstMatch(t, Chain(t, d, n), n, false);
    assert r.Some?;
    assert EntryOk(t, d, Bucket(t.lower, n, |t.nodes[d].names|), r.value);
    assert Distinct(t, id, r.value);
  }

  /** The first backslash of a name, or its end. */
  function Element(n: Name): (k: nat)
    ensures k <= |n| && (k < |n| ==> n[k] == BACKSLASH) && forall i :: 0 <= i < k ==> n[i] != BACKSLASH
  {
    if n == [] || n[0] == BACKSLASH then 0 else 1 + Element(n[1..])
  }

  datatype Error = NameInvalid | PathNotFound | PathSyntaxBad | NameExists | TypeMismatch | NameCollision | NoMemory

  /** What a lookup finds: an object and what is left of the path, or nothing, perhaps with an error. */
  datatype Lookup = Found(id: int, rest: Option<Name>) | Missing(error: Option<Error>)

  /** Looks up the first element of a path; there is nothing in an object that is not a directory. */
  function LookupName(t: Tree, id: int, path: Option<Name>, ignoreCase: bool): Lookup
    requires NodeOk(t, id) && id in t.nodes
  {
    if !t.nodes[id].IsDir() then Missing(None)
    else
      var n := if path.None? then [] else path.value;
      var k := Element(n);
      match FindObject(t, id, n[..k], ignoreCase)
      case Some(child) => Found(child, if k < |n| then Some(n[k + 1..]) else None)
      case None =>
        if path.None? then Missing(None)
        else if k == 0 then Missing(Some(NameInvalid))
        else if k < |n| then Missing(Some(PathNotFound))
        else Missing(None)
  }

  datatype Result = Failed(error: Error) | Parsed(id: int, left: Name)

  function Length(path: Option<Name>): nat {
    if path.None? then 0 else |path.value| + 1
  }

  /** Follows a path from an object as far as it goes. */
  ghost function FindFrom(t: Tree, id: int, path: Option<Name>, ignoreCase: bool): Result
    requires Inv(t) && id in t.nodes
    decreases Length(path)
  {
    assert NodeOk(t, id);
    match LookupName(t, id, path, ignoreCase)
    case Found(child, rest) =>
      FoundInTree(t, id, path, ignoreCase);
      FindFrom(t, child, rest, ignoreCase)
    case Missing(Some(e)) => Failed(e)
    case Missing(None) => Parsed(id, if path.None? then [] else path.value)
  }

  lemma FoundInTree(t: Tree, id: int, path: Option<Name>, ignoreCase: bool)
    requires NodeOk(t, id) && id in t.nodes && LookupName(t, id, path, ignoreCase).Found?
    ensures var r := LookupName(t, id, path, ignoreCase);
            r.id in t.nodes && Length(r.rest) < Length(path)
  {
  }

  /** Finds an object by its path from a directory, or from the root if the path starts with a backslash. */
  ghost function FindObjectDir(t: Tree, root: Option<int>, name: Name, ignoreCase: bool): Result
    requires Inv(t) && (root.Some? ==> root.value in t.nodes)
  {
    var rooted := name != [] && name[0] == BACKSLASH;
    if rooted == root.Some? then Failed(PathSyntaxBad)
    else
      var parent := if root.Some? then root.value else ROOT;
      var rest := if root.Some? then name else name[1..];
      if rest == [] then Parsed(parent, []) else FindFrom(t, parent, Some(rest), ignoreCase)
  }

  /** The full path of an object. */
  ghost function FullName(t: Tree, id: int): Name
    requires Inv(t) && id in t.nodes
    decreases id
  {
    assert NodeOk(t, id);
    if t.nodes[id].name.None? then [] else FullName(t, t.nodes[id].parent) + [BACKSLASH] + t.nodes[id].name.value
  }

  /** The object and all directories above it are named, up to the root. */
  ghost predicate Linked(t: Tree, id: int)
    requires Inv(t)
    decreases id
  {
    id == ROOT || (Named(t, id) && (assert NodeOk(t, id); Linked(t, t.nodes[id].parent)))
  }

  lemma {:induction false} ElementOfPlain(n: Name, rest: Name)
    requires BACKSLASH !in n
    ensures Element(n) == |n| && Element(n + [BACKSLASH] + rest) == |n|
    decreases |n|
  {
    var p := n + [BACKSLASH] + rest;
    if n != [] {
      assert p[1..] == n[1..] + [BACKSLASH] + rest;
      ElementOfPlain(n[1..], rest);
    }
  }

  /** The name of an object and a backslash lead from its directory to the object. */
  lemma OneStep(t: Tree, id: int, rest: Name)
    requires Inv(t) && Named(t, id)
    ensures NodeOk(t, id) && FindFrom(t, t.nodes[id].parent, Some(t.nodes[id].name.value + [BACKSLASH] + rest), false) ==
                             FindFrom(t, id, Some(rest), false)
  {
    FindsItself(t, id);
    var n := t.nodes[id].name.value;
    var p := n + [BACKSLASH] + rest;
    ElementOfPlain(n, rest);
    assert p[..|n|] == n && p[|n| + 1..] == rest;
    hide FindObject, Inv;
    assert LookupName(t, t.nodes[id].parent, Some(p), false) == Found(id, Some(rest));
  }

  /** The name alone leads to the object and leaves nothing. */
  lemma LastStep(t: Tree, id: int)
    requires Inv(t) && Named(t, id)
    ensures NodeOk(t, id) && FindFrom(t, t.nodes[id].parent, Some(t.nodes[id].name.value), false) == Parsed(id, [])
  {
    FindsItself(t, id);
    var n := t.nodes[id].name.value;
    ElementOfPlain(n, []);
    assert n[..|n|] == n;
    hide Inv;
    assert LookupName(t, t.nodes[id].parent, Some(n), false) == Found(id, None);
  }

  /** The full name of an object, less its first backslash, leads from the root to the object. */
  lemma {:induction false} WalkTo(t: Tree, id: int, rest: Name)
    requires Inv(t) && Named(t, id) && Linked(t, id)
    ensures |FullName(t, id)| > 0 && FullName(t, id)[0] == BACKSLASH
    ensures FindFrom(t, ROOT, Some(FullName(t, id)[1..] + [BACKSLASH] + rest), false) == FindFrom(t, id, Some(rest), false)
    decreases id
  {
    hide FindFrom;
    assert NodeOk(t, id);
    var d, n := t.nodes[id].parent, t.nodes[id].name.value;
    OneStep(t, id, rest);
    if d == ROOT {
      assert FullName(t, id)[1..] == n;
    } else {
      WalkTo(t, d, n + [BACKSLASH] + rest);
      assert FullName(t, id)[1..] + [BACKSLASH] + rest == FullName(t, d)[1..] + [BACKSLASH] + (n + [BACKSLASH] + rest);
    }
  }

  /** Looking up the full name of an object returns the object, with nothing left of the name. */
  lemma RoundTrip(t: Tree, id: int)
    requires Inv(t) && Named(t, id) && Linked(t, id)
    ensures FindObjectDir(t, None, FullName(t, id), false) == Parsed(id, [])
  {
    hide FindFrom;
    assert NodeOk(t, id);
    var d, n := t.nodes[id].parent, t.nodes[id].name.value;
    LastStep(t, id);
    if d == ROOT {
      assert FullName(t, id)[1..] == n;
    } else {
      WalkTo(t, d, n);
      assert FullName(t, id)[1..] == FullName(t, d)[1..] + [BACKSLASH] + n;
    }
  }

  /** A path that leads to an object from a linked one shows that the object is linked. */
  lemma {:induction false} ReachedIsLinked(t: Tree, from: int, path: Option<Name>, ignoreCase: bool)
    requires Inv(t) && from in t.nodes && Linked(t, from)
    ensures var r := FindFrom(t, from, path, ignoreCase);
            r.Parsed? ==> Linked(t, r.id)
    decreases Length(path)
  {
    assert NodeOk(t, from);
    var r := LookupName(t, from, path, ignoreCase);
    if r.Found? {
      FoundInTree(t, from, path, ignoreCase);
      FoundIsChild(t, from, path, ignoreCase);
      assert NodeOk(t, r.id);
      ReachedIsLinked(t, r.id, r.rest, ignoreCase);
    }
  }

  lemma FoundIsChild(t: Tree, id: int, path: Option<Name>, ignoreCase: bool)
    requires Inv(t) && id in t.nodes && NodeOk(t, id) && LookupName(t, id, path, ignoreCase).Found?
    ensures var r := LookupName(t, id, path, ignoreCase);
            Named(t, r.id) && t.nodes[r.id].parent == id
  {
    hide Bucket, FirstMatch;
    var r := LookupName(t, id, path, ignoreCase);
    var n := if path.None? then [] else path.value;
    var h := Bucket(t.lower, n[..Element(n)], |t.nodes[id].names|);
    assert EntryOk(t, id, h, r.id);
  }

  /** Looking up the full name of a named object returns that object exactly if all directories above it are named. */
  lemma RoundTripExact(t: Tree, id: int)
    requires Inv(t) && Named(t, id)
    ensures FindObjectDir(t, None, FullName(t, id), false) == Parsed(id, []) <==> Linked(t, id)
  {
    hide FindFrom;
    if Linked(t, id) {
      RoundTrip(t, id);
    } else {
      var n := FullName(t, id);
      if n != [] && n[0] == BACKSLASH && n[1..] != [] {
        ReachedIsLinked(t, ROOT, Some(n[1..]), false);
      }
    }
  }

  /** What is left of a path in a directory is a name that nothing in the directory has. */
  lemma {:induction false} LeftIsNew(t: Tree, from: int, path: Option<Name>, ignoreCase: bool)
    requires Inv(t) && from in t.nodes
    ensures var r := FindFrom(t, from, path, ignoreCase);
            r.Parsed? ==>
              && r.id in t.nodes
              && (r.left != [] && IsDirectory(t, r.id) ==>
                    Plain(r.left) && NodeOk(t, r.id) && FindObject(t, r.id, r.left, ignoreCase) == None)
    decreases Length(path)
  {
    assert NodeOk(t, from);
    var r := LookupName(t, from, path, ignoreCase);
    if r.Found? {
      FoundInTree(t, from, path, ignoreCase);
      LeftIsNew(t, r.id, r.rest, ignoreCase);
    } else if path.Some? {
      var n := path.value;
      assert Element(n) == |n| ==> n[..Element(n)] == n;
    }
  }

  function EmptyChains(kind: int, size: nat): seq<seq<int>> {
    if kind == DIRECTORY then seq(size, _ => []) else []
  }

  /** A new object, without a name. */
  function AddUnnamed(t: Tree, kind: int, size: nat): Tree {
    t.(nodes := t.nodes[t.next := Node(None, ROOT, kind, EmptyChains(kind, size))], next := t.next + 1)
  }

  /** A directory with an object put at the front of a chain. */
  function WithEntry(t: Tree, d: int, n: Name, id: int): Node
    requires IsDirectory(t, d) && |t.nodes[d].names| > 0
  {
    var dir := t.nodes[d];
    var h := Bucket(t.lower, n, |dir.names|);
    dir.(names := dir.names[h := [id] + dir.names[h]])
  }

  /** A new object with a name in a directory. */
  function AddNamed(t: Tree, d: int, n: Name, kind: int, size: nat): Tree
    requires IsDirectory(t, d) && |t.nodes[d].names| > 0
  {
    t.(nodes := t.nodes[d := WithEntry(t, d, n, t.next)][t.next := Node(Some(n), d, kind, EmptyChains(kind, size))],
    next := t.next + 1)
  }

  function WithoutEntry(t: Tree, d: int, n: Name, id: int): Node
    requires IsDirectory(t, d) && |t.nodes[d].names| > 0
  {
    var dir := t.nodes[d];
    var h := Bucket(t.lower, n, |dir.names|);
    dir.(names := dir.names[h := Without(dir.names[h], id)])
  }

  /** An object loses its name. */
  function Unlink(t: Tree, id: int): Tree
    requires Named(t, id) && NodeOk(t, id)
  {
    var d, n := t.nodes[id].parent, t.nodes[id].name.value;
    t.(nodes := t.nodes[d := WithoutEntry(t, d, n, id)][id := t.nodes[id].(name := None)])
  }

  /** An object that nothing refers to is freed; it loses its name first. */
  function Destroy(t: Tree, id: int): Tree
    requires id in t.nodes && NodeOk(t, id)
  {
    var u := if Named(t, id) then Unlink(t, id) else t;
    u.(nodes := map x | x in u.nodes && x != id :: u.nodes[x])
  }

  lemma AddUnnamedKeepsInv(t: Tree, kind: int, size: nat)
    requires Inv(t) && size > 0
    ensures Inv(AddUnnamed(t, kind, size))
  {
    hide Bucket, Plain;
    var u := AddUnnamed(t, kind, size);
    assert NodeOk(t, t.next) && NodeOk(t, ROOT);
    forall x
      ensures NodeOk(u, x)
    {
      assert NodeOk(t, x);
      if Named(t, x) {
        assert NodeOk(t, t.nodes[x].parent);
      }
    }
    forall d, h, x
      ensures EntryOk(u, d, h, x)
    {
      assert EntryOk(t, d, h, x);
      assert NodeOk(t, x);
    }
    forall a, b
      ensures Distinct(u, a, b)
    {
      assert Distinct(t, a, b);
    }
  }

  lemma AddNamedNodes(t: Tree, d: int, n: Name, kind: int, size: nat, x: int)
    requires Inv(t) && IsDirectory(t, d) && NodeOk(t, d) && Plain(n) && size > 0
    ensures NodeOk(AddNamed(t, d, n, kind, size), x)
  {
    hide Bucket, Plain;
    assert NodeOk(t, t.next) && NodeOk(t, x);
    if Named(t, x) {
      assert NodeOk(t, t.nodes[x].parent);
    }
  }

  lemma AddNamedEntries(t: Tree, d: int, n: Name, kind: int, size: nat, e: int, h: int, x: int)
    requires Inv(t) && IsDirectory(t, d) && NodeOk(t, d)
    ensures EntryOk(AddNamed(t, d, n, kind, size), e, h, x)
  {
    hide Bucket, Plain;
    assert NodeOk(t, t.next) && NodeOk(t, x) && EntryOk(t, e, h, x);
  }

  lemma AddNamedDistinct(t: Tree, d: int, n: Name, kind: int, size: nat, ignoreCase: bool, a: int, b: int)
    requires Inv(t) && IsDirectory(t, d) && NodeOk(t, d) && Plain(n) && FindObject(t, d, n, ignoreCase) == None
    ensures Distinct(AddNamed(t, d, n, kind, size), a, b)
  {
    hide Bucket, Matches, FirstMatch;
    assert NodeOk(t, t.next) && NodeOk(t, a) && NodeOk(t, b) && Distinct(t, a, b);
    EqualMatches(t.lower, n, ignoreCase);
  }

  /** A name that nothing in a directory has can be added. */
  lemma AddNamedKeepsInv(t: Tree, d: int, n: Name, kind: int, size: nat, ignoreCase: bool)
    requires Inv(t) && IsDirectory(t, d) && NodeOk(t, d) && Plain(n) && size > 0
    requires FindObject(t, d, n, ignoreCase) == None
    ensures Inv(AddNamed(t, d, n, kind, size))
  {
    hide Bucket, NodeOk, EntryOk, Distinct, Plain, FindObject;
    HasChains(t, d);
    var u := AddNamed(t, d, n, kind, size);
    assert t.next !in t.nodes && ROOT < t.next by {
      NewId(t);
    }
    forall x
      ensures NodeOk(u, x)
    {
      AddNamedNodes(t, d, n, kind, size, x);
    }
    forall e, h, x
      ensures EntryOk(u, e, h, x)
    {
      AddNamedEntries(t, d, n, kind, size, e, h, x);
    }
    forall a, b
      ensures Distinct(u, a, b)
    {
      AddNamedDistinct(t, d, n, kind, size, ignoreCase, a, b);
    }
  }

  lemma NewId(t: Tree)
    requires Inv(t)
    ensures t.next !in t.nodes && ROOT < t.next
  {
    assert NodeOk(t, t.next) && NodeOk(t, ROOT);
  }

  lemma HasChains(t: Tree, d: int)
    requires NodeOk(t, d) && IsDirectory(t, d)
    ensures |t.nodes[d].names| > 0
  {
  }

  lemma UnlinkNodes(t: Tree, id: int, x: int)
    requires Inv(t) && Named(t, id) && NodeOk(t, id)
    ensures NodeOk(Unlink(t, id), x)
  {
    hide Bucket, Plain, Without;
    assert NodeOk(t, x);
    if Named(t, x) {
      assert NodeOk(t, t.nodes[x].parent);
    }
  }

  lemma UnlinkEntries(t: Tree, id: int, e: int, h: int, x: int)
    requires Inv(t) && Named(t, id) && NodeOk(t, id)
    ensures EntryOk(Unlink(t, id), e, h, x)
  {
    hide Plain, Without, HashOf;
    assert EntryOk(t, e, h, x) && NodeOk(t, x);
  }

  /** Unlinking an object keeps the invariant. */
  lemma UnlinkKeepsInv(t: Tree, id: int)
    requires Inv(t) && Named(t, id) && NodeOk(t, id)
    ensures Inv(Unlink(t, id))
  {
    hide NodeOk, EntryOk;
    var u := Unlink(t, id);
    forall x
      ensures NodeOk(u, x)
    {
      UnlinkNodes(t, id, x);
    }
    forall e, h, x
      ensures EntryOk(u, e, h, x)
    {
      UnlinkEntries(t, id, e, h, x);
    }
    forall a, b
      ensures Distinct(u, a, b)
    {
      UnlinkDistinct(t, id, a, b);
    }
  }

  lemma UnlinkDistinct(t: Tree, id: int, a: int, b: int)
    requires Inv(t) && Named(t, id) && NodeOk(t, id)
    ensures Distinct(Unlink(t, id), a, b)
  {
    hide Bucket, Without, Plain;
    assert Distinct(t, a, b);
  }

  /** No named object is in a directory. */
  ghost predicate Childless(t: Tree, id: int) {
    forall x :: Named(t, x) ==> t.nodes[x].parent != id
  }

  /** Freeing an object that is not the root and has no named objects in it keeps the invariant. */
  lemma DestroyKeepsInv(t: Tree, id: int)
    requires Inv(t) && id in t.nodes && NodeOk(t, id) && id != ROOT && Childless(t, id)
    ensures Inv(Destroy(t, id))
  {
    hide Bucket, Plain, Without;
    var u := if Named(t, id) then Unlink(t, id) else t;
    if Named(t, id) {
      UnlinkKeepsInv(t, id);
    }
    assert Childless(u, id);
    RemoveKeepsInv(u, id);
  }

  lemma RemoveKeepsInv(u: Tree, id: int)
    requires Inv(u) && id in u.nodes && !Named(u, id) && id != ROOT && Childless(u, id)
    ensures Inv(u.(nodes := map x | x in u.nodes && x != id :: u.nodes[x]))
  {
    hide Bucket, Plain;
    var v := u.(nodes := map x | x in u.nodes && x != id :: u.nodes[x]);
    forall x
      ensures NodeOk(v, x)
    {
      assert NodeOk(u, x);
    }
    forall e, h, x
      ensures EntryOk(v, e, h, x)
    {
      assert EntryOk(u, e, h, x);
    }
    forall a, b
      ensures Distinct(v, a, b)
    {
      assert Distinct(u, a, b);
    }
  }

  /** A request to create an object, and whether there is memory for it. */
  datatype Creation = Creation(root: Option<int>, name: Name, ignoreCase: bool, openIf: bool, kind: int, size: nat, allocOk: bool)

  datatype Created = Created(tree: Tree, id: Option<int>, error: Option<Error>)

  /** Creates an object, with a name if one is given; an object with that name may be opened instead. */
  ghost function CreateNamedObjectDir(t: Tree, c: Creation): Created
    requires Inv(t) && (c.root.Some? ==> c.root.value in t.nodes)
  {
    if c.name == [] then
      if c.allocOk then Created(AddUnnamed(t, c.kind, c.size), Some(t.next), None) else Created(t, None, Some(NoMemory))
    else
      match FindObjectDir(t, c.root, c.name, c.ignoreCase)
      case Failed(e) => Created(t, None, Some(e))
      case Parsed(id, left) =>
        ParsedInTree(t, c.root, c.name, c.ignoreCase);
        if left == [] then
          if c.openIf && t.nodes[id].kind == c.kind then Created(t, Some(id), Some(NameExists))
          else Created(t, None, Some(if c.openIf then TypeMismatch else NameCollision))
        else if !t.nodes[id].IsDir() then Created(t, None, Some(TypeMismatch))
        else if !c.allocOk then Created(t, None, Some(NoMemory))
        else Created(AddNamed(t, id, left, c.kind, c.size), Some(t.next), None)
  }

  lemma ParsedInTree(t: Tree, root: Option<int>, name: Name, ignoreCase: bool)
    requires Inv(t) && (root.Some? ==> root.value in t.nodes)
    ensures var r := FindObjectDir(t, root, name, ignoreCase);
            r.Parsed? ==>
              && r.id in t.nodes && NodeOk(t, r.id)
              && (r.left != [] && IsDirectory(t, r.id) ==>
                    && |t.nodes[r.id].names| > 0 && Plain(r.left) && FindObject(t, r.id, r.left, ignoreCase) == None)
  {
    hide FindFrom;
    var r := FindObjectDir(t, root, name, ignoreCase);
    var parent := if root.Some? then root.value else ROOT;
    var rest := if root.Some? || name == [] then name else name[1..];
    LeftIsNew(t, parent, Some(rest), ignoreCase);
    assert NodeOk(t, parent);
    if r.Parsed? {
      assert NodeOk(t, r.id);
    }
  }

  /** Creating an object keeps the invariant. */
  lemma CreateKeepsInv(t: Tree, c: Creation)
    requires Inv(t) && (c.root.Some? ==> c.root.value in t.nodes) && c.size > 0
    ensures Inv(CreateNamedObjectDir(t, c).tree)
  {
    hide FindObjectDir, FindObject, AddNamed, Inv;
    if c.name == [] {
      AddUnnamedKeepsInv(t, c.kind, c.size);
    } else {
      ParsedInTree(t, c.root, c.name, c.ignoreCase);
      var r := FindObjectDir(t, c.root, c.name, c.ignoreCase);
      if r.Parsed? && r.left != [] && IsDirectory(t, r.id) {
        AddNamedKeepsInv(t, r.id, r.left, c.kind, c.size, c.ignoreCase);
      }
    }
  }

  /** A path leads to newer objects. */
  lemma {:induction false} ReachedIsNewer(t: Tree, from: int, path: Option<Name>, ignoreCase: bool)
    requires Inv(t) && from in t.nodes
    ensures var r := FindFrom(t, from, path, ignoreCase);
            r.Parsed? ==> from <= r.id
    decreases Length(path)
  {
    assert NodeOk(t, from);
    var r := LookupName(t, from, path, ignoreCase);
    if r.Found? {
      FoundInTree(t, from, path, ignoreCase);
      FoundIsChild(t, from, path, ignoreCase);
      assert NodeOk(t, r.id);
      ReachedIsNewer(t, r.id, r.rest, ignoreCase);
    }
  }

  /** A new object changes nothing in other directories. */
  lemma {:induction false} SameMatch(t: Tree, u: Tree, chain: seq<int>, n: Name, ignoreCase: bool)
    requires u.lower == t.lower
    requires forall x :: x in chain ==> Named(t, x) && Named(u, x) && t.nodes[x].name == u.nodes[x].name
    ensures FirstMatch(u, chain, n, ignoreCase) == FirstMatch(t, chain, n, ignoreCase)
    decreases |chain|
  {
    if chain != [] {
      assert chain[0] in chain;
      SameMatch(t, u, chain[1..], n, ignoreCase);
    }
  }

  lemma SameFind(t: Tree, d: int, n: Name, kind: int, size: nat, e: int, m: Name, ignoreCase: bool)
    requires Inv(t) && IsDirectory(t, d) && NodeOk(t, d) && IsDirectory(t, e) && NodeOk(t, e) && e != d
    ensures var u := AddNamed(t, d, n, kind, size);
            IsDirectory(u, e) && |u.nodes[e].names| > 0 && FindObject(u, e, m, ignoreCase) == FindObject(t, e, m, ignoreCase)
  {
    hide Bucket, FirstMatch, Matches, Plain;
    var u := AddNamed(t, d, n, kind, size);
    var chain := Chain(t, e, m);
    NewId(t);
    forall x | x in chain
      ensures Named(t, x) && Named(u, x) && t.nodes[x].name == u.nodes[x].name
    {
      assert EntryOk(t, e, Bucket(t.lower, m, |t.nodes[e].names|), x);
    }
    SameMatch(t, u, chain, m, ignoreCase);
  }

  /** The path that a new object was created at leads to it. */
  lemma {:induction false} FindAfterAdd(t: Tree, from: int, path: Option<Name>, ignoreCase: bool, kind: int, size: nat)
    requires Inv(t) && from in t.nodes && FindFrom(t, from, path, ignoreCase).Parsed? && size > 0
    requires var r := FindFrom(t, from, path, ignoreCase);
             r.left != [] && IsDirectory(t, r.id) && NodeOk(t, r.id)
    requires Inv(AddNamed(t, FindFrom(t, from, path, ignoreCase).id, FindFrom(t, from, path, ignoreCase).left, kind, size))
    ensures var r := FindFrom(t, from, path, ignoreCase);
            var u := AddNamed(t, r.id, r.left, kind, size);
            from in u.nodes && FindFrom(u, from, path, ignoreCase) == Parsed(t.next, [])
    decreases Length(path)
  {
    hide Inv, LookupName, AddNamed, Plain, FindFrom;
    var r := FindFrom(t, from, path, ignoreCase);
    var u := AddNamed(t, r.id, r.left, kind, size);
    FollowFound(t, from, path, ignoreCase);
    var l := LookupName(t, from, path, ignoreCase);
    if l.Found? {
      FoundIsChild(t, from, path, ignoreCase);
      Facts(t, l.id);
      ReachedIsNewer(t, l.id, l.rest, ignoreCase);
      SameLookup(t, r.id, r.left, kind, size, from, path, ignoreCase);
      FindAfterAdd(t, l.id, l.rest, ignoreCase, kind, size);
      FollowFound(u, from, path, ignoreCase);
    } else {
      LeftIsNew(t, from, path, ignoreCase);
      FindNew(t, from, r.left, ignoreCase, kind, size);
    }
  }

  /** What a path leads to is what its rest leads to from the object that its first element is. */
  lemma FollowFound(t: Tree, id: int, path: Option<Name>, ignoreCase: bool)
    requires Inv(t) && id in t.nodes
    ensures NodeOk(t, id)
    ensures var l := LookupName(t, id, path, ignoreCase);
            if l.Found? then
              && l.id in t.nodes && Length(l.rest) < Length(path)
              && FindFrom(t, id, path, ignoreCase) == FindFrom(t, l.id, l.rest, ignoreCase)
            else
              l.error.None? ==> FindFrom(t, id, path, ignoreCase) == Parsed(id, if path.None? then [] else path.value)
    ensures FindFrom(t, id, path, ignoreCase).Parsed? ==>
              LookupName(t, id, path, ignoreCase).Found? || LookupName(t, id, path, ignoreCase).error.None?
  {
    hide Inv, FindObject;
    Facts(t, id);
    if LookupName(t, id, path, ignoreCase).Found? {
      FoundInTree(t, id, path, ignoreCase);
    }
  }

  /** A new object changes no lookup in another object. */
  lemma SameLookup(t: Tree, d: int, n: Name, kind: int, size: nat, e: int, path: Option<Name>, ignoreCase: bool)
    requires Inv(t) && IsDirectory(t, d) && NodeOk(t, d) && e in t.nodes && NodeOk(t, e) && e != d
    requires Inv(AddNamed(t, d, n, kind, size))
    ensures var u := AddNamed(t, d, n, kind, size);
            e in u.nodes && NodeOk(u, e) && LookupName(u, e, path, ignoreCase) == LookupName(t, e, path, ignoreCase)
  {
    hide Inv, FindObject, Bucket, Element, Plain;
    var u := AddNamed(t, d, n, kind, size);
    NewId(t);
    Facts(u, e);
    if t.nodes[e].IsDir() {
      var m := if path.None? then [] else path.value;
      SameFind(t, d, n, kind, size, e, m[..Element(m)], ignoreCase);
    }
  }

  /** In its directory a new object is found by its name, and nothing is left. */
  lemma FindNew(t: Tree, d: int, n: Name, ignoreCase: bool, kind: int, size: nat)
    requires Inv(t) && IsDirectory(t, d) && NodeOk(t, d) && Plain(n) && Inv(AddNamed(t, d, n, kind, size))
    ensures var u := AddNamed(t, d, n, kind, size);
            d in u.nodes && FindFrom(u, d, Some(n), ignoreCase) == Parsed(t.next, [])
  {
    ElementOfPlain(n, []);
    hide Inv, Bucket, FirstMatch, Matches, Element;
    var u := AddNamed(t, d, n, kind, size);
    NewAtFront(t, d, n, kind, size, ignoreCase);
    assert n[..|n|] == n;
    Facts(u, d);
    NothingIn(u, t.next, ignoreCase);
  }

  lemma RootFacts(t: Tree)
    requires Inv(t)
    ensures ROOT in t.nodes
  {
  }

  lemma Facts(t: Tree, id: int)
    requires Inv(t)
    ensures NodeOk(t, id)
  {
  }

  /** A new object is found by its name. */
  lemma NewAtFront(t: Tree, d: int, n: Name, kind: int, size: nat, ignoreCase: bool)
    requires Inv(t) && IsDirectory(t, d) && NodeOk(t, d) && n != []
    ensures var u := AddNamed(t, d, n, kind, size);
            IsDirectory(u, d) && |u.nodes[d].names| > 0 && FindObject(u, d, n, ignoreCase) == Some(t.next)
  {
    hide Bucket, Matches;
    NewId(t);
    EqualMatches(t.lower, n, ignoreCase);
  }

  lemma NothingIn(t: Tree, id: int, ignoreCase: bool)
    requires Inv(t) && id in t.nodes
    ensures FindFrom(t, id, None, ignoreCase) == Parsed(id, [])
  {
    assert NodeOk(t, id);
  }

  /** An object that was created under a name is found by that name. */
  lemma FindAfterCreate(t: Tree, c: Creation)
    requires Inv(t) && (c.root.Some? ==> c.root.value in t.nodes) && c.size > 0 && c.name != []
    requires CreateNamedObjectDir(t, c).error == None
    ensures var u := CreateNamedObjectDir(t, c).tree;
            && CreateNamedObjectDir(t, c).id == Some(t.next) && Inv(u) && (c.root.Some? ==> c.root.value in u.nodes)
            && FindObjectDir(u, c.root, c.name, c.ignoreCase) == Parsed(t.next, [])
  {
    hide FindFrom, AddNamed, FindObject, Inv;
    CreateKeepsInv(t, c);
    RootFacts(t);
    ParsedInTree(t, c.root, c.name, c.ignoreCase);
    var parent := if c.root.Some? then c.root.value else ROOT;
    var rest := if c.root.Some? then c.name else c.name[1..];
    FindAfterAdd(t, parent, Some(rest), c.ignoreCase, c.kind, c.size);
  }

  // ----- what a creation does -----

  /** An object is the same in both trees, but for what is named in it. */
  predicate SameNode(t: Tree, u: Tree, x: int) {
    && x in t.nodes && x in u.nodes && u.nodes[x].name == t.nodes[x].name && u.nodes[x].parent == t.nodes[x].parent
    && u.nodes[x].kind == t.nodes[x].kind
  }

  /** No object but one changes, appears or goes. */
  ghost predicate OnlyOne(t: Tree, u: Tree, id: int) {
    forall x :: x != id && (x in t.nodes || x in u.nodes) ==> SameNode(t, u, x)
  }

  /** The new object is the only change, and has a kind, a name and a directory. */
  ghost predicate IsNew(t: Tree, u: Tree, id: int, kind: int, name: Option<Name>, d: int) {
    && id !in t.nodes && id in u.nodes && OnlyOne(t, u, id)
    && u.nodes[id].kind == kind && u.nodes[id].name == name && (name.Some? ==> u.nodes[id].parent == d)
  }

  lemma AddNamedExact(t: Tree, d: int, n: Name, kind: int, size: nat)
    requires Inv(t) && IsDirectory(t, d) && |t.nodes[d].names| > 0
    ensures IsNew(t, AddNamed(t, d, n, kind, size), t.next, kind, Some(n), d)
  {
    hide Bucket;
    NewId(t);
  }

  lemma AddUnnamedExact(t: Tree, kind: int, size: nat)
    requires Inv(t)
    ensures IsNew(t, AddUnnamed(t, kind, size), t.next, kind, None, ROOT)
  {
    NewId(t);
  }

  /** An object is created exactly if it needs no name, or its path leaves a name in a directory, and there is memory. If the
      path leads to an object of the same kind, that is opened on demand; otherwise there is an error and nothing changes. */
  lemma CreateExact(t: Tree, c: Creation)
    requires Inv(t) && (c.root.Some? ==> c.root.value in t.nodes)
    ensures var (o, r) := (CreateNamedObjectDir(t, c), FindObjectDir(t, c.root, c.name, c.ignoreCase));
            var fits := c.name == [] || (r.Parsed? && r.left != [] && IsDirectory(t, r.id));
            var leads := c.name != [] && r.Parsed? && r.left == [];
            && (o.error == None <==> fits && c.allocOk)
            && (o.error == None && c.name == [] ==> o.id == Some(t.next) && IsNew(t, o.tree, t.next, c.kind, None, ROOT))
            && (o.error == None && c.name != [] ==> o.id == Some(t.next) && IsNew(t, o.tree, t.next, c.kind, Some(r.left), r.id))
            && (o.error == Some(NoMemory) <==> fits && !c.allocOk) && (o.error != None ==> o.tree == t)
            && (leads ==> r.id in t.nodes)
            && (o.error == Some(NameExists) <==> leads && c.openIf && t.nodes[r.id].kind == c.kind)
            && (o.error == Some(NameExists) ==> o.id == Some(r.id))
            && (o.error == Some(NameCollision) <==> leads && !c.openIf)
            && (o.error != None && o.error != Some(NameExists) ==> o.id == None)
  {
    hide FindFrom, FindObject, AddNamed, AddUnnamed, Inv, IsNew, NodeOk, Plain;
    if c.name == [] {
      AddUnnamedExact(t, c.kind, c.size);
    } else {
      ParsedInTree(t, c.root, c.name, c.ignoreCase);
      PathErrors(t, c.root, c.name, c.ignoreCase);
      var r := FindObjectDir(t, c.root, c.name, c.ignoreCase);
      if r.Parsed? && r.left != [] && IsDirectory(t, r.id) {
        AddNamedExact(t, r.id, r.left, c.kind, c.size);
      }
    }
  }

  /** A path that cannot be followed fails as a path. */
  lemma PathErrors(t: Tree, root: Option<int>, name: Name, ignoreCase: bool)
    requires Inv(t) && (root.Some? ==> root.value in t.nodes)
    ensures var r := FindObjectDir(t, root, name, ignoreCase);
            r.Failed? ==> r.error == PathSyntaxBad || r.error == NameInvalid || r.error == PathNotFound
  {
    hide FindFrom;
    RootFacts(t);
    var rest := if root.Some? || name == [] then name else name[1..];
    WalkErrors(t, if root.Some? then root.value else ROOT, Some(rest), ignoreCase);
  }

  lemma {:induction false} WalkErrors(t: Tree, from: int, path: Option<Name>, ignoreCase: bool)
    requires Inv(t) && from in t.nodes
    ensures var r := FindFrom(t, from, path, ignoreCase);
            r.Failed? ==> r.error == NameInvalid || r.error == PathNotFound
    decreases Length(path)
  {
    hide Inv, FindObject, Plain;
    Facts(t, from);
    if LookupName(t, from, path, ignoreCase).Found? {
      FoundInTree(t, from, path, ignoreCase);
      var r := LookupName(t, from, path, ignoreCase);
      WalkErrors(t, r.id, r.rest, ignoreCase);
    }
  }

  /** Creating an object under the full name of one that is there opens that one, if that is asked for and the kind is the
      same, and fails otherwise. */
  lemma CreateExisting(t: Tree, id: int, c: Creation)
    requires Inv(t) && Named(t, id) && Linked(t, id)
    requires c.root == None && c.name == FullName(t, id) && !c.ignoreCase
    ensures CreateNamedObjectDir(t, c) ==
            if c.openIf && t.nodes[id].kind == c.kind then Created(t, Some(id), Some(NameExists))
            else Created(t, None, Some(if c.openIf then TypeMismatch else NameCollision))
  {
    hide FindObjectDir, Linked, Inv;
    RoundTrip(t, id);
    NotEmpty(t, id);
  }

  lemma NotEmpty(t: Tree, id: int)
    requires Inv(t) && Named(t, id)
    ensures FullName(t, id) != []
  {
  }

  /** A name in a directory that nothing in it has. */
  ghost predicate Unused(t: Tree, d: int, n: Name) {
    Plain(n) && forall x :: Named(t, x) && t.nodes[x].parent == d ==> t.nodes[x].name != Some(n)
  }

  lemma UnusedLeft(t: Tree, d: int, n: Name)
    requires Inv(t) && IsDirectory(t, d) && Unused(t, d, n)
    ensures FindFrom(t, d, Some(n), false) == Parsed(d, n)
  {
    hide Bucket, FirstMatch;
    Facts(t, d);
    ElementOfPlain(n, []);
    assert n[..|n|] == n;
    forall x | x in Chain(t, d, n)
      ensures Named(t, x) && t.nodes[x].parent == d
    {
      assert EntryOk(t, d, Bucket(t.lower, n, |t.nodes[d].names|), x);
    }
  }

  lemma PathInDirectory(t: Tree, d: int, n: Name)
    requires Inv(t) && IsDirectory(t, d) && Linked(t, d) && Unused(t, d, n)
    ensures FindObjectDir(t, None, FullName(t, d) + [BACKSLASH] + n, false) == Parsed(d, n)
  {
    hide FindFrom;
    UnusedLeft(t, d, n);
    var path := FullName(t, d) + [BACKSLASH] + n;
    if d == ROOT {
      assert path[1..] == n;
    } else {
      WalkTo(t, d, n);
      assert path[1..] == FullName(t, d)[1..] + [BACKSLASH] + n;
    }
  }

  lemma {:induction false} FullNameStays(t: Tree, u: Tree, id: int, added: int)
    requires Inv(t) && Inv(u) && OnlyOne(t, u, added) && added !in t.nodes && id in t.nodes
    ensures id in u.nodes && FullName(u, id) == FullName(t, id)
    decreases id
  {
    Facts(t, id);
    Facts(u, id);
    hide Inv, Plain;
    assert SameNode(t, u, id);
    if Named(t, id) {
      FullNameStays(t, u, t.nodes[id].parent, added);
    }
  }

  /** An object can be created under a name that nothing in a directory has exactly if there is memory: it is in that
      directory with that name, and the path is its full name. */
  lemma CreateInDirectory(t: Tree, d: int, n: Name, c: Creation)
    requires Inv(t) && IsDirectory(t, d) && Linked(t, d) && Unused(t, d, n) && c.size > 0
    requires c.root == None && c.name == FullName(t, d) + [BACKSLASH] + n && !c.ignoreCase
    ensures var o := CreateNamedObjectDir(t, c);
            && (o.error == None <==> c.allocOk) && Inv(o.tree)
            && (o.error == None ==>
                  && o.id.Some? && IsNew(t, o.tree, o.id.value, c.kind, Some(n), d)
                  && FullName(o.tree, o.id.value) == c.name)
  {
    hide CreateNamedObjectDir, FindObjectDir, Linked, Inv;
    PathInDirectory(t, d, n);
    CreateExact(t, c);
    CreateKeepsInv(t, c);
    var o := CreateNamedObjectDir(t, c);
    if o.error == None {
      FullNameStays(t, o.tree, d, t.next);
      Facts(o.tree, t.next);
    }
  }

  /** An object that loses its name is the only change. */
  lemma UnlinkExact(t: Tree, id: int)
    requires Inv(t) && Named(t, id) && NodeOk(t, id)
    ensures var u := Unlink(t, id);
            OnlyOne(t, u, id) && id in u.nodes && u.nodes[id].name.None? && u.nodes[id].kind == t.nodes[id].kind
  {
    hide Bucket, Without, Plain;
  }

  /** An object that is freed is the only change. */
  lemma DestroyExact(t: Tree, id: int)
    requires Inv(t) && id in t.nodes && NodeOk(t, id)
    ensures OnlyOne(t, Destroy(t, id), id) && id !in Destroy(t, id).nodes
  {
    hide Bucket, Without, Plain, Unlink;
    if Named(t, id) {
      UnlinkExact(t, id);
    }
  }

  datatype Step = Create(c: Creation) | Forget(id: int) | Free(id: int)

  /** What the callers see to: objects exist, and an object is freed when nothing is named in it. */
  ghost predicate Enabled(t: Tree, step: Step) {
    match step
    case Create(c) => c.size > 0 && (c.root.Some? ==> c.root.value in t.nodes)
    case Forget(id) => Named(t, id)
    case Free(id) => id in t.nodes && id != ROOT && Childless(t, id)
  }

  ghost function Apply(t: Tree, step: Step): (u: Tree)
    requires Inv(t)
    ensures Inv(u)
  {
    if !Enabled(t, step) then t
    else
      match step
      case Create(c) => CreateKeepsInv(t, c); CreateNamedObjectDir(t, c).tree
      case Forget(id) => Facts(t, id); UnlinkKeepsInv(t, id); Unlink(t, id)
      case Free(id) => Facts(t, id); DestroyKeepsInv(t, id); Destroy(t, id)
  }

  ghost function Run(t: Tree, steps: seq<Step>): (u: Tree)
    requires Inv(t)
    ensures Inv(u)
    decreases |steps|
  {
    if steps == [] then t else Run(Apply(t, steps[0]), steps[1..])
  }

  lemma StartInv(lower: WChar -> WChar, size: nat)
    requires size > 0
    ensures Inv(Start(lower, size))
  {
  }

  /** After every run, the full name of a named object leads back to it exactly if all directories above it are named. */
  lemma ReachableRoundTrip(lower: WChar -> WChar, size: nat, steps: seq<Step>, id: int)
    requires size > 0
    ensures Inv(Start(lower, size))
    ensures var t := Run(Start(lower, size), steps);
            Named(t, id) ==> (FindObjectDir(t, None, FullName(t, id), false) == Parsed(id, []) <==> Linked(t, id))
  {
    StartInv(lower, size);
    hide *;
    var t := Run(Start(lower, size), steps);
    if Named(t, id) {
      RoundTripExact(t, id);
    }
  }
}
