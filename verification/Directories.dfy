/** The namespace as the server walks it: a path is consumed element by element, and a full name is filled in backwards. */
module Directories {
  import opened Bits
  import opened Lists
  import opened Namespace

  class Directory {
    var tree: Tree

    ghost predicate Valid()
      reads this
    {
      Inv(tree)
    }

    constructor (lower: WChar -> WChar, size: nat)
      requires size > 0
      ensures Valid() && tree == Start(lower, size)
    {
      StartInv(lower, size);
      tree := Start(lower, size);
    }

    /** Finds an object by its path; returns the last object reached and what is left of the path. */
    method FindObject(root: Option<int>, name: Name, ignoreCase: bool) returns (r: Result)
      requires Valid() && (root.Some? ==> root.value in tree.nodes)
      ensures r == FindObjectDir(tree, root, name, ignoreCase)
    {
      hide Inv, LookupName;
      var path := name;
      var parent := ROOT;
      if root.Some? {
        if |path| > 0 && path[0] == BACKSLASH {
          return Failed(PathSyntaxBad);
        }
        parent := root.value;
      } else {
        if |path| == 0 || path[0] != BACKSLASH {
          return Failed(PathSyntaxBad);
        }
        RootFacts(tree);
        path := path[1..];
      }
      if path == [] {
        return Parsed(parent, []);
      }
      r := Walk(parent, path, ignoreCase);
    }

    /** Finds the first object in a chain whose name matches. */
    method FindInChain(chain: seq<int>, n: Name, ignoreCase: bool) returns (r: Option<int>)
      ensures r == FirstMatch(tree, chain, n, ignoreCase)
    {
      hide Matches;
      var i := 0;
      assert chain[0..] == chain;
      while i < |chain|
        invariant 0 <= i <= |chain| && FirstMatch(tree, chain[i..], n, ignoreCase) == FirstMatch(tree, chain, n, ignoreCase)
      {
        var id := chain[i];
        if Named(tree, id) && Matches(tree.lower, tree.nodes[id].name.value, n, ignoreCase) {
          return Some(id);
        }
        assert chain[i..][1..] == chain[i + 1..];
        i := i + 1;
      }
      return None;
    }

    /** Looks up the first element of a path in an object. */
    method LookupElement(id: int, path: Option<Name>, ignoreCase: bool) returns (l: Lookup)
      requires id in tree.nodes && NodeOk(tree, id)
      ensures l == LookupName(tree, id, path, ignoreCase)
    {
      hide FirstMatch;
      if !tree.nodes[id].IsDir() {
        return Missing(None);
      }
      var n := if path.None? then [] else path.value;
      var k := FindBackslash(n);
      var found := None;
      if k > 0 {
        found := FindInChain(Chain(tree, id, n[..k]), n[..k], ignoreCase);
      }
      if found.Some? {
        return Found(found.value, if k < |n| then Some(n[k + 1..]) else None);
      }
      if path.Some? {
        if k == 0 {
          return Missing(Some(NameInvalid));
        }
        if k < |n| {
          return Missing(Some(PathNotFound));
        }
      }
      return Missing(None);
    }

    /** Follows a path from an object as long as lookups find something. */
    method Walk(from: int, path: Name, ignoreCase: bool) returns (r: Result)
      requires Valid() && from in tree.nodes
      ensures r == FindFrom(tree, from, Some(path), ignoreCase)
    {
      hide Inv, LookupName;
      var parent, left := from, Some(path);
      Facts(tree, parent);
      var l := LookupElement(parent, left, ignoreCase);
      while l.Found?
        invariant parent in tree.nodes && NodeOk(tree, parent) && l == LookupName(tree, parent, left, ignoreCase)
        invariant FindFrom(tree, parent, left, ignoreCase) == FindFrom(tree, from, Some(path), ignoreCase)
        decreases Length(left), l.Found?
      {
        FoundInTree(tree, parent, left, ignoreCase);
        parent, left := l.id, l.rest;
        Facts(tree, parent);
        l := LookupElement(parent, left, ignoreCase);
      }
      if l.error.Some? {
        return Failed(l.error.value);
      }
      return Parsed(parent, if left.None? then [] else left.value);
    }

    /** Creates a named or unnamed object. */
    method CreateObject(c: Creation) returns (id: Option<int>, error: Option<Error>)
      requires Valid() && (c.root.Some? ==> c.root.value in tree.nodes) && c.size > 0
      modifies this
      ensures Valid() && CreateNamedObjectDir(old(tree), c) == Created(tree, id, error)
    {
      hide Inv, FindObjectDir, AddNamed, AddUnnamed, Plain, Namespace.FindObject;
      CreateKeepsInv(tree, c);
      if c.name == [] {
        if !c.allocOk {
          return None, Some(NoMemory);
        }
        id := Some(tree.next);
        tree := AddUnnamed(tree, c.kind, c.size);
        return id, None;
      }
      var r := FindObject(c.root, c.name, c.ignoreCase);
      if r.Failed? {
        return None, Some(r.error);
      }
      ParsedInTree(tree, c.root, c.name, c.ignoreCase);
      if r.left == [] {
        if c.openIf && tree.nodes[r.id].kind == c.kind {
          return Some(r.id), Some(NameExists);
        }
        return None, Some(if c.openIf then TypeMismatch else NameCollision);
      }
      if !tree.nodes[r.id].IsDir() {
        return None, Some(TypeMismatch);
      }
      if !c.allocOk {
        return None, Some(NoMemory);
      }
      id := Some(tree.next);
      tree := AddNamed(tree, r.id, r.left, c.kind, c.size);
      return id, None;
    }

    /** The length of the full name of an object. */
    method FullLength(id: int) returns (len: nat)
      requires Valid() && id in tree.nodes
      ensures len == |FullName(tree, id)|
    {
      hide Inv;
      var ptr := id;
      len := 0;
      while tree.nodes[ptr].name.Some?
        invariant ptr in tree.nodes && len + |FullName(tree, ptr)| == |FullName(tree, id)|
        decreases ptr
      {
        Facts(tree, ptr);
        len := len + |tree.nodes[ptr].name.value| + 1;
        ptr := tree.nodes[ptr].parent;
        Facts(tree, ptr);
      }
    }

    /** The full path name of an object: two passes, the second of which fills the buffer from its end. */
    method GetObjectFullName(id: int) returns (ret: array?<WChar>)
      requires Valid() && id in tree.nodes
      ensures ret == null <==> FullName(tree, id) == []
      ensures ret != null ==> fresh(ret) && ret[..] == FullName(tree, id)
    {
      hide Inv;
      var len := FullLength(id);
      if len == 0 {
        return null;
      }
      ret := new WChar[len];
      var ptr := id;
      ghost var whole := FullName(tree, id);
      while tree.nodes[ptr].name.Some?
        invariant ptr in tree.nodes && 0 <= len <= ret.Length == |whole|
        invariant whole[..len] == FullName(tree, ptr) && ret[len..] == whole[len..]
        decreases ptr
      {
        Facts(tree, ptr);
        var name := tree.nodes[ptr].name.value;
        ghost var above := FullName(tree, tree.nodes[ptr].parent);
        assert whole[..len] == above + [BACKSLASH] + name;
        ghost var done := ret[len..];
        CopyInto(ret, len - |name|, name);
        ret[len - |name| - 1] := BACKSLASH;
        FilledIn(ret[..], whole, len, name, above);
        len := len - |name| - 1;
        ptr := tree.nodes[ptr].parent;
        Facts(tree, ptr);
      }
      assert ret[..] == ret[len..];
    }
  }

  /** Finds the first backslash, or the end of the name. */
  method FindBackslash(n: Name) returns (k: nat)
    ensures k == Element(n)
  {
    hide Element;
    k := 0;
    while k < |n| && n[k] != BACKSLASH
      invariant k <= Element(n)
    {
      k := k + 1;
    }
  }

  lemma FilledIn(ret: seq<WChar>, whole: Name, len: int, name: Name, above: Name)
    requires |ret| == |whole| && 0 <= len <= |whole| && whole[..len] == above + [BACKSLASH] + name
    requires ret[len..] == whole[len..] && ret[len - |name|..len] == name && ret[len - |name| - 1] == BACKSLASH
    ensures ret[len - |name| - 1..] == whole[len - |name| - 1..] && whole[..len - |name| - 1] == above
  {
    assert whole == whole[..len] + whole[len..];
    assert ret[len - |name| - 1..] == [BACKSLASH] + name + ret[len..];
    assert whole[len - |name| - 1..] == [BACKSLASH] + name + whole[len..];
  }

  /** Copies a name into a buffer. */
  method CopyInto(a: array<WChar>, at: nat, s: Name)
    requires at + |s| <= a.Length
    modifies a
    ensures a[..at] == old(a[..at]) && a[at..at + |s|] == s && a[at + |s|..] == old(a[at + |s|..])
  {
    forall i | 0 <= i < |s| {
      a[at + i] := s[i];
    }
  }
}
