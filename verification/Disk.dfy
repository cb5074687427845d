/** Paths below the upload directory, and the part of the file system the server touches. */
module Disk {
  import opened Optional

  const SEP := '/'

  datatype Kind = Dir | File

  /** Entries by path relative to the upload directory, which itself always exists. */
  type Tree = map<string, Kind>

  predicate Plain(name: string) {
    SEP !in name
  }

  function Join(parent: string, name: string): string {
    parent + [SEP] + name
  }

  /** The path itself or anything below it. */
  predicate InSubtree(root: string, p: string) {
    p == root || root + [SEP] <= p
  }

  // ----- Path arithmetic -----

  lemma LastSeparator(parent: string, name: string)
    requires Plain(name)
    ensures var p := Join(parent, name);
            && |p| == |parent| + 1 + |name| && p[|parent|] == SEP
            && p[..|parent|] == parent && p[|parent| + 1..] == name
            && forall i | |parent| < i < |p| :: p[i] != SEP
  {
    var p := Join(parent, name);
    assert forall i | |parent| < i < |p| :: p[i] == name[i - |parent| - 1];
  }

  lemma JoinIsInjective(a: string, n: string, b: string, m: string)
    requires Plain(n) && Plain(m) && Join(a, n) == Join(b, m)
    ensures a == b && n == m
  {
    LastSeparator(a, n);
    LastSeparator(b, m);
  }

  /** A subtree holds a child exactly when it is rooted there or holds the parent. */
  lemma SubtreeOfChild(root: string, parent: string, name: string)
    requires Plain(name)
    ensures InSubtree(root, Join(parent, name)) <==> root == Join(parent, name) || InSubtree(root, parent)
  {
    var p := Join(parent, name);
    LastSeparator(parent, name);
    if root + [SEP] <= p {
      var q := root + [SEP];
      assert p[|root|] == q[|root|] == SEP;
      assert p[..|root|] == root;
      if |root| < |parent| {
        assert q == p[..|q|] == parent[..|q|];
      }
    }
    if root + [SEP] <= parent {
      assert root + [SEP] <= p;
    }
  }

  lemma PrefixElements(q: string, p: string, c: char)
    ensures q <= p && c in q ==> c in p
  {
    if q <= p && c in q {
      var i :| 0 <= i < |q| && q[i] == c;
      assert p[i] == c;
    }
  }

  lemma PlainHoldsOnlyItself(root: string, p: string)
    requires Plain(p) && InSubtree(root, p)
    ensures root == p
  {
    assert (root + [SEP])[|root|] == SEP;
    PrefixElements(root + [SEP], p, SEP);
  }

  lemma SubtreeTransitive(a: string, b: string, c: string)
    requires InSubtree(a, b) && InSubtree(b, c)
    ensures InSubtree(a, c)
  {
    if a != b && b != c {
      assert a + [SEP] <= b <= c;
    }
  }

  /** The directory part and the last component, as the kernel splits a path. */
  function Dirname(p: string): (d: Option<string>)
    ensures d.Some? ==> |d.value| < |p|
  {
    if p == [] then None
    else if p[|p| - 1] == SEP then Some(p[..|p| - 1])
    else Dirname(p[..|p| - 1])
  }

  function Basename(p: string): string {
    if p == [] || p[|p| - 1] == SEP then [] else Basename(p[..|p| - 1]) + [p[|p| - 1]]
  }

  lemma {:induction false} SplitJoin(parent: string, name: string)
    requires Plain(name)
    ensures Dirname(Join(parent, name)) == Some(parent) && Basename(Join(parent, name)) == name
  {
    var p := Join(parent, name);
    if name == [] {
      assert p[..|p| - 1] == parent;
    } else {
      assert p[..|p| - 1] == Join(parent, name[..|name| - 1]);
      SplitJoin(parent, name[..|name| - 1]);
    }
  }

  lemma {:induction false} SplitPlain(name: string)
    requires Plain(name)
    ensures Dirname(name) == None && Basename(name) == name
  {
    if name != [] {
      SplitPlain(name[..|name| - 1]);
    }
  }

  lemma {:induction false} PathIsSplit(p: string)
    ensures Plain(Basename(p))
    ensures Dirname(p).None? ==> p == Basename(p)
    ensures Dirname(p).Some? ==> p == Join(Dirname(p).value, Basename(p))
  {
    if p != [] {
      var front, last := p[..|p| - 1], p[|p| - 1];
      assert p == front + [last];
      if last != SEP {
        PathIsSplit(front);
        if Dirname(front).Some? {
          assert Join(Dirname(front).value, Basename(front)) + [last] == Join(Dirname(front).value, Basename(front) + [last]);
        }
      }
    }
  }

  // ----- The tree -----

  predicate IsDir(t: Tree, p: string) {
    p in t && t[p] == Dir
  }

  /** The directory a path lives in exists; a path of one component lives in the upload directory. */
  predicate ParentExists(t: Tree, p: string) {
    Dirname(p).Some? ==> IsDir(t, Dirname(p).value)
  }

  /** A name an entry can have. */
  predicate Usable(name: string) {
    Plain(name) && name !in {"", ".", ".."}
  }

  /** Every entry has a real name and lives in a directory. */
  ghost predicate WellFormed(t: Tree) {
    forall p | p in t :: ParentExists(t, p) && Usable(Basename(p))
  }

  /** There is room for an entry of this path. */
  predicate CanMkdir(t: Tree, p: string) {
    p !in t && Usable(Basename(p)) && ParentExists(t, p)
  }

  /** What is left after a whole subtree is gone. */
  function Pruned(t: Tree, root: string): Tree {
    map p | p in t && !InSubtree(root, p) :: t[p]
  }

  lemma HasParent(root: string, p: string)
    requires root + [SEP] <= p
    ensures Dirname(p).Some? && p == Join(Dirname(p).value, Basename(p)) && Plain(Basename(p)) && root != p
  {
    PathIsSplit(p);
    if Dirname(p).None? {
      PlainHoldsOnlyItself(root, p);
    }
  }

  /** In a real tree every directory above an entry is an entry too. */
  lemma {:induction false} AncestorsExist(t: Tree, root: string, p: string)
    requires WellFormed(t) && p in t && root + [SEP] <= p
    ensures IsDir(t, root)
    decreases |p|
  {
    HasParent(root, p);
    SubtreeOfChild(root, Dirname(p).value, Basename(p));
    if root != Dirname(p).value {
      AncestorsExist(t, root, Dirname(p).value);
    }
  }

  lemma MkdirKeepsWellFormed(t: Tree, p: string)
    requires WellFormed(t) && CanMkdir(t, p)
    ensures WellFormed(t[p := Dir])
  {
  }

  lemma PruneKeepsWellFormed(t: Tree, root: string)
    requires WellFormed(t)
    ensures WellFormed(Pruned(t, root))
  {
    forall p | p in Pruned(t, root)
      ensures ParentExists(Pruned(t, root), p) && Usable(Basename(p))
    {
      PathIsSplit(p);
      if Dirname(p).Some? {
        SubtreeOfChild(root, Dirname(p).value, Basename(p));
      }
    }
  }

  /** A path that is free has nothing below it. */
  lemma NothingBelowFree(t: Tree, p: string)
    requires WellFormed(t) && p !in t
    ensures forall q | q in t :: !InSubtree(p, q)
  {
    forall q | q in t
      ensures !InSubtree(p, q)
    {
      if InSubtree(p, q) {
        AncestorsExist(t, p, q);
      }
    }
  }

  /** Making a directory and deleting its tree leaves the disk as it was. */
  lemma PruneUndoesMkdir(t: Tree, p: string)
    requires WellFormed(t) && CanMkdir(t, p)
    ensures Pruned(t[p := Dir], p) == t
  {
    NothingBelowFree(t, p);
  }

  // ----- The recursive delete -----

  /** readdir: the names directly below a path. */
  function Children(t: Tree, path: string): set<string> {
    set p | p in t && Dirname(p) == Some(path) :: Basename(p)
  }

  /** A directory with nothing in it. */
  predicate IsEmptyDir(t: Tree, path: string) {
    IsDir(t, path) && Children(t, path) == {}
  }

  /** unlink for a file, rmdir for a directory, which fails while something is in it. */
  function Removed(t: Tree, path: string): Tree {
    if path in t && (t[path] == File || IsEmptyDir(t, path)) then t - {path} else t
  }

  /** Whatever it removes, it removes nothing that holds anything. */
  lemma RemovedKeepsWellFormed(t: Tree, path: string)
    requires WellFormed(t)
    ensures WellFormed(Removed(t, path))
  {
    forall p | p in Removed(t, path)
      ensures ParentExists(Removed(t, path), p) && Usable(Basename(p))
    {
      assert Dirname(p) == Some(path) ==> Basename(p) in Children(t, path);
    }
  }

  function Below(t: Tree, path: string): set<string> {
    set p | p in t && InSubtree(path, p)
  }

  /** The component through which a path leads down to an entry below it. */
  lemma ChildTowards(t: Tree, path: string, p: string) returns (name: string)
    requires WellFormed(t) && p in t && path + [SEP] <= p
    ensures name in Children(t, path) && InSubtree(Join(path, name), p)
    decreases |p|
  {
    HasParent(path, p);
    SubtreeOfChild(path, Dirname(p).value, Basename(p));
    if Dirname(p).value == path {
      name := Basename(p);
    } else {
      name := ChildTowards(t, path, Dirname(p).value);
      SubtreeTransitive(Join(path, name), Dirname(p).value, p);
    }
  }

  lemma ChildIsEntry(t: Tree, path: string, name: string)
    requires name in Children(t, path)
    ensures Plain(name) && Join(path, name) in t && Dirname(Join(path, name)) == Some(path)
  {
    var p :| p in t && Dirname(p) == Some(path) && Basename(p) == name;
    PathIsSplit(p);
  }

  lemma ChildSubtreeIsSmaller(t: Tree, path: string, name: string)
    requires name in Children(t, path) && path in t
    ensures Below(t, Join(path, name)) < Below(t, path)
  {
    ChildIsEntry(t, path, name);
    forall p | p in Below(t, Join(path, name))
      ensures p in Below(t, path) && p != path
    {
      SubtreeTransitive(path, Join(path, name), p);
    }
    assert path in Below(t, path);
  }

  /** The tree once the subtrees of some children are gone. */
  ghost function Cleared(t: Tree, path: string, done: set<string>): Tree {
    map p | p in t && !(exists n | n in done :: InSubtree(Join(path, n), p)) :: t[p]
  }

  lemma SiblingsApart(path: string, n: string, m: string)
    requires Plain(n) && Plain(m) && InSubtree(Join(path, n), Join(path, m))
    ensures n == m
  {
    SubtreeOfChild(Join(path, n), path, m);
    if Join(path, n) == Join(path, m) {
      JoinIsInjective(path, n, path, m);
    }
  }

  lemma NextChildStands(t: Tree, path: string, done: set<string>, name: string)
    requires done <= Children(t, path) && name in Children(t, path) && name !in done
    ensures Join(path, name) in Cleared(t, path, done)
  {
    ChildIsEntry(t, path, name);
    forall n | n in done
      ensures !InSubtree(Join(path, n), Join(path, name))
    {
      ChildIsEntry(t, path, n);
      if InSubtree(Join(path, n), Join(path, name)) {
        SiblingsApart(path, n, name);
      }
    }
  }

  lemma ClearOne(t: Tree, path: string, done: set<string>, name: string)
    ensures Pruned(Cleared(t, path, done), Join(path, name)) == Cleared(t, path, done + {name})
  {
    forall p
      ensures (exists n | n in done + {name} :: InSubtree(Join(path, n), p))
              <==> (exists n | n in done :: InSubtree(Join(path, n), p)) || InSubtree(Join(path, name), p)
    {
      if InSubtree(Join(path, name), p) {
        assert name in done + {name};
      }
      if n :| n in done && InSubtree(Join(path, n), p) {
        assert n in done + {name};
      }
    }
  }

  lemma PlainFilePrunes(t: Tree, p: string)
    requires WellFormed(t) && p in t && t[p] == File
    ensures Pruned(t, p) == t - {p}
  {
    forall q | q in t && q != p
      ensures !InSubtree(p, q)
    {
      if InSubtree(p, q) {
        AncestorsExist(t, p, q);
      }
    }
  }

  /** With every child's subtree gone only the directory itself is left of its subtree. */
  lemma AllClear(t: Tree, path: string)
    requires WellFormed(t) && IsDir(t, path)
    ensures Cleared(t, path, Children(t, path)) - {path} == Pruned(t, path)
    ensures Children(Cleared(t, path, Children(t, path)), path) == {}
  {
    var left := Cleared(t, path, Children(t, path));
    forall p | p in t && p != path
      ensures p in left <==> !InSubtree(path, p)
    {
      if InSubtree(path, p) {
        var name := ChildTowards(t, path, p);
      }
      forall n | n in Children(t, path) && InSubtree(Join(path, n), p)
        ensures InSubtree(path, p)
      {
        SubtreeTransitive(path, Join(path, n), p);
      }
    }
    forall p | p in left
      ensures Dirname(p) != Some(path)
    {
      PathIsSplit(p);
    }
  }
}
