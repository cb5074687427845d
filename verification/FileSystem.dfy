/** The file system calls of src/utils/helper.c and of the file handlers, on one disk. */
module FileSystem {
  import opened Optional
  import opened Disk
  import opened Lookup

  /** What the loop over the entries needs for its next one. */
  lemma NextEntry(t: Tree, path: string, done: set<string>, name: string)
    requires WellFormed(Cleared(t, path, done)) && path in t
    requires done <= Children(t, path) && name in Children(t, path) && name !in done
    ensures Join(path, name) in Cleared(t, path, done)
    ensures Below(Cleared(t, path, done), Join(path, name)) < Below(t, path)
    ensures Pruned(Cleared(t, path, done), Join(path, name)) == Cleared(t, path, done + {name})
    ensures WellFormed(Cleared(t, path, done + {name}))
  {
    NextChildStands(t, path, done, name);
    ChildSubtreeIsSmaller(t, path, name);
    ClearOne(t, path, done, name);
    PruneKeepsWellFormed(Cleared(t, path, done), Join(path, name));
  }

  class FileSystem {
    var tree: Tree

    constructor ()
      ensures tree == map[]
    {
      tree := map[];
    }

    /** create_directory: the result of mkdir. */
    method CreateDirectory(path: string) returns (r: int)
      modifies this
      ensures r == (if MkdirTarget(old(tree), path).Some? then 0 else -1)
      ensures tree == if r == 0 then old(tree)[MkdirTarget(old(tree), path).value := Dir] else old(tree)
    {
      var at := MkdirTarget(tree, path);
      if at.None? {
        return -1;
      }
      tree := tree[at.value := Dir];
      r := 0;
    }

    /** remove_directory, called on a path as it is stored; below it the names are the kernel's own. */
    method RemoveDirectoryAt(path: string) returns (r: int)
      requires WellFormed(tree)
      modifies this
      ensures tree == PrunedAt(old(tree), path)
    {
      var at := Target(tree, path);
      if at.None? {
        return -1;
      }
      r := RemoveDirectory(at.value);
    }

    /**
     * remove_directory: visit the entries in whatever order readdir gives them, recurse into
     * directories, unlink the rest, remove the emptied directory.
     */
    method RemoveDirectory(path: string) returns (r: int)
      requires WellFormed(tree)
      modifies this
      ensures r == if IsDir(old(tree), path) then 0 else -1
      ensures tree == if IsDir(old(tree), path) then Pruned(old(tree), path) else old(tree)
      decreases Below(tree, path)
    {
      if !IsDir(tree, path) {
        return -1;
      }
      ghost var was, done := tree, {};
      var todo := Children(tree, path);
      while todo != {}
        invariant done + todo == Children(was, path) && done !! todo
        invariant tree == Cleared(was, path, done) && WellFormed(tree)
        decreases todo
      {
        var name :| name in todo;
        NextEntry(was, path, done, name);
        r := RemoveEntry(path, name, was);
        todo, done := todo - {name}, done + {name};
        assert done + todo == Children(was, path);
      }
      AllClear(was, path);
      r := RemoveEmpty(path);
    }

    /** One entry of the directory being removed. */
    method RemoveEntry(path: string, name: string, ghost was: Tree) returns (r: int)
      requires WellFormed(tree) && Join(path, name) in tree
      requires Below(tree, Join(path, name)) < Below(was, path)
      modifies this
      ensures r == 0 && tree == Pruned(old(tree), Join(path, name))
      decreases Below(was, path), 0
    {
      var buf := Join(path, name);
      if tree[buf] == Dir {
        r := RemoveDirectory(buf);
      } else {
        PlainFilePrunes(tree, buf);
        tree := tree - {buf};
        r := 0;
      }
    }

    /** remove of the C library. */
    method Remove(path: string) returns (r: int)
      requires WellFormed(tree)
      modifies this
      ensures WellFormed(tree) && tree == RemovedAt(old(tree), path)
      ensures r == if tree == old(tree) then -1 else 0
    {
      RemovedAtKeepsWellFormed(tree, path);
      var at := RemoveTarget(tree, path);
      if at.None? {
        return -1;
      }
      if tree[at.value] == File {
        tree := tree - {at.value};
        r := 0;
      } else {
        r := RemoveEmpty(at.value);
      }
    }

    /** rmdir. */
    method RemoveEmpty(path: string) returns (r: int)
      modifies this
      ensures r == if Children(old(tree), path) == {} then 0 else -1
      ensures tree == if Children(old(tree), path) == {} then old(tree) - {path} else old(tree)
    {
      if Children(tree, path) != {} {
        return -1;
      }
      tree := tree - {path};
      r := 0;
    }
  }
}
