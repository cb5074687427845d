/** How the kernel finds what a path names: component by component, from the upload directory on. */
module Lookup {
  import opened Optional
  import opened Disk

  /** The upload directory itself, as a place to start from. */
  const ROOT := ""

  function Under(at: string, name: string): string {
    if at == ROOT then name else Join(at, name)
  }

  function Up(at: string): string {
    match Dirname(at)
    case None => ROOT
    case Some(d) => d
  }

  /** One component further. Climbing out of the upload directory leads nowhere in this model. */
  function Enter(t: Tree, at: string, name: string): Option<string> {
    if name in {"", "."} then Some(at)
    else if name == ".." then (if at == ROOT then None else Some(Up(at)))
    else if IsDir(t, Under(at, name)) then Some(Under(at, name))
    else None
  }

  /** The directory a path names, by its own path; repeated separators, "." and ".." are the kernel's to resolve. */
  function LookupDir(t: Tree, p: string): Option<string>
    decreases |p|
  {
    match if Dirname(p).None? then Some(ROOT) else LookupDir(t, Dirname(p).value)
    case None => None
    case Some(at) => Enter(t, at, Basename(p))
  }

  /** A path without the separators at its end. */
  function Trimmed(p: string): string {
    if p != [] && p[|p| - 1] == SEP then Trimmed(p[..|p| - 1]) else p
  }

  /** Where the entry is, or would be, that a path names by its last component. */
  function Target(t: Tree, p: string): Option<string> {
    var q := Trimmed(p);
    if !Usable(Basename(q)) then None
    else
      match if Dirname(q).None? then Some(ROOT) else LookupDir(t, Dirname(q).value)
      case None => None
      case Some(at) => Some(Under(at, Basename(q)))
  }

  /** mkdir: fails when the last component is no name, or something has it, or there is nowhere to put it. */
  function MkdirTarget(t: Tree, p: string): Option<string> {
    match Target(t, p)
    case Some(q) => if q in t then None else Some(q)
    case None => None
  }

  /** open for creation, which refuses a trailing separator. */
  function CreateTarget(t: Tree, p: string): Option<string> {
    if Trimmed(p) == p then MkdirTarget(t, p) else None
  }

  /** remove: an entry there is; a file's path may not end in a separator. */
  function RemoveTarget(t: Tree, p: string): Option<string> {
    match Target(t, p)
    case Some(q) => if q in t && (t[q] == Dir || Trimmed(p) == p) then Some(q) else None
    case None => None
  }

  /** access: does the path lead to a directory or to an entry? */
  predicate Exists(t: Tree, p: string) {
    LookupDir(t, p).Some? || RemoveTarget(t, p).Some?
  }

  /** C remove on a path. */
  function RemovedAt(t: Tree, p: string): Tree {
    match RemoveTarget(t, p)
    case Some(q) => Removed(t, q)
    case None => t
  }

  /** The recursive delete of the directory a path names; no stored path ends in "." or "..". */
  function PrunedAt(t: Tree, p: string): Tree {
    match Target(t, p)
    case Some(q) => if IsDir(t, q) then Pruned(t, q) else t
    case None => t
  }

  // ----- What lookups find -----

  lemma UnderSplits(t: Tree, at: string, name: string)
    requires Usable(name)
    ensures Basename(Under(at, name)) == name && Dirname(Under(at, name)) == (if at == ROOT then None else Some(at))
  {
    if at == ROOT {
      SplitPlain(name);
    } else {
      SplitJoin(at, name);
    }
  }

  /** A lookup that succeeds ends at the root or at a directory. */
  lemma {:induction false} LookupFindsDir(t: Tree, p: string)
    requires WellFormed(t)
    ensures LookupDir(t, p).Some? ==> LookupDir(t, p).value == ROOT || IsDir(t, LookupDir(t, p).value)
    decreases |p|
  {
    if Dirname(p).Some? {
      LookupFindsDir(t, Dirname(p).value);
    }
    PathIsSplit(p);
  }

  /** The path an entry has leads to it. */
  lemma {:induction false} EntryIsFound(t: Tree, p: string)
    requires WellFormed(t) && ParentExists(t, p) && Usable(Basename(p))
    ensures Trimmed(p) == p && Target(t, p) == Some(p)
    ensures IsDir(t, p) ==> LookupDir(t, p) == Some(p)
    decreases |p|
  {
    PathIsSplit(p);
    if Dirname(p).Some? {
      EntryIsFound(t, Dirname(p).value);
      assert Basename(Dirname(p).value) != "";
    }
  }

  lemma MkdirMakesRoom(t: Tree, p: string)
    requires WellFormed(t)
    ensures MkdirTarget(t, p).Some? ==> CanMkdir(t, MkdirTarget(t, p).value)
  {
    var q := Trimmed(p);
    if Target(t, p).Some? {
      if Dirname(q).Some? {
        LookupFindsDir(t, Dirname(q).value);
        UnderSplits(t, LookupDir(t, Dirname(q).value).value, Basename(q));
      } else {
        UnderSplits(t, ROOT, Basename(q));
      }
    }
  }

  lemma RoomIsMade(t: Tree, p: string)
    requires WellFormed(t) && CanMkdir(t, p)
    ensures MkdirTarget(t, p) == Some(p)
  {
    EntryIsFound(t, p);
  }

  /** A name without separators is made, if at all, where the directory it is put in is. */
  lemma PlainMkdir(t: Tree, parent: string, name: string)
    requires WellFormed(t) && IsDir(t, parent) && Plain(name)
    ensures MkdirTarget(t, Join(parent, name)) == if CanMkdir(t, Join(parent, name)) then Some(Join(parent, name)) else None
  {
    SplitJoin(parent, name);
    EntryIsFound(t, parent);
    if name == "" {
      TrailingSeparator(parent);
    } else if Usable(name) {
      EntryIsFound(t, Join(parent, name));
    } else {
      NoTrailing(parent, name);
    }
  }

  lemma TrailingSeparator(p: string)
    ensures Trimmed(Join(p, "")) == Trimmed(p)
  {
    assert Join(p, "")[..|p|] == p;
  }

  lemma NoTrailing(parent: string, name: string)
    requires Plain(name) && name != ""
    ensures Trimmed(Join(parent, name)) == Join(parent, name)
  {
    LastSeparator(parent, name);
    assert Join(parent, name)[|parent| + |name|] != SEP;
  }

  /** The same at the top. */
  lemma PlainMkdirAtTop(t: Tree, name: string)
    requires WellFormed(t) && Plain(name)
    ensures MkdirTarget(t, name) == if CanMkdir(t, name) then Some(name) else None
  {
    SplitPlain(name);
    if Usable(name) {
      EntryIsFound(t, name);
    }
  }

  lemma PrunedWhereItIs(t: Tree, p: string)
    requires WellFormed(t) && IsDir(t, p)
    ensures PrunedAt(t, p) == Pruned(t, p)
  {
    EntryIsFound(t, p);
  }

  lemma RemovedAtKeepsWellFormed(t: Tree, p: string)
    requires WellFormed(t)
    ensures WellFormed(RemovedAt(t, p))
  {
    if RemoveTarget(t, p).Some? {
      RemovedKeepsWellFormed(t, RemoveTarget(t, p).value);
    }
  }

  /** ".." behind a directory leads back to where that is. */
  lemma DotDotLeadsBack(t: Tree, parent: string, name: string)
    requires WellFormed(t) && IsDir(t, parent) && Usable(name) && IsDir(t, Join(parent, name))
    ensures LookupDir(t, Join(Join(parent, name), "..")) == Some(parent)
  {
    SplitJoin(parent, name);
    SplitJoin(Join(parent, name), "..");
    EntryIsFound(t, Join(parent, name));
  }

  // ----- Paths that stay below the upload directory -----

  /** How deep a path leads, going by its components alone; -1 once it has climbed out. */
  function Depth(p: string): (d: int)
    ensures d >= -1
    decreases |p|
  {
    var d := if Dirname(p).None? then 0 else Depth(Dirname(p).value);
    if d < 0 then -1
    else if Basename(p) in {"", "."} then d
    else if Basename(p) == ".." then d - 1
    else d + 1
  }

  predicate Stays(p: string) {
    Depth(p) >= 0
  }

  lemma DepthOfUp(at: string)
    requires at != ROOT && Usable(Basename(at))
    ensures Depth(at) >= 0 ==> Depth(Up(at)) == Depth(at) - 1
  {
  }

  /** The count is right: where a lookup ends is as deep as the path says. */
  lemma {:induction false} DepthIsReal(t: Tree, p: string)
    requires WellFormed(t) && LookupDir(t, p).Some?
    ensures Depth(LookupDir(t, p).value) == Depth(p) >= 0
    decreases |p|
  {
    LookupFindsDir(t, p);
    PathIsSplit(p);
    var at := ROOT;
    if Dirname(p).Some? {
      at := LookupDir(t, Dirname(p).value).value;
      DepthIsReal(t, Dirname(p).value);
      LookupFindsDir(t, Dirname(p).value);
    }
    EnterDeeper(t, at, Basename(p));
  }

  lemma EnterDeeper(t: Tree, at: string, name: string)
    requires WellFormed(t) && Plain(name) && (at == ROOT || IsDir(t, at)) && Depth(at) >= 0 && Enter(t, at, name).Some?
    ensures Depth(Enter(t, at, name).value)
            == if name in {"", "."} then Depth(at) else if name == ".." then Depth(at) - 1 else Depth(at) + 1
  {
    if name == ".." {
      DepthOfUp(at);
    } else if Usable(name) {
      UnderSplits(t, at, name);
    }
  }

  /** So a path that stays never asks for the parent of the upload directory. */
  lemma StaysBelow(t: Tree, p: string)
    requires WellFormed(t) && Stays(p) && Basename(p) == ".."
    requires if Dirname(p).None? then true else LookupDir(t, Dirname(p).value).Some?
    ensures Dirname(p).Some? && LookupDir(t, Dirname(p).value).value != ROOT
  {
    if Dirname(p).Some? {
      DepthIsReal(t, Dirname(p).value);
    }
  }
}
