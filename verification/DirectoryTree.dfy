/** The database and the disk stay mirror images of each other. */
module DirectoryTree {
  import opened Optional
  import opened Disk
  import opened Lookup
  import opened World

  // ----- The invariant -----

  ghost predicate IsCode(w: World, p: string) {
    exists g :: g in w.groups && w.groups[g].code == p
  }

  ghost predicate IsRowPath(w: World, p: string) {
    exists d :: d in w.rows && w.rows[d].path == p
  }

  ghost predicate GroupsOk(w: World) {
    && (forall g | g in w.groups :: g < w.nextGroup && Plain(w.groups[g].code))
    && (forall g, h | g in w.groups && h in w.groups && w.groups[g].code == w.groups[h].code :: g == h)
    && (forall m | m in w.members :: m.0 in w.groups && m.1 in w.users)
  }

  /**
   * A row's parent is an older row of the same group, and its path is the parent's path, or the
   * group's code, followed by its name.
   */
  ghost predicate RowOk(w: World, d: nat)
    requires d in w.rows
  {
    var row := w.rows[d];
    && d < w.nextRow && row.group in w.groups && Plain(row.name)
    && (row.parent.Some? ==> row.parent.value in w.rows && row.parent.value < d && w.rows[row.parent.value].group == row.group)
    && PathFor(w, row.name, row.group, row.parent) == Some(row.path)
  }

  ghost predicate RowsOk(w: World) {
    && (forall d | d in w.rows :: RowOk(w, d))
    && (forall d, e | d in w.rows && e in w.rows && w.rows[d].path == w.rows[e].path :: d == e)
  }

  /** The directories on disk are the group codes and the row paths. */
  ghost predicate Mirror(w: World) {
    && WellFormed(w.disk)
    && forall p :: IsDir(w.disk, p) <==> IsCode(w, p) || IsRowPath(w, p)
  }

  ghost predicate Inv(w: World) {
    GroupsOk(w) && RowsOk(w) && Mirror(w)
  }

  lemma EmptyInv()
    ensures Inv(EMPTY)
  {
  }

  // ----- What paths say about rows -----

  /** The directory a row's path is in: its parent's path, or its group's code. */
  function Above(w: World, d: nat): string
    requires d in w.rows
    requires w.rows[d].parent.Some? ==> w.rows[d].parent.value in w.rows
    requires w.rows[d].group in w.groups
  {
    if w.rows[d].parent.Some? then w.rows[w.rows[d].parent.value].path else w.groups[w.rows[d].group].code
  }

  lemma RowPath(w: World, d: nat)
    requires Inv(w) && d in w.rows
    ensures RowOk(w, d) && w.rows[d].path == Join(Above(w, d), w.rows[d].name)
    ensures !Plain(w.rows[d].path)
  {
    assert RowOk(w, d);
    LastSeparator(Above(w, d), w.rows[d].name);
  }

  lemma {:induction false} RowBelowItsCode(w: World, d: nat)
    requires Inv(w) && d in w.rows
    ensures w.rows[d].group in w.groups && InSubtree(w.groups[w.rows[d].group].code, w.rows[d].path)
    decreases d
  {
    RowPath(w, d);
    SubtreeOfChild(w.groups[w.rows[d].group].code, Above(w, d), w.rows[d].name);
    if w.rows[d].parent.Some? {
      RowBelowItsCode(w, w.rows[d].parent.value);
    }
  }

  lemma {:induction false} CodeAboveRow(w: World, g: nat, d: nat)
    requires Inv(w) && g in w.groups && d in w.rows && InSubtree(w.groups[g].code, w.rows[d].path)
    ensures w.rows[d].group == g
    decreases d
  {
    RowPath(w, d);
    SubtreeOfChild(w.groups[g].code, Above(w, d), w.rows[d].name);
    assert Plain(w.groups[g].code);
    if w.rows[d].parent.Some? {
      CodeAboveRow(w, g, w.rows[d].parent.value);
    } else {
      PlainHoldsOnlyItself(w.groups[g].code, Above(w, d));
    }
  }

  /** Group membership of rows can be read off their paths. */
  lemma GroupByPath(w: World, g: nat, d: nat)
    requires Inv(w) && g in w.groups && d in w.rows
    ensures w.rows[d].group == g <==> InSubtree(w.groups[g].code, w.rows[d].path)
  {
    RowBelowItsCode(w, d);
    if InSubtree(w.groups[g].code, w.rows[d].path) {
      CodeAboveRow(w, g, d);
    }
  }

  /** A row whose path lies below another's descends from it by parent links. */
  lemma {:induction false} BelowIsDoomed(w: World, id: nat, d: nat, closed: set<nat>)
    requires Inv(w) && id in w.rows && d in w.rows && id in closed && Grow(w.rows, closed) == closed
    requires InSubtree(w.rows[id].path, w.rows[d].path)
    ensures d in closed
    decreases d
  {
    RowPath(w, d);
    RowPath(w, id);
    SubtreeOfChild(w.rows[id].path, Above(w, d), w.rows[d].name);
    if w.rows[id].path == w.rows[d].path {
      assert id == d;
    } else if w.rows[d].parent.Some? {
      BelowIsDoomed(w, id, w.rows[d].parent.value, closed);
      assert d in Grow(w.rows, closed);
    } else {
      assert Plain(Above(w, d));
      PlainHoldsOnlyItself(w.rows[id].path, Above(w, d));
    }
  }

  function RowsBelow(w: World, root: string): set<nat> {
    set d | d in w.rows && InSubtree(root, w.rows[d].path)
  }

  lemma BelowIsClosed(w: World, root: string)
    requires Inv(w)
    ensures Grow(w.rows, RowsBelow(w, root)) == RowsBelow(w, root)
  {
    forall d | d in w.rows && w.rows[d].parent.Some? && w.rows[d].parent.value in RowsBelow(w, root)
      ensures d in RowsBelow(w, root)
    {
      RowPath(w, d);
      SubtreeOfChild(root, Above(w, d), w.rows[d].name);
    }
  }

  /**
   * The rows the database removes by following parent_id are exactly the rows whose paths lie in
   * the subtree the recursive disk delete removes.
   */
  lemma CascadeIsSubtree(w: World, id: nat)
    requires Inv(w) && id in w.rows
    ensures Doomed(w.rows, {id}) == RowsBelow(w, w.rows[id].path)
  {
    BelowIsClosed(w, w.rows[id].path);
    DoomedIsLeast(w.rows, {id}, RowsBelow(w, w.rows[id].path));
    forall d | d in RowsBelow(w, w.rows[id].path)
      ensures d in Doomed(w.rows, {id})
    {
      BelowIsDoomed(w, id, d, Doomed(w.rows, {id}));
    }
  }

  /** Deleting a group removes exactly its own rows, which are exactly the rows below its code. */
  lemma GroupCascadeIsSubtree(w: World, g: nat)
    requires Inv(w) && g in w.groups
    ensures Doomed(w.rows, RowsOfGroup(w.rows, g)) == RowsOfGroup(w.rows, g) == RowsBelow(w, w.groups[g].code)
  {
    forall d | d in w.rows
      ensures d in RowsOfGroup(w.rows, g) <==> d in RowsBelow(w, w.groups[g].code)
    {
      GroupByPath(w, g, d);
    }
    BelowIsClosed(w, w.groups[g].code);
    DoomedIsLeast(w.rows, RowsOfGroup(w.rows, g), RowsOfGroup(w.rows, g));
  }

  // ----- Every operation keeps the invariant -----

  /** Pruning the disk at a root and deleting exactly the rows below it, with or without its group. */
  lemma PruneKeepsInv(w: World, root: string, w': World)
    requires Inv(w)
    requires w' == w.(rows := Without(w.rows, RowsBelow(w, root)), disk := Pruned(w.disk, root),
                      groups := w'.groups, members := w'.members)
    requires w'.groups.Keys <= w.groups.Keys && (forall g | g in w'.groups :: w'.groups[g] == w.groups[g])
    requires forall g | g in w.groups :: g in w'.groups <==> !InSubtree(root, w.groups[g].code)
    requires w'.members <= w.members && forall m | m in w'.members :: m.0 in w'.groups
    ensures Inv(w')
  {
    BelowIsClosed(w, root);
    forall d | d in w'.rows
      ensures RowOk(w', d)
    {
      RowPath(w, d);
      SubtreeOfChild(root, Above(w, d), w.rows[d].name);
      RowBelowItsCode(w, d);
      if InSubtree(root, w.groups[w.rows[d].group].code) {
        SubtreeTransitive(root, w.groups[w.rows[d].group].code, w.rows[d].path);
      }
    }
    PruneKeepsWellFormed(w.disk, root);
    forall p
      ensures IsDir(w'.disk, p) <==> IsCode(w', p) || IsRowPath(w', p)
    {
      PrunedMirror(w, root, w', p);
    }
  }

  lemma PrunedMirror(w: World, root: string, w': World, p: string)
    requires Inv(w)
    requires w'.rows == Without(w.rows, RowsBelow(w, root)) && w'.disk == Pruned(w.disk, root)
    requires w'.groups.Keys <= w.groups.Keys && (forall g | g in w'.groups :: w'.groups[g] == w.groups[g])
    requires forall g | g in w.groups :: g in w'.groups <==> !InSubtree(root, w.groups[g].code)
    ensures IsDir(w'.disk, p) <==> IsCode(w', p) || IsRowPath(w', p)
  {
    assert IsDir(w'.disk, p) <==> IsDir(w.disk, p) && !InSubtree(root, p);
    if IsDir(w'.disk, p) {
      if g :| g in w.groups && w.groups[g].code == p {
        assert g in w'.groups;
      } else {
        var d :| d in w.rows && w.rows[d].path == p;
        assert d in w'.rows;
      }
    }
    if g :| g in w'.groups && w'.groups[g].code == p {
      assert IsCode(w, p);
    }
    if d :| d in w'.rows && w'.rows[d].path == p {
      assert d in w.rows && IsRowPath(w, p);
    }
  }

  lemma DirectoryRemoveKeepsInv(w: World, id: nat)
    requires Inv(w) && id in w.rows
    ensures Inv(DirectoryRemove(w, id))
  {
    var root := w.rows[id].path;
    CascadeIsSubtree(w, id);
    RowPath(w, id);
    assert IsRowPath(w, root);
    forall g | g in w.groups
      ensures !InSubtree(root, w.groups[g].code)
    {
      if InSubtree(root, w.groups[g].code) {
        PlainHoldsOnlyItself(root, w.groups[g].code);
      }
    }
    PrunedWhereItIs(w.disk, root);
    PruneKeepsInv(w, root, DirectoryRemove(w, id));
  }

  lemma GroupRemoveKeepsInv(w: World, g: nat)
    requires Inv(w) && g in w.groups
    ensures Inv(GroupRemove(w, g, w.groups[g].code))
  {
    var root := w.groups[g].code;
    GroupCascadeIsSubtree(w, g);
    assert IsCode(w, root);
    forall h | h in w.groups && InSubtree(root, w.groups[h].code)
      ensures h == g
    {
      PlainHoldsOnlyItself(root, w.groups[h].code);
    }
    PrunedWhereItIs(w.disk, root);
    PruneKeepsInv(w, root, GroupRemove(w, g, root));
  }

  lemma RowPathOnDisk(w: World, d: nat)
    requires Inv(w) && d in w.rows
    ensures IsDir(w.disk, w.rows[d].path)
  {
    assert IsRowPath(w, w.rows[d].path);
  }

  /**
   * Once mkdir has succeeded the insert cannot violate a constraint, so the rollback of
   * directory_save, which would miss the directory, never runs.
   */
  lemma RollbackIsDead(w: World, name: string, owner: nat, group: nat, parent: Option<nat>)
    requires Inv(w) && group in w.groups && owner in w.users
    requires PathFor(w, name, group, parent).Some? && MkdirTarget(w.disk, PathFor(w, name, group, parent).value).Some?
    ensures InsertAllowed(w, name, owner, group, parent)
  {
    forall d | d in w.rows
      ensures !(w.rows[d].name == name && w.rows[d].group == group && parent.Some? && w.rows[d].parent == parent)
    {
      RowPath(w, d);
      RowPathOnDisk(w, d);
      EntryIsFound(w.disk, w.rows[d].path);
    }
  }

  /** A new row, with its directory wherever mkdir put it. */
  function AddRowAt(w: World, row: Row, at: string): World {
    w.(rows := w.rows[w.nextRow := row], disk := w.disk[at := Dir], nextRow := w.nextRow + 1)
  }

  function AddRow(w: World, row: Row): World {
    AddRowAt(w, row, row.path)
  }

  ghost predicate Addable(w: World, row: Row) {
    && row.group in w.groups && Plain(row.name)
    && (row.parent.Some? ==> row.parent.value in w.rows && w.rows[row.parent.value].group == row.group)
    && PathFor(w, row.name, row.group, row.parent) == Some(row.path)
    && CanMkdir(w.disk, row.path)
  }

  lemma AddRowMirrors(w: World, row: Row, p: string)
    requires Inv(w) && Addable(w, row) && w.nextRow !in w.rows
    ensures IsDir(AddRow(w, row).disk, p) <==> IsCode(AddRow(w, row), p) || IsRowPath(AddRow(w, row), p)
  {
    var w' := AddRow(w, row);
    assert IsDir(w'.disk, p) <==> IsDir(w.disk, p) || p == row.path;
    assert IsCode(w, p) <==> IsCode(w', p);
    if d :| d in w.rows && w.rows[d].path == p {
      assert d in w'.rows && w'.rows[d].path == p;
    }
    if p == row.path {
      assert w.nextRow in w'.rows && w'.rows[w.nextRow].path == p;
    }
    if d :| d in w'.rows && w'.rows[d].path == p {
      assert d == w.nextRow || IsRowPath(w, p);
    }
  }

  lemma NextRowIsNew(w: World)
    requires Inv(w)
    ensures w.nextRow !in w.rows
  {
    forall d | d in w.rows
      ensures d != w.nextRow
    {
      assert RowOk(w, d);
    }
  }

  lemma AddRowRowsOk(w: World, row: Row)
    requires Inv(w) && Addable(w, row) && w.nextRow !in w.rows
    ensures RowsOk(AddRow(w, row))
  {
    var w' := AddRow(w, row);
    forall d | d in w'.rows
      ensures RowOk(w', d)
    {
      if d == w.nextRow {
        if row.parent.Some? {
          assert RowOk(w, row.parent.value);
        }
      } else {
        assert RowOk(w, d);
      }
    }
    forall d | d in w.rows
      ensures w.rows[d].path != row.path
    {
      RowPathOnDisk(w, d);
    }
  }

  lemma AddRowKeepsInv(w: World, row: Row)
    requires Inv(w) && Addable(w, row)
    ensures Inv(AddRow(w, row))
  {
    NextRowIsNew(w);
    AddRowRowsOk(w, row);
    MkdirKeepsWellFormed(w.disk, row.path);
    forall p
      ensures IsDir(AddRow(w, row).disk, p) <==> IsCode(AddRow(w, row), p) || IsRowPath(AddRow(w, row), p)
    {
      AddRowMirrors(w, row, p);
    }
  }

  /** Where a new directory goes: below its parent, or below its group's code. */
  function Place(w: World, group: nat, parent: Option<nat>): string
    requires group in w.groups && (parent.Some? ==> parent.value in w.rows)
  {
    if parent.Some? then w.rows[parent.value].path else w.groups[group].code
  }

  lemma PlaceOnDisk(w: World, group: nat, parent: Option<nat>)
    requires Inv(w) && group in w.groups && (parent.Some? ==> parent.value in w.rows)
    ensures IsDir(w.disk, Place(w, group, parent))
  {
    if parent.Some? {
      RowPathOnDisk(w, parent.value);
    } else {
      assert IsCode(w, w.groups[group].code);
    }
  }

  /** For a name without separators mkdir goes by the path as it stands. */
  lemma PlainTarget(w: World, name: string, group: nat, parent: Option<nat>)
    requires Inv(w) && Plain(name) && group in w.groups && (parent.Some? ==> parent.value in w.rows)
    ensures var path := Join(Place(w, group, parent), name);
            PathFor(w, name, group, parent) == Some(path)
            && MkdirTarget(w.disk, path) == if CanMkdir(w.disk, path) then Some(path) else None
  {
    PlaceOnDisk(w, group, parent);
    PlainMkdir(w.disk, Place(w, group, parent), name);
  }

  lemma DirectorySaveKeepsInv(w: World, name: string, owner: nat, group: nat, parent: Option<nat>, permission: int)
    requires Inv(w) && Plain(name) && group in w.groups && owner in w.users
    requires parent.Some? ==> parent.value in w.rows && w.rows[parent.value].group == group
    ensures Inv(DirectorySave(w, name, owner, group, parent, permission).0)
  {
    var path := PathFor(w, name, group, parent).value;
    PlainTarget(w, name, group, parent);
    if CanMkdir(w.disk, path) {
      RollbackIsDead(w, name, owner, group, parent);
      AddRowKeepsInv(w, Row(name, InheritedPermission(w, parent, permission), path, parent, group, owner));
    }
  }

  // ----- Groups and files -----

  function AddGroup(w: World, group: GroupRow): World {
    w.(groups := w.groups[w.nextGroup := group], disk := w.disk[group.code := Dir],
       members := w.members + {(w.nextGroup, group.owner)}, nextGroup := w.nextGroup + 1)
  }

  ghost predicate NewCode(w: World, code: string) {
    Plain(code) && CanMkdir(w.disk, code) && forall g | g in w.groups :: w.groups[g].code != code
  }

  lemma NextGroupIsNew(w: World)
    requires Inv(w)
    ensures w.nextGroup !in w.groups && forall u :: (w.nextGroup, u) !in w.members
  {
  }

  lemma AddGroupMirrors(w: World, group: GroupRow, p: string)
    requires Inv(w) && NewCode(w, group.code) && w.nextGroup !in w.groups
    ensures IsDir(AddGroup(w, group).disk, p) <==> IsCode(AddGroup(w, group), p) || IsRowPath(AddGroup(w, group), p)
  {
    var w' := AddGroup(w, group);
    assert IsDir(w'.disk, p) <==> IsDir(w.disk, p) || p == group.code;
    assert IsRowPath(w, p) <==> IsRowPath(w', p);
    if g :| g in w.groups && w.groups[g].code == p {
      assert g in w'.groups && w'.groups[g].code == p;
    }
    if p == group.code {
      assert w.nextGroup in w'.groups && w'.groups[w.nextGroup].code == p;
    }
    if g :| g in w'.groups && w'.groups[g].code == p {
      assert g == w.nextGroup || IsCode(w, p);
    }
  }

  lemma AddGroupKeepsInv(w: World, group: GroupRow)
    requires Inv(w) && NewCode(w, group.code) && group.owner in w.users
    ensures Inv(AddGroup(w, group))
  {
    var w' := AddGroup(w, group);
    NextGroupIsNew(w);
    MkdirKeepsWellFormed(w.disk, group.code);
    forall d | d in w'.rows
      ensures RowOk(w', d)
    {
      assert RowOk(w, d);
    }
    forall p
      ensures IsDir(w'.disk, p) <==> IsCode(w', p) || IsRowPath(w', p)
    {
      AddGroupMirrors(w, group, p);
    }
  }

  /** A group row that is inserted and deleted again leaves everything but the key counter. */
  lemma GroupRollbackIsClean(w: World, group: GroupRow)
    requires Inv(w)
    ensures var inserted := w.(groups := w.groups[w.nextGroup := group], nextGroup := w.nextGroup + 1);
            DeleteGroupRow(inserted, w.nextGroup) == w.(nextGroup := w.nextGroup + 1)
  {
    NextGroupIsNew(w);
    forall d | d in w.rows
      ensures w.rows[d].group != w.nextGroup
    {
      assert RowOk(w, d);
    }
    assert RowsOfGroup(w.rows, w.nextGroup) == {};
    assert Without(w.rows, {}) == w.rows;
    assert w.groups[w.nextGroup := group] - {w.nextGroup} == w.groups;
    assert (set m | m in w.members && m.0 != w.nextGroup) == w.members;
  }

  lemma SkippedKeyKeepsInv(w: World)
    requires Inv(w)
    ensures Inv(w.(nextGroup := w.nextGroup + 1))
  {
    var w' := w.(nextGroup := w.nextGroup + 1);
    forall d | d in w'.rows
      ensures RowOk(w', d)
    {
      assert RowOk(w, d);
    }
    forall p
      ensures IsDir(w'.disk, p) <==> IsCode(w', p) || IsRowPath(w', p)
    {
      assert IsCode(w, p) <==> IsCode(w', p);
      assert IsRowPath(w, p) <==> IsRowPath(w', p);
    }
  }

  /**
   * group_save succeeds, or fails without leaving a trace; its second rollback, which would leave
   * the folder behind, never runs.
   */
  lemma GroupSaveCases(w: World, name: string, code: string, owner: nat)
    requires Inv(w) && Plain(code)
    ensures var (w', r) := GroupSave(w, name, code, owner);
            && (r == 0 ==> w' == AddGroup(w, GroupRow(name, code, owner)) && NewCode(w, code) && owner in w.users)
            && (r != 0 ==> w' == w || w' == w.(nextGroup := w.nextGroup + 1))
  {
    NextGroupIsNew(w);
    PlainMkdirAtTop(w.disk, code);
    GroupRollbackIsClean(w, GroupRow(name, code, owner));
  }

  lemma GroupSaveKeepsInv(w: World, name: string, code: string, owner: nat)
    requires Inv(w) && Plain(code)
    ensures Inv(GroupSave(w, name, code, owner).0)
  {
    GroupSaveCases(w, name, code, owner);
    SkippedKeyKeepsInv(w);
    if GroupSave(w, name, code, owner).1 == 0 {
      AddGroupKeepsInv(w, GroupRow(name, code, owner));
    }
  }

  /** Operations that change neither keys, links nor paths, and no directory on disk. */
  lemma HarmlessKeepsInv(w: World, w': World)
    requires Inv(w) && w'.groups == w.groups && w.users <= w'.users
    requires forall m | m in w'.members :: m.0 in w.groups && m.1 in w'.users
    requires w'.nextGroup == w.nextGroup && w'.nextRow == w.nextRow && w'.rows.Keys == w.rows.Keys
    requires forall d | d in w.rows :: w'.rows[d] == w.rows[d].(permission := w'.rows[d].permission)
    requires WellFormed(w'.disk) && forall p :: IsDir(w'.disk, p) <==> IsDir(w.disk, p)
    ensures Inv(w')
  {
    forall d | d in w'.rows
      ensures RowOk(w', d)
    {
      assert RowOk(w, d);
    }
    forall p
      ensures IsDir(w'.disk, p) <==> IsCode(w', p) || IsRowPath(w', p)
    {
      assert IsCode(w, p) <==> IsCode(w', p);
      assert IsRowPath(w, p) <==> IsRowPath(w', p) by {
        if d :| d in w.rows && w.rows[d].path == p {
          assert d in w'.rows && w'.rows[d].path == p;
        }
        if d :| d in w'.rows && w'.rows[d].path == p {
          assert d in w.rows && w.rows[d].path == p;
        }
      }
    }
  }

  lemma UploadKeepsInv(w: World, file: string)
    requires Inv(w)
    ensures Inv(UploadFile(w, file))
  {
    var up := UploadFile(w, file);
    MkdirMakesRoom(w.disk, file);
    assert forall p :: IsDir(up.disk, p) <==> IsDir(w.disk, p);
    HarmlessKeepsInv(w, up);
  }

  // ----- What the file handlers remove -----

  lemma RemoveEntryIff(w: World, at: string)
    requires Inv(w)
    ensures Inv(w.(disk := Removed(w.disk, at))) <==> !IsEmptyDir(w.disk, at)
    ensures Mirror(w.(disk := Removed(w.disk, at))) <==> !IsEmptyDir(w.disk, at)
  {
    var after := w.(disk := Removed(w.disk, at));
    if IsEmptyDir(w.disk, at) {
      assert IsCode(w, at) <==> IsCode(after, at);
      assert IsRowPath(w, at) <==> IsRowPath(after, at);
      assert !IsDir(after.disk, at);
    } else {
      RemovedKeepsWellFormed(w.disk, at);
      assert forall p :: IsDir(after.disk, p) <==> IsDir(w.disk, p);
      HarmlessKeepsInv(w, after);
    }
  }

  /** The path leads remove to an empty directory, spelled in whatever way. */
  predicate HitsEmptyDir(t: Tree, path: string) {
    RemoveTarget(t, path).Some? && IsEmptyDir(t, RemoveTarget(t, path).value)
  }

  /**
   * The file handlers pass a path of the client's to remove, which takes an empty directory as
   * readily as a file: the mirror survives exactly when the path does not lead to one.
   */
  lemma RemoveIff(w: World, path: string)
    requires Inv(w)
    ensures Inv(w.(disk := RemovedAt(w.disk, path))) <==> !HitsEmptyDir(w.disk, path)
    ensures Mirror(w.(disk := RemovedAt(w.disk, path))) <==> !HitsEmptyDir(w.disk, path)
  {
    if RemoveTarget(w.disk, path).Some? {
      RemoveEntryIff(w, RemoveTarget(w.disk, path).value);
    } else {
      assert w.(disk := w.disk) == w;
    }
  }

  // ----- Members come and go -----

  lemma MembersKeepInv(w: World, members: set<(nat, nat)>)
    requires Inv(w) && forall m | m in members :: m.0 in w.groups && m.1 in w.users
    ensures Inv(w.(members := members))
  {
    HarmlessKeepsInv(w, w.(members := members));
  }

  lemma JoinKeepsInv(w: World, code: Option<string>, user: Option<nat>)
    requires Inv(w)
    ensures Inv(JoinGroup(w, code, user).0)
  {
    MembersKeepInv(w, JoinGroup(w, code, user).0.members);
  }

  lemma LeaveKeepsInv(w: World, code: Option<string>, user: Option<nat>)
    requires Inv(w)
    ensures Inv(LeaveGroup(w, code, user).0)
  {
    MembersKeepInv(w, LeaveGroup(w, code, user).0.members);
  }

  lemma KickKeepsInv(w: World, code: Option<string>, member: Option<nat>, user: Option<nat>)
    requires Inv(w)
    ensures Inv(KickMember(w, code, member, user).0)
  {
    MembersKeepInv(w, KickMember(w, code, member, user).0.members);
  }

  // ----- Every request -----

  lemma CreateKeepsInv(w: World, name: Option<string>, user: Option<nat>, code: string)
    requires Inv(w) && Plain(code)
    ensures Inv(CreateGroup(w, name, user, code).0)
  {
    if name.Some? && user.Some? {
      GroupSaveKeepsInv(w, name.value, code, user.value);
    }
  }

  lemma DeleteKeepsInv(w: World, code: Option<string>, user: Option<nat>)
    requires Inv(w)
    ensures Inv(DeleteGroup(w, code, user).0)
  {
    if code.Some? && GroupByCode(w, code.value).Some? {
      GroupRemoveKeepsInv(w, GroupByCode(w, code.value).value);
    }
  }

  /** make_directory's guards all pass. */
  predicate MakeReachesSave(w: World, name: Option<string>, group: Option<nat>, parent: Option<nat>, user: Option<nat>) {
    && name.Some? && group.Some? && user.Some?
    && group.value in w.groups && (group.value, user.value) in w.members
    && (parent.Some? ==> parent.value in w.rows && w.rows[parent.value].group == group.value)
  }

  /** And so does mkdir. */
  predicate Makes(w: World, name: Option<string>, group: Option<nat>, parent: Option<nat>, user: Option<nat>) {
    MakeReachesSave(w, name, group, parent, user) && MkdirTarget(w.disk, Join(Place(w, group.value, parent), name.value)).Some?
  }

  lemma MakeAdds(w: World, name: string, group: nat, parent: Option<nat>, user: nat)
    requires Inv(w)
    ensures var (w', status) := MakeDirectory(w, Some(name), Some(group), parent, Some(user));
            if Makes(w, Some(name), Some(group), parent, Some(user)) then
              status == 200
              && w' == AddRowAt(w, Row(name, InheritedPermission(w, parent, READ), Join(Place(w, group, parent), name),
                                       parent, group, user),
                                MkdirTarget(w.disk, Join(Place(w, group, parent), name)).value)
            else status != 200 && w' == w
  {
    if Makes(w, Some(name), Some(group), parent, Some(user)) {
      RollbackIsDead(w, name, user, group, parent);
    }
  }

  /**
   * The database draws its codes in hexadecimal, and the paths a client gives stay below the upload
   * directory: what lies above it is not in this world.
   */
  predicate InModel(w: World, op: Op) {
    match op
    case Create(name, user, code) => Plain(code)
    case Make(name, group, parent, user) =>
      MakeReachesSave(w, name, group, parent, user) ==> Stays(Join(Place(w, group.value, parent), name.value))
    case Upload(file) => Stays(file)
    case Save(path, inserted, user) => Stays(path)
    case Remove(path) => Stays(path)
    case _ => true
  }

  /**
   * What a caller must not ask for: a new directory whose name contains '/', or a file save or
   * removal whose path leads to an empty directory.
   */
  predicate Safe(w: World, op: Op) {
    match op
    case Make(name, group, parent, user) => Makes(w, name, group, parent, user) ==> Plain(name.value)
    case Save(path, inserted, user) => user.Some? && !inserted ==> !HitsEmptyDir(w.disk, path)
    case Remove(path) => !HitsEmptyDir(w.disk, path)
    case _ => true
  }

  lemma MakeIff(w: World, name: Option<string>, group: Option<nat>, parent: Option<nat>, user: Option<nat>)
    requires Inv(w)
    ensures Inv(MakeDirectory(w, name, group, parent, user).0) <==> Safe(w, Make(name, group, parent, user))
  {
    if Makes(w, name, group, parent, user) {
      MakeAdds(w, name.value, group.value, parent, user.value);
      if Plain(name.value) {
        DirectorySaveKeepsInv(w, name.value, user.value, group.value, parent, READ);
      } else {
        var after := MakeDirectory(w, name, group, parent, user).0;
        assert !RowOk(after, w.nextRow);
      }
    } else if name.Some? && group.Some? && user.Some? {
      MakeAdds(w, name.value, group.value, parent, user.value);
    }
  }

  lemma DropKeepsInv(w: World, id: Option<nat>, user: Option<nat>)
    requires Inv(w)
    ensures Inv(DeleteDirectory(w, id, user).0)
  {
    if id.Some? && id.value in w.rows {
      DirectoryRemoveKeepsInv(w, id.value);
    }
  }

  lemma UpdateKeepsInv(w: World, id: Option<nat>, permission: Option<int>, user: Option<nat>)
    requires Inv(w)
    ensures Inv(UpdateDirectory(w, id, permission, user).0)
  {
    HarmlessKeepsInv(w, UpdateDirectory(w, id, permission, user).0);
  }

  lemma RegisterKeepsInv(w: World, user: nat)
    requires Inv(w)
    ensures Inv(w.(users := w.users + {user}))
  {
    HarmlessKeepsInv(w, w.(users := w.users + {user}));
  }

  /** Where a remove has something to do, access finds the path. */
  lemma SaveIff(w: World, path: string, inserted: bool, user: Option<nat>)
    requires Inv(w)
    ensures Inv(SaveFile(w, path, inserted, user).0) <==> Safe(w, Save(path, inserted, user))
  {
    RemoveIff(w, path);
  }

  /** Over every request of any user, with any arguments: the invariant survives exactly the safe ones. */
  lemma StepKeepsInvIff(w: World, op: Op)
    requires Inv(w) && InModel(w, op)
    ensures Inv(Apply(w, op)) <==> Safe(w, op)
  {
    match op
    case Register(u) => RegisterKeepsInv(w, u);
    case Create(name, user, code) => CreateKeepsInv(w, name, user, code);
    case Delete(code, user) => DeleteKeepsInv(w, code, user);
    case Enter(code, user) => JoinKeepsInv(w, code, user);
    case Leave(code, user) => LeaveKeepsInv(w, code, user);
    case Kick(code, member, user) => KickKeepsInv(w, code, member, user);
    case Make(name, group, parent, user) => MakeIff(w, name, group, parent, user);
    case Drop(id, user) => DropKeepsInv(w, id, user);
    case Update(id, permission, user) => UpdateKeepsInv(w, id, permission, user);
    case Upload(file) => UploadKeepsInv(w, file);
    case Save(path, inserted, user) => SaveIff(w, path, inserted, user);
    case Remove(path) => RemoveIff(w, path);
  }

  ghost function Run(w: World, ops: seq<Op>): World
    decreases |ops|
  {
    if ops == [] then w else Run(Apply(w, ops[0]), ops[1..])
  }

  ghost predicate AllInModel(w: World, ops: seq<Op>)
    decreases |ops|
  {
    ops == [] || (InModel(w, ops[0]) && AllInModel(Apply(w, ops[0]), ops[1..]))
  }

  /** Each request is safe where it is made. */
  ghost predicate AllSafe(w: World, ops: seq<Op>)
    decreases |ops|
  {
    ops == [] || (Safe(w, ops[0]) && AllSafe(Apply(w, ops[0]), ops[1..]))
  }

  lemma {:induction false} SafeRunKeepsInv(w: World, ops: seq<Op>)
    requires Inv(w) && AllSafe(w, ops) && AllInModel(w, ops)
    ensures Inv(Run(w, ops))
    decreases |ops|
  {
    if ops != [] {
      StepKeepsInvIff(w, ops[0]);
      SafeRunKeepsInv(Apply(w, ops[0]), ops[1..]);
    }
  }

  /** The first unsafe request of a run breaks the invariant. */
  lemma {:induction false} UnsafeRunBreaksInv(w: World, ops: seq<Op>) returns (k: nat)
    requires Inv(w) && !AllSafe(w, ops) && AllInModel(w, ops)
    ensures k <= |ops| && !Inv(Run(w, ops[..k]))
    decreases |ops|
  {
    StepKeepsInvIff(w, ops[0]);
    if Safe(w, ops[0]) {
      var i := UnsafeRunBreaksInv(Apply(w, ops[0]), ops[1..]);
      k := i + 1;
      assert ops[..k][1..] == ops[1..][..i];
    } else {
      k := 1;
      assert ops[..1][1..] == [];
    }
  }

  /**
   * After any sequence of safe requests from an empty start, the directories on disk are exactly
   * the group codes and the row paths, row paths are distinct, parents are older rows of the same
   * group, and each path is its parent's path (or its group's code) with the name behind it.
   */
  lemma MirrorAlways(ops: seq<Op>)
    requires AllSafe(EMPTY, ops) && AllInModel(EMPTY, ops)
    ensures Inv(Run(EMPTY, ops))
  {
    EmptyInv();
    SafeRunKeepsInv(EMPTY, ops);
  }

  /** And safety is exact: all states of a run are mirrored if and only if all its requests are safe. */
  lemma MirrorIffSafe(ops: seq<Op>)
    requires AllInModel(EMPTY, ops)
    ensures (forall k | 0 <= k <= |ops| :: Inv(Run(EMPTY, ops[..k]))) <==> AllSafe(EMPTY, ops)
  {
    EmptyInv();
    if AllSafe(EMPTY, ops) {
      forall k | 0 <= k <= |ops|
        ensures Inv(Run(EMPTY, ops[..k]))
      {
        SafePrefix(EMPTY, ops, k);
        SafeRunKeepsInv(EMPTY, ops[..k]);
      }
    } else {
      var k := UnsafeRunBreaksInv(EMPTY, ops);
      assert !Inv(Run(EMPTY, ops[..k]));
    }
  }

  lemma {:induction false} SafePrefix(w: World, ops: seq<Op>, k: nat)
    requires AllSafe(w, ops) && AllInModel(w, ops) && k <= |ops|
    ensures AllSafe(w, ops[..k]) && AllInModel(w, ops[..k])
    decreases |ops|
  {
    if k > 0 {
      assert ops[..k][1..] == ops[1..][..k - 1];
      SafePrefix(Apply(w, ops[0]), ops[1..], k - 1);
    }
  }
}
