/**
 * What each request on directories changes, to the row and to the disk entry, and what callers can
 * ask for that breaks the mirror.
 */
module DirectoryExact {
  import opened Optional
  import opened Disk
  import opened Lookup
  import opened World
  import opened DirectoryTree

  // ----- Creation is exact -----

  /** In a mirrored world mkdir succeeds exactly when the name is usable and nothing has the path yet. */
  lemma MkdirSucceedsIff(w: World, name: string, group: nat, parent: Option<nat>)
    requires Inv(w) && Plain(name) && group in w.groups && (parent.Some? ==> parent.value in w.rows)
    ensures PathFor(w, name, group, parent) == Some(Join(Place(w, group, parent), name))
    ensures CanMkdir(w.disk, Join(Place(w, group, parent), name))
            <==> Usable(name) && Join(Place(w, group, parent), name) !in w.disk
  {
    PlaceOnDisk(w, group, parent);
    SplitJoin(Place(w, group, parent), name);
  }

  /**
   * For a name without separators make_directory answers 200 exactly when the group exists, the parent is in it, the user is a
   * member, the name is usable and no file or directory has the path.
   */
  lemma MakeSucceedsIff(w: World, name: string, group: nat, parent: Option<nat>, user: nat)
    requires Inv(w) && Plain(name)
    ensures MakeDirectory(w, Some(name), Some(group), parent, Some(user)).1 == 200
            <==> && MakeReachesSave(w, Some(name), Some(group), parent, Some(user))
                 && Usable(name) && Join(Place(w, group, parent), name) !in w.disk
  {
    MakeAdds(w, name, group, parent, user);
    if MakeReachesSave(w, Some(name), Some(group), parent, Some(user)) {
      MkdirSucceedsIff(w, name, group, parent);
      PlainTarget(w, name, group, parent);
    }
  }

  /** One new row and one new directory, and nothing else. */
  predicate AddsOnly(w: World, w': World, at: string) {
    && w'.rows.Keys == w.rows.Keys + {w.nextRow} && w.nextRow !in w.rows
    && (forall d | d in w.rows :: w'.rows[d] == w.rows[d])
    && w'.disk == w.disk[at := Dir]
    && w'.groups == w.groups && w'.members == w.members && w'.users == w.users
    && w'.nextGroup == w.nextGroup && w'.nextRow == w.nextRow + 1
  }

  lemma AddRowAddsOnly(w: World, row: Row, at: string)
    requires Inv(w)
    ensures AddsOnly(w, AddRowAt(w, row, at), at)
  {
    NextRowIsNew(w);
  }

  /**
   * When it does, for whatever name, there is one new row, owned by the user, with the parent's
   * permission (1, which is READ, without a parent), one new directory where the kernel resolves its path to, and
   * nothing else changes; otherwise nothing changes at all.
   */
  lemma MakeIsExact(w: World, name: string, group: nat, parent: Option<nat>, user: nat)
    requires Inv(w)
    ensures var (w', status) := MakeDirectory(w, Some(name), Some(group), parent, Some(user));
            && (status != 200 ==> w' == w)
            && (status == 200 ==>
                  && MakeReachesSave(w, Some(name), Some(group), parent, Some(user))
                  && var path := Join(Place(w, group, parent), name);
                  && MkdirTarget(w.disk, path).Some? && AddsOnly(w, w', MkdirTarget(w.disk, path).value)
                  && w'.rows[w.nextRow].name == name && w'.rows[w.nextRow].path == path
                  && w'.rows[w.nextRow].owner == user && w'.rows[w.nextRow].group == group && w'.rows[w.nextRow].parent == parent
                  && w'.rows[w.nextRow].permission == (if parent.Some? then w.rows[parent.value].permission else 1)
                  && (Plain(name) ==> MkdirTarget(w.disk, path) == Some(path)))
  {
    MakeAdds(w, name, group, parent, user);
    if Makes(w, Some(name), Some(group), parent, Some(user)) {
      var path := Join(Place(w, group, parent), name);
      AddRowAddsOnly(w, Row(name, InheritedPermission(w, parent, READ), path, parent, group, user),
                     MkdirTarget(w.disk, path).value);
      if Plain(name) {
        PlainTarget(w, name, group, parent);
      }
    }
  }

  /** The owner of the directory, or of one above it, asks for it to be dropped. */
  predicate DropsRow(w: World, id: Option<nat>, user: Option<nat>, d: nat)
    requires d in w.rows
  {
    id.Some? && id.value in w.rows && user == Some(w.rows[id.value].owner) && InSubtree(w.rows[id.value].path, w.rows[d].path)
  }

  /** The owner of the directory's group asks for the group to be deleted. */
  predicate DeletesRow(w: World, code: Option<string>, user: Option<nat>, d: nat)
    requires d in w.rows
  {
    var group := w.rows[d].group;
    group in w.groups && code == Some(w.groups[group].code) && user == Some(w.groups[group].owner)
  }

  lemma DropRemoves(w: World, id: Option<nat>, user: Option<nat>, d: nat)
    requires Inv(w) && d in w.rows
    ensures d !in DeleteDirectory(w, id, user).0.rows <==> DropsRow(w, id, user, d)
  {
    if id.Some? && id.value in w.rows {
      CascadeIsSubtree(w, id.value);
    }
  }

  lemma DeleteRemoves(w: World, code: Option<string>, user: Option<nat>, d: nat)
    requires Inv(w) && d in w.rows
    ensures d !in DeleteGroup(w, code, user).0.rows <==> DeletesRow(w, code, user, d)
  {
    RowPath(w, d);
    if code.Some? && GroupByCode(w, code.value).Some? {
      GroupCascadeIsSubtree(w, GroupByCode(w, code.value).value);
    }
  }

  lemma CreateKeepsRow(w: World, name: Option<string>, user: Option<nat>, code: string, d: nat)
    requires Inv(w) && Plain(code) && d in w.rows
    ensures d in CreateGroup(w, name, user, code).0.rows
  {
    if name.Some? && user.Some? {
      GroupSaveCases(w, name.value, code, user.value);
    }
  }

  lemma MakeKeepsRow(w: World, name: Option<string>, group: Option<nat>, parent: Option<nat>, user: Option<nat>, d: nat)
    requires d in w.rows
    ensures d in MakeDirectory(w, name, group, parent, user).0.rows
  {
  }

  lemma UpdateKeepsRow(w: World, id: Option<nat>, permission: Option<int>, user: Option<nat>, d: nat)
    requires d in w.rows
    ensures d in UpdateDirectory(w, id, permission, user).0.rows
  {
  }

  lemma MembershipKeepsRows(w: World, code: Option<string>, member: Option<nat>, user: Option<nat>)
    ensures JoinGroup(w, code, user).0.rows == w.rows
    ensures LeaveGroup(w, code, user).0.rows == w.rows
    ensures KickMember(w, code, member, user).0.rows == w.rows
  {
  }

  lemma FilesKeepRows(w: World, path: string, inserted: bool, user: Option<nat>)
    ensures SaveFile(w, path, inserted, user).0.rows == w.rows
    ensures Apply(w, Upload(path)).rows == Apply(w, Remove(path)).rows == w.rows
  {
  }

  predicate AsksToRemove(w: World, op: Op, d: nat)
    requires d in w.rows
  {
    match op
    case Drop(id, user) => DropsRow(w, id, user, d)
    case Delete(code, user) => DeletesRow(w, code, user, d)
    case _ => false
  }

  lemma OthersKeepRow(w: World, op: Op, d: nat)
    requires Inv(w) && InModel(w, op) && d in w.rows && !op.Drop? && !op.Delete?
    ensures d in Apply(w, op).rows
  {
    match op
    case Register(u) =>
    case Create(name, user, code) => CreateKeepsRow(w, name, user, code, d);
    case Enter(code, user) => MembershipKeepsRows(w, code, None, user);
    case Leave(code, user) => MembershipKeepsRows(w, code, None, user);
    case Kick(code, member, user) => MembershipKeepsRows(w, code, member, user);
    case Make(name, group, parent, user) => MakeKeepsRow(w, name, group, parent, user, d);
    case Update(id, permission, user) => UpdateKeepsRow(w, id, permission, user, d);
    case Upload(file) => FilesKeepRows(w, file, false, None);
    case Save(path, inserted, user) => FilesKeepRows(w, path, inserted, user);
    case Remove(path) => FilesKeepRows(w, path, false, None);
  }

  /** A directory's row goes exactly when one of these two asks; no other request removes it. */
  lemma OnlyOwnersRemove(w: World, op: Op, d: nat)
    requires Inv(w) && InModel(w, op) && d in w.rows
    ensures d !in Apply(w, op).rows <==> AsksToRemove(w, op, d)
  {
    if op.Drop? {
      DropRemoves(w, op.id, op.user, d);
    } else if op.Delete? {
      DeleteRemoves(w, op.groupCode, op.user, d);
    } else {
      OthersKeepRow(w, op, d);
    }
  }

  // ----- Deletion is exact -----

  /** The rows and entries below one directory are gone, and nothing else has changed. */
  ghost predicate DirectoryGone(w: World, id: nat, w': World)
    requires id in w.rows
  {
    && w'.groups == w.groups && w'.members == w.members && w'.users == w.users
    && w'.nextGroup == w.nextGroup && w'.nextRow == w.nextRow
    && (forall d | d in w.rows :: d in w'.rows <==> !InSubtree(w.rows[id].path, w.rows[d].path))
    && (forall d | d in w'.rows :: d in w.rows && w'.rows[d] == w.rows[d])
    && w'.disk == Pruned(w.disk, w.rows[id].path)
  }

  /**
   * delete_directory removes the rows below the directory and the disk entries below it, and
   * leaves every other row, every group and every other entry untouched.
   */
  lemma DirectoryRemoveIsExact(w: World, id: nat)
    requires Inv(w) && id in w.rows
    ensures DirectoryGone(w, id, DirectoryRemove(w, id))
  {
    CascadeIsSubtree(w, id);
    RowPathOnDisk(w, id);
    PrunedWhereItIs(w.disk, w.rows[id].path);
  }

  /** A group is gone, with its rows, its memberships and everything below its code, and nothing else has changed. */
  ghost predicate GroupGone(w: World, g: nat, w': World)
    requires g in w.groups
  {
    && (forall h :: h in w'.groups <==> h in w.groups && h != g)
    && (forall h | h in w'.groups :: w'.groups[h] == w.groups[h])
    && (forall m :: m in w'.members <==> m in w.members && m.0 != g)
    && w'.users == w.users && w'.nextGroup == w.nextGroup && w'.nextRow == w.nextRow
    && (forall d | d in w.rows :: d in w'.rows <==> w.rows[d].group != g)
    && (forall d | d in w'.rows :: d in w.rows && w'.rows[d] == w.rows[d])
    && w'.disk == Pruned(w.disk, w.groups[g].code)
  }

  /** delete_group removes the group, its rows, its memberships and everything below its code, and nothing else. */
  lemma GroupRemoveIsExact(w: World, g: nat)
    requires Inv(w) && g in w.groups
    ensures GroupGone(w, g, GroupRemove(w, g, w.groups[g].code))
    ensures forall h | h in w.groups && h != g :: IsDir(GroupRemove(w, g, w.groups[g].code).disk, w.groups[h].code)
  {
    GroupCascadeIsSubtree(w, g);
    GroupRemoveKeepsInv(w, g);
    assert IsCode(w, w.groups[g].code);
    PrunedWhereItIs(w.disk, w.groups[g].code);
    forall h | h in w.groups && h != g
      ensures IsDir(GroupRemove(w, g, w.groups[g].code).disk, w.groups[h].code)
    {
      var after := GroupRemove(w, g, w.groups[g].code);
      assert h in after.groups && after.groups[h].code == w.groups[h].code;
      assert IsCode(after, w.groups[h].code);
    }
  }

  lemma NewRowDeletes(w: World, row: Row)
    requires Inv(w) && Addable(w, row) && w.nextRow !in w.rows
    ensures DeleteRow(AddRow(w, row), w.nextRow) == AddRow(w, row).(rows := w.rows)
  {
    NewRowStandsAlone(w, row);
    assert Without(AddRow(w, row).rows, {w.nextRow}) == w.rows;
  }

  lemma NewDirectoryPrunes(t: Tree, p: string)
    requires WellFormed(t) && CanMkdir(t, p)
    ensures PrunedAt(t[p := Dir], p) == t
  {
    MkdirKeepsWellFormed(t, p);
    PrunedWhereItIs(t[p := Dir], p);
    PruneUndoesMkdir(t, p);
  }

  /** Making a directory and deleting it again restores rows and disk. */
  lemma RemoveUndoesSave(w: World, row: Row)
    requires Inv(w) && Addable(w, row)
    ensures DirectoryRemove(AddRow(w, row), w.nextRow) == w.(nextRow := w.nextRow + 1)
  {
    NextRowIsNew(w);
    NewRowDeletes(w, row);
    NewDirectoryPrunes(w.disk, row.path);
  }

  /** Nothing hangs below a row that has just been added. */
  lemma NewRowStandsAlone(w: World, row: Row)
    requires Inv(w) && Addable(w, row) && w.nextRow !in w.rows
    ensures Doomed(AddRow(w, row).rows, {w.nextRow}) == {w.nextRow}
  {
    forall d | d in w.rows
      ensures w.rows[d].parent != Some(w.nextRow)
    {
      assert RowOk(w, d);
    }
    assert row.parent != Some(w.nextRow);
    assert Grow(AddRow(w, row).rows, {w.nextRow}) == {w.nextRow};
  }

  // ----- What the cascade is for -----

  /** A delete that takes the directory's own row only, and its subtree on disk. */
  function RemoveRowAlone(w: World, id: nat): World
    requires id in w.rows
  {
    w.(rows := w.rows - {id}, disk := Pruned(w.disk, w.rows[id].path))
  }

  ghost predicate HasChild(w: World, id: nat) {
    exists d :: d in w.rows && w.rows[d].parent == Some(id)
  }

  /**
   * The ON DELETE CASCADE of parent_id is what keeps the mirror: a delete that took the one row only
   * would keep it exactly when the directory has no child row.
   */
  lemma CascadeIsNeeded(w: World, id: nat)
    requires Inv(w) && id in w.rows
    ensures Inv(RemoveRowAlone(w, id)) <==> !HasChild(w, id)
    ensures Mirror(RemoveRowAlone(w, id)) <==> !HasChild(w, id)
  {
    if HasChild(w, id) {
      OrphanBreaksMirror(w, id);
    } else {
      ChildlessCascade(w, id);
      DirectoryRemoveKeepsInv(w, id);
    }
  }

  lemma AloneIsDoomed(rows: map<nat, Row>, id: nat)
    requires id in rows && forall d | d in rows :: rows[d].parent != Some(id)
    ensures Doomed(rows, {id}) == {id} && Without(rows, {id}) == rows - {id}
  {
    assert Grow(rows, {id}) == {id};
  }

  lemma ChildlessCascade(w: World, id: nat)
    requires Inv(w) && id in w.rows && !HasChild(w, id)
    ensures DirectoryRemove(w, id) == RemoveRowAlone(w, id)
  {
    AloneIsDoomed(w.rows, id);
    RowPathOnDisk(w, id);
    PrunedWhereItIs(w.disk, w.rows[id].path);
  }

  lemma OrphanBreaksMirror(w: World, id: nat)
    requires Inv(w) && id in w.rows && HasChild(w, id)
    ensures !Mirror(RemoveRowAlone(w, id))
  {
    var d :| d in w.rows && w.rows[d].parent == Some(id);
    RowPath(w, d);
    SubtreeOfChild(w.rows[id].path, Above(w, d), w.rows[d].name);
    var after := RemoveRowAlone(w, id);
    assert after.rows[d] == w.rows[d];
    assert IsRowPath(after, w.rows[d].path);
    assert !IsDir(after.disk, w.rows[d].path);
  }

  // ----- Names with a separator -----

  lemma SeparatorInside(a: string, b: string)
    ensures !Plain(Join(a, b))
  {
    assert Join(a, b)[|a|] == SEP;
  }

  lemma JoinIsAssociative(a: string, b: string, c: string)
    ensures Join(a, Join(b, c)) == Join(Join(a, b), c)
  {
  }

  /** A name with a separator in it passes every check and makes a directory inside its sibling. */
  lemma SlashedNameIsSaved(w: World, id: nat, below: string, owner: nat)
    requires Inv(w) && id in w.rows && owner in w.users && CanMkdir(w.disk, Join(w.rows[id].path, below))
    ensures var r := w.rows[id];
            DirectorySave(w, Join(r.name, below), owner, r.group, r.parent, READ)
              == (AddRow(w, Row(Join(r.name, below), InheritedPermission(w, r.parent, READ), Join(r.path, below), r.parent,
                                r.group, owner)), 0)
  {
    var r := w.rows[id];
    RowPath(w, id);
    JoinIsAssociative(Above(w, id), r.name, below);
    SeparatorInside(r.name, below);
    RoomIsMade(w.disk, Join(r.path, below));
    forall d | d in w.rows
      ensures w.rows[d].name != Join(r.name, below)
    {
      RowPath(w, d);
    }
  }

  /** The parent of a row lies above it. */
  lemma ParentIsNotBelow(w: World, id: nat)
    requires Inv(w) && id in w.rows && w.rows[id].parent.Some?
    ensures w.rows[id].parent.value !in RowsBelow(w, w.rows[id].path)
  {
    RowPath(w, id);
    LastSeparator(Above(w, id), w.rows[id].name);
  }

  /** Deleting the sibling then takes that directory from the disk and leaves its row. */
  lemma SlashedNameBreaksMirror(w: World, id: nat, below: string, owner: nat)
    requires Inv(w) && id in w.rows && owner in w.users && CanMkdir(w.disk, Join(w.rows[id].path, below))
    ensures var r := w.rows[id];
            var saved := DirectorySave(w, Join(r.name, below), owner, r.group, r.parent, READ).0;
            id in saved.rows && !Mirror(DirectoryRemove(saved, id))
  {
    var r := w.rows[id];
    var saved := DirectorySave(w, Join(r.name, below), owner, r.group, r.parent, READ).0;
    SlashedNameIsSaved(w, id, below, owner);
    NextRowIsNew(w);
    RowPathOnDisk(w, id);
    SlashedRowStays(w, id, saved);
    MkdirKeepsWellFormed(w.disk, Join(r.path, below));
    PrunedWhereItIs(saved.disk, r.path);
    var after, path := DirectoryRemove(saved, id), Join(r.path, below);
    assert after.rows[w.nextRow].path == path;
    assert IsRowPath(after, path);
    assert !IsDir(after.disk, path);
  }

  lemma SlashedRowStays(w: World, id: nat, saved: World)
    requires Inv(w) && id in w.rows && w.nextRow !in w.rows
    requires saved.rows.Keys == w.rows.Keys + {w.nextRow} && saved.rows[w.nextRow].parent == w.rows[id].parent
    requires forall d | d in w.rows :: saved.rows[d] == w.rows[d]
    ensures w.nextRow !in Doomed(saved.rows, {id})
  {
    var closed := RowsBelow(w, w.rows[id].path);
    BelowIsClosed(w, w.rows[id].path);
    if w.rows[id].parent.Some? {
      ParentIsNotBelow(w, id);
    }
    forall d | d in Grow(saved.rows, closed)
      ensures d in closed
    {
      assert d in w.rows ==> d in Grow(w.rows, closed);
    }
    assert Grow(saved.rows, closed) == closed;
    DoomedIsLeast(saved.rows, {id}, closed);
  }

  /** A name with a separator, cut at the first one. */
  lemma FirstComponent(name: string) returns (first: string, rest: string)
    requires !Plain(name)
    ensures Plain(first) && name == Join(first, rest)
    decreases |name|
  {
    if name[0] == SEP {
      first, rest := "", name[1..];
    } else {
      var f, r := FirstComponent(name[1..]);
      first, rest := [name[0]] + f, r;
      assert name == [name[0]] + name[1..];
    }
  }

  /** The directory that such a name runs through has a row, next to the one the new row gets. */
  lemma SiblingOfSlashedName(w: World, first: string, rest: string, group: nat, parent: Option<nat>) returns (id: nat)
    requires Inv(w) && Plain(first) && group in w.groups
    requires parent.Some? ==> parent.value in w.rows && w.rows[parent.value].group == group
    requires CanMkdir(w.disk, Join(Place(w, group, parent), Join(first, rest)))
    ensures id in w.rows && w.rows[id].name == first && w.rows[id].group == group && w.rows[id].parent == parent
    ensures w.rows[id].path == Join(Place(w, group, parent), first)
  {
    var place := Place(w, group, parent);
    var through, path := Join(place, first), Join(place, Join(first, rest));
    JoinIsAssociative(place, first, rest);
    MkdirKeepsWellFormed(w.disk, path);
    AncestorsExist(w.disk[path := Dir], through, path);
    SeparatorInside(place, first);
    assert !IsCode(w, through) && IsDir(w.disk, through);
    id :| id in w.rows && w.rows[id].path == through;
    RowPath(w, id);
    JoinIsInjective(Above(w, id), w.rows[id].name, place, first);
    SamePlaceSameParent(w, id, group, parent);
  }

  /** Where a row hangs is determined by the directory it is in. */
  lemma SamePlaceSameParent(w: World, id: nat, group: nat, parent: Option<nat>)
    requires Inv(w) && id in w.rows && RowOk(w, id) && group in w.groups
    requires parent.Some? ==> parent.value in w.rows && w.rows[parent.value].group == group
    requires Above(w, id) == Place(w, group, parent)
    ensures w.rows[id].group == group && w.rows[id].parent == parent
  {
    if parent.Some? {
      RowPath(w, parent.value);
    }
    if w.rows[id].parent.Some? {
      RowPath(w, w.rows[id].parent.value);
    }
  }

  /** A directory made elsewhere than its row says is missing from the mirror at once. */
  lemma MisspeltBreaksMirror(w: World, row: Row, at: string)
    requires Inv(w) && MkdirTarget(w.disk, row.path) == Some(at) && at != row.path
    ensures !Mirror(AddRowAt(w, row, at))
  {
    var saved := AddRowAt(w, row, at);
    if row.path in w.disk {
      EntryIsFound(w.disk, row.path);
    }
    assert saved.rows[w.nextRow].path == row.path;
    assert IsRowPath(saved, row.path);
  }

  /** A slashed name the kernel takes literally breaks the mirror with the deletion of a sibling. */
  lemma LiteralSlashBreaksMirror(w: World, name: string, group: nat, parent: Option<nat>, user: nat) returns (id: nat)
    requires Inv(w) && Makes(w, Some(name), Some(group), parent, Some(user)) && !Plain(name)
    requires MkdirTarget(w.disk, Join(Place(w, group, parent), name)) == Some(Join(Place(w, group, parent), name))
    ensures var saved := MakeDirectory(w, Some(name), Some(group), parent, Some(user)).0;
            id in saved.rows && !Mirror(DirectoryRemove(saved, id))
  {
    var first, rest := FirstComponent(name);
    MkdirMakesRoom(w.disk, Join(Place(w, group, parent), name));
    id := SiblingOfSlashedName(w, first, rest, group, parent);
    JoinIsAssociative(Place(w, group, parent), first, rest);
    SlashedNameIsSaved(w, id, rest, user);
    SlashedNameBreaksMirror(w, id, rest, user);
    MakeAdds(w, name, group, parent, user);
  }

  /**
   * For every name make_directory manages to save, "." and ".." and empty components included: the
   * disk is mirrored, and is so after the deletion of any one directory, if and only if the name has
   * no separator in it.
   */
  lemma SavedNameIff(w: World, name: string, group: nat, parent: Option<nat>, user: nat)
    requires Inv(w) && Makes(w, Some(name), Some(group), parent, Some(user))
    ensures var saved := MakeDirectory(w, Some(name), Some(group), parent, Some(user)).0;
            (Mirror(saved) && forall id | id in saved.rows :: Mirror(DirectoryRemove(saved, id))) <==> Plain(name)
  {
    var saved := MakeDirectory(w, Some(name), Some(group), parent, Some(user)).0;
    var path := Join(Place(w, group, parent), name);
    if Plain(name) {
      MakeIff(w, Some(name), Some(group), parent, Some(user));
      forall id | id in saved.rows
        ensures Mirror(DirectoryRemove(saved, id))
      {
        DirectoryRemoveKeepsInv(saved, id);
      }
    } else if MkdirTarget(w.disk, path) == Some(path) {
      var id := LiteralSlashBreaksMirror(w, name, group, parent, user);
      assert id in saved.rows && !Mirror(DirectoryRemove(saved, id));
    } else {
      MakeAdds(w, name, group, parent, user);
      MisspeltBreaksMirror(w, Row(name, InheritedPermission(w, parent, READ), path, parent, group, user),
                           MkdirTarget(w.disk, path).value);
    }
  }

  // ----- A reachable state in which a file request breaks the mirror -----

  /** A user, a group of theirs with the given code, and one empty directory in it. */
  ghost function Setup(user: nat, title: string, code: string, name: string): seq<Op> {
    [Register(user), Create(Some(title), Some(user), code), Make(Some(name), Some(1), None, Some(user))]
  }

  /** The world after the first one, two or three of these. */
  function WithUser(user: nat): World {
    World({user}, map[], {}, map[], map[], 1, 1)
  }

  function WithGroup(user: nat, title: string, code: string): World {
    World({user}, map[1 := GroupRow(title, code, user)], {(1, user)}, map[], map[code := Dir], 2, 1)
  }

  function WithDirectory(user: nat, title: string, code: string, name: string): World {
    World({user}, map[1 := GroupRow(title, code, user)], {(1, user)},
          map[1 := Row(name, READ, Join(code, name), None, 1, user)],
          map[code := Dir, Join(code, name) := Dir], 2, 2)
  }

  lemma GroupIsMade(user: nat, title: string, code: string)
    requires Usable(code)
    ensures CreateGroup(WithUser(user), Some(title), Some(user), code).0 == WithGroup(user, title, code)
  {
    SplitPlain(code);
    RoomIsMade(WithUser(user).disk, code);
  }

  lemma RoomInGroup(code: string, name: string)
    requires Usable(code) && Usable(name)
    ensures MkdirTarget(map[code := Dir], Join(code, name)) == Some(Join(code, name))
  {
    SplitPlain(code);
    SplitJoin(code, name);
    SeparatorInside(code, name);
    assert code != Join(code, name);
    RoomIsMade(map[code := Dir], Join(code, name));
  }

  lemma DirectoryIsMade(user: nat, title: string, code: string, name: string)
    requires Usable(code) && Usable(name)
    ensures MakeDirectory(WithGroup(user, title, code), Some(name), Some(1), None, Some(user)).0
            == WithDirectory(user, title, code, name)
  {
    var w := WithGroup(user, title, code);
    RoomInGroup(code, name);
    assert PathFor(w, name, 1, None) == Some(Join(code, name));
    assert InsertAllowed(w, name, user, 1, None);
  }

  lemma AfterSetup(user: nat, title: string, code: string, name: string)
    requires Usable(code) && Usable(name)
    ensures Run(EMPTY, Setup(user, title, code, name)) == WithDirectory(user, title, code, name)
    ensures AllSafe(EMPTY, Setup(user, title, code, name)) && AllInModel(EMPTY, Setup(user, title, code, name))
  {
    var ops := Setup(user, title, code, name);
    GroupIsMade(user, title, code);
    DirectoryIsMade(user, title, code, name);
    NameStays(code, name);
    LastOfSetup(user, title, code, name);
    assert ops[1..][0] == ops[1] && ops[1..][1..] == ops[2..];
    assert Apply(EMPTY, ops[0]) == WithUser(user) && Apply(WithUser(user), ops[1]) == WithGroup(user, title, code);
  }

  lemma LastOfSetup(user: nat, title: string, code: string, name: string)
    requires Usable(code) && Usable(name) && Stays(Join(code, name))
    requires MakeDirectory(WithGroup(user, title, code), Some(name), Some(1), None, Some(user)).0
             == WithDirectory(user, title, code, name)
    ensures var w, ops := WithGroup(user, title, code), Setup(user, title, code, name)[2..];
            AllSafe(w, ops) && AllInModel(w, ops) && Run(w, ops) == WithDirectory(user, title, code, name)
  {
    var op := Make(Some(name), Some(1), None, Some(user));
    assert Setup(user, title, code, name)[2..] == [op];
    assert [op][1..] == [];
    assert Apply(WithGroup(user, title, code), op) == WithDirectory(user, title, code, name);
  }

  lemma NameStays(code: string, name: string)
    requires Usable(code) && Usable(name)
    ensures Stays(Join(code, name))
  {
    SplitPlain(code);
    SplitJoin(code, name);
  }

  lemma LoneDirectoryIsEmpty(code: string, name: string)
    requires Plain(code) && Plain(name)
    ensures IsEmptyDir(map[code := Dir, Join(code, name) := Dir], Join(code, name))
  {
    SplitPlain(code);
    SplitJoin(code, name);
    SeparatorInside(code, name);
    assert code != Join(code, name);
  }

  lemma ThroughItself(t: Tree, parent: string, dot: string)
    requires dot == "" || dot == "."
    ensures LookupDir(t, Join(parent, dot)) == LookupDir(t, parent)
  {
    SplitJoin(parent, dot);
  }

  lemma TargetIn(t: Tree, parent: string, at: string, name: string)
    requires Usable(name) && LookupDir(t, parent) == Some(at)
    ensures Target(t, Join(parent, name)) == Some(Under(at, name))
  {
    SplitJoin(parent, name);
    NoTrailing(parent, name);
  }

  lemma TargetBehind(t: Tree, p: string)
    ensures Target(t, Join(p, "")) == Target(t, p)
  {
    TrailingSeparator(p);
  }

  lemma TargetHits(t: Tree, path: string, at: string)
    requires Target(t, path) == Some(at) && IsEmptyDir(t, at)
    ensures HitsEmptyDir(t, path)
  {
  }

  /** An empty directory is reached by its path, and as well with separators behind or a "." before its name. */
  lemma OtherSpellingsHit(t: Tree, parent: string, name: string, dot: string)
    requires WellFormed(t) && Usable(name) && IsDir(t, parent) && IsEmptyDir(t, Join(parent, name))
    requires dot == "" || dot == "."
    ensures HitsEmptyDir(t, Join(parent, name)) && HitsEmptyDir(t, Join(Join(parent, name), ""))
    ensures HitsEmptyDir(t, Join(Join(parent, dot), name))
  {
    var at := Join(parent, name);
    EntryIsFound(t, parent);
    assert Under(parent, name) == at;
    TargetIn(t, parent, parent, name);
    TargetHits(t, at, at);
    TargetBehind(t, at);
    TargetHits(t, Join(at, ""), at);
    ThroughItself(t, parent, dot);
    TargetIn(t, Join(parent, dot), parent, name);
    TargetHits(t, Join(Join(parent, dot), name), at);
  }

  lemma SaveRemoves(w: World, path: string, other: nat)
    requires RemoveTarget(w.disk, path).Some?
    ensures Apply(w, Save(path, false, Some(other))) == w.(disk := RemovedAt(w.disk, path))
  {
  }

  lemma SaveOnEmptyDirectory(w: World, path: string, other: nat)
    requires Inv(w) && IsEmptyDir(w.disk, path)
    ensures !Mirror(Apply(w, Save(path, false, Some(other))))
  {
    EntryIsFound(w.disk, path);
    SaveRemoves(w, path, other);
    RemoveIff(w, path);
  }

  /** Any logged-in user can then make the directory vanish from disk, with its row left behind. */
  lemma SaveOnDirectoryBreaksMirror(user: nat, title: string, code: string, name: string, other: nat)
    requires Usable(code) && Usable(name)
    ensures var w := Run(EMPTY, Setup(user, title, code, name));
            Inv(w) && !Mirror(Apply(w, Save(Join(code, name), false, Some(other))))
  {
    AfterSetup(user, title, code, name);
    MirrorAlways(Setup(user, title, code, name));
    LoneDirectoryIsEmpty(code, name);
    SaveOnEmptyDirectory(Run(EMPTY, Setup(user, title, code, name)), Join(code, name), other);
  }
}
