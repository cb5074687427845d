/** What each request answers and does, for every combination of its arguments, told without the handlers' code. */
module DirectoryAnswers {
  import opened Optional
  import opened Disk
  import opened Lookup
  import opened World
  import opened DirectoryTree
  import opened DirectoryExact

  // ----- Groups -----

  /** One new group with its folder and its owner as a member, and nothing else. */
  ghost predicate GroupMade(w: World, name: string, code: string, owner: nat, w': World) {
    && w.nextGroup !in w.groups
    && (forall h :: h in w'.groups <==> h in w.groups || h == w.nextGroup)
    && (forall h | h in w.groups :: w'.groups[h] == w.groups[h])
    && w'.groups[w.nextGroup].name == name && w'.groups[w.nextGroup].code == code && w'.groups[w.nextGroup].owner == owner
    && (forall m :: m in w'.members <==> m in w.members || m == (w.nextGroup, owner))
    && w'.rows == w.rows && w'.users == w.users && w'.nextRow == w.nextRow && w'.nextGroup == w.nextGroup + 1
    && code !in w.disk && w'.disk == w.disk[code := Dir]
  }

  /** Nothing has changed but the next key, which a failed insert may use up. */
  predicate OnlyKeyUsed(w: World, w': World) {
    w' == w || w' == w.(nextGroup := w.nextGroup + 1)
  }

  /** What a new group needs: a user, a name and a code no group has, and room for the folder. */
  predicate GroupPossible(w: World, name: string, code: string, owner: nat) {
    && owner in w.users && Usable(code) && code !in w.disk
    && (forall g | g in w.groups :: w.groups[g].name != name)
    && (forall g | g in w.groups :: w.groups[g].code != code)
  }

  lemma CodeHasRoom(w: World, code: string)
    requires Inv(w) && Plain(code)
    ensures CanMkdir(w.disk, code) <==> Usable(code) && code !in w.disk
    ensures MkdirTarget(w.disk, code) == if CanMkdir(w.disk, code) then Some(code) else None
  {
    SplitPlain(code);
    PlainMkdirAtTop(w.disk, code);
  }

  lemma GroupIsSaved(w: World, name: string, code: string, owner: nat)
    requires Inv(w) && Plain(code)
    ensures var (w', r) := GroupSave(w, name, code, owner);
            if GroupPossible(w, name, code, owner) then r == 0 && GroupMade(w, name, code, owner, w')
            else r == -1 && OnlyKeyUsed(w, w')
  {
    CodeHasRoom(w, code);
    NextGroupIsNew(w);
    GroupSaveCases(w, name, code, owner);
  }

  /** create_group. */
  lemma CreateAnswers(w: World, name: Option<string>, user: Option<nat>, code: string)
    requires Inv(w) && Plain(code)
    ensures var (w', status) := CreateGroup(w, name, user, code);
            && (name.None? ==> status == 422 && w' == w)
            && (name.Some? && user.None? ==> status == 401 && w' == w)
            && (name.Some? && user.Some? ==>
                  if GroupPossible(w, name.value, code, user.value)
                  then status == 200 && GroupMade(w, name.value, code, user.value, w')
                  else status == 500 && OnlyKeyUsed(w, w'))
  {
    if name.Some? && user.Some? {
      GroupIsSaved(w, name.value, code, user.value);
    }
  }

  predicate HasCode(w: World, g: nat, code: string) {
    g in w.groups && w.groups[g].code == code
  }

  lemma FoundByCode(w: World, g: nat, code: string)
    requires Inv(w) && HasCode(w, g, code)
    ensures GroupByCode(w, code) == Some(g)
  {
  }

  /** delete_group: only the owner of the group with that code can, and then exactly that group goes. */
  lemma DeleteAnswers(w: World, code: Option<string>, user: Option<nat>)
    requires Inv(w)
    ensures var (w', status) := DeleteGroup(w, code, user);
            && (status != 200 ==> w' == w)
            && (code.None? ==> status == 422)
            && (code.Some? && user.None? ==> status == 401)
            && (code.Some? && user.Some? && (forall g: nat :: !HasCode(w, g, code.value)) ==> status == 404)
            && (code.Some? && user.Some? ==>
                  forall g: nat | HasCode(w, g, code.value) ::
                    if w.groups[g].owner == user.value then status == 200 && GroupGone(w, g, w') else status == 403)
  {
    if code.Some? && user.Some? {
      forall g: nat | HasCode(w, g, code.value)
        ensures GroupByCode(w, code.value) == Some(g) && GroupGone(w, g, GroupRemove(w, g, code.value))
      {
        FoundByCode(w, g, code.value);
        GroupRemoveIsExact(w, g);
      }
      assert GroupByCode(w, code.value).Some? ==> HasCode(w, GroupByCode(w, code.value).value, code.value);
    }
  }

  // ----- Members -----

  /** Members are those given, and nothing else has changed. */
  ghost predicate MembersNow(w: World, w': World, members: set<(nat, nat)>) {
    && w'.members == members
    && w'.groups == w.groups && w'.users == w.users && w'.rows == w.rows && w'.disk == w.disk
    && w'.nextGroup == w.nextGroup && w'.nextRow == w.nextRow
  }

  /** join_group: anyone with the code becomes a member, once. */
  lemma JoinAnswers(w: World, code: Option<string>, user: Option<nat>)
    requires Inv(w)
    ensures var (w', status) := JoinGroup(w, code, user);
            && (status != 200 ==> w' == w)
            && (code.None? ==> status == 422)
            && (code.Some? && user.None? ==> status == 401)
            && (code.Some? && user.Some? && (forall g: nat :: !HasCode(w, g, code.value)) ==> status == 404)
            && (code.Some? && user.Some? ==>
                  forall g: nat | HasCode(w, g, code.value) ::
                    if (g, user.value) in w.members then status == 403
                    else if user.value !in w.users then status == 500
                    else status == 200 && MembersNow(w, w', w.members + {(g, user.value)}))
  {
    if code.Some? && user.Some? {
      forall g: nat | HasCode(w, g, code.value)
        ensures GroupByCode(w, code.value) == Some(g)
      {
        FoundByCode(w, g, code.value);
      }
      assert GroupByCode(w, code.value).Some? ==> HasCode(w, GroupByCode(w, code.value).value, code.value);
    }
  }

  /** leave_group: a member leaves that group and no other. */
  lemma LeaveAnswers(w: World, code: Option<string>, user: Option<nat>)
    requires Inv(w)
    ensures var (w', status) := LeaveGroup(w, code, user);
            && (status != 200 ==> w' == w)
            && (code.None? ==> status == 422)
            && (code.Some? && user.None? ==> status == 401)
            && (code.Some? && user.Some? && (forall g: nat :: !HasCode(w, g, code.value)) ==> status == 404)
            && (code.Some? && user.Some? ==>
                  forall g: nat | HasCode(w, g, code.value) ::
                    if (g, user.value) in w.members
                    then status == 200 && MembersNow(w, w', w.members - {(g, user.value)})
                    else status == 403)
  {
    if code.Some? && user.Some? {
      forall g: nat | HasCode(w, g, code.value)
        ensures GroupByCode(w, code.value) == Some(g)
      {
        FoundByCode(w, g, code.value);
      }
      assert GroupByCode(w, code.value).Some? ==> HasCode(w, GroupByCode(w, code.value).value, code.value);
    }
  }

  /** kick_member_group: the owner, and nobody else, takes one member out. */
  lemma KickAnswers(w: World, code: Option<string>, member: Option<nat>, user: Option<nat>)
    requires Inv(w)
    ensures var (w', status) := KickMember(w, code, member, user);
            && (status != 200 ==> w' == w)
            && (code.None? || member.None? ==> status == 422)
            && (code.Some? && member.Some? && user.None? ==> status == 401)
            && (code.Some? && member.Some? && user.Some? && (forall g: nat :: !HasCode(w, g, code.value)) ==> status == 404)
            && (code.Some? && member.Some? && user.Some? ==>
                  forall g: nat | HasCode(w, g, code.value) ::
                    if w.groups[g].owner != user.value then status == 403
                    else if member.value !in w.users then status == 404
                    else if (g, member.value) !in w.members then status == 400
                    else status == 200 && MembersNow(w, w', w.members - {(g, member.value)}))
  {
    if code.Some? && user.Some? {
      forall g: nat | HasCode(w, g, code.value)
        ensures GroupByCode(w, code.value) == Some(g)
      {
        FoundByCode(w, g, code.value);
      }
      assert GroupByCode(w, code.value).Some? ==> HasCode(w, GroupByCode(w, code.value).value, code.value);
    }
  }

  // ----- Directories -----

  /** The parent, if there is one, is a directory of the group. */
  predicate ParentFits(w: World, group: nat, parent: Option<nat>) {
    parent.Some? ==> parent.value in w.rows && w.rows[parent.value].group == group
  }

  /** make_directory: every refusal, in terms of the request and the world alone; MakeIsExact has the effect. */
  lemma MakeAnswers(w: World, name: Option<string>, group: Option<nat>, parent: Option<nat>, user: Option<nat>)
    requires Inv(w)
    ensures var (w', status) := MakeDirectory(w, name, group, parent, user);
            && (status != 200 ==> w' == w)
            && (status == 422 <==> name.None? || group.None?)
            && (status == 404 <==> name.Some? && group.Some? && group.value !in w.groups)
            && (status == 401 <==> name.Some? && group.Some? && group.value in w.groups
                                   && ParentFits(w, group.value, parent) && user.None?)
            && (status == 403 <==> name.Some? && group.Some? && group.value in w.groups
                                   && (!ParentFits(w, group.value, parent)
                                       || (user.Some? && (group.value, user.value) !in w.members)))
            && (status == 200 <==> Makes(w, name, group, parent, user))
            && status in {200, 401, 403, 404, 422, 500}
  {
    if name.Some? && group.Some? && user.Some? {
      MakeAdds(w, name.value, group.value, parent, user.value);
    }
  }

  /** delete_directory: only its owner can, and then exactly that subtree goes. */
  lemma DropAnswers(w: World, id: Option<nat>, user: Option<nat>)
    requires Inv(w)
    ensures var (w', status) := DeleteDirectory(w, id, user);
            && (status != 200 ==> w' == w)
            && (id.None? ==> status == 422)
            && (id.Some? && user.None? ==> status == 401)
            && (id.Some? && user.Some? && id.value !in w.rows ==> status == 404)
            && (id.Some? && user.Some? && id.value in w.rows ==>
                  if w.rows[id.value].owner == user.value then status == 200 && DirectoryGone(w, id.value, w') else status == 403)
  {
    if id.Some? && id.value in w.rows {
      DirectoryRemoveIsExact(w, id.value);
    }
  }

  /** One row has the new permission, and nothing else has changed. */
  ghost predicate PermissionSet(w: World, id: nat, permission: int, w': World)
    requires id in w.rows
  {
    && w'.rows.Keys == w.rows.Keys && (forall d | d in w.rows && d != id :: w'.rows[d] == w.rows[d])
    && w'.rows[id].permission == permission
    && w'.rows[id].name == w.rows[id].name && w'.rows[id].path == w.rows[id].path && w'.rows[id].parent == w.rows[id].parent
    && w'.rows[id].group == w.rows[id].group && w'.rows[id].owner == w.rows[id].owner
    && w'.groups == w.groups && w'.members == w.members && w'.users == w.users && w'.disk == w.disk
    && w'.nextGroup == w.nextGroup && w'.nextRow == w.nextRow
  }

  /** update_directory: only its owner can, and only the permission changes. */
  lemma UpdateAnswers(w: World, id: Option<nat>, permission: Option<int>, user: Option<nat>)
    ensures var (w', status) := UpdateDirectory(w, id, permission, user);
            && (status != 200 ==> w' == w)
            && (id.None? || permission.None? ==> status == 422)
            && (id.Some? && permission.Some? && user.None? ==> status == 401)
            && (id.Some? && permission.Some? && user.Some? && id.value !in w.rows ==> status == 404)
            && (id.Some? && permission.Some? && user.Some? && id.value in w.rows ==>
                  if w.rows[id.value].owner == user.value
                  then status == 200 && PermissionSet(w, id.value, permission.value, w')
                  else status == 403)
  {
  }

  // ----- Inserting where the invariant no longer helps -----

  /** A second directory of the same name in the same parent is refused, with the new directory left on disk. */
  lemma DuplicateIsRefused(w: World, d: nat, owner: nat, permission: int)
    requires d in w.rows && w.rows[d].parent.Some?
    ensures var (w', r) := DirectorySave(w, w.rows[d].name, owner, w.rows[d].group, w.rows[d].parent, permission);
            r == -1 && w'.rows == w.rows && w'.nextRow == w.nextRow
  {
  }

  /** Where there is no parent the database sees no duplicate: mkdir alone decides. */
  lemma NullParentNeverCollides(w: World, name: string, owner: nat, group: nat, permission: int)
    requires group in w.groups && owner in w.users
    ensures DirectorySave(w, name, owner, group, None, permission).1 == 0
            <==> MkdirTarget(w.disk, Join(w.groups[group].code, name)).Some?
  {
  }

  // ----- Files -----

  /** What remove does to the entry it finds: a file or an empty directory goes, a full directory stays. */
  lemma RemovedIsExact(t: Tree, p: string)
    ensures forall q :: q in Removed(t, p) <==> q in t && !(q == p && (t[p] == File || Children(t, p) == {}))
    ensures forall q | q in Removed(t, p) :: Removed(t, p)[q] == t[q]
  {
  }

  /** A file is found and removed by its path, but not with a separator behind it. */
  lemma FileByItsPath(t: Tree, p: string)
    requires WellFormed(t) && p in t && t[p] == File
    ensures Exists(t, p) && RemovedAt(t, p) == t - {p} && CreateTarget(t, p) == None
    ensures RemovedAt(t, Join(p, "")) == t
  {
    EntryIsFound(t, p);
    TrailingSeparator(p);
    assert Trimmed(Join(p, "")) != Join(p, "");
  }

  lemma DirectoryIsThere(t: Tree, p: string)
    requires WellFormed(t) && IsDir(t, p)
    ensures Exists(t, p) && CreateTarget(t, p) == None
  {
    EntryIsFound(t, p);
  }

  /** Where there is room for an entry nothing is found, and a file can be created. */
  lemma RoomIsEmpty(t: Tree, p: string)
    requires WellFormed(t) && CanMkdir(t, p)
    ensures !Exists(t, p) && RemovedAt(t, p) == t && CreateTarget(t, p) == Some(p)
  {
    EntryIsFound(t, p);
    PathIsSplit(p);
    if Dirname(p).Some? {
      EntryIsFound(t, Dirname(p).value);
    }
  }

  /** save_file: the path has to exist, and goes only when the insert fails. */
  lemma SaveAnswers(w: World, path: string, inserted: bool, user: Option<nat>)
    ensures var (w', status) := SaveFile(w, path, inserted, user);
            && (user.None? ==> status == 401) && (user.Some? && !Exists(w.disk, path) ==> status == 400)
            && (user.Some? && Exists(w.disk, path) ==> status == if inserted then 200 else 500)
            && (status != 500 ==> w' == w)
            && (status == 500 ==> w' == w.(disk := RemovedAt(w.disk, path)))
  {
  }

  /** A file that arrives is added where there is room for it, and nothing else changes. */
  lemma UploadIsExact(w: World, path: string)
    requires Inv(w)
    ensures CanMkdir(w.disk, path) ==> UploadFile(w, path) == w.(disk := w.disk[path := File])
    ensures path in w.disk ==> UploadFile(w, path) == w
  {
    if CanMkdir(w.disk, path) {
      RoomIsEmpty(w.disk, path);
    }
    if path in w.disk {
      EntryIsFound(w.disk, path);
    }
  }
}
