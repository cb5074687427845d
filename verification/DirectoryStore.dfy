/** The model objects of src/model/directory.c and src/model/group.c at work on one database and one disk. */
module DirectoryStore {
  import opened Optional
  import opened Disk
  import opened Lookup
  import opened FileSystem
  import opened World
  import opened DirectoryTree

  /** The database, one method a statement, and the disk beside it. */
  class Store {
    var users: set<nat>
    var groups: map<nat, GroupRow>
    var members: set<(nat, nat)>
    var rows: map<nat, Row>
    var nextGroup: nat
    var nextRow: nat
    const disk: FileSystem

    constructor ()
      ensures Abs() == EMPTY && fresh(disk)
    {
      users, groups, members, rows := {}, map[], {}, map[];
      nextGroup, nextRow := 1, 1;
      disk := new FileSystem();
    }

    ghost function Abs(): World
      reads this, disk
    {
      World(users, groups, members, rows, disk.tree, nextGroup, nextRow)
    }

    /** INSERT INTO groups; the key is the one sqlite3_last_insert_rowid reports. */
    method InsertGroup(name: string, code: string, owner: nat) returns (ok: bool, id: nat)
      modifies this
      ensures ok == GroupInsertAllowed(old(Abs()), name, code, owner) && id == old(nextGroup)
      ensures Abs() == if ok
                       then old(Abs()).(groups := old(groups)[id := GroupRow(name, code, owner)], nextGroup := id + 1)
                       else old(Abs())
    {
      id := nextGroup;
      ok := owner in users && forall g | g in groups :: groups[g].name != name && groups[g].code != code;
      if ok {
        groups, nextGroup := groups[id := GroupRow(name, code, owner)], id + 1;
      }
    }

    /** INSERT INTO group_members. */
    method InsertMember(group: nat, user: nat) returns (ok: bool)
      modifies this
      ensures ok == ((group, user) !in old(members))
      ensures Abs() == if ok then old(Abs()).(members := old(members) + {(group, user)}) else old(Abs())
    {
      ok := (group, user) !in members;
      if ok {
        members := members + {(group, user)};
      }
    }

    /** DELETE FROM group_members. */
    method DeleteMember(group: nat, user: nat)
      modifies this
      ensures Abs() == old(Abs()).(members := old(members) - {(group, user)})
    {
      members := members - {(group, user)};
    }

    /** DELETE FROM groups. */
    method DeleteGroup(id: nat)
      modifies this
      ensures Abs() == DeleteGroupRow(old(Abs()), id)
    {
      if id in groups {
        groups := groups - {id};
        members := set m | m in members && m.0 != id;
        rows := Without(rows, Doomed(rows, RowsOfGroup(rows, id)));
      }
    }

    /** INSERT INTO directories. */
    method InsertDirectory(row: Row) returns (ok: bool, id: nat)
      modifies this
      ensures ok == InsertAllowed(old(Abs()), row.name, row.owner, row.group, row.parent) && id == old(nextRow)
      ensures Abs() == if ok then old(Abs()).(rows := old(rows)[id := row], nextRow := id + 1) else old(Abs())
    {
      id := nextRow;
      ok := row.group in groups && row.owner in users && (row.parent.Some? ==> row.parent.value in rows)
            && (row.parent.Some? ==>
                  forall d | d in rows && rows[d].name == row.name && rows[d].group == row.group :: rows[d].parent != row.parent);
      if ok {
        rows, nextRow := rows[id := row], id + 1;
      }
    }

    /** DELETE FROM directories. */
    method DeleteDirectory(id: nat)
      modifies this
      ensures Abs() == DeleteRow(old(Abs()), id)
    {
      if id in rows {
        rows := Without(rows, Doomed(rows, {id}));
      }
    }

    /** UPDATE directories. */
    method UpdatePermission(id: nat, permission: int)
      modifies this
      ensures Abs() == if id in old(rows) then DirectoryUpdate(old(Abs()), id, permission) else old(Abs())
    {
      if id in rows {
        rows := rows[id := rows[id].(permission := permission)];
      }
    }

    /** The directory object built from a row. */
    method FindDirectory(id: nat) returns (found: Option<Directory>)
      ensures found.Some? <==> id in rows
      ensures found.Some? ==> fresh(found.value) && found.value.id == id && found.value.Holds(rows[id])
    {
      if id !in rows {
        return None;
      }
      var directory := new Directory(rows[id].name, rows[id].owner, rows[id].group, rows[id].parent);
      directory.id, directory.path, directory.permission := id, rows[id].path, rows[id].permission;
      found := Some(directory);
    }

    /** group_find_by_code. */
    method FindByCode(code: string) returns (found: Option<nat>)
      ensures found.Some? ==> found.value in groups && groups[found.value].code == code
      ensures found.None? ==> forall g | g in groups :: groups[g].code != code
    {
      if g :| g in groups && groups[g].code == code {
        return Some(g);
      }
      found := None;
    }
  }

  class Group {
    const name: string
    const owner: nat
    var id: nat
    var code: string

    constructor (name: string, owner: nat)
      ensures this.name == name && this.owner == owner
    {
      this.name, this.owner, code := name, owner, "";
    }

    /** group_save: insert the row, make the folder, join the owner; undo the row when a step fails. */
    method Save(store: Store, drawn: string) returns (r: int)
      modifies this, store, store.disk
      ensures (store.Abs(), r) == GroupSave(old(store.Abs()), name, drawn, owner)
      ensures r == 0 ==> id == old(store.nextGroup) && code == drawn
    {
      var ok, last := store.InsertGroup(name, drawn, owner);
      if !ok {
        return -1;
      }
      id, code := last, drawn;
      var made := store.disk.CreateDirectory(code);
      if made != 0 {
        store.DeleteGroup(id);
        return -1;
      }
      ok := store.InsertMember(id, owner);
      if !ok {
        store.DeleteGroup(id);
        return -1;
      }
      r := 0;
    }

    /** group_remove. */
    method Remove(store: Store) returns (r: int)
      requires WellFormed(store.disk.tree)
      modifies store, store.disk
      ensures r == 0 && store.Abs() == GroupRemove(old(store.Abs()), id, code)
    {
      store.DeleteGroup(id);
      var removed := store.disk.RemoveDirectoryAt(code);
      r := 0;
    }
  }

  class Directory {
    const name: string
    const owner: nat
    const group: nat
    const parent: Option<nat>
    var permission: int
    var path: string
    var id: nat

    constructor (name: string, owner: nat, group: nat, parent: Option<nat>)
      ensures this.name == name && this.owner == owner && this.group == group && this.parent == parent
      ensures permission == READ
    {
      this.name, this.owner, this.group, this.parent := name, owner, group, parent;
      permission, path := READ, "";
    }

    /** The object carries what the row says. */
    predicate Holds(row: Row)
      reads this
    {
      row == Row(name, permission, path, parent, group, owner)
    }

    /** The first half of directory_save: work out permission and path. */
    method FindPath(store: Store) returns (ok: bool)
      modifies this
      ensures ok == PathFor(store.Abs(), name, group, parent).Some?
      ensures ok ==> path == PathFor(store.Abs(), name, group, parent).value
      ensures permission == InheritedPermission(store.Abs(), parent, old(permission))
      ensures id == old(id)
    {
      if parent.Some? {
        if parent.value !in store.rows {
          return false;
        }
        permission := store.rows[parent.value].permission;
        path := Join(store.rows[parent.value].path, name);
      } else {
        if group !in store.groups {
          return false;
        }
        path := Join(store.groups[group].code, name);
      }
      ok := true;
    }

    /** directory_save. */
    method Save(store: Store) returns (r: int)
      modifies this, store, store.disk
      ensures (store.Abs(), r) == DirectorySave(old(store.Abs()), name, owner, group, parent, old(permission))
      ensures r == 0 ==> id == old(store.nextRow) && id in store.rows && Holds(store.rows[id])
    {
      var ok := FindPath(store);
      if !ok {
        return -1;
      }
      var made := store.disk.CreateDirectory(path);
      if made != 0 {
        return -1;
      }
      var inserted, last := store.InsertDirectory(Row(name, permission, path, parent, group, owner));
      if !inserted {
        return -1;
      }
      id := last;
      r := 0;
    }

    /** directory_remove. */
    method Remove(store: Store) returns (r: int)
      requires id in store.rows && Holds(store.rows[id])
      requires WellFormed(store.disk.tree)
      modifies store, store.disk
      ensures r == 0 && store.Abs() == DirectoryRemove(old(store.Abs()), id)
    {
      store.DeleteDirectory(id);
      var removed := store.disk.RemoveDirectoryAt(path);
      r := 0;
    }

    /** directory_update. */
    method Update(store: Store) returns (r: int)
      requires id in store.rows
      modifies store
      ensures r == 0 && store.Abs() == DirectoryUpdate(old(store.Abs()), id, permission)
    {
      store.UpdatePermission(id, permission);
      r := 0;
    }
  }
}

/** The request handlers of directory_controller.c and group_controller.c, guard by guard. */
module Controllers {
  import opened Optional
  import opened Disk
  import opened Lookup
  import opened DirectoryTree
  import opened DirectoryStore
  import W = World

  /** make_directory. */
  method MakeDirectory(store: Store, name: Option<string>, group: Option<nat>, parent: Option<nat>, user: Option<nat>)
    returns (status: int)
    requires Inv(store.Abs())
    modifies store, store.disk
    ensures (store.Abs(), status) == W.MakeDirectory(old(store.Abs()), name, group, parent, user)
    ensures Inv(store.Abs()) <==> Safe(old(store.Abs()), W.Make(name, group, parent, user))
  {
    MakeIff(store.Abs(), name, group, parent, user);
    if name.None? || group.None? {
      return 422;
    }
    if group.value !in store.groups {
      return 404;
    }
    if parent.Some? && !(parent.value in store.rows && store.rows[parent.value].group == group.value) {
      return 403;
    }
    if user.None? {
      return 401;
    }
    if (group.value, user.value) !in store.members {
      return 403;
    }
    var directory := new Directory(name.value, user.value, group.value, parent);
    var r := directory.Save(store);
    status := if r != 0 then 500 else 200;
  }

  /** delete_directory. */
  method DeleteDirectory(store: Store, id: Option<nat>, user: Option<nat>) returns (status: int)
    requires Inv(store.Abs())
    modifies store, store.disk
    ensures (store.Abs(), status) == W.DeleteDirectory(old(store.Abs()), id, user)
    ensures Inv(store.Abs())
  {
    DropKeepsInv(store.Abs(), id, user);
    if id.None? {
      return 422;
    }
    if user.None? {
      return 401;
    }
    var found := store.FindDirectory(id.value);
    if found.None? {
      return 404;
    }
    if found.value.owner != user.value {
      return 403;
    }
    var r := found.value.Remove(store);
    status := if r != 0 then 500 else 200;
  }

  /** update_directory. */
  method UpdateDirectory(store: Store, id: Option<nat>, permission: Option<int>, user: Option<nat>) returns (status: int)
    requires Inv(store.Abs())
    modifies store
    ensures (store.Abs(), status) == W.UpdateDirectory(old(store.Abs()), id, permission, user)
    ensures Inv(store.Abs())
  {
    UpdateKeepsInv(store.Abs(), id, permission, user);
    if id.None? || permission.None? {
      return 422;
    }
    if user.None? {
      return 401;
    }
    var found := store.FindDirectory(id.value);
    if found.None? {
      return 404;
    }
    if found.value.owner != user.value {
      return 403;
    }
    found.value.permission := permission.value;
    var r := found.value.Update(store);
    status := if r != 0 then 500 else 200;
  }

  /** create_group. */
  method CreateGroup(store: Store, name: Option<string>, user: Option<nat>, code: string) returns (status: int)
    requires Inv(store.Abs()) && Plain(code)
    modifies store, store.disk
    ensures (store.Abs(), status) == W.CreateGroup(old(store.Abs()), name, user, code)
    ensures Inv(store.Abs())
  {
    CreateKeepsInv(store.Abs(), name, user, code);
    if name.None? {
      return 422;
    }
    if user.None? {
      return 401;
    }
    var group := new Group(name.value, user.value);
    var r := group.Save(store, code);
    status := if r != 0 then 500 else 200;
  }

  /** delete_group. */
  method DeleteGroup(store: Store, code: Option<string>, user: Option<nat>) returns (status: int)
    requires Inv(store.Abs())
    modifies store, store.disk
    ensures (store.Abs(), status) == W.DeleteGroup(old(store.Abs()), code, user)
    ensures Inv(store.Abs())
  {
    DeleteKeepsInv(store.Abs(), code, user);
    if code.None? {
      return 422;
    }
    if user.None? {
      return 401;
    }
    var id := store.FindByCode(code.value);
    if id.None? {
      return 404;
    }
    if store.groups[id.value].owner != user.value {
      return 403;
    }
    var group := new Group(store.groups[id.value].name, user.value);
    group.id, group.code := id.value, code.value;
    var r := group.Remove(store);
    status := if r != 0 then 500 else 200;
  }

  /** join_group. */
  method JoinGroup(store: Store, code: Option<string>, user: Option<nat>) returns (status: int)
    requires Inv(store.Abs())
    modifies store
    ensures (store.Abs(), status) == W.JoinGroup(old(store.Abs()), code, user)
    ensures Inv(store.Abs())
  {
    JoinKeepsInv(store.Abs(), code, user);
    if code.None? {
      return 422;
    }
    if user.None? {
      return 401;
    }
    var id := store.FindByCode(code.value);
    if id.None? {
      return 404;
    }
    if (id.value, user.value) in store.members {
      return 403;
    }
    if user.value !in store.users {
      return 500;
    }
    var ok := store.InsertMember(id.value, user.value);
    status := if ok then 200 else 500;
  }

  /** leave_group. */
  method LeaveGroup(store: Store, code: Option<string>, user: Option<nat>) returns (status: int)
    requires Inv(store.Abs())
    modifies store
    ensures (store.Abs(), status) == W.LeaveGroup(old(store.Abs()), code, user)
    ensures Inv(store.Abs())
  {
    LeaveKeepsInv(store.Abs(), code, user);
    if code.None? {
      return 422;
    }
    if user.None? {
      return 401;
    }
    var id := store.FindByCode(code.value);
    if id.None? {
      return 404;
    }
    if (id.value, user.value) !in store.members {
      return 403;
    }
    store.DeleteMember(id.value, user.value);
    status := 200;
  }

  /** kick_member_group. */
  method KickMember(store: Store, code: Option<string>, member: Option<nat>, user: Option<nat>) returns (status: int)
    requires Inv(store.Abs())
    modifies store
    ensures (store.Abs(), status) == W.KickMember(old(store.Abs()), code, member, user)
    ensures Inv(store.Abs())
  {
    KickKeepsInv(store.Abs(), code, member, user);
    if code.None? || member.None? {
      return 422;
    }
    if user.None? {
      return 401;
    }
    var id := store.FindByCode(code.value);
    if id.None? {
      return 404;
    }
    if store.groups[id.value].owner != user.value {
      return 403;
    }
    if member.value !in store.users {
      return 404;
    }
    if (id.value, member.value) !in store.members {
      return 400;
    }
    store.DeleteMember(id.value, member.value);
    status := 200;
  }

  /** save_file; whether its insert succeeds is the caller's to say, since file rows are not modelled. */
  method SaveFile(store: Store, path: string, inserted: bool, user: Option<nat>) returns (status: int)
    requires Inv(store.Abs())
    modifies store.disk
    ensures (store.Abs(), status) == W.SaveFile(old(store.Abs()), path, inserted, user)
    ensures Inv(store.Abs()) <==> Safe(old(store.Abs()), W.Save(path, inserted, user))
  {
    ghost var was := store.Abs();
    SaveIff(was, path, inserted, user);
    if user.None? {
      return 401;
    }
    if !Exists(store.disk.tree, path) {
      return 400;
    }
    if !inserted {
      var removed := store.disk.Remove(path);
      assert store.Abs() == W.SaveFile(was, path, inserted, user).0;
      return 500;
    }
    status := 200;
  }
}
