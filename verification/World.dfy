/**
 * Groups and directories: the database tables of create_table.sql, the disk that mirrors them, and
 * what each operation of src/model and src/http/controller does to both.
 */
module World {
  import opened Optional
  import opened Disk
  import opened Lookup

  datatype GroupRow = GroupRow(name: string, code: string, owner: nat)

  datatype Row = Row(name: string, permission: int, path: string, parent: Option<nat>, group: nat, owner: nat)

  /** Primary keys are AUTOINCREMENT: the next key is larger than any key ever used. */
  datatype World = World(
    users: set<nat>,
    groups: map<nat, GroupRow>,
    members: set<(nat, nat)>,
    rows: map<nat, Row>,
    disk: Tree,
    nextGroup: nat,
    nextRow: nat)

  const READ := 1

  // ----- Deleting rows with their cascades -----

  /** The rows whose parent is in the set join it. */
  function Grow(rows: map<nat, Row>, doomed: set<nat>): set<nat> {
    doomed + set d | d in rows && rows[d].parent.Some? && rows[d].parent.value in doomed
  }

  /** ON DELETE CASCADE along parent_id, followed to the end. */
  function Doomed(rows: map<nat, Row>, seeds: set<nat>): (doomed: set<nat>)
    requires seeds <= rows.Keys
    ensures seeds <= doomed <= rows.Keys
    ensures Grow(rows, doomed) == doomed
    decreases |rows.Keys - seeds|
  {
    if Grow(rows, seeds) == seeds then seeds
    else
      assert rows.Keys - Grow(rows, seeds) < rows.Keys - seeds;
      SmallerSet(rows.Keys - Grow(rows, seeds), rows.Keys - seeds);
      Doomed(rows, Grow(rows, seeds))
  }

  lemma SmallerSet(a: set<nat>, b: set<nat>)
    requires a < b
    ensures |a| < |b|
  {
    assert b == a + (b - a);
    assert |b| == |a| + |b - a|;
  }

  /** The cascade deletes nothing beyond what closure under parent_id demands. */
  lemma {:induction false} DoomedIsLeast(rows: map<nat, Row>, seeds: set<nat>, closed: set<nat>)
    requires seeds <= rows.Keys && seeds <= closed && Grow(rows, closed) == closed
    ensures Doomed(rows, seeds) <= closed
    decreases |rows.Keys - seeds|
  {
    if Grow(rows, seeds) != seeds {
      assert rows.Keys - Grow(rows, seeds) < rows.Keys - seeds;
      SmallerSet(rows.Keys - Grow(rows, seeds), rows.Keys - seeds);
      DoomedIsLeast(rows, Grow(rows, seeds), closed);
    }
  }

  function Without(rows: map<nat, Row>, gone: set<nat>): map<nat, Row> {
    map d | d in rows && d !in gone :: rows[d]
  }

  function RowsOfGroup(rows: map<nat, Row>, group: nat): set<nat> {
    set d | d in rows && rows[d].group == group
  }

  /** DELETE FROM directories WHERE id = ?. */
  function DeleteRow(w: World, id: nat): World {
    if id !in w.rows then w else w.(rows := Without(w.rows, Doomed(w.rows, {id})))
  }

  /** DELETE FROM groups WHERE id = ?: the group's directories and memberships go with it. */
  function DeleteGroupRow(w: World, id: nat): World {
    if id !in w.groups then w
    else w.(groups := w.groups - {id},
            members := (set m | m in w.members && m.0 != id),
            rows := Without(w.rows, Doomed(w.rows, RowsOfGroup(w.rows, id))))
  }

  // ----- The model operations -----

  /** The constraints on an INSERT INTO groups. */
  predicate GroupInsertAllowed(w: World, name: string, code: string, owner: nat) {
    owner in w.users && forall g | g in w.groups :: w.groups[g].name != name && w.groups[g].code != code
  }

  /** group_save. The code is the random one the database draws; -1 stands for failure. */
  function GroupSave(w: World, name: string, code: string, owner: nat): (World, int) {
    if !GroupInsertAllowed(w, name, code, owner) then
      (w, -1)
    else
      var id := w.nextGroup;
      var inserted := w.(groups := w.groups[id := GroupRow(name, code, owner)], nextGroup := id + 1);
      if MkdirTarget(w.disk, code).None? then (DeleteGroupRow(inserted, id), -1)
      else
        var made := inserted.(disk := w.disk[MkdirTarget(w.disk, code).value := Dir]);
        if (id, owner) in w.members then (DeleteGroupRow(made, id), -1)
        else (made.(members := w.members + {(id, owner)}), 0)
  }

  /** group_remove: the row with its cascades, then the folder. */
  function GroupRemove(w: World, id: nat, code: string): World {
    var deleted := DeleteGroupRow(w, id);
    deleted.(disk := PrunedAt(w.disk, code))
  }

  /** The path directory_save works out; None when the parent or the group is missing. */
  function PathFor(w: World, name: string, group: nat, parent: Option<nat>): Option<string> {
    match parent
    case Some(q) => if q in w.rows then Some(Join(w.rows[q].path, name)) else None
    case None => if group in w.groups then Some(Join(w.groups[group].code, name)) else None
  }

  /** The constraints on an INSERT INTO directories; a null parent never collides. */
  predicate InsertAllowed(w: World, name: string, owner: nat, group: nat, parent: Option<nat>) {
    && group in w.groups && owner in w.users && (parent.Some? ==> parent.value in w.rows)
    && !(exists d | d in w.rows :: w.rows[d].name == name && w.rows[d].group == group && parent.Some? && w.rows[d].parent == parent)
  }

  function InheritedPermission(w: World, parent: Option<nat>, own: int): int {
    if parent.Some? && parent.value in w.rows then w.rows[parent.value].permission else own
  }

  /**
   * directory_save. When the insert fails the source removes the path without its upload prefix,
   * so the directory just made stays on this disk.
   */
  function DirectorySave(w: World, name: string, owner: nat, group: nat, parent: Option<nat>, permission: int)
    : (World, int)
  {
    match PathFor(w, name, group, parent)
    case None => (w, -1)
    case Some(path) =>
      if MkdirTarget(w.disk, path).None? then (w, -1)
      else
        var made := w.(disk := w.disk[MkdirTarget(w.disk, path).value := Dir]);
        if !InsertAllowed(w, name, owner, group, parent) then (made, -1)
        else
          var row := Row(name, InheritedPermission(w, parent, permission), path, parent, group, owner);
          (made.(rows := w.rows[w.nextRow := row], nextRow := w.nextRow + 1), 0)
  }

  /** directory_remove on a directory read from the database. */
  function DirectoryRemove(w: World, id: nat): World
    requires id in w.rows
  {
    DeleteRow(w, id).(disk := PrunedAt(w.disk, w.rows[id].path))
  }

  /** directory_update. */
  function DirectoryUpdate(w: World, id: nat, permission: int): World
    requires id in w.rows
  {
    w.(rows := w.rows[id := w.rows[id].(permission := permission)])
  }

  // ----- The controllers -----

  /** make_directory: the guards in their order, then directory_save. */
  function MakeDirectory(w: World, name: Option<string>, group: Option<nat>, parent: Option<nat>, user: Option<nat>)
    : (World, int)
  {
    if name.None? || group.None? then (w, 422)
    else if group.value !in w.groups then (w, 404)
    else if parent.Some? && !(parent.value in w.rows && w.rows[parent.value].group == group.value) then (w, 403)
    else if user.None? then (w, 401)
    else if (group.value, user.value) !in w.members then (w, 403)
    else
      var (saved, r) := DirectorySave(w, name.value, user.value, group.value, parent, READ);
      (saved, if r == 0 then 200 else 500)
  }

  /** delete_directory. */
  function DeleteDirectory(w: World, id: Option<nat>, user: Option<nat>): (World, int) {
    if id.None? then (w, 422)
    else if user.None? then (w, 401)
    else if id.value !in w.rows then (w, 404)
    else if w.rows[id.value].owner != user.value then (w, 403)
    else (DirectoryRemove(w, id.value), 200)
  }

  /** update_directory. */
  function UpdateDirectory(w: World, id: Option<nat>, permission: Option<int>, user: Option<nat>): (World, int) {
    if id.None? || permission.None? then (w, 422)
    else if user.None? then (w, 401)
    else if id.value !in w.rows then (w, 404)
    else if w.rows[id.value].owner != user.value then (w, 403)
    else (DirectoryUpdate(w, id.value, permission.value), 200)
  }

  /** create_group. */
  function CreateGroup(w: World, name: Option<string>, user: Option<nat>, code: string): (World, int) {
    if name.None? then (w, 422)
    else if user.None? then (w, 401)
    else
      var (saved, r) := GroupSave(w, name.value, code, user.value);
      (saved, if r == 0 then 200 else 500)
  }

  /** group_find_by_code. */
  ghost function GroupByCode(w: World, code: string): (id: Option<nat>)
    ensures id.Some? ==> id.value in w.groups && w.groups[id.value].code == code
    ensures id.None? ==> forall g | g in w.groups :: w.groups[g].code != code
  {
    if g :| g in w.groups && w.groups[g].code == code then Some(g) else None
  }

  /** delete_group. */
  ghost function DeleteGroup(w: World, code: Option<string>, user: Option<nat>): (World, int) {
    if code.None? then (w, 422)
    else if user.None? then (w, 401)
    else
      match GroupByCode(w, code.value)
      case None => (w, 404)
      case Some(id) =>
        if w.groups[id].owner != user.value then (w, 403) else (GroupRemove(w, id, code.value), 200)
  }

  /** join_group. */
  ghost function JoinGroup(w: World, code: Option<string>, user: Option<nat>): (World, int) {
    if code.None? then (w, 422)
    else if user.None? then (w, 401)
    else
      match GroupByCode(w, code.value)
      case None => (w, 404)
      case Some(id) =>
        if (id, user.value) in w.members then (w, 403)
        else if user.value !in w.users then (w, 500)
        else (w.(members := w.members + {(id, user.value)}), 200)
  }

  /** leave_group. */
  ghost function LeaveGroup(w: World, code: Option<string>, user: Option<nat>): (World, int) {
    if code.None? then (w, 422)
    else if user.None? then (w, 401)
    else
      match GroupByCode(w, code.value)
      case None => (w, 404)
      case Some(id) =>
        if (id, user.value) !in w.members then (w, 403)
        else (w.(members := w.members - {(id, user.value)}), 200)
  }

  /** kick_member_group. */
  ghost function KickMember(w: World, code: Option<string>, member: Option<nat>, user: Option<nat>): (World, int) {
    if code.None? || member.None? then (w, 422)
    else if user.None? then (w, 401)
    else
      match GroupByCode(w, code.value)
      case None => (w, 404)
      case Some(id) =>
        if w.groups[id].owner != user.value then (w, 403)
        else if member.value !in w.users then (w, 404)
        else if (id, member.value) !in w.members then (w, 400)
        else (w.(members := w.members - {(id, member.value)}), 200)
  }

  /**
   * save_file, as far as the disk goes: the path is the client's and only has to exist. Whether the
   * insert into the files table succeeds is a parameter; when it does not, the path is removed.
   */
  function SaveFile(w: World, path: string, inserted: bool, user: Option<nat>): (World, int) {
    if user.None? then (w, 401)
    else if !Exists(w.disk, path) then (w, 400)
    else if inserted then (w, 200)
    else (w.(disk := RemovedAt(w.disk, path)), 500)
  }

  /** A file that arrives over TFTP, unless something has its path. */
  function UploadFile(w: World, file: string): World {
    match CreateTarget(w.disk, file)
    case Some(q) => w.(disk := w.disk[q := File])
    case None => w
  }

  datatype Op =
    | Register(newUser: nat)
    | Create(name: Option<string>, user: Option<nat>, code: string)
    | Delete(groupCode: Option<string>, user: Option<nat>)
    | Enter(groupCode: Option<string>, user: Option<nat>)
    | Leave(groupCode: Option<string>, user: Option<nat>)
    | Kick(groupCode: Option<string>, member: Option<nat>, user: Option<nat>)
    | Make(dirName: Option<string>, group: Option<nat>, parent: Option<nat>, user: Option<nat>)
    | Drop(id: Option<nat>, user: Option<nat>)
    | Update(id: Option<nat>, permission: Option<int>, user: Option<nat>)
    | Upload(file: string)
    | Save(path: string, inserted: bool, user: Option<nat>)
    | Remove(path: string)    // delete_file on a file row with this path

  ghost function Apply(w: World, op: Op): World {
    match op
    case Register(u) => w.(users := w.users + {u})
    case Create(name, user, code) => CreateGroup(w, name, user, code).0
    case Delete(code, user) => DeleteGroup(w, code, user).0
    case Enter(code, user) => JoinGroup(w, code, user).0
    case Leave(code, user) => LeaveGroup(w, code, user).0
    case Kick(code, member, user) => KickMember(w, code, member, user).0
    case Make(name, group, parent, user) => MakeDirectory(w, name, group, parent, user).0
    case Drop(id, user) => DeleteDirectory(w, id, user).0
    case Update(id, permission, user) => UpdateDirectory(w, id, permission, user).0
    case Upload(file) => UploadFile(w, file)
    case Save(path, inserted, user) => SaveFile(w, path, inserted, user).0
    case Remove(path) => w.(disk := RemovedAt(w.disk, path))
  }

  const EMPTY := World({}, map[], {}, map[], map[], 1, 1)
}
