/**
 * The permission store and its evaluation (auth/bun_store.go, auth/permissions.go): relational tables
 * joined and grouped by code must answer like plain relations between names.
 */
module Permissions {
  import opened Options
  import opened GoStrings

  type Id = nat
  type Permission = string

  /** "app.codename" with both parts present. */
  predicate ValidPermission(permission: Permission) {
    var parts := Split(permission, '.');
    |parts| == 2 && parts[0] != "" && parts[1] != ""
  }

  // ---------------------------------------------------------------- tables

  /** The access tables, rows by primary key. */
  datatype Tables = Tables(
    users: set<Id>, groups: map<Id, string>, permissions: map<Id, Permission>,
    userGroups: set<(Id, Id)>, userPermissions: set<(Id, Id)>, groupPermissions: set<(Id, Id)>)

  /** The unique and foreign keys of the schema. */
  ghost predicate Sound(t: Tables) {
    && (forall a, b :: a in t.groups && b in t.groups && t.groups[a] == t.groups[b] ==> a == b)
    && (forall a, b :: a in t.permissions && b in t.permissions && t.permissions[a] == t.permissions[b] ==> a == b)
    && (forall e :: e in t.userGroups ==> e.0 in t.users && e.1 in t.groups)
    && (forall e :: e in t.userPermissions ==> e.0 in t.users && e.1 in t.permissions)
    && (forall e :: e in t.groupPermissions ==> e.0 in t.groups && e.1 in t.permissions)
  }

  /** SELECT id ... WHERE name = ?; at most one row by the unique key. */
  function IdsOf(table: map<Id, string>, name: string): set<Id> {
    set id | id in table && table[id] == name
  }

  datatype Operation =
    | CreateGroup(name: string, id: Id)
    | CreatePermission(permission: Permission, id: Id)
    | GrantUserPermission(user: Id, permission: Permission)
    | AddUserToGroup(user: Id, name: string)
    | GrantGroupPermission(name: string, permission: Permission)

  /** Identifiers are generated fresh. */
  predicate Fresh(t: Tables, op: Operation) {
    match op
    case CreateGroup(_, id) => id !in t.groups
    case CreatePermission(_, id) => id !in t.permissions
    case _ => true
  }

  /** INSERT ... ON CONFLICT DO NOTHING of these rows, then the affected-or-exists rule. */
  function Apply(t: Tables, op: Operation): (result: (Tables, bool)) {
    match op
    case CreateGroup(name, id) =>
      if name == "" then (t, false)
      else if IdsOf(t.groups, name) != {} then (t, true)
      else (t.(groups := t.groups[id := name]), true)
    case CreatePermission(permission, id) =>
      if !ValidPermission(permission) then (t, false)
      else if IdsOf(t.permissions, permission) != {} then (t, true)
      else (t.(permissions := t.permissions[id := permission]), true)
    case GrantUserPermission(user, permission) =>
      var rows := set id | id in IdsOf(t.permissions, permission) :: (user, id);
      if rows != {} && user !in t.users then (t, false)
      else (t.(userPermissions := t.userPermissions + rows), rows != {})
    case AddUserToGroup(user, name) =>
      var rows := set id | id in IdsOf(t.groups, name) :: (user, id);
      if rows != {} && user !in t.users then (t, false)
      else (t.(userGroups := t.userGroups + rows), rows != {})
    case GrantGroupPermission(name, permission) =>
      var rows := set g, p | g in IdsOf(t.groups, name) && p in IdsOf(t.permissions, permission) :: (g, p);
      (t.(groupPermissions := t.groupPermissions + rows), rows != {})
  }

  // ---------------------------------------------------------------- the same over names

  /** Who and what exists, and the edges between them, without identifiers. */
  datatype Relations = Relations(
    users: set<Id>, groups: set<string>, permissions: set<Permission>,
    member: set<(Id, string)>, direct: set<(Id, Permission)>, granted: set<(string, Permission)>)

  function Edges(pairs: set<(Id, Id)>, names: map<Id, string>): set<(Id, string)> {
    set e | e in pairs && e.1 in names :: (e.0, names[e.1])
  }

  function Relate(t: Tables): Relations {
    Relations(
      t.users, t.groups.Values, t.permissions.Values,
      Edges(t.userGroups, t.groups), Edges(t.userPermissions, t.permissions),
      set e | e in t.groupPermissions && e.0 in t.groups && e.1 in t.permissions :: (t.groups[e.0], t.permissions[e.1]))
  }

  /** An edge is added when both ends exist, and reported missing otherwise. */
  function Meant(r: Relations, op: Operation): (Relations, bool) {
    match op
    case CreateGroup(name, _) => if name == "" then (r, false) else (r.(groups := r.groups + {name}), true)
    case CreatePermission(permission, _) =>
      if !ValidPermission(permission) then (r, false) else (r.(permissions := r.permissions + {permission}), true)
    case GrantUserPermission(user, permission) =>
      if user in r.users && permission in r.permissions
      then (r.(direct := r.direct + {(user, permission)}), true) else (r, false)
    case AddUserToGroup(user, name) =>
      if user in r.users && name in r.groups then (r.(member := r.member + {(user, name)}), true) else (r, false)
    case GrantGroupPermission(name, permission) =>
      if name in r.groups && permission in r.permissions
      then (r.(granted := r.granted + {(name, permission)}), true) else (r, false)
  }

  lemma UniqueId(table: map<Id, string>, name: string)
    requires forall a, b :: a in table && b in table && table[a] == table[b] ==> a == b
    ensures IdsOf(table, name) == {} <==> name !in table.Values
    ensures forall a, b :: a in IdsOf(table, name) && b in IdsOf(table, name) ==> a == b
  {
    if name in table.Values {
      var id :| id in table && table[id] == name;
      assert id in IdsOf(table, name);
    }
  }

  lemma AddName(table: map<Id, string>, id: Id, name: string)
    requires id !in table
    ensures table[id := name].Values == table.Values + {name}
  {
    forall v | v in table.Values ensures v in table[id := name].Values {
      var k :| k in table && table[k] == v;
      assert table[id := name][k] == v;
    }
    assert table[id := name][id] == name;
  }

  lemma CreateGroupRefines(t: Tables, name: string, id: Id)
    requires Sound(t) && id !in t.groups
    ensures Sound(Apply(t, CreateGroup(name, id)).0)
    ensures (Relate(Apply(t, CreateGroup(name, id)).0), Apply(t, CreateGroup(name, id)).1) ==
            Meant(Relate(t), CreateGroup(name, id))
  {
    UniqueId(t.groups, name);
    if name != "" {
      if IdsOf(t.groups, name) != {} {
        assert t.groups.Values + {name} == t.groups.Values;
      } else {
        AddName(t.groups, id, name);
        var after := t.groups[id := name];
        assert Edges(t.userGroups, after) == Edges(t.userGroups, t.groups);
        assert forall e :: e in t.groupPermissions ==> after[e.0] == t.groups[e.0];
        assert Relate(Apply(t, CreateGroup(name, id)).0).granted == Relate(t).granted;
      }
    }
  }

  lemma CreatePermissionRefines(t: Tables, permission: Permission, id: Id)
    requires Sound(t) && id !in t.permissions
    ensures Sound(Apply(t, CreatePermission(permission, id)).0)
    ensures (Relate(Apply(t, CreatePermission(permission, id)).0), Apply(t, CreatePermission(permission, id)).1)
         == Meant(Relate(t), CreatePermission(permission, id))
  {
    hide ValidPermission;
    UniqueId(t.permissions, permission);
    if ValidPermission(permission) {
      if IdsOf(t.permissions, permission) != {} {
        assert t.permissions.Values + {permission} == t.permissions.Values;
      } else {
        AddName(t.permissions, id, permission);
        var after := t.permissions[id := permission];
        assert Edges(t.userPermissions, after) == Edges(t.userPermissions, t.permissions);
        assert forall e :: e in t.groupPermissions ==> after[e.1] == t.permissions[e.1];
        assert Relate(Apply(t, CreatePermission(permission, id)).0).granted == Relate(t).granted;
      }
    }
  }

  /** Adding every row a name selects adds the one edge to that name. */
  lemma EdgesGrow(pairs: set<(Id, Id)>, names: map<Id, string>, user: Id, name: string)
    requires name in names.Values
    requires forall a, b :: a in names && b in names && names[a] == names[b] ==> a == b
    ensures Edges(pairs + (set id | id in IdsOf(names, name) :: (user, id)), names) ==
            Edges(pairs, names) + {(user, name)}
  {
    var rows := set id | id in IdsOf(names, name) :: (user, id);
    var id :| id in names && names[id] == name;
    assert id in IdsOf(names, name) && (user, id) in rows;
    forall e ensures e in Edges(pairs + rows, names) <==> e in Edges(pairs, names) + {(user, name)} {
      if e == (user, name) {
        assert (user, id) in pairs + rows;
      }
    }
  }

  lemma GrantUserRefines(t: Tables, user: Id, permission: Permission)
    requires Sound(t)
    ensures Sound(Apply(t, GrantUserPermission(user, permission)).0)
    ensures var (after, ok) := Apply(t, GrantUserPermission(user, permission));
            (Relate(after), ok) == Meant(Relate(t), GrantUserPermission(user, permission))
  {
    UniqueId(t.permissions, permission);
    if permission in t.permissions.Values {
      EdgesGrow(t.userPermissions, t.permissions, user, permission);
      var id :| id in IdsOf(t.permissions, permission);
      assert (user, id) in set i | i in IdsOf(t.permissions, permission) :: (user, i);
    } else {
      assert t.userPermissions + {} == t.userPermissions;
    }
  }

  lemma AddUserRefines(t: Tables, user: Id, name: string)
    requires Sound(t)
    ensures Sound(Apply(t, AddUserToGroup(user, name)).0)
    ensures (Relate(Apply(t, AddUserToGroup(user, name)).0), Apply(t, AddUserToGroup(user, name)).1)
         == Meant(Relate(t), AddUserToGroup(user, name))
  {
    UniqueId(t.groups, name);
    if name in t.groups.Values {
      EdgesGrow(t.userGroups, t.groups, user, name);
      var id :| id in IdsOf(t.groups, name);
      assert (user, id) in set i | i in IdsOf(t.groups, name) :: (user, i);
    } else {
      assert t.userGroups + {} == t.userGroups;
    }
  }

  lemma GrantedGrow(t: Tables, name: string, permission: Permission, g: Id, p: Id)
    requires Sound(t) && g in IdsOf(t.groups, name) && p in IdsOf(t.permissions, permission)
    ensures Relate(Apply(t, GrantGroupPermission(name, permission)).0).granted ==
            Relate(t).granted + {(name, permission)}
  {
    var rows := set x, y | x in IdsOf(t.groups, name) && y in IdsOf(t.permissions, permission) :: (x, y);
    var after := Apply(t, GrantGroupPermission(name, permission)).0;
    assert (g, p) in rows;
    forall e ensures e in Relate(after).granted <==> e in Relate(t).granted + {(name, permission)} {
      if e == (name, permission) {
        assert (g, p) in after.groupPermissions;
      }
    }
  }

  lemma GrantGroupRefines(t: Tables, name: string, permission: Permission)
    requires Sound(t)
    ensures Sound(Apply(t, GrantGroupPermission(name, permission)).0)
    ensures var (after, ok) := Apply(t, GrantGroupPermission(name, permission));
            (Relate(after), ok) == Meant(Relate(t), GrantGroupPermission(name, permission))
  {
    UniqueId(t.groups, name);
    UniqueId(t.permissions, permission);
    var rows := set g, p | g in IdsOf(t.groups, name) && p in IdsOf(t.permissions, permission) :: (g, p);
    var after := Apply(t, GrantGroupPermission(name, permission)).0;
    if name in t.groups.Values && permission in t.permissions.Values {
      var g :| g in IdsOf(t.groups, name);
      var p :| p in IdsOf(t.permissions, permission);
      assert (g, p) in rows && rows != {};
      GrantedGrow(t, name, permission, g, p);
    } else {
      assert rows == {};
      assert t.groupPermissions + {} == t.groupPermissions;
    }
  }

  /** Each operation on the tables is the operation on relations, with the same answer. */
  lemma ApplyRefines(t: Tables, op: Operation)
    requires Sound(t) && Fresh(t, op)
    ensures Sound(Apply(t, op).0)
    ensures (Relate(Apply(t, op).0), Apply(t, op).1) == Meant(Relate(t), op)
  {
    match op
    case CreateGroup(name, id) => CreateGroupRefines(t, name, id);
    case CreatePermission(permission, id) => CreatePermissionRefines(t, permission, id);
    case GrantUserPermission(user, permission) => GrantUserRefines(t, user, permission);
    case AddUserToGroup(user, name) => AddUserRefines(t, user, name);
    case GrantGroupPermission(name, permission) => GrantGroupRefines(t, name, permission);
  }

  // ---------------------------------------------------------------- runs and transactions

  predicate AllFresh(t: Tables, ops: seq<Operation>)
    decreases |ops|
  {
    ops == [] || (Fresh(t, ops[0]) && AllFresh(Apply(t, ops[0]).0, ops[1..]))
  }

  function ApplyAll(t: Tables, ops: seq<Operation>): Tables
    decreases |ops|
  {
    if ops == [] then t else ApplyAll(Apply(t, ops[0]).0, ops[1..])
  }

  function MeantAll(r: Relations, ops: seq<Operation>): Relations
    decreases |ops|
  {
    if ops == [] then r else MeantAll(Meant(r, ops[0]).0, ops[1..])
  }

  /** Every run of creates and grants on the tables is the same run on relations, failures included. */
  lemma {:induction false} RunRefines(t: Tables, ops: seq<Operation>)
    requires Sound(t) && AllFresh(t, ops)
    ensures Sound(ApplyAll(t, ops)) && Relate(ApplyAll(t, ops)) == MeantAll(Relate(t), ops)
    decreases |ops|
  {
    if ops != [] {
      ApplyRefines(t, ops[0]);
      hide Sound, Relate, Apply, Meant;
      RunRefines(Apply(t, ops[0]).0, ops[1..]);
    }
  }

  lemma RelatedEnds(t: Tables)
    requires Sound(t)
    ensures forall e :: e in Relate(t).direct ==> e.0 in t.users && e.1 in t.permissions.Values
    ensures forall e :: e in Relate(t).member ==> e.0 in t.users && e.1 in t.groups.Values
    ensures forall e :: e in Relate(t).granted ==> e.0 in t.groups.Values && e.1 in t.permissions.Values
    ensures Relate(t).users == t.users && Relate(t).groups == t.groups.Values
    ensures Relate(t).permissions == t.permissions.Values
  {
  }

  lemma GrantTwice(t: Tables, op: Operation)
    requires !op.CreateGroup? && !op.CreatePermission?
    ensures Apply(Apply(t, op).0, op) == Apply(t, op)
  {
    match op
    case GrantUserPermission(user, permission) =>
      var rows := set id | id in IdsOf(t.permissions, permission) :: (user, id);
      assert t.userPermissions + rows + rows == t.userPermissions + rows;
    case AddUserToGroup(user, name) =>
      var rows := set id | id in IdsOf(t.groups, name) :: (user, id);
      assert t.userGroups + rows + rows == t.userGroups + rows;
    case GrantGroupPermission(name, permission) =>
      var rows := set g, p | g in IdsOf(t.groups, name) && p in IdsOf(t.permissions, permission) :: (g, p);
      assert t.groupPermissions + rows + rows == t.groupPermissions + rows;
  }

  /** A grant answers without error exactly when its edge exists afterwards, and repeating it changes nothing. */
  lemma GrantsAreIdempotent(t: Tables, op: Operation)
    requires Sound(t) && Fresh(t, op)
    ensures op.GrantUserPermission? ==> (Apply(t, op).1 <==> (op.user, op.permission) in Relate(Apply(t, op).0).direct)
    ensures op.AddUserToGroup? ==> (Apply(t, op).1 <==> (op.user, op.name) in Relate(Apply(t, op).0).member)
    ensures op.GrantGroupPermission? ==>
              (Apply(t, op).1 <==> (op.name, op.permission) in Relate(Apply(t, op).0).granted)
    ensures !op.CreateGroup? && !op.CreatePermission? ==> Apply(Apply(t, op).0, op) == Apply(t, op)
  {
    ApplyRefines(t, op);
    RelatedEnds(t);
    RelatedEnds(Apply(t, op).0);
    if !op.CreateGroup? && !op.CreatePermission? {
      GrantTwice(t, op);
    }
    hide Relate, Apply, Sound;
  }

  /**
   * What the function given to RunInTx does: an end with or without error, or an operation and what follows
   * either answer.
   */
  datatype Block = Done(ok: bool) | Do(op: Operation, answered: Block, refused: Block)

  /** The statement breaks a foreign key, which is an error of the database and not of the store. */
  predicate Violates(t: Tables, op: Operation) {
    match op
    case GrantUserPermission(user, permission) => user !in t.users && IdsOf(t.permissions, permission) != {}
    case AddUserToGroup(user, name) => user !in t.users && IdsOf(t.groups, name) != {}
    case _ => false
  }

  /**
   * The block inside the transaction. Where a failed statement aborts the transaction, as on PostgreSQL,
   * nothing the block does after it can be committed any more; otherwise, as on SQLite, it goes on.
   */
  function RunBlock(t: Tables, block: Block, aborts: bool): (Tables, bool)
    decreases block
  {
    match block
    case Done(ok) => (t, ok)
    case Do(op, answered, refused) =>
      if aborts && Violates(t, op) then (t, false)
      else
        var (next, ok) := Apply(t, op);
        RunBlock(next, if ok then answered else refused, aborts)
  }

  /** RunInTx: the tables keep everything the block did, or nothing of it. */
  function RunInTx(t: Tables, block: Block, aborts: bool): (Tables, bool) {
    var (after, ok) := RunBlock(t, block, aborts);
    if ok then (after, true) else (t, false)
  }

  predicate FreshBlock(t: Tables, block: Block)
    decreases block
  {
    match block
    case Done(_) => true
    case Do(op, answered, refused) =>
      Fresh(t, op) && FreshBlock(Apply(t, op).0, if Apply(t, op).1 then answered else refused)
  }

  /** An existing target and a missing user. */
  predicate Misses(r: Relations, op: Operation) {
    match op
    case GrantUserPermission(user, permission) => user !in r.users && permission in r.permissions
    case AddUserToGroup(user, name) => user !in r.users && name in r.groups
    case _ => false
  }

  /** The same over relations. */
  function MeantBlock(r: Relations, block: Block, aborts: bool): (Relations, bool)
    decreases block
  {
    match block
    case Done(ok) => (r, ok)
    case Do(op, answered, refused) =>
      if aborts && Misses(r, op) then (r, false)
      else
        var (next, ok) := Meant(r, op);
        MeantBlock(next, if ok then answered else refused, aborts)
  }

  lemma ViolatesRefines(t: Tables, op: Operation)
    requires Sound(t)
    ensures Violates(t, op) <==> Misses(Relate(t), op)
  {
    match op
    case GrantUserPermission(_, permission) => UniqueId(t.permissions, permission);
    case AddUserToGroup(_, name) => UniqueId(t.groups, name);
    case _ =>
  }

  lemma {:induction false} BlockRefines(t: Tables, block: Block, aborts: bool)
    requires Sound(t) && FreshBlock(t, block)
    ensures Sound(RunBlock(t, block, aborts).0)
    ensures (Relate(RunBlock(t, block, aborts).0), RunBlock(t, block, aborts).1) == MeantBlock(Relate(t), block, aborts)
    decreases block
  {
    match block
    case Done(_) =>
    case Do(op, answered, refused) =>
      ViolatesRefines(t, op);
      ApplyRefines(t, op);
      hide Sound, Relate, Apply, Meant, Violates, Misses;
      if !(aborts && Violates(t, op)) {
        BlockRefines(Apply(t, op).0, if Apply(t, op).1 then answered else refused, aborts);
      }
  }

  /**
   * A transaction is all or nothing on the relations too, whatever its block makes of each answer: it
   * commits exactly when the block over relations ends without error, and then leaves what that block leaves.
   */
  lemma TransactionRefines(t: Tables, block: Block, aborts: bool)
    requires Sound(t) && FreshBlock(t, block)
    ensures RunInTx(t, block, aborts).1 <==> MeantBlock(Relate(t), block, aborts).1
    ensures Sound(RunInTx(t, block, aborts).0)
    ensures Relate(RunInTx(t, block, aborts).0) ==
            if MeantBlock(Relate(t), block, aborts).1 then MeantBlock(Relate(t), block, aborts).0 else Relate(t)
  {
    BlockRefines(t, block, aborts);
    hide Sound, Relate, RunBlock, MeantBlock;
  }

  /** Run to its end, the block never grants anything that exists to a user that does not. */
  predicate Undisturbed(t: Tables, block: Block)
    decreases block
  {
    match block
    case Done(_) => true
    case Do(op, answered, refused) =>
      && !(op.GrantUserPermission? && op.user !in t.users && op.permission in t.permissions.Values)
      && !(op.AddUserToGroup? && op.user !in t.users && op.name in t.groups.Values)
      && var (next, ok) := Apply(t, op);
         Undisturbed(next, if ok then answered else refused)
  }

  lemma ViolatesMeans(t: Tables, op: Operation)
    requires Sound(t)
    ensures Violates(t, op) <==>
            || (op.GrantUserPermission? && op.user !in t.users && op.permission in t.permissions.Values)
            || (op.AddUserToGroup? && op.user !in t.users && op.name in t.groups.Values)
  {
    match op
    case GrantUserPermission(_, permission) => UniqueId(t.permissions, permission);
    case AddUserToGroup(_, name) => UniqueId(t.groups, name);
    case _ =>
  }

  lemma {:induction false} DisturbedFails(t: Tables, block: Block)
    requires Sound(t) && FreshBlock(t, block)
    ensures if Undisturbed(t, block) then RunBlock(t, block, true) == RunBlock(t, block, false)
            else !RunBlock(t, block, true).1
    decreases block
  {
    match block
    case Done(_) =>
    case Do(op, answered, refused) =>
      ViolatesMeans(t, op);
      ApplyRefines(t, op);
      hide Sound, Apply, Violates, Meant, Relate;
      if !Violates(t, op) {
        DisturbedFails(Apply(t, op).0, if Apply(t, op).1 then answered else refused);
      }
  }

  /**
   * Where a failed statement aborts the transaction, a block commits what it would commit elsewhere if no
   * statement of it fails, and nothing otherwise, even if it carries on.
   */
  lemma AbortingExactly(t: Tables, block: Block)
    requires Sound(t) && FreshBlock(t, block)
    ensures RunInTx(t, block, true) == if Undisturbed(t, block) then RunInTx(t, block, false) else (t, false)
  {
    hide RunBlock, Undisturbed, Sound;
    DisturbedFails(t, block);
  }

  /** A block that runs its operations in order and returns the first error. */
  function Sequence(ops: seq<Operation>): Block {
    if ops == [] then Done(true) else Do(ops[0], Sequence(ops[1..]), Done(false))
  }

  ghost predicate AllAnswer(r: Relations, ops: seq<Operation>)
    decreases |ops|
  {
    ops == [] || (Meant(r, ops[0]).1 && AllAnswer(Meant(r, ops[0]).0, ops[1..]))
  }

  /** Such a block ends without error exactly when every operation answers, on either database. */
  lemma {:induction false} SequenceExactly(r: Relations, ops: seq<Operation>, aborts: bool)
    ensures MeantBlock(r, Sequence(ops), aborts).1 <==> AllAnswer(r, ops)
    ensures AllAnswer(r, ops) ==> MeantBlock(r, Sequence(ops), aborts).0 == MeantAll(r, ops)
    decreases |ops|
  {
    if ops != [] {
      assert Misses(r, ops[0]) ==> !Meant(r, ops[0]).1;
      hide Meant, Misses;
      SequenceExactly(Meant(r, ops[0]).0, ops[1..], aborts);
    }
  }

  /** Every operation answers where the ones before it have left the tables. */
  ghost predicate AllSucceed(t: Tables, ops: seq<Operation>) {
    forall i :: 0 <= i < |ops| ==> Apply(ApplyAll(t, ops[..i]), ops[i]).1
  }

  lemma PrefixApplied(t: Tables, ops: seq<Operation>, i: nat)
    requires i < |ops|
    ensures ApplyAll(t, ops[..i + 1]) == ApplyAll(Apply(t, ops[0]).0, ops[1..][..i])
  {
    hide Apply;
    assert ops[..i + 1][1..] == ops[1..][..i];
  }

  lemma SucceedFirst(t: Tables, ops: seq<Operation>)
    requires ops != []
    ensures AllSucceed(t, ops) <==> Apply(t, ops[0]).1 && AllSucceed(Apply(t, ops[0]).0, ops[1..])
  {
    hide Apply;
    var next, rest := Apply(t, ops[0]).0, ops[1..];
    forall i | 0 <= i < |rest|
      ensures ApplyAll(t, ops[..i + 1]) == ApplyAll(next, rest[..i]) && ops[i + 1] == rest[i]
    {
      PrefixApplied(t, ops, i);
    }
    assert ops[..0] == [];
    hide ApplyAll;
    if Apply(t, ops[0]).1 && AllSucceed(next, rest) {
      forall i | 0 <= i < |ops| ensures Apply(ApplyAll(t, ops[..i]), ops[i]).1 {
        if i > 0 {
          assert ApplyAll(t, ops[..i - 1 + 1]) == ApplyAll(next, rest[..i - 1]);
        }
      }
    }
    if AllSucceed(t, ops) {
      assert Apply(ApplyAll(t, ops[..0]), ops[0]).1;
    }
  }

  lemma {:induction false} SequenceRuns(t: Tables, ops: seq<Operation>, aborts: bool)
    ensures RunBlock(t, Sequence(ops), aborts).1 <==> AllSucceed(t, ops)
    ensures AllSucceed(t, ops) ==> RunBlock(t, Sequence(ops), aborts).0 == ApplyAll(t, ops)
    decreases |ops|
  {
    if ops != [] {
      assert Violates(t, ops[0]) ==> !Apply(t, ops[0]).1;
      hide Apply, Violates;
      SucceedFirst(t, ops);
      hide AllSucceed;
      SequenceRuns(Apply(t, ops[0]).0, ops[1..], aborts);
    }
  }

  /** Operations in one transaction leave what they leave one by one, or, if any of them fails, nothing at all. */
  lemma SequenceMeans(t: Tables, ops: seq<Operation>, aborts: bool)
    ensures RunInTx(t, Sequence(ops), aborts) == if AllSucceed(t, ops) then (ApplyAll(t, ops), true) else (t, false)
  {
    hide AllSucceed, ApplyAll, RunBlock, Sequence;
    SequenceRuns(t, ops, aborts);
  }

  /** The store's methods, each one statement and the affected-or-exists rule. */
  class Store {
    var tables: Tables

    constructor (tables: Tables)
      ensures this.tables == tables
    {
      this.tables := tables;
    }

    /** `id` is the key the insert would give; a name already taken is left alone. */
    method CreateGroup(name: string, id: Id) returns (ok: bool)
      modifies this
      ensures (tables, ok) == Apply(old(tables), Operation.CreateGroup(name, id))
    {
      if name == "" {
        return false;
      }
      if IdsOf(tables.groups, name) == {} {
        tables := tables.(groups := tables.groups[id := name]);
      }
      return true;
    }

    method CreatePermission(permission: Permission, id: Id) returns (ok: bool)
      modifies this
      ensures (tables, ok) == Apply(old(tables), Operation.CreatePermission(permission, id))
    {
      if !ValidPermission(permission) {
        return false;
      }
      if IdsOf(tables.permissions, permission) == {} {
        tables := tables.(permissions := tables.permissions[id := permission]);
      }
      return true;
    }

    /** INSERT INTO auth_user_permissions ... SELECT, and requireAffectedOrExists. */
    method GrantUserPermission(user: Id, permission: Permission) returns (ok: bool)
      modifies this
      ensures (tables, ok) == Apply(old(tables), Operation.GrantUserPermission(user, permission))
    {
      var rows := set id | id in IdsOf(tables.permissions, permission) :: (user, id);
      if rows != {} && user !in tables.users {
        return false;
      }
      var affected := |rows - tables.userPermissions|;
      tables := tables.(userPermissions := tables.userPermissions + rows);
      if affected == 0 {
        return exists e :: e in tables.userPermissions && e in rows;
      }
      return true;
    }

    method AddUserToGroup(user: Id, name: string) returns (ok: bool)
      modifies this
      ensures (tables, ok) == Apply(old(tables), Operation.AddUserToGroup(user, name))
    {
      var rows := set id | id in IdsOf(tables.groups, name) :: (user, id);
      if rows != {} && user !in tables.users {
        return false;
      }
      var affected := |rows - tables.userGroups|;
      tables := tables.(userGroups := tables.userGroups + rows);
      if affected == 0 {
        return exists e :: e in tables.userGroups && e in rows;
      }
      return true;
    }

    method GrantGroupPermission(name: string, permission: Permission) returns (ok: bool)
      modifies this
      ensures (tables, ok) == Apply(old(tables), Operation.GrantGroupPermission(name, permission))
    {
      var rows := set g, p | g in IdsOf(tables.groups, name) && p in IdsOf(tables.permissions, permission) :: (g, p);
      var affected := |rows - tables.groupPermissions|;
      tables := tables.(groupPermissions := tables.groupPermissions + rows);
      if affected == 0 {
        return exists e :: e in tables.groupPermissions && e in rows;
      }
      return true;
    }
  }

  // ---------------------------------------------------------------- loading a user's access

  datatype Row = Row(group: string, permission: Option<Permission>)

  datatype Group = Group(name: string, permissions: seq<Permission>)

  datatype User = User(active: bool, superuser: bool, direct: seq<Permission>, groups: seq<Group>)

  /** The inner join behind direct permissions. */
  function DirectRows(t: Tables, user: Id): set<Permission> {
    set e | e in t.userPermissions && e.0 == user && e.1 in t.permissions :: t.permissions[e.1]
  }

  /** The left join behind group permissions: a group without permissions still has one row. */
  function GroupRows(t: Tables, user: Id): set<Row> {
    (set e, f | e in t.userGroups && f in t.groupPermissions && e.0 == user && f.0 == e.1
                && e.1 in t.groups && f.1 in t.permissions :: Row(t.groups[e.1], Some(t.permissions[f.1])))
    + (set e | e in t.userGroups && e.0 == user && e.1 in t.groups
               && (forall f :: f in t.groupPermissions ==> f.0 != e.1) :: Row(t.groups[e.1], None))
  }

  /** A query answers its rows once each, in some order. */
  ghost predicate Lists<T>(rows: seq<T>, table: set<T>) {
    multiset(rows) == multiset(table)
  }

  /** Group names in order of first appearance. */
  function FirstNames(rows: seq<Row>): seq<string> {
    if rows == [] then []
    else
      var names, last := FirstNames(rows[..|rows| - 1]), rows[|rows| - 1];
      if last.group in names then names else names + [last.group]
  }

  function PermissionsFor(rows: seq<Row>, name: string): seq<Permission> {
    if rows == [] then []
    else
      var last := rows[|rows| - 1];
      PermissionsFor(rows[..|rows| - 1], name) +
      (if last.group == name && last.permission.Some? then [last.permission.value] else [])
  }

  function Grouped(rows: seq<Row>): seq<Group> {
    var names := FirstNames(rows);
    seq(|names|, i requires 0 <= i < |names| => Group(names[i], PermissionsFor(rows, names[i])))
  }

  lemma {:induction false} NoRowsYet(rows: seq<Row>, name: string)
    ensures name !in FirstNames(rows) ==> PermissionsFor(rows, name) == []
  {
    if rows != [] {
      NoRowsYet(rows[..|rows| - 1], name);
    }
  }

  /** What one more row does to the order and to each group's permissions. */
  lemma NextRow(rows: seq<Row>, i: nat)
    requires i < |rows|
    ensures FirstNames(rows[..i + 1]) ==
            if rows[i].group in FirstNames(rows[..i]) then FirstNames(rows[..i])
            else FirstNames(rows[..i]) + [rows[i].group]
    ensures forall name :: PermissionsFor(rows[..i + 1], name) ==
              PermissionsFor(rows[..i], name) +
              (if rows[i].group == name && rows[i].permission.Some? then [rows[i].permission.value] else [])
    ensures rows[i].group !in FirstNames(rows[..i]) ==> PermissionsFor(rows[..i], rows[i].group) == []
  {
    assert rows[..i + 1][..i] == rows[..i];
    NoRowsYet(rows[..i], rows[i].group);
  }

  /** The loop over the rows: a map of groups under construction and the order of their names. */
  method FoldRows(rows: seq<Row>) returns (groups: map<string, Group>, order: seq<string>)
    ensures order == FirstNames(rows)
    ensures forall name :: name in order ==> name in groups && groups[name] == Group(name, PermissionsFor(rows, name))
  {
    groups, order := map[], [];
    for i := 0 to |rows|
      invariant order == FirstNames(rows[..i])
      invariant forall name :: name in groups <==> name in order
      invariant forall name :: name in groups ==> groups[name] == Group(name, PermissionsFor(rows[..i], name))
    {
      var row := rows[i];
      NextRow(rows, i);
      hide FirstNames, PermissionsFor;
      if row.group !in groups {
        groups := groups[row.group := Group(row.group, [])];
        order := order + [row.group];
      }
      if row.permission.Some? {
        var group := groups[row.group];
        groups := groups[row.group := group.(permissions := group.permissions + [row.permission.value])];
      }
    }
    assert rows[..|rows|] == rows;
  }

  /** The grouping loops of loadUserAccess: fold the rows, then append the groups in order. */
  method GroupLoop(rows: seq<Row>) returns (result: seq<Group>)
    ensures result == Grouped(rows)
  {
    hide FirstNames, PermissionsFor;
    var groups, order := FoldRows(rows);
    result := [];
    for i := 0 to |order|
      invariant result == Grouped(rows)[..i]
    {
      assert order[i] in order;
      result := result + [groups[order[i]]];
    }
  }

  lemma {:induction false} FirstNamesHold(rows: seq<Row>)
    ensures forall name :: name in FirstNames(rows) <==> exists i :: 0 <= i < |rows| && rows[i].group == name
    ensures forall i, j :: 0 <= i < j < |FirstNames(rows)| ==> FirstNames(rows)[i] != FirstNames(rows)[j]
  {
    if rows != [] {
      var before, last := rows[..|rows| - 1], rows[|rows| - 1];
      FirstNamesHold(before);
      forall name ensures name in FirstNames(rows) <==> exists i :: 0 <= i < |rows| && rows[i].group == name {
        if i :| 0 <= i < |before| && before[i].group == name {
          assert rows[i].group == name;
        }
        if i :| 0 <= i < |rows| && rows[i].group == name {
          assert i < |before| ==> before[i].group == name;
        }
      }
    }
  }

  lemma {:induction false} PermissionsForHold(rows: seq<Row>, name: string)
    ensures forall p :: p in PermissionsFor(rows, name) <==> Row(name, Some(p)) in rows
    ensures forall p :: multiset(PermissionsFor(rows, name))[p] == multiset(rows)[Row(name, Some(p))]
  {
    if rows != [] {
      PermissionsForHold(rows[..|rows| - 1], name);
      assert rows == rows[..|rows| - 1] + [rows[|rows| - 1]];
    }
  }

  lemma ListsMembers<T>(rows: seq<T>, table: set<T>)
    requires Lists(rows, table)
    ensures forall x :: x in rows <==> x in table
    ensures forall x :: multiset(rows)[x] <= 1
  {
    assert forall x :: x in rows <==> x in multiset(rows);
  }

  lemma MemberHasRow(t: Tables, user: Id, name: string)
    requires Sound(t)
    ensures (user, name) in Relate(t).member <==> exists r :: r in GroupRows(t, user) && r.group == name
  {
    if (user, name) in Relate(t).member {
      var e :| e in t.userGroups && e.1 in t.groups && e.0 == user && t.groups[e.1] == name;
      if f :| f in t.groupPermissions && f.0 == e.1 {
        assert Row(name, Some(t.permissions[f.1])) in GroupRows(t, user);
      } else {
        assert Row(name, None) in GroupRows(t, user);
      }
    }
    if r :| r in GroupRows(t, user) && r.group == name {
      var e :| e in t.userGroups && e.0 == user && e.1 in t.groups && t.groups[e.1] == name;
      assert (user, name) == (e.0, t.groups[e.1]);
    }
  }

  lemma RowOfGroup(rows: seq<Row>, table: set<Row>, name: string)
    requires Lists(rows, table)
    ensures (exists i :: 0 <= i < |rows| && rows[i].group == name) <==> (exists r :: r in table && r.group == name)
  {
    ListsMembers(rows, table);
    hide Lists;
    if i :| 0 <= i < |rows| && rows[i].group == name {
      assert rows[i] in rows;
    }
    if r :| r in table && r.group == name {
      var i :| 0 <= i < |rows| && rows[i] == r;
    }
  }

  lemma GroupNames(rows: seq<Row>, name: string)
    ensures (exists i :: 0 <= i < |Grouped(rows)| && Grouped(rows)[i].name == name) <==> name in FirstNames(rows)
  {
    var groups, names := Grouped(rows), FirstNames(rows);
    assert forall i :: 0 <= i < |names| ==> groups[i].name == names[i];
    hide Grouped, FirstNames;
    if name in names {
      var i :| 0 <= i < |names| && names[i] == name;
      assert groups[i].name == name;
    }
  }

  lemma GroupIsMembership(t: Tables, user: Id, rows: seq<Row>, name: string)
    requires Sound(t) && Lists(rows, GroupRows(t, user))
    ensures (exists i :: 0 <= i < |Grouped(rows)| && Grouped(rows)[i].name == name) <==>
            (user, name) in Relate(t).member
  {
    hide Lists, Grouped, FirstNames, Relate, GroupRows, Sound;
    GroupNames(rows, name);
    FirstNamesHold(rows);
    RowOfGroup(rows, GroupRows(t, user), name);
    MemberHasRow(t, user, name);
  }

  lemma GrantedHasRow(t: Tables, user: Id, name: string, p: Permission)
    requires Sound(t) && (user, name) in Relate(t).member
    ensures Row(name, Some(p)) in GroupRows(t, user) <==> (name, p) in Relate(t).granted
  {
    var e :| e in t.userGroups && e.1 in t.groups && e.0 == user && t.groups[e.1] == name;
    if (name, p) in Relate(t).granted {
      var f :| f in t.groupPermissions && f.0 in t.groups && f.1 in t.permissions &&
               t.groups[f.0] == name && t.permissions[f.1] == p;
      assert f.0 == e.1;
    }
    if Row(name, Some(p)) in GroupRows(t, user) {
      var e', f :| e' in t.userGroups && f in t.groupPermissions && e'.0 == user && f.0 == e'.1
                   && e'.1 in t.groups && f.1 in t.permissions && t.groups[e'.1] == name && t.permissions[f.1] == p;
      assert (name, p) == (t.groups[f.0], t.permissions[f.1]);
    }
  }

  lemma GroupHoldsGranted(t: Tables, user: Id, rows: seq<Row>, i: nat, p: Permission)
    requires Sound(t) && Lists(rows, GroupRows(t, user)) && i < |Grouped(rows)|
    ensures p in Grouped(rows)[i].permissions <==> (Grouped(rows)[i].name, p) in Relate(t).granted
    ensures multiset(Grouped(rows)[i].permissions)[p] <= 1
  {
    var names := FirstNames(rows);
    ListsMembers(rows, GroupRows(t, user));
    FirstNamesHold(rows);
    PermissionsForHold(rows, names[i]);
    assert names[i] in names;
    MemberHasRow(t, user, names[i]);
    hide Lists, FirstNames, PermissionsFor, Relate, GroupRows, Sound;
    GrantedHasRow(t, user, names[i], p);
  }

  /**
   * The row fold gives exactly one group per membership, holding exactly that group's permissions,
   * each once, for every order the rows may come in.
   */
  lemma GroupedExactly(t: Tables, user: Id, rows: seq<Row>)
    requires Sound(t) && Lists(rows, GroupRows(t, user))
    ensures var groups := Grouped(rows);
            && (forall name :: (exists i :: 0 <= i < |groups| && groups[i].name == name) <==>
                               (user, name) in Relate(t).member)
            && (forall i, j :: 0 <= i < j < |groups| ==> groups[i].name != groups[j].name)
            && (forall i, p :: 0 <= i < |groups| ==>
                  (p in groups[i].permissions <==> (groups[i].name, p) in Relate(t).granted) &&
                  multiset(groups[i].permissions)[p] <= 1)
  {
    var groups := Grouped(rows);
    ListsMembers(rows, GroupRows(t, user));
    FirstNamesHold(rows);
    hide Lists, FirstNames, PermissionsFor, Relate, GroupRows, Sound;
    forall name
      ensures (exists i :: 0 <= i < |groups| && groups[i].name == name) <==> (user, name) in Relate(t).member
    {
      GroupIsMembership(t, user, rows, name);
    }
    forall i, p | 0 <= i < |groups|
      ensures (p in groups[i].permissions <==> (groups[i].name, p) in Relate(t).granted) &&
              multiset(groups[i].permissions)[p] <= 1
    {
      GroupHoldsGranted(t, user, rows, i, p);
    }
  }

  // ---------------------------------------------------------------- evaluation

  method UserPermissions(user: Option<User>) returns (result: set<Permission>)
    ensures forall p :: p in result <==>
              user.Some? && user.value.active && p in user.value.direct && ValidPermission(p)
  {
    result := {};
    if user.None? || !user.value.active {
      return;
    }
    for i := 0 to |user.value.direct|
      invariant forall p :: p in result <==> p in user.value.direct[..i] && ValidPermission(p)
    {
      if ValidPermission(user.value.direct[i]) {
        result := result + {user.value.direct[i]};
      }
    }
    assert user.value.direct[..|user.value.direct|] == user.value.direct;
  }

  ghost predicate InGroups(groups: seq<Group>, p: Permission) {
    exists i :: 0 <= i < |groups| && p in groups[i].permissions
  }

  lemma OneMoreGroup(groups: seq<Group>, i: nat, p: Permission)
    requires i < |groups|
    ensures InGroups(groups[..i + 1], p) <==> InGroups(groups[..i], p) || p in groups[i].permissions
  {
    if InGroups(groups[..i], p) {
      var k :| 0 <= k < i && p in groups[..i][k].permissions;
      assert groups[..i + 1][k] == groups[..i][k];
    }
    if p in groups[i].permissions {
      assert groups[..i + 1][i] == groups[i];
    }
    if InGroups(groups[..i + 1], p) {
      var k :| 0 <= k < i + 1 && p in groups[..i + 1][k].permissions;
      assert k < i ==> groups[..i][k] == groups[..i + 1][k];
    }
  }

  method GroupPermissions(user: Option<User>) returns (result: set<Permission>)
    ensures forall p :: p in result <==>
              user.Some? && user.value.active && InGroups(user.value.groups, p) && ValidPermission(p)
  {
    result := {};
    if user.None? || !user.value.active {
      return;
    }
    var groups := user.value.groups;
    for i := 0 to |groups|
      invariant forall p :: p in result <==> InGroups(groups[..i], p) && ValidPermission(p)
    {
      ghost var before := result;
      for j := 0 to |groups[i].permissions|
        invariant forall p :: p in result <==> p in before || (p in groups[i].permissions[..j] && ValidPermission(p))
      {
        var permission := groups[i].permissions[j];
        if ValidPermission(permission) {
          result := result + {permission};
        }
      }
      assert groups[i].permissions[..|groups[i].permissions|] == groups[i].permissions;
      forall p ensures InGroups(groups[..i + 1], p) <==> InGroups(groups[..i], p) || p in groups[i].permissions {
        OneMoreGroup(groups, i, p);
      }
    }
    assert groups[..|groups|] == groups;
  }

  /** What HasPermission should mean for a loaded user. */
  ghost predicate Has(user: Option<User>, registered: seq<Permission>, p: Permission) {
    && user.Some? && user.value.active && ValidPermission(p)
    && if user.value.superuser then p in registered else p in user.value.direct || InGroups(user.value.groups, p)
  }

  method AllPermissions(user: Option<User>, registered: seq<Permission>) returns (result: set<Permission>)
    ensures forall p :: p in result <==> Has(user, registered, p)
  {
    result := {};
    if user.None? || !user.value.active {
      return;
    }
    if user.value.superuser {
      for i := 0 to |registered|
        invariant forall p :: p in result <==> p in registered[..i] && ValidPermission(p)
      {
        if ValidPermission(registered[i]) {
          result := result + {registered[i]};
        }
      }
      assert registered[..|registered|] == registered;
      return;
    }
    var own := UserPermissions(user);
    var shared := GroupPermissions(user);
    result := own + shared;
  }

  method HasPermission(user: Option<User>, registered: seq<Permission>, p: Permission) returns (has: bool)
    ensures has <==> Has(user, registered, p)
  {
    if !ValidPermission(p) {
      return false;
    }
    var all := AllPermissions(user, registered);
    return p in all;
  }

  /** A user as the store loads it, for some order of each query's rows. */
  ghost predicate Loaded(t: Tables, id: Id, user: User) {
    exists direct, rows :: Lists(direct, DirectRows(t, id)) && Lists(rows, GroupRows(t, id)) &&
                           user.direct == direct && user.groups == Grouped(rows)
  }

  lemma DirectExactly(t: Tables, id: Id, direct: seq<Permission>, p: Permission)
    requires Sound(t) && Lists(direct, DirectRows(t, id))
    ensures p in direct <==> (id, p) in Relate(t).direct
  {
    ListsMembers(direct, DirectRows(t, id));
    if p in direct {
      var e :| e in t.userPermissions && e.0 == id && e.1 in t.permissions && t.permissions[e.1] == p;
      assert (id, p) == (e.0, t.permissions[e.1]);
    }
    if (id, p) in Relate(t).direct {
      var e :| e in t.userPermissions && e.1 in t.permissions && (id, p) == (e.0, t.permissions[e.1]);
    }
  }

  lemma GroupPathExactly(t: Tables, id: Id, rows: seq<Row>, p: Permission)
    requires Sound(t) && Lists(rows, GroupRows(t, id))
    ensures InGroups(Grouped(rows), p) <==> exists g :: (id, g) in Relate(t).member && (g, p) in Relate(t).granted
  {
    GroupedExactly(t, id, rows);
    hide Grouped, Relate, GroupRows, Sound;
    var groups := Grouped(rows);
    if InGroups(groups, p) {
      var i :| 0 <= i < |groups| && p in groups[i].permissions;
      assert (groups[i].name, p) in Relate(t).granted;
      assert (id, groups[i].name) in Relate(t).member;
    }
    if g :| (id, g) in Relate(t).member && (g, p) in Relate(t).granted {
      var i :| 0 <= i < |groups| && groups[i].name == g;
      assert p in groups[i].permissions;
    }
  }

  /** An application's label, one dot and a codename. */
  ghost predicate Named(p: Permission) {
    exists app, codename :: app != "" && codename != "" && '.' !in app && '.' !in codename && p == app + "." + codename
  }

  lemma ValidMeans(p: Permission)
    ensures ValidPermission(p) <==> Named(p)
  {
    var parts := Split(p, '.');
    SplitPieces(p, '.');
    JoinSplit(p, '.');
    if ValidPermission(p) {
      hide Split;
      assert parts == [parts[0]] + [parts[1]];
      JoinCons(parts[0], [parts[1]], ".");
      assert parts[0] in parts && parts[1] in parts;
      assert p == parts[0] + "." + parts[1];
    }
    if Named(p) {
      hide Split, Join;
      var app, codename :|
        app != "" && codename != "" && '.' !in app && '.' !in codename && p == app + "." + codename;
      assert p == app + ['.'] + codename;
      SplitCons(app, codename, '.');
      SplitWhole(codename, '.');
    }
  }

  /** A row of the user's own grants names the permission. */
  ghost predicate OwnRow(t: Tables, id: Id, p: Permission) {
    exists e :: e in t.userPermissions && e.0 == id && e.1 in t.permissions && t.permissions[e.1] == p
  }

  /** A membership of the user and a grant of the same group name the permission. */
  ghost predicate GroupRow(t: Tables, id: Id, p: Permission) {
    exists e, f :: e in t.userGroups && f in t.groupPermissions && e.0 == id && f.0 == e.1 &&
                   f.1 in t.permissions && t.permissions[f.1] == p
  }

  lemma OwnRowIsDirect(t: Tables, id: Id, p: Permission)
    ensures OwnRow(t, id, p) <==> (id, p) in Relate(t).direct
  {
    if OwnRow(t, id, p) {
      var e :| e in t.userPermissions && e.0 == id && e.1 in t.permissions && t.permissions[e.1] == p;
      assert (id, p) == (e.0, t.permissions[e.1]);
    }
  }

  lemma GroupRowIsPath(t: Tables, id: Id, p: Permission)
    requires Sound(t)
    ensures GroupRow(t, id, p) <==> exists g :: (id, g) in Relate(t).member && (g, p) in Relate(t).granted
  {
    if GroupRow(t, id, p) {
      var e, f :| e in t.userGroups && f in t.groupPermissions && e.0 == id && f.0 == e.1 &&
                  f.1 in t.permissions && t.permissions[f.1] == p;
      var g := t.groups[e.1];
      assert (id, g) == (e.0, t.groups[e.1]) && (g, p) == (t.groups[f.0], t.permissions[f.1]);
      assert (id, g) in Relate(t).member && (g, p) in Relate(t).granted;
    }
    if g :| (id, g) in Relate(t).member && (g, p) in Relate(t).granted {
      var e :| e in t.userGroups && e.1 in t.groups && (id, g) == (e.0, t.groups[e.1]);
      var f :| f in t.groupPermissions && f.0 in t.groups && f.1 in t.permissions &&
               (g, p) == (t.groups[f.0], t.permissions[f.1]);
      assert f.0 == e.1;
    }
  }

  /**
   * What a loaded user has, on the tables: nothing while inactive, as a superuser the registered permissions
   * and no other, and else what a row of its own or of one of its groups names. A permission of another
   * shape is had by nobody.
   */
  lemma AccessExactly(t: Tables, id: Id, user: User, registered: seq<Permission>, p: Permission)
    requires Sound(t) && Loaded(t, id, user)
    ensures !Has(None, registered, p)
    ensures Has(Some(user), registered, p) <==>
            && user.active && Named(p)
            && if user.superuser then p in registered else OwnRow(t, id, p) || GroupRow(t, id, p)
  {
    var direct, rows :| Lists(direct, DirectRows(t, id)) && Lists(rows, GroupRows(t, id)) &&
                        user.direct == direct && user.groups == Grouped(rows);
    hide ValidPermission, Grouped, Sound, GroupRows, Named, OwnRow, GroupRow, Relate, DirectRows, InGroups;
    ValidMeans(p);
    DirectExactly(t, id, direct, p);
    GroupPathExactly(t, id, rows, p);
    OwnRowIsDirect(t, id, p);
    GroupRowIsPath(t, id, p);
  }

  lemma MadeNames(t: Tables, op: Operation)
    requires Sound(t) && Fresh(t, op)
    ensures var (after, ok) := Apply(t, op);
            && (forall g :: g in Relate(after).groups <==>
                  g in Relate(t).groups || (op.CreateGroup? && g == op.name && g != ""))
            && (forall p :: p in Relate(after).permissions <==>
                  p in Relate(t).permissions || (op.CreatePermission? && p == op.permission && Named(p)))
            && after.users == t.users
            && (op.CreateGroup? ==> (ok <==> op.name != ""))
            && (op.CreatePermission? ==> (ok <==> Named(op.permission)))
  {
    ApplyRefines(t, op);
    RelatedEnds(t);
    RelatedEnds(Apply(t, op).0);
    if op.CreatePermission? {
      ValidMeans(op.permission);
    }
    hide Sound, Relate, Apply, Named, ValidPermission, Fresh;
  }

  /**
   * The one edge an operation may add, and when: a grant adds the edge it names if both its ends are there,
   * and answers accordingly; nothing else adds an edge, and nothing removes one.
   */
  lemma MadeEdges(t: Tables, op: Operation)
    requires Sound(t) && Fresh(t, op)
    ensures var (after, ok) := Apply(t, op);
            var (r, r') := (Relate(t), Relate(after));
            && (forall user: Id, p :: (user, p) in r'.direct <==>
                  (user, p) in r.direct ||
                  (op == Operation.GrantUserPermission(user, p) && user in r.users && p in r.permissions))
            && (forall user: Id, g :: (user, g) in r'.member <==>
                  (user, g) in r.member ||
                  (op == Operation.AddUserToGroup(user, g) && user in r.users && g in r.groups))
            && (forall g, p :: (g, p) in r'.granted <==>
                  (g, p) in r.granted ||
                  (op == Operation.GrantGroupPermission(g, p) && g in r.groups && p in r.permissions))
            && (op.GrantUserPermission? ==> (ok <==> op.user in r.users && op.permission in r.permissions))
            && (op.AddUserToGroup? ==> (ok <==> op.user in r.users && op.name in r.groups))
            && (op.GrantGroupPermission? ==> (ok <==> op.name in r.groups && op.permission in r.permissions))
  {
    ApplyRefines(t, op);
    hide Sound, Relate, Apply, Fresh, ValidPermission;
  }

  /**
   * After any run of creates and grants, an active user that is no superuser has a permission exactly
   * when it is valid and the relations hold a direct edge to it or a path through a group. A superuser has
   * the registered ones whatever the run.
   */
  lemma PermissionExactly(t: Tables, ops: seq<Operation>, id: Id, user: User, registered: seq<Permission>,
                          p: Permission)
    requires Sound(t) && AllFresh(t, ops) && Loaded(ApplyAll(t, ops), id, user)
    ensures var r := MeantAll(Relate(t), ops);
            Has(Some(user), registered, p) <==>
            && user.active && Named(p)
            && if user.superuser then p in registered
               else (id, p) in r.direct || exists g :: (id, g) in r.member && (g, p) in r.granted
  {
    RunRefines(t, ops);
    var after := ApplyAll(t, ops);
    hide ValidPermission, Sound, MeantAll, ApplyAll, Has, Loaded, Relate, OwnRow, GroupRow, Named;
    AccessExactly(after, id, user, registered, p);
    OwnRowIsDirect(after, id, p);
    GroupRowIsPath(after, id, p);
  }
}
