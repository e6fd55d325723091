/** How the importer puts an imported table in place: renames, drops and schema moves over one
    database connection, any statement of which may fail.  Inside a transaction a failed statement
    aborts it: later statements fail as well, and COMMIT of an aborted transaction rolls back
    without raising. */
module ImportSwap {
  import opened Wrappers

  datatype Name = Name(schema: string, table: string)

  /** The data of a table.  What cartodbfying adds to it is not part of it. */
  type Contents = int

  type Tables = map<Name, Contents>

  datatype Statement =
    | DropTable(n: Name)
    | RenameTable(n: Name, to: string)
    | SetSchema(n: Name, to: string)
    | Other

  /** Tables, the tables at BEGIN while in a transaction, whether it is aborted, and the number of
      statements sent so far. */
  datatype Conn = Conn(tables: Tables, saved: Option<Tables>, aborted: bool, executed: nat)

  /** `ok` is false when the call raises. */
  datatype Done = Done(conn: Conn, ok: bool)

  /** `f(k)` makes the `k`th statement fail for a reason of its own: a timeout, a lock, a lost
      privilege. */
  type Faults = nat -> bool

  datatype Imported = Imported(table: string, support: seq<string>)

  const ORIGIN_SCHEMA := "cdb_importer"

  function Moved(ts: Tables, a: Name, b: Name): Option<Tables> {
    if a in ts && b !in ts then Some((ts - {a})[b := ts[a]]) else None
  }

  function Apply(ts: Tables, s: Statement): Option<Tables> {
    match s
    case DropTable(n) => if n in ts then Some(ts - {n}) else None
    case RenameTable(n, to) => Moved(ts, n, Name(n.schema, to))
    case SetSchema(n, to) => Moved(ts, n, Name(to, n.table))
    case Other => Some(ts)
  }

  function Execute(f: Faults, c: Conn, s: Statement): Done {
    var next := c.(executed := c.executed + 1);
    if c.aborted then Done(next, false)
    else if f(c.executed) || Apply(c.tables, s).None? then Done(next.(aborted := c.saved.Some?), false)
    else Done(next.(tables := Apply(c.tables, s).value), true)
  }

  /** `drop`: the overviews go first; every error is swallowed. */
  function Drop(f: Faults, c: Conn, n: Name): Conn {
    var o := Execute(f, c, Other);
    if o.ok then Execute(f, o.conn, DropTable(n)).conn else o.conn
  }

  /** A support table's name ends in its parent's name, which is replaced. */
  function SupportName(item: string, old_: string, new_: string): string {
    (if |old_| <= |item| then item[..|item|-|old_|] else item) + new_
  }

  function RenameSupport(f: Faults, c: Conn, schema: string, items: seq<string>, old_: string, new_: string): Done
    decreases |items|
  {
    if items == [] then Done(c, true)
    else
      var o := Execute(f, c, RenameTable(Name(schema, items[0]), SupportName(items[0], old_, new_)));
      if o.ok then RenameSupport(f, o.conn, schema, items[1..], old_, new_) else o
  }

  /** `rename`: the table, its geometry index (whose failure is swallowed), its support tables. */
  function Rename(f: Faults, c: Conn, support: seq<string>, current: string, name: string, schema: string): Done {
    var o := Execute(f, c, RenameTable(Name(schema, current), name));
    if !o.ok then Done(Drop(f, o.conn, Name(schema, current)), false)
    else
      var s := RenameSupport(f, Execute(f, o.conn, Other).conn, schema, support, current, name);
      if s.ok then s else Done(Drop(f, s.conn, Name(schema, current)), false)
  }

  /** `change_schema`: every support table, and its constraints and permissions. */
  function MoveSupport(f: Faults, c: Conn, items: seq<string>, origin: string, destination: string): Done
    decreases |items|
  {
    if items == [] then Done(c, true)
    else
      var o := Execute(f, c, SetSchema(Name(origin, items[0]), destination));
      if !o.ok then o
      else
        var p := Execute(f, o.conn, Other);
        if !p.ok then p else MoveSupport(f, p.conn, items[1..], origin, destination)
  }

  function MoveToSchema(f: Faults, c: Conn, support: seq<string>, table: string, origin: string, destination: string): Done {
    if origin == destination then Done(c, true)
    else
      var o := Execute(f, c, SetSchema(Name(origin, table), destination));
      var s := if o.ok then MoveSupport(f, o.conn, support, origin, destination) else o;
      if s.ok then s else Done(Drop(f, s.conn, Name(origin, table)), false)
  }

  function Begin(c: Conn): Conn {
    c.(saved := Some(c.tables), aborted := false)
  }

  function Commit(c: Conn): Conn
    requires c.saved.Some?
  {
    c.(tables := if c.aborted then c.saved.value else c.tables, saved := None, aborted := false)
  }

  function Rollback(c: Conn): Conn
    requires c.saved.Some?
  {
    c.(tables := c.saved.value, saved := None, aborted := false)
  }

  /** The block of `overwrite_register`: drop the old table, put the new one in its place. */
  function Swap(f: Faults, c: Conn, r: Imported, name: string, destination: string): (d: Done)
    ensures d.conn.saved == c.saved
  {
    InTransaction(f, c, Name(destination, name));
    var n := Rename(f, Drop(f, c, Name(destination, name)), r.support, r.table, name, destination);
    RenameInTransaction(f, Drop(f, c, Name(destination, name)), r.support, r.table, name, destination);
    if n.ok then n
    else
      InTransaction(f, n.conn, Name(destination, r.table));
      Done(Drop(f, n.conn, Name(destination, r.table)), false)
  }

  /** `n` calls that leave the data alone, one after the other, until one raises. */
  function After(f: Faults, c: Conn, n: nat): Done
    decreases n
  {
    if n == 0 then Done(c, true)
    else
      var o := Execute(f, c, Other);
      if o.ok then After(f, o.conn, n - 1) else o
  }

  /** What follows the COMMIT of an overwrite: cartodbfying, fixing the oid, running the captured
      statements, sanitizing columns, updating the table metadata, restoring permissions. */
  const FINISHING_STEPS: nat := 6

  function OverwriteRegister(f: Faults, c: Conn, r: Imported, name: string, destination: string): Done {
    var g := Execute(f, c, Other);
    if !g.ok then g
    else
      var s := Swap(f, Begin(g.conn), r, name, destination);
      if s.ok then After(f, Commit(s.conn), FINISHING_STEPS) else Done(Rollback(s.conn), false)
  }

  /** The block of `new_register`: rename in the origin schema, then move. */
  function Place(f: Faults, c: Conn, r: Imported, name: string, destination: string): (d: Done)
    ensures d.conn.saved == c.saved
  {
    var n := Rename(f, c, r.support, r.table, name, ORIGIN_SCHEMA);
    RenameInTransaction(f, c, r.support, r.table, name, ORIGIN_SCHEMA);
    if !n.ok then n
    else
      var support := RenamedSupport(r.support, r.table, name);
      MoveInTransaction(f, n.conn, support, name, ORIGIN_SCHEMA, destination);
      MoveToSchema(f, n.conn, support, name, ORIGIN_SCHEMA, destination)
  }

  function RenamedSupport(items: seq<string>, old_: string, new_: string): seq<string> {
    seq(|items|, i requires 0 <= i < |items| => SupportName(items[i], old_, new_))
  }

  function NewRegister(f: Faults, c: Conn, r: Imported, name: string, destination: string): Done {
    var p := Place(f, Begin(c), r, name, destination);
    if p.ok then Done(Commit(p.conn), true) else Done(Rollback(p.conn), false)
  }

  /** One import result: the name proposed for it, whether the schemas are compatible, and whether
      an error of its registration is a statement timeout. */
  datatype Job = Job(imported: Imported, name: string, compatible: bool, timeout: bool)

  /** The table is put in place one way or the other. */
  function PutInPlace(f: Faults, c: Conn, job: Job, overwrite: bool, destination: string): Done {
    var r := job.imported;
    if overwrite then
      var m := MoveToSchema(f, c, r.support, r.table, ORIGIN_SCHEMA, destination);
      if m.ok then OverwriteRegister(f, m.conn, r, job.name, destination) else m
    else
      NewRegister(f, c, r, job.name, destination)
  }

  /** An overwrite happens when the strategy says so and the name is taken. */
  predicate Overwrites(c: Conn, job: Job, overwriteStrategy: bool, destination: string) {
    overwriteStrategy && Name(destination, job.name) in c.tables
  }

  /** `register`: the table, then its metadata. */
  function Register(f: Faults, c: Conn, job: Job, overwriteStrategy: bool, destination: string): Done {
    var origin, overwrite := Name(ORIGIN_SCHEMA, job.imported.table), Overwrites(c, job, overwriteStrategy, destination);
    if overwrite && !job.compatible then
      Done(Drop(f, c, origin), false)
    else
      var p := PutInPlace(f, c, job, overwrite, destination);
      var d := if p.ok then After(f, p.conn, 1) else p;
      if !d.ok && job.timeout then Done(Drop(f, d.conn, origin), false) else d
  }

  /** `register_results`: one after the other, until one raises. */
  function RegisterAll(f: Faults, c: Conn, jobs: seq<Job>, overwriteStrategy: bool, destination: string): Done
    decreases |jobs|
  {
    if jobs == [] then Done(c, true)
    else
      var d := Register(f, c, jobs[0], overwriteStrategy, destination);
      if d.ok then RegisterAll(f, d.conn, jobs[1..], overwriteStrategy, destination) else d
  }

  // ----- inside a transaction

  /** Nothing but COMMIT and ROLLBACK ends a transaction, an aborted one stays aborted, and its
      tables stay put. */
  ghost predicate StaysInTransaction(c: Conn, d: Conn) {
    d.saved == c.saved && (c.aborted ==> d.aborted && d.tables == c.tables)
  }

  lemma InTransaction(f: Faults, c: Conn, n: Name)
    ensures StaysInTransaction(c, Drop(f, c, n))
  {
  }

  lemma {:induction false} RenameSupportInTransaction(f: Faults, c: Conn, schema: string, items: seq<string>, old_: string, new_: string)
    ensures var d := RenameSupport(f, c, schema, items, old_, new_);
      && StaysInTransaction(c, d.conn)
      && (c.saved.Some? && d.ok && d.conn.aborted ==> c.aborted && items == [])
    decreases |items|
  {
    if items != [] {
      var o := Execute(f, c, RenameTable(Name(schema, items[0]), SupportName(items[0], old_, new_)));
      if o.ok {
        RenameSupportInTransaction(f, o.conn, schema, items[1..], old_, new_);
      }
    }
  }

  lemma RenameInTransaction(f: Faults, c: Conn, support: seq<string>, current: string, name: string, schema: string)
    ensures StaysInTransaction(c, Rename(f, c, support, current, name, schema).conn)
  {
    var o := Execute(f, c, RenameTable(Name(schema, current), name));
    RenameSupportInTransaction(f, Execute(f, o.conn, Other).conn, schema, support, current, name);
  }

  lemma {:induction false} MoveSupportInTransaction(f: Faults, c: Conn, items: seq<string>, origin: string, destination: string)
    ensures StaysInTransaction(c, MoveSupport(f, c, items, origin, destination).conn)
    ensures MoveSupport(f, c, items, origin, destination).ok && !c.aborted ==> !MoveSupport(f, c, items, origin, destination).conn.aborted
    decreases |items|
  {
    if items != [] {
      var o := Execute(f, c, SetSchema(Name(origin, items[0]), destination));
      if o.ok {
        var p := Execute(f, o.conn, Other);
        if p.ok {
          MoveSupportInTransaction(f, p.conn, items[1..], origin, destination);
        }
      }
    }
  }

  lemma MoveInTransaction(f: Faults, c: Conn, support: seq<string>, table: string, origin: string, destination: string)
    ensures var d := MoveToSchema(f, c, support, table, origin, destination);
      StaysInTransaction(c, d.conn) && (d.ok && origin != destination ==> !c.aborted && !d.conn.aborted)
  {
    var o := Execute(f, c, SetSchema(Name(origin, table), destination));
    MoveSupportInTransaction(f, o.conn, support, origin, destination);
  }

  // ----- what successful statements leave alone

  /** Every table of `ts` other than `gone` is in `us` with the same contents. */
  ghost predicate Keeps(ts: Tables, us: Tables, gone: set<Name>) {
    forall n :: n in ts && n !in gone ==> n in us && us[n] == ts[n]
  }

  ghost function Named(schema: string, items: seq<string>): set<Name> {
    set t | t in items :: Name(schema, t)
  }

  lemma {:induction false} RenameSupportKeeps(f: Faults, c: Conn, schema: string, items: seq<string>, old_: string, new_: string)
    ensures Keeps(c.tables, RenameSupport(f, c, schema, items, old_, new_).conn.tables, Named(schema, items))
    decreases |items|
  {
    if items != [] {
      assert items == [items[0]] + items[1..];
      assert Named(schema, items) == {Name(schema, items[0])} + Named(schema, items[1..]);
      var o := Execute(f, c, RenameTable(Name(schema, items[0]), SupportName(items[0], old_, new_)));
      RenameSupportKeeps(f, o.conn, schema, items[1..], old_, new_);
    }
  }

  lemma {:induction false} MoveSupportKeeps(f: Faults, c: Conn, items: seq<string>, origin: string, destination: string)
    ensures Keeps(c.tables, MoveSupport(f, c, items, origin, destination).conn.tables, Named(origin, items))
    decreases |items|
  {
    if items != [] {
      assert items == [items[0]] + items[1..];
      assert Named(origin, items) == {Name(origin, items[0])} + Named(origin, items[1..]);
      var o := Execute(f, c, SetSchema(Name(origin, items[0]), destination));
      MoveSupportKeeps(f, Execute(f, o.conn, Other).conn, items[1..], origin, destination);
    }
  }

  // ----- the swap

  ghost predicate Idle(c: Conn) {
    c.saved.None? && !c.aborted
  }

  /** None of the `n` statements from the `first` on fails. */
  ghost predicate NoFault(f: Faults, first: nat, n: nat) {
    forall k: nat :: first <= k < first + n ==> !f(k)
  }

  lemma {:induction false} AfterOutcome(f: Faults, c: Conn, n: nat)
    requires Idle(c)
    ensures var d := After(f, c, n);
      && Idle(d.conn) && d.conn.tables == c.tables
      && (d.ok <==> NoFault(f, c.executed, n))
      && (d.ok ==> d.conn.executed == c.executed + n)
    decreases n
  {
    if n > 0 {
      var o := Execute(f, c, Other);
      if o.ok {
        AfterOutcome(f, o.conn, n - 1);
      } else {
        assert f(c.executed);
      }
    }
  }

  lemma {:induction false} RenameSupportCount(f: Faults, c: Conn, schema: string, items: seq<string>, old_: string, new_: string)
    ensures var d := RenameSupport(f, c, schema, items, old_, new_);
      d.ok ==> d.conn.executed == c.executed + |items|
    decreases |items|
  {
    if items != [] {
      var o := Execute(f, c, RenameTable(Name(schema, items[0]), SupportName(items[0], old_, new_)));
      RenameSupportCount(f, o.conn, schema, items[1..], old_, new_);
    }
  }

  /** The destination holds what was imported, and only the swapped and support tables moved. */
  ghost predicate Swapped(ts: Tables, us: Tables, r: Imported, name: string, destination: string) {
    var temp, target := Name(destination, r.table), Name(destination, name);
    && temp in ts && target in ts
    && (target !in Named(destination, r.support) ==> target in us && us[target] == ts[temp])
    && Keeps(ts, us, {temp, target} + Named(destination, r.support))
  }

  /** The index rename is the one statement of the transaction whose failure can go unnoticed, and
      only when no support table follows it: then COMMIT rolls back. */
  ghost predicate SilentFailure(f: Faults, c: Conn, r: Imported) {
    r.support == [] && f(c.executed + 4)
  }

  /** No step of the transaction's block raises. */
  ghost predicate BlockEnds(f: Faults, c: Conn, r: Imported, name: string, destination: string) {
    var g := Execute(f, c, Other);
    g.ok && Swap(f, Begin(g.conn), r, name, destination).ok
  }

  /** The block of the transaction ends without raising either with every statement done, or
      aborted by the one failure that nothing notices: the index, with no support tables to
      follow. */
  lemma SwapOutcome(f: Faults, c: Conn, r: Imported, name: string, destination: string)
    requires c.saved.Some? && !c.aborted && r.table != name
    ensures var s := Swap(f, c, r, name, destination);
      && (s.ok ==> (s.conn.aborted <==> r.support == [] && f(c.executed + 3)))
      && (s.ok && !s.conn.aborted ==> Swapped(c.tables, s.conn.tables, r, name, destination))
      && (s.ok ==> s.conn.executed == c.executed + 4 + |r.support|)
  {
    var target, temp := Name(destination, name), Name(destination, r.table);
    var d := Drop(f, c, target);
    var o := Execute(f, d, RenameTable(temp, name));
    var i := Execute(f, o.conn, Other);
    InTransaction(f, c, target);
    RenameSupportInTransaction(f, i.conn, destination, r.support, r.table, name);
    RenameSupportKeeps(f, i.conn, destination, r.support, r.table, name);
    RenameSupportCount(f, i.conn, destination, r.support, r.table, name);
  }

  /** The transaction from BEGIN to its end, one way or the other. */
  lemma TransactionOutcome(f: Faults, c: Conn, r: Imported, name: string, destination: string)
    requires Idle(c) && r.table != name
    ensures var s := Swap(f, Begin(c), r, name, destination);
      var d := if s.ok then Commit(s.conn) else Rollback(s.conn);
      && Idle(d)
      && (s.ok && !(r.support == [] && f(c.executed + 3)) ==> Swapped(c.tables, d.tables, r, name, destination))
      && (!s.ok || (r.support == [] && f(c.executed + 3)) ==> d.tables == c.tables)
      && (s.ok ==> d.executed == c.executed + 4 + |r.support|)
  {
    SwapOutcome(f, Begin(c), r, name, destination);
  }

  /** The overwrite is all or nothing, although `drop` swallows its errors.  If a step of the block
      raises, the call raises and every table is as it was.  If none does, the destination has the
      new contents and no other table but the support tables changed, unless the silent index
      failure rolled everything back; and the call returns exactly when none of the steps after
      COMMIT fails. */
  lemma OverwriteIsAllOrNothing(f: Faults, c: Conn, r: Imported, name: string, destination: string)
    requires Idle(c) && r.table != name
    ensures var o := OverwriteRegister(f, c, r, name, destination);
      && Idle(o.conn)
      && (if BlockEnds(f, c, r, name, destination) && !SilentFailure(f, c, r)
          then Swapped(c.tables, o.conn.tables, r, name, destination)
          else o.conn.tables == c.tables)
      && (o.ok <==> BlockEnds(f, c, r, name, destination) && NoFault(f, c.executed + 5 + |r.support|, FINISHING_STEPS))
      && (o.ok ==> o.conn.executed == c.executed + 5 + |r.support| + FINISHING_STEPS)
  {
    var g := Execute(f, c, Other);
    if g.ok {
      TransactionOutcome(f, g.conn, r, name, destination);
      var s := Swap(f, Begin(g.conn), r, name, destination);
      assert BlockEnds(f, c, r, name, destination) == s.ok;
      assert SilentFailure(f, c, r) == (r.support == [] && f(g.conn.executed + 3));
      if s.ok {
        assert OverwriteRegister(f, c, r, name, destination) == After(f, Commit(s.conn), FINISHING_STEPS);
        AfterOutcome(f, Commit(s.conn), FINISHING_STEPS);
      } else {
        assert OverwriteRegister(f, c, r, name, destination) == Done(Rollback(s.conn), false);
      }
    }
  }

  /** Nothing but the index failure: the overwrite returns normally and the destination still has
      its old contents. */
  lemma SilentRollback(old_: Contents, new_: Contents)
    requires old_ != new_
    ensures exists f: Faults, c: Conn, r: Imported, name: string, destination: string ::
      var o := OverwriteRegister(f, c, r, name, destination);
      Idle(c) && o.ok && Name(destination, r.table) in c.tables && c.tables[Name(destination, r.table)] == new_ &&
      Name(destination, name) in o.conn.tables && o.conn.tables[Name(destination, name)] == old_
  {
    var f: Faults := k => k == 4;
    var target, temp := Name("public", "a"), Name("public", "b");
    var c := Conn(map[target := old_, temp := new_], None, false, 0);
    var r := Imported("b", []);
    var g := Execute(f, c, Other);
    var b := Begin(g.conn);
    var d := Drop(f, b, target);
    assert d == Conn(map[temp := new_], Some(c.tables), false, 3);
    var o := Execute(f, d, RenameTable(temp, "a"));
    assert o.ok;
    var i := Execute(f, o.conn, Other);
    assert i.conn.aborted;
    var s := Swap(f, b, r, "a", "public");
    assert s == Done(i.conn, true);
    assert BlockEnds(f, c, r, "a", "public") && SilentFailure(f, c, r);
    OverwriteIsAllOrNothing(f, c, r, "a", "public");
    assert NoFault(f, c.executed + 5, FINISHING_STEPS);
  }

  // ----- a new table

  /** After the renames in the origin schema: the table is still the one imported, under its name,
      unless a missing support table is called like it. */
  lemma RenamedKeepsContents(f: Faults, c: Conn, r: Imported, name: string)
    requires c.saved.Some? && !c.aborted
    ensures var n := Rename(f, c, r.support, r.table, name, ORIGIN_SCHEMA);
      && (n.ok ==> Name(ORIGIN_SCHEMA, r.table) in c.tables && Name(ORIGIN_SCHEMA, name) !in c.tables)
      && (n.ok && !n.conn.aborted && name !in r.support ==>
            && Name(ORIGIN_SCHEMA, name) in n.conn.tables
            && n.conn.tables[Name(ORIGIN_SCHEMA, name)] == c.tables[Name(ORIGIN_SCHEMA, r.table)]
            && name !in RenamedSupport(r.support, r.table, name))
  {
    var o := Execute(f, c, RenameTable(Name(ORIGIN_SCHEMA, r.table), name));
    var i := Execute(f, o.conn, Other);
    RenameSupportKeeps(f, i.conn, ORIGIN_SCHEMA, r.support, r.table, name);
    RenameSupportInTransaction(f, i.conn, ORIGIN_SCHEMA, r.support, r.table, name);
    if RenameSupport(f, i.conn, ORIGIN_SCHEMA, r.support, r.table, name).ok {
      RenamedSupportWasFree(f, i.conn, ORIGIN_SCHEMA, r.support, r.table, name);
    }
    if name in RenamedSupport(r.support, r.table, name) {
      assert Name(ORIGIN_SCHEMA, name) in Named(ORIGIN_SCHEMA, RenamedSupport(r.support, r.table, name));
    }
  }

  /** Support tables can only be renamed to free names. */
  lemma {:induction false} RenamedSupportWasFree(f: Faults, c: Conn, schema: string, items: seq<string>, old_: string, new_: string)
    requires RenameSupport(f, c, schema, items, old_, new_).ok
    ensures forall n :: n in c.tables && n !in Named(schema, items) ==> n !in Named(schema, RenamedSupport(items, old_, new_))
    decreases |items|
  {
    var renamed := RenamedSupport(items, old_, new_);
    if items != [] {
      var o := Execute(f, c, RenameTable(Name(schema, items[0]), SupportName(items[0], old_, new_)));
      RenamedSupportWasFree(f, o.conn, schema, items[1..], old_, new_);
      assert items == [items[0]] + items[1..];
      assert renamed[1..] == RenamedSupport(items[1..], old_, new_);
      assert renamed == [SupportName(items[0], old_, new_)] + renamed[1..];
      forall n | n in c.tables && n !in Named(schema, items)
        ensures n !in Named(schema, renamed)
      {
        assert n.schema == schema ==> n.table != items[0];
        assert n in o.conn.tables;
        assert n !in Named(schema, items[1..]);
      }
    }
  }

  /** The imported table is at its destination with its contents. */
  ghost predicate Delivered(ts: Tables, us: Tables, r: Imported, target: Name) {
    var origin := Name(ORIGIN_SCHEMA, r.table);
    origin in ts && target in us && us[target] == ts[origin]
  }

  /** No support table that is not there is called like the table to be. */
  ghost predicate SupportStands(ts: Tables, r: Imported, name: string) {
    name in r.support ==> Name(ORIGIN_SCHEMA, name) in ts
  }

  lemma PlaceOutcome(f: Faults, c: Conn, r: Imported, name: string, destination: string)
    requires c.saved.Some? && !c.aborted && destination != ORIGIN_SCHEMA
    ensures var p := Place(f, c, r, name, destination);
      && (p.ok ==> !p.conn.aborted && Name(destination, name) !in c.tables && Name(destination, name) in p.conn.tables)
      && (p.ok ==> forall n :: n in c.tables && n.schema != ORIGIN_SCHEMA ==> n in p.conn.tables && p.conn.tables[n] == c.tables[n])
      && (p.ok && SupportStands(c.tables, r, name) ==> Delivered(c.tables, p.conn.tables, r, Name(destination, name)))
  {
    var n := Rename(f, c, r.support, r.table, name, ORIGIN_SCHEMA);
    RenameInTransaction(f, c, r.support, r.table, name, ORIGIN_SCHEMA);
    var o := Execute(f, c, RenameTable(Name(ORIGIN_SCHEMA, r.table), name));
    RenameSupportKeeps(f, Execute(f, o.conn, Other).conn, ORIGIN_SCHEMA, r.support, r.table, name);
    if n.ok {
      RenamedKeepsContents(f, c, r, name);
      var support := RenamedSupport(r.support, r.table, name);
      MoveInTransaction(f, n.conn, support, name, ORIGIN_SCHEMA, destination);
      var p := Execute(f, n.conn, SetSchema(Name(ORIGIN_SCHEMA, name), destination));
      MoveSupportKeeps(f, p.conn, support, ORIGIN_SCHEMA, destination);
    }
  }

  /** A `new_register` that raises changes no table; one that returns adds the imported table with
      its contents and touches none of the tables that were outside the origin schema. */
  lemma NewRegisterIsAllOrNothing(f: Faults, c: Conn, r: Imported, name: string, destination: string)
    requires Idle(c) && destination != ORIGIN_SCHEMA
    ensures var o := NewRegister(f, c, r, name, destination);
      && Idle(o.conn)
      && (!o.ok ==> o.conn.tables == c.tables)
      && (o.ok ==> Name(destination, name) !in c.tables && Name(destination, name) in o.conn.tables)
      && (o.ok && SupportStands(c.tables, r, name) ==> Delivered(c.tables, o.conn.tables, r, Name(destination, name)))
      && (o.ok ==> forall n :: n in c.tables && n.schema != ORIGIN_SCHEMA ==> n in o.conn.tables && o.conn.tables[n] == c.tables[n])
  {
    PlaceOutcome(f, Begin(c), r, name, destination);
  }

  // ----- one result

  lemma IdleMove(f: Faults, c: Conn, support: seq<string>, table: string, origin: string, destination: string)
    requires Idle(c)
    ensures var m := MoveToSchema(f, c, support, table, origin, destination);
      && Idle(m.conn)
      && (m.ok && origin != destination ==> m.conn.executed == c.executed + 1 + 2 * |support|)
  {
    var o := Execute(f, c, SetSchema(Name(origin, table), destination));
    IdleMoveSupport(f, o.conn, support, origin, destination);
  }

  lemma {:induction false} IdleMoveSupport(f: Faults, c: Conn, items: seq<string>, origin: string, destination: string)
    requires Idle(c)
    ensures var m := MoveSupport(f, c, items, origin, destination);
      Idle(m.conn) && (m.ok ==> m.conn.executed == c.executed + 2 * |items|)
    decreases |items|
  {
    if items != [] {
      var o := Execute(f, c, SetSchema(Name(origin, items[0]), destination));
      IdleMoveSupport(f, Execute(f, o.conn, Other).conn, items[1..], origin, destination);
    }
  }

  /** Support tables can only be moved to free names. */
  lemma {:induction false} MovedSupportWasFree(f: Faults, c: Conn, items: seq<string>, origin: string, destination: string)
    requires origin != destination && MoveSupport(f, c, items, origin, destination).ok
    ensures Named(destination, items) !! c.tables.Keys
    decreases |items|
  {
    if items != [] {
      assert items == [items[0]] + items[1..];
      var o := Execute(f, c, SetSchema(Name(origin, items[0]), destination));
      var p := Execute(f, o.conn, Other);
      MovedSupportWasFree(f, p.conn, items[1..], origin, destination);
      assert forall n :: n in c.tables && n.schema == destination ==> n in p.conn.tables;
    }
  }

  /** Moving the import next to the table it will replace touches nothing that was there. */
  lemma MoveKeepsDestination(f: Faults, c: Conn, r: Imported, destination: string)
    requires Idle(c) && destination != ORIGIN_SCHEMA
    ensures var m := MoveToSchema(f, c, r.support, r.table, ORIGIN_SCHEMA, destination);
      && (forall n :: n in c.tables && n.schema != ORIGIN_SCHEMA ==> n in m.conn.tables && m.conn.tables[n] == c.tables[n])
      && (m.ok ==> Name(destination, r.table) !in c.tables && Named(destination, r.support) !! c.tables.Keys)
      && (m.ok ==> Delivered(c.tables, m.conn.tables, r, Name(destination, r.table)))
  {
    var o := Execute(f, c, SetSchema(Name(ORIGIN_SCHEMA, r.table), destination));
    MoveSupportKeeps(f, o.conn, r.support, ORIGIN_SCHEMA, destination);
    if o.ok && MoveSupport(f, o.conn, r.support, ORIGIN_SCHEMA, destination).ok {
      MovedSupportWasFree(f, o.conn, r.support, ORIGIN_SCHEMA, destination);
      assert forall n :: n in c.tables && n.schema == destination ==> n in o.conn.tables;
    }
  }

  /** The registration gets as far as a transaction that ends without raising. */
  ghost predicate ReachesCommit(f: Faults, c: Conn, job: Job, destination: string) {
    var r := job.imported;
    var m := MoveToSchema(f, c, r.support, r.table, ORIGIN_SCHEMA, destination);
    job.compatible && m.ok && BlockEnds(f, m.conn, r, job.name, destination)
  }

  /** And the index rename does not silently undo it. */
  ghost predicate Replaces(f: Faults, c: Conn, job: Job, destination: string) {
    ReachesCommit(f, c, job, destination) && !(job.imported.support == [] && f(c.executed + 5))
  }

  /** The statements after COMMIT, metadata included, start here. */
  function FirstAfterCommit(c: Conn, r: Imported): nat {
    c.executed + 6 + 3 * |r.support|
  }

  /** Tables outside the origin schema, other than `target`, keep their contents. */
  ghost predicate KeepsOthers(ts: Tables, us: Tables, target: Name) {
    forall n :: n in ts && n.schema != ORIGIN_SCHEMA && n != target ==> n in us && us[n] == ts[n]
  }

  /** The target holds the imported contents, or what it held. */
  ghost predicate TargetHolds(ts: Tables, us: Tables, r: Imported, target: Name, replaced: bool) {
    if replaced then Delivered(ts, us, r, target) else target in ts && target in us && us[target] == ts[target]
  }

  /** What the move brought, `ts` to `ms`, and the swap made of it, `ms` to `us`. */
  lemma MovedThenSwapped(ts: Tables, ms: Tables, us: Tables, r: Imported, name: string, destination: string)
    requires destination != ORIGIN_SCHEMA && Name(destination, name) in ts
    requires forall n :: n in ts && n.schema != ORIGIN_SCHEMA ==> n in ms && ms[n] == ts[n]
    requires Name(destination, r.table) !in ts && Named(destination, r.support) !! ts.Keys
    requires Delivered(ts, ms, r, Name(destination, r.table)) && Swapped(ms, us, r, name, destination)
    ensures Delivered(ts, us, r, Name(destination, name)) && KeepsOthers(ts, us, Name(destination, name))
  {
  }

  lemma OverwriteReturnsIff(f: Faults, c: Conn, job: Job, destination: string)
    requires Idle(c) && destination != ORIGIN_SCHEMA && job.compatible && Name(destination, job.name) in c.tables
    ensures var p := PutInPlace(f, c, job, true, destination);
      && Idle(p.conn)
      && (p.ok <==> ReachesCommit(f, c, job, destination) && NoFault(f, FirstAfterCommit(c, job.imported), FINISHING_STEPS))
      && (p.ok ==> p.conn.executed == FirstAfterCommit(c, job.imported) + FINISHING_STEPS)
  {
    var r := job.imported;
    var m := MoveToSchema(f, c, r.support, r.table, ORIGIN_SCHEMA, destination);
    IdleMove(f, c, r.support, r.table, ORIGIN_SCHEMA, destination);
    MoveKeepsDestination(f, c, r, destination);
    if m.ok {
      OverwriteIsAllOrNothing(f, m.conn, r, job.name, destination);
    }
  }

  /** Once the import stands next to its target. */
  lemma MovedThenOverwritten(f: Faults, c: Conn, m: Conn, r: Imported, name: string, destination: string)
    requires Idle(m) && destination != ORIGIN_SCHEMA && Name(destination, name) in c.tables
    requires forall n :: n in c.tables && n.schema != ORIGIN_SCHEMA ==> n in m.tables && m.tables[n] == c.tables[n]
    requires Name(destination, r.table) !in c.tables && Named(destination, r.support) !! c.tables.Keys
    requires Delivered(c.tables, m.tables, r, Name(destination, r.table))
    ensures var us, target := OverwriteRegister(f, m, r, name, destination).conn.tables, Name(destination, name);
      && TargetHolds(c.tables, us, r, target, BlockEnds(f, m, r, name, destination) && !SilentFailure(f, m, r))
      && KeepsOthers(c.tables, us, target)
  {
    OverwriteIsAllOrNothing(f, m, r, name, destination);
    if BlockEnds(f, m, r, name, destination) && !SilentFailure(f, m, r) {
      MovedThenSwapped(c.tables, m.tables, OverwriteRegister(f, m, r, name, destination).conn.tables, r, name, destination);
    }
  }

  lemma ReplacesIff(f: Faults, c: Conn, job: Job, destination: string)
    requires Idle(c) && destination != ORIGIN_SCHEMA && job.compatible
    ensures var m := MoveToSchema(f, c, job.imported.support, job.imported.table, ORIGIN_SCHEMA, destination);
      Replaces(f, c, job, destination) <==>
        m.ok && BlockEnds(f, m.conn, job.imported, job.name, destination) && !SilentFailure(f, m.conn, job.imported)
  {
    IdleMove(f, c, job.imported.support, job.imported.table, ORIGIN_SCHEMA, destination);
  }

  /** The move fails, or the overwrite goes on from it. */
  lemma OverwriteCases(f: Faults, c: Conn, job: Job, destination: string)
    ensures var m := MoveToSchema(f, c, job.imported.support, job.imported.table, ORIGIN_SCHEMA, destination);
      PutInPlace(f, c, job, true, destination) ==
        if m.ok then OverwriteRegister(f, m.conn, job.imported, job.name, destination) else m
  {
  }

  lemma OverwriteContents(f: Faults, c: Conn, job: Job, destination: string)
    requires Idle(c) && destination != ORIGIN_SCHEMA && job.compatible && Name(destination, job.name) in c.tables
    ensures var us, target := PutInPlace(f, c, job, true, destination).conn.tables, Name(destination, job.name);
      && TargetHolds(c.tables, us, job.imported, target, Replaces(f, c, job, destination))
      && KeepsOthers(c.tables, us, target)
  {
    var r := job.imported;
    var m := MoveToSchema(f, c, r.support, r.table, ORIGIN_SCHEMA, destination);
    IdleMove(f, c, r.support, r.table, ORIGIN_SCHEMA, destination);
    MoveKeepsDestination(f, c, r, destination);
    ReplacesIff(f, c, job, destination);
    OverwriteCases(f, c, job, destination);
    if m.ok {
      MovedThenOverwritten(f, c, m.conn, r, job.name, destination);
    }
  }

  /** What a drop in the origin schema can do, outside a transaction. */
  lemma DropOutcome(f: Faults, c: Conn, n: Name)
    requires Idle(c)
    ensures var d := Drop(f, c, n); Idle(d) && Keeps(c.tables, d.tables, {n})
  {
  }

  /** An overwriting registration, whatever fails: the target has the imported contents exactly when
      the transaction commits, and its old contents otherwise; every other table outside the origin
      schema is as it was; and the call returns exactly when the transaction ends without raising
      and none of the seven calls after it fails. */
  lemma OverwriteDelivers(f: Faults, c: Conn, job: Job, destination: string)
    requires Idle(c) && destination != ORIGIN_SCHEMA && Name(destination, job.name) in c.tables
    ensures var d, target := Register(f, c, job, true, destination), Name(destination, job.name);
      && Idle(d.conn)
      && TargetHolds(c.tables, d.conn.tables, job.imported, target, Replaces(f, c, job, destination))
      && KeepsOthers(c.tables, d.conn.tables, target)
      && (d.ok <==> ReachesCommit(f, c, job, destination) && NoFault(f, FirstAfterCommit(c, job.imported), FINISHING_STEPS + 1))
  {
    var origin := Name(ORIGIN_SCHEMA, job.imported.table);
    if job.compatible {
      OverwriteReturnsIff(f, c, job, destination);
      OverwriteContents(f, c, job, destination);
      var p := PutInPlace(f, c, job, true, destination);
      AfterOutcome(f, p.conn, 1);
      NoFaultSnoc(f, FirstAfterCommit(c, job.imported), FINISHING_STEPS);
      DropOutcome(f, (if p.ok then After(f, p.conn, 1) else p).conn, origin);
    } else {
      DropOutcome(f, c, origin);
    }
  }

  lemma NoFaultSnoc(f: Faults, first: nat, n: nat)
    ensures NoFault(f, first, n + 1) <==> NoFault(f, first, n) && NoFault(f, first + n, 1)
  {
    if NoFault(f, first, n) && NoFault(f, first + n, 1) {
      forall k: nat | first <= k < first + n + 1 ensures !f(k) {
        if k == first + n {
          assert first + n <= k < first + n + 1;
        }
      }
    }
  }

  /** A registration that overwrites nothing: when it returns, the imported table is at its
      destination with its contents; whatever happens, every table that was outside the origin
      schema is as it was. */
  lemma NewTableDelivers(f: Faults, c: Conn, job: Job, overwriteStrategy: bool, destination: string)
    requires Idle(c) && destination != ORIGIN_SCHEMA && !Overwrites(c, job, overwriteStrategy, destination)
    ensures var d, target := Register(f, c, job, overwriteStrategy, destination), Name(destination, job.name);
      && Idle(d.conn)
      && (d.ok ==> target !in c.tables && target in d.conn.tables)
      && (d.ok && SupportStands(c.tables, job.imported, job.name) ==> Delivered(c.tables, d.conn.tables, job.imported, target))
      && (forall n :: n in c.tables && n.schema != ORIGIN_SCHEMA ==> n in d.conn.tables && d.conn.tables[n] == c.tables[n])
  {
    NewRegisterIsAllOrNothing(f, c, job.imported, job.name, destination);
    var p := PutInPlace(f, c, job, false, destination);
    AfterOutcome(f, p.conn, 1);
    DropOutcome(f, (if p.ok then After(f, p.conn, 1) else p).conn, Name(ORIGIN_SCHEMA, job.imported.table));
  }

  /** Whatever fails and whichever way a result is registered, every table outside the origin schema
      keeps its contents, except the one that is overwritten by a transaction that commits. */
  lemma RegisterKeepsDestination(f: Faults, c: Conn, job: Job, overwriteStrategy: bool, destination: string)
    requires Idle(c) && destination != ORIGIN_SCHEMA
    ensures var d := Register(f, c, job, overwriteStrategy, destination);
      && Idle(d.conn)
      && KeepsOthers(c.tables, d.conn.tables, Name(destination, job.name))
      && (Name(destination, job.name) in c.tables && !(overwriteStrategy && Replaces(f, c, job, destination)) ==>
            TargetHolds(c.tables, d.conn.tables, job.imported, Name(destination, job.name), false))
  {
    if Overwrites(c, job, overwriteStrategy, destination) {
      OverwriteDelivers(f, c, job, destination);
    } else {
      NewTableDelivers(f, c, job, overwriteStrategy, destination);
    }
  }

  // ----- a whole import

  /** Over a whole import, with any faults: a destination table that no result is named after keeps
      its contents, and without the overwrite strategy every destination table does. */
  lemma {:induction false} ImportKeepsDestination(f: Faults, c: Conn, jobs: seq<Job>, overwriteStrategy: bool, destination: string, n: Name)
    requires Idle(c) && destination != ORIGIN_SCHEMA && n in c.tables && n.schema != ORIGIN_SCHEMA
    requires overwriteStrategy ==> forall job :: job in jobs ==> n != Name(destination, job.name)
    ensures var d := RegisterAll(f, c, jobs, overwriteStrategy, destination);
      Idle(d.conn) && n in d.conn.tables && d.conn.tables[n] == c.tables[n]
    decreases |jobs|
  {
    if jobs != [] {
      RegisterKeepsDestination(f, c, jobs[0], overwriteStrategy, destination);
      var d := Register(f, c, jobs[0], overwriteStrategy, destination);
      if d.ok {
        ImportKeepsDestination(f, d.conn, jobs[1..], overwriteStrategy, destination, n);
      }
    }
  }

  /** The tables a result brings along in the origin schema. */
  ghost function Brings(job: Job): set<Name> {
    {Name(ORIGIN_SCHEMA, job.imported.table)} + Named(ORIGIN_SCHEMA, job.imported.support)
  }

  lemma PlaceKeepsOrigin(f: Faults, c: Conn, job: Job, destination: string)
    requires c.saved.Some? && !c.aborted && destination != ORIGIN_SCHEMA
    requires Place(f, c, job.imported, job.name, destination).ok
    ensures Keeps(c.tables, Place(f, c, job.imported, job.name, destination).conn.tables, Brings(job))
  {
    var r, name := job.imported, job.name;
    var o := Execute(f, c, RenameTable(Name(ORIGIN_SCHEMA, r.table), name));
    var i := Execute(f, o.conn, Other);
    RenameSupportKeeps(f, i.conn, ORIGIN_SCHEMA, r.support, r.table, name);
    RenamedSupportWasFree(f, i.conn, ORIGIN_SCHEMA, r.support, r.table, name);
    var n := Rename(f, c, r.support, r.table, name, ORIGIN_SCHEMA);
    var support := RenamedSupport(r.support, r.table, name);
    var p := Execute(f, n.conn, SetSchema(Name(ORIGIN_SCHEMA, name), destination));
    MoveSupportKeeps(f, p.conn, support, ORIGIN_SCHEMA, destination);
  }

  lemma MoveKeepsOrigin(f: Faults, c: Conn, job: Job, destination: string)
    requires destination != ORIGIN_SCHEMA
    requires MoveToSchema(f, c, job.imported.support, job.imported.table, ORIGIN_SCHEMA, destination).ok
    ensures Keeps(c.tables, MoveToSchema(f, c, job.imported.support, job.imported.table, ORIGIN_SCHEMA, destination).conn.tables, Brings(job))
  {
    var o := Execute(f, c, SetSchema(Name(ORIGIN_SCHEMA, job.imported.table), destination));
    MoveSupportKeeps(f, o.conn, job.imported.support, ORIGIN_SCHEMA, destination);
  }

  lemma OverwriteKeepsOrigin(f: Faults, c: Conn, job: Job, destination: string)
    requires Idle(c) && destination != ORIGIN_SCHEMA && Name(destination, job.name) in c.tables
    requires PutInPlace(f, c, job, true, destination).ok
    ensures forall n :: n in c.tables && n.schema == ORIGIN_SCHEMA && n !in Brings(job) ==>
      var d := PutInPlace(f, c, job, true, destination).conn; n in d.tables && d.tables[n] == c.tables[n]
  {
    var r := job.imported;
    var m := MoveToSchema(f, c, r.support, r.table, ORIGIN_SCHEMA, destination);
    IdleMove(f, c, r.support, r.table, ORIGIN_SCHEMA, destination);
    MoveKeepsDestination(f, c, r, destination);
    MoveKeepsOrigin(f, c, job, destination);
    OverwriteIsAllOrNothing(f, m.conn, r, job.name, destination);
  }

  /** A registration that returns leaves what other results bring along alone. */
  lemma RegisterKeepsOrigin(f: Faults, c: Conn, job: Job, overwriteStrategy: bool, destination: string)
    requires Idle(c) && destination != ORIGIN_SCHEMA && Register(f, c, job, overwriteStrategy, destination).ok
    ensures forall n :: n in c.tables && n.schema == ORIGIN_SCHEMA && n !in Brings(job) ==>
      var d := Register(f, c, job, overwriteStrategy, destination).conn; n in d.tables && d.tables[n] == c.tables[n]
  {
    var p := PutInPlace(f, c, job, Overwrites(c, job, overwriteStrategy, destination), destination);
    if Overwrites(c, job, overwriteStrategy, destination) {
      OverwriteKeepsOrigin(f, c, job, destination);
      OverwriteReturnsIff(f, c, job, destination);
    } else {
      PlaceKeepsOrigin(f, Begin(c), job, destination);
      NewRegisterIsAllOrNothing(f, c, job.imported, job.name, destination);
    }
    AfterOutcome(f, p.conn, 1);
  }

  /** The results are all there, and no two bring the same table along. */
  ghost predicate Separate(ts: Tables, jobs: seq<Job>) {
    && (forall i :: 0 <= i < |jobs| ==> Brings(jobs[i]) <= ts.Keys)
    && (forall i, j :: 0 <= i < j < |jobs| ==> Brings(jobs[i]) !! Brings(jobs[j]))
  }

  /** The connection as the `i`th result finds it. */
  function FoundBy(f: Faults, c: Conn, jobs: seq<Job>, overwriteStrategy: bool, destination: string, i: nat): Conn
    requires i <= |jobs|
  {
    RegisterAll(f, c, jobs[..i], overwriteStrategy, destination).conn
  }

  lemma SeparateRest(f: Faults, c: Conn, jobs: seq<Job>, overwriteStrategy: bool, destination: string)
    requires Idle(c) && destination != ORIGIN_SCHEMA && jobs != [] && Separate(c.tables, jobs)
    requires Register(f, c, jobs[0], overwriteStrategy, destination).ok
    ensures var d := Register(f, c, jobs[0], overwriteStrategy, destination).conn;
      && Idle(d) && Separate(d.tables, jobs[1..])
      && forall i :: 0 < i < |jobs| ==> d.tables[Name(ORIGIN_SCHEMA, jobs[i].imported.table)] == c.tables[Name(ORIGIN_SCHEMA, jobs[i].imported.table)]
  {
    RegisterKeepsOrigin(f, c, jobs[0], overwriteStrategy, destination);
    RegisterKeepsDestination(f, c, jobs[0], overwriteStrategy, destination);
    var d := Register(f, c, jobs[0], overwriteStrategy, destination).conn;
    forall i | 0 < i < |jobs|
      ensures Brings(jobs[i]) <= d.tables.Keys
      ensures d.tables[Name(ORIGIN_SCHEMA, jobs[i].imported.table)] == c.tables[Name(ORIGIN_SCHEMA, jobs[i].imported.table)]
    {
      assert Brings(jobs[0]) !! Brings(jobs[i]);
      assert Name(ORIGIN_SCHEMA, jobs[i].imported.table) in Brings(jobs[i]);
    }
  }

  /** An overwrite that ends without raising but has no effect. */
  ghost predicate Undone(f: Faults, found: Conn, job: Job, overwriteStrategy: bool, destination: string) {
    Overwrites(found, job, overwriteStrategy, destination) && job.imported.support == [] && f(found.executed + 5)
  }

  /** The target has the contents the imported table had in `ts`, or, when the overwrite was undone,
      those that the result found there. */
  ghost predicate EndsUp(f: Faults, ts: Tables, found: Conn, us: Tables, job: Job, overwriteStrategy: bool, destination: string) {
    var target := Name(destination, job.name);
    if Undone(f, found, job, overwriteStrategy, destination) then
      target in found.tables && target in us && us[target] == found.tables[target]
    else
      Delivered(ts, us, job.imported, target)
  }

  /** No later result has the name of this one. */
  ghost predicate LastOfName(jobs: seq<Job>, i: nat)
    requires i < |jobs|
  {
    forall j :: i < j < |jobs| ==> jobs[j].name != jobs[i].name
  }

  lemma RegisteredEndsUp(f: Faults, c: Conn, job: Job, overwriteStrategy: bool, destination: string)
    requires Idle(c) && destination != ORIGIN_SCHEMA && Brings(job) <= c.tables.Keys
    requires Register(f, c, job, overwriteStrategy, destination).ok
    ensures EndsUp(f, c.tables, c, Register(f, c, job, overwriteStrategy, destination).conn.tables, job, overwriteStrategy, destination)
  {
    if Overwrites(c, job, overwriteStrategy, destination) {
      OverwriteDelivers(f, c, job, destination);
    } else {
      assert job.name in job.imported.support ==> Name(ORIGIN_SCHEMA, job.name) in Brings(job);
      NewTableDelivers(f, c, job, overwriteStrategy, destination);
    }
  }

  lemma DeliversFirst(f: Faults, c: Conn, jobs: seq<Job>, overwriteStrategy: bool, destination: string)
    requires Idle(c) && destination != ORIGIN_SCHEMA && jobs != [] && Brings(jobs[0]) <= c.tables.Keys
    requires Register(f, c, jobs[0], overwriteStrategy, destination).ok
    requires LastOfName(jobs, 0)
    ensures EndsUp(f, c.tables, c, RegisterAll(f, c, jobs, overwriteStrategy, destination).conn.tables, jobs[0], overwriteStrategy, destination)
  {
    var e, target := Register(f, c, jobs[0], overwriteStrategy, destination), Name(destination, jobs[0].name);
    RegisterKeepsDestination(f, c, jobs[0], overwriteStrategy, destination);
    RegisteredEndsUp(f, c, jobs[0], overwriteStrategy, destination);
    assert target in e.conn.tables;
    ImportKeepsDestination(f, e.conn, jobs[1..], overwriteStrategy, destination, target);
  }

  lemma LaterEndsUp(f: Faults, ts: Tables, ms: Tables, found: Conn, us: Tables, job: Job, overwriteStrategy: bool, destination: string)
    requires EndsUp(f, ms, found, us, job, overwriteStrategy, destination)
    requires Name(ORIGIN_SCHEMA, job.imported.table) in ts && Name(ORIGIN_SCHEMA, job.imported.table) in ms
    requires ms[Name(ORIGIN_SCHEMA, job.imported.table)] == ts[Name(ORIGIN_SCHEMA, job.imported.table)]
    ensures EndsUp(f, ts, found, us, job, overwriteStrategy, destination)
  {
  }

  /** One result among others that bring other tables along: once it is registered, and if no later
      result has its name, its table ends up at its destination with the contents it had at the
      start of the import, whatever happens to the others; the one exception is an overwrite that
      the silent index failure undoes. */
  lemma {:induction false} ImportDelivers(f: Faults, c: Conn, jobs: seq<Job>, overwriteStrategy: bool, destination: string, i: nat)
    requires Idle(c) && destination != ORIGIN_SCHEMA && i < |jobs| && Separate(c.tables, jobs)
    requires RegisterAll(f, c, jobs[..i+1], overwriteStrategy, destination).ok
    requires LastOfName(jobs, i)
    ensures var found := FoundBy(f, c, jobs, overwriteStrategy, destination, i);
      EndsUp(f, c.tables, found, RegisterAll(f, c, jobs, overwriteStrategy, destination).conn.tables, jobs[i], overwriteStrategy, destination)
    decreases |jobs|
  {
    assert jobs[..i+1][1..] == jobs[1..][..i] && jobs[..i+1][0] == jobs[0];
    if i == 0 {
      DeliversFirst(f, c, jobs, overwriteStrategy, destination);
    } else {
      var e := Register(f, c, jobs[0], overwriteStrategy, destination).conn;
      assert jobs[..i][1..] == jobs[1..][..i-1] && jobs[..i][0] == jobs[0];
      SeparateRest(f, c, jobs, overwriteStrategy, destination);
      ImportDelivers(f, e, jobs[1..], overwriteStrategy, destination, i - 1);
      var own := Name(ORIGIN_SCHEMA, jobs[i].imported.table);
      assert own in Brings(jobs[i]) && Brings(jobs[i]) <= c.tables.Keys && Brings(jobs[1..][i-1]) <= e.tables.Keys;
      LaterEndsUp(f, c.tables, e.tables, FoundBy(f, c, jobs, overwriteStrategy, destination, i),
                  RegisterAll(f, c, jobs, overwriteStrategy, destination).conn.tables, jobs[i], overwriteStrategy, destination);
    }
  }

  lemma {:induction false} RegisterAllAppend(f: Faults, c: Conn, a: seq<Job>, b: seq<Job>, overwriteStrategy: bool, destination: string)
    ensures var d := RegisterAll(f, c, a, overwriteStrategy, destination);
      RegisterAll(f, c, a + b, overwriteStrategy, destination)
      == if d.ok then RegisterAll(f, d.conn, b, overwriteStrategy, destination) else d
    decreases |a|
  {
    if a == [] {
      assert a + b == b;
    } else {
      assert (a + b)[1..] == a[1..] + b && (a + b)[0] == a[0];
      RegisterAllAppend(f, Register(f, c, a[0], overwriteStrategy, destination).conn, a[1..], b, overwriteStrategy, destination);
    }
  }

  /** The first `n` results are registered, and `found` is what the next one finds. */
  ghost predicate Registered(f: Faults, c: Conn, jobs: seq<Job>, overwriteStrategy: bool, destination: string, n: nat, found: Conn) {
    && n <= |jobs|
    && RegisterAll(f, c, jobs[..n], overwriteStrategy, destination) == Done(found, true)
    && RegisterAll(f, c, jobs, overwriteStrategy, destination) == RegisterAll(f, found, jobs[n..], overwriteStrategy, destination)
  }

  lemma RegisteredNone(f: Faults, c: Conn, jobs: seq<Job>, overwriteStrategy: bool, destination: string)
    ensures Registered(f, c, jobs, overwriteStrategy, destination, 0, c)
  {
    assert jobs[0..] == jobs && jobs[..0] == [];
  }

  lemma RegisterAllOne(f: Faults, c: Conn, job: Job, overwriteStrategy: bool, destination: string)
    ensures RegisterAll(f, c, [job], overwriteStrategy, destination) == Register(f, c, job, overwriteStrategy, destination)
  {
    assert [job][1..] == [];
  }

  lemma RegisteredOneMore(f: Faults, c: Conn, jobs: seq<Job>, overwriteStrategy: bool, destination: string, n: nat, found: Conn)
    requires n < |jobs| && Registered(f, c, jobs, overwriteStrategy, destination, n, found)
    ensures var d := Register(f, found, jobs[n], overwriteStrategy, destination);
      if d.ok then Registered(f, c, jobs, overwriteStrategy, destination, n + 1, d.conn)
      else RegisterAll(f, c, jobs, overwriteStrategy, destination) == d
  {
    assert jobs[n..][0] == jobs[n] && jobs[n..][1..] == jobs[n+1..];
    assert jobs[..n+1] == jobs[..n] + [jobs[n]];
    RegisterAllAppend(f, c, jobs[..n], [jobs[n]], overwriteStrategy, destination);
    RegisterAllOne(f, found, jobs[n], overwriteStrategy, destination);
  }

  lemma PrefixIsRegistered(f: Faults, c: Conn, jobs: seq<Job>, overwriteStrategy: bool, destination: string, n: nat, k: nat)
    requires k <= n <= |jobs| && RegisterAll(f, c, jobs[..n], overwriteStrategy, destination).ok
    ensures RegisterAll(f, c, jobs[..k], overwriteStrategy, destination).ok
  {
    assert jobs[..n] == jobs[..k] + jobs[k..n];
    RegisterAllAppend(f, c, jobs[..k], jobs[k..n], overwriteStrategy, destination);
  }

  lemma OneRegisteredEndsUp(f: Faults, c: Conn, jobs: seq<Job>, overwriteStrategy: bool, destination: string, n: nat, i: nat)
    requires Idle(c) && destination != ORIGIN_SCHEMA && Separate(c.tables, jobs) && i < n <= |jobs| && LastOfName(jobs, i)
    requires RegisterAll(f, c, jobs[..n], overwriteStrategy, destination).ok
    ensures EndsUp(f, c.tables, FoundBy(f, c, jobs, overwriteStrategy, destination, i),
                   RegisterAll(f, c, jobs, overwriteStrategy, destination).conn.tables, jobs[i], overwriteStrategy, destination)
  {
    PrefixIsRegistered(f, c, jobs, overwriteStrategy, destination, n, i + 1);
    ImportDelivers(f, c, jobs, overwriteStrategy, destination, i);
  }

  /** What an import promises about the results it has registered. */
  lemma RegisteredEndUp(f: Faults, c: Conn, jobs: seq<Job>, overwriteStrategy: bool, destination: string, n: nat)
    requires Idle(c) && destination != ORIGIN_SCHEMA && Separate(c.tables, jobs) && n <= |jobs|
    requires RegisterAll(f, c, jobs[..n], overwriteStrategy, destination).ok
    ensures forall i :: 0 <= i < n && LastOfName(jobs, i) ==>
      EndsUp(f, c.tables, FoundBy(f, c, jobs, overwriteStrategy, destination, i),
             RegisterAll(f, c, jobs, overwriteStrategy, destination).conn.tables, jobs[i], overwriteStrategy, destination)
  {
    forall i | 0 <= i < n && LastOfName(jobs, i)
      ensures EndsUp(f, c.tables, FoundBy(f, c, jobs, overwriteStrategy, destination, i),
                     RegisterAll(f, c, jobs, overwriteStrategy, destination).conn.tables, jobs[i], overwriteStrategy, destination)
    {
      OneRegisteredEndsUp(f, c, jobs, overwriteStrategy, destination, n, i);
    }
  }
}
