/** The importer as an object over its database connection.  Each method does to the connection what
    the functions of ImportSwap say; the four that put tables in place promise what that is worth,
    for every choice of failing statements. */
module Importer {
  import opened ImportSwap
  import opened ImportOutcome

  class ConnectorImporter {
    var conn: Conn
    const faults: Faults
    const destination: string
    const overwriteStrategy: bool
    /** Names of the results registered so far. */
    var registered: seq<string>

    constructor (c: Conn, f: Faults, destination: string, overwriteStrategy: bool)
      ensures conn == c && faults == f && this.destination == destination
      ensures this.overwriteStrategy == overwriteStrategy && registered == []
    {
      conn, faults, registered := c, f, [];
      this.destination, this.overwriteStrategy := destination, overwriteStrategy;
    }

    method Run(s: Statement) returns (ok: bool)
      modifies this`conn
      ensures Done(conn, ok) == Execute(faults, old(conn), s)
    {
      var o := Execute(faults, conn, s);
      conn, ok := o.conn, o.ok;
    }

    method DropTable(n: Name)
      modifies this`conn
      ensures conn == Drop(faults, old(conn), n)
    {
      var ok := Run(Other);
      if ok {
        ok := Run(Statement.DropTable(n));
      }
    }

    method RenameSupportTables(schema: string, items: seq<string>, old_: string, new_: string) returns (ok: bool)
      modifies this`conn
      ensures Done(conn, ok) == RenameSupport(faults, old(conn), schema, items, old_, new_)
    {
      ghost var goal := RenameSupport(faults, conn, schema, items, old_, new_);
      assert items[0..] == items;
      for i := 0 to |items|
        invariant goal == RenameSupport(faults, conn, schema, items[i..], old_, new_)
      {
        assert items[i..][0] == items[i] && items[i..][1..] == items[i+1..];
        ok := Run(RenameTable(Name(schema, items[i]), SupportName(items[i], old_, new_)));
        if !ok {
          return false;
        }
      }
      return true;
    }

    method RenameTo(support: seq<string>, current: string, name: string, schema: string) returns (ok: bool)
      modifies this`conn
      ensures Done(conn, ok) == Rename(faults, old(conn), support, current, name, schema)
    {
      ok := Run(RenameTable(Name(schema, current), name));
      if ok {
        var indexRenamed := Run(Other);
        ok := RenameSupportTables(schema, support, current, name);
      }
      if !ok {
        DropTable(Name(schema, current));
      }
    }

    method ChangeSupportSchema(items: seq<string>, origin: string, target: string) returns (ok: bool)
      modifies this`conn
      ensures Done(conn, ok) == MoveSupport(faults, old(conn), items, origin, target)
    {
      ghost var goal := MoveSupport(faults, conn, items, origin, target);
      assert items[0..] == items;
      for i := 0 to |items|
        invariant goal == MoveSupport(faults, conn, items[i..], origin, target)
      {
        assert items[i..][0] == items[i] && items[i..][1..] == items[i+1..];
        ok := Run(SetSchema(Name(origin, items[i]), target));
        if !ok {
          return false;
        }
        ok := Run(Other);
        if !ok {
          return false;
        }
      }
      return true;
    }

    method Move(support: seq<string>, table: string, origin: string, target: string) returns (ok: bool)
      modifies this`conn
      ensures Done(conn, ok) == MoveToSchema(faults, old(conn), support, table, origin, target)
    {
      if origin == target {
        return true;
      }
      ok := Run(SetSchema(Name(origin, table), target));
      if ok {
        ok := ChangeSupportSchema(support, origin, target);
      }
      if !ok {
        DropTable(Name(origin, table));
      }
    }

    /** The calls after COMMIT, until one raises. */
    method Finish(n: nat) returns (ok: bool)
      modifies this`conn
      ensures Done(conn, ok) == After(faults, old(conn), n)
    {
      ok := true;
      for i := 0 to n
        invariant ok && After(faults, old(conn), n) == After(faults, conn, n - i)
      {
        ok := Run(Other);
        if !ok {
          return;
        }
      }
    }

    /** All or nothing: the new contents are in place exactly when the block raises nothing and the
        index rename has not failed unnoticed; otherwise every table is as it was. */
    method Overwrite(r: Imported, name: string) returns (ok: bool)
      modifies this`conn
      ensures Done(conn, ok) == OverwriteRegister(faults, old(conn), r, name, destination)
      ensures Idle(old(conn)) && r.table != name ==>
        && Idle(conn)
        && (if BlockEnds(faults, old(conn), r, name, destination) && !SilentFailure(faults, old(conn), r)
            then Swapped(old(conn).tables, conn.tables, r, name, destination)
            else conn.tables == old(conn).tables)
        && (ok <==> BlockEnds(faults, old(conn), r, name, destination)
                    && NoFault(faults, old(conn).executed + 5 + |r.support|, FINISHING_STEPS))
    {
      if Idle(conn) && r.table != name {
        OverwriteIsAllOrNothing(faults, conn, r, name, destination);
      }
      ok := Run(Other);
      if !ok {
        return;
      }
      ghost var begun := Begin(conn);
      conn := Begin(conn);
      DropTable(Name(destination, name));
      ok := RenameTo(r.support, r.table, name, destination);
      if !ok {
        DropTable(Name(destination, r.table));
      }
      assert Done(conn, ok) == Swap(faults, begun, r, name, destination);
      conn := if ok then Commit(conn) else Rollback(conn);
      if ok {
        ok := Finish(FINISHING_STEPS);
      }
    }

    /** A call that raises changes no table; one that returns has put the imported table at its
        destination, with its contents, and touched no table that was outside the origin schema.  It
        returns exactly when the names it needs are there and free, and no statement faults. */
    method PlaceNew(r: Imported, name: string) returns (ok: bool)
      modifies this`conn
      ensures Done(conn, ok) == NewRegister(faults, old(conn), r, name, destination)
      ensures Idle(old(conn)) && destination != ORIGIN_SCHEMA ==>
        && Idle(conn)
        && (!ok ==> conn.tables == old(conn).tables)
        && (ok ==> Name(destination, name) !in old(conn).tables)
        && (ok && SupportStands(old(conn).tables, r, name) ==> Delivered(old(conn).tables, conn.tables, r, Name(destination, name)))
        && KeepsOthers(old(conn).tables, conn.tables, Name(destination, name))
        && (ok <==> PlacePlan(old(conn).tables, r, name, destination).Some?
                    && NoFault(faults, old(conn).executed, 3 + 3 * |r.support|))
    {
      if Idle(conn) && destination != ORIGIN_SCHEMA {
        NewRegisterIsAllOrNothing(faults, conn, r, name, destination);
        NewRegisterReturnsIff(faults, conn, r, name, destination);
      }
      ghost var begun := Begin(conn);
      conn := Begin(conn);
      ok := RenameTo(r.support, r.table, name, ORIGIN_SCHEMA);
      if ok {
        ok := Move(RenamedSupport(r.support, r.table, name), name, ORIGIN_SCHEMA, destination);
      }
      assert Done(conn, ok) == Place(faults, begun, r, name, destination);
      conn := if ok then Commit(conn) else Rollback(conn);
    }

    /** Whatever fails, no table outside the origin schema changes but the one named like the result.
        That one holds the imported contents exactly when an overwrite commits, and always when a
        new table's registration returns.  Either way it is said exactly when the call returns. */
    method RegisterOne(job: Job) returns (ok: bool)
      modifies this
      ensures Done(conn, ok) == Register(faults, old(conn), job, overwriteStrategy, destination)
      ensures registered == old(registered) + (if ok then [job.name] else [])
      ensures Idle(old(conn)) && destination != ORIGIN_SCHEMA ==>
        var target := Name(destination, job.name);
        && Idle(conn) && KeepsOthers(old(conn).tables, conn.tables, target)
        && (if Overwrites(old(conn), job, overwriteStrategy, destination) then
              TargetHolds(old(conn).tables, conn.tables, job.imported, target, Replaces(faults, old(conn), job, destination))
            else
              ok && SupportStands(old(conn).tables, job.imported, job.name) ==> Delivered(old(conn).tables, conn.tables, job.imported, target))
        && (ok <==>
              if Overwrites(old(conn), job, overwriteStrategy, destination) then
                && ReachesCommit(faults, old(conn), job, destination)
                && NoFault(faults, FirstAfterCommit(old(conn), job.imported), FINISHING_STEPS + 1)
              else
                && PlacePlan(old(conn).tables, job.imported, job.name, destination).Some?
                && NoFault(faults, old(conn).executed, 4 + 3 * |job.imported.support|))
    {
      if Idle(conn) && destination != ORIGIN_SCHEMA {
        RegisterKeepsDestination(faults, conn, job, overwriteStrategy, destination);
        if Overwrites(conn, job, overwriteStrategy, destination) {
          OverwriteDelivers(faults, conn, job, destination);
        } else {
          NewTableDelivers(faults, conn, job, overwriteStrategy, destination);
          NewTableReturnsIff(faults, conn, job, overwriteStrategy, destination);
        }
      }
      ok := RegisterPlainly(job);
      if ok {
        registered := registered + [job.name];
      }
    }

    method RegisterPlainly(job: Job) returns (ok: bool)
      modifies this`conn
      ensures Done(conn, ok) == Register(faults, old(conn), job, overwriteStrategy, destination)
    {
      var r, origin := job.imported, Name(ORIGIN_SCHEMA, job.imported.table);
      var overwrite := overwriteStrategy && Name(destination, job.name) in conn.tables;
      if overwrite && !job.compatible {
        DropTable(origin);
        return false;
      }
      if overwrite {
        ok := Move(r.support, r.table, ORIGIN_SCHEMA, destination);
        if ok {
          ok := Overwrite(r, job.name);
        }
      } else {
        ok := PlaceNew(r, job.name);
      }
      if ok {
        ok := Finish(1);
      }
      if !ok && job.timeout {
        DropTable(origin);
      }
    }

    /** All results in order, up to the first that raises; the registered ones are exactly those
        before it.  If the results bring different tables along, each registered result that no
        later one is named like ends up at its destination with the contents it came with, or its
        overwrite was undone by the silent index failure, whatever the rest of the import does. */
    method RegisterResults(jobs: seq<Job>) returns (ok: bool, ghost n: nat)
      modifies this
      ensures Done(conn, ok) == RegisterAll(faults, old(conn), jobs, overwriteStrategy, destination)
      ensures n <= |jobs| && (ok <==> n == |jobs|)
      ensures registered == old(registered) + seq(n, i requires 0 <= i < n => jobs[i].name)
      ensures Idle(old(conn)) && destination != ORIGIN_SCHEMA && Separate(old(conn).tables, jobs) ==>
        forall i :: 0 <= i < n && LastOfName(jobs, i) ==>
          EndsUp(faults, old(conn).tables, FoundBy(faults, old(conn), jobs, overwriteStrategy, destination, i),
                 conn.tables, jobs[i], overwriteStrategy, destination)
    {
      ok, n := RegisterInOrder(jobs);
      if Idle(old(conn)) && destination != ORIGIN_SCHEMA && Separate(old(conn).tables, jobs) {
        RegisteredEndUp(faults, old(conn), jobs, overwriteStrategy, destination, n);
      }
    }

    method RegisterInOrder(jobs: seq<Job>) returns (ok: bool, ghost n: nat)
      modifies this
      ensures Done(conn, ok) == RegisterAll(faults, old(conn), jobs, overwriteStrategy, destination)
      ensures n <= |jobs| && (ok <==> n == |jobs|)
      ensures registered == old(registered) + seq(n, i requires 0 <= i < n => jobs[i].name)
      ensures RegisterAll(faults, old(conn), jobs[..n], overwriteStrategy, destination).ok
    {
      n := 0;
      RegisteredNone(faults, conn, jobs, overwriteStrategy, destination);
      for i := 0 to |jobs|
        invariant n == i && Registered(faults, old(conn), jobs, overwriteStrategy, destination, i, conn)
        invariant registered == old(registered) + seq(i, k requires 0 <= k < i => jobs[k].name)
      {
        RegisteredOneMore(faults, old(conn), jobs, overwriteStrategy, destination, i, conn);
        ghost var before := conn;
        ok := RegisterOne(jobs[i]);
        assert Done(conn, ok) == Register(faults, before, jobs[i], overwriteStrategy, destination);
        if !ok {
          return;
        }
        n := n + 1;
      }
      assert jobs[..|jobs|] == jobs;
      return true, n;
    }
  }
}
