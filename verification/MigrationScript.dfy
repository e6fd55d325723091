/** The script's loops over the metadata database, statement by statement, for any relation graph. */
module MigrationScript {
  import opened UuidMigration

  class Connection {
    var db: Database

    constructor (d: Database)
      ensures db == d
    {
      db := d;
    }

    method AddReferences(info: TableInfo, gen: string -> seq<Value>)
      modifies this
      ensures db == AddAll(old(db), References(info, info.related), gen)
    {
      ghost var ks := References(info, info.related);
      for j := 0 to |info.related|
        invariant AddAll(old(db), ks, gen) == AddAll(db, ks[j..], gen)
      {
        assert ks[j..][1..] == ks[j+1..] && ks[j..][0] == ks[j];
        var table, name := info.related[j], RelationColumnName(info, info.related[j]);
        db := AddColumn(db, Column(table, name + "_uuid"), seq(if table in db.rows then db.rows[table] else 0, i => Null));
      }
    }

    method AlterSchema(g: seq<TableInfo>, gen: string -> seq<Value>)
      modifies this
      ensures db == Schema(old(db), g, gen)
    {
      assert g[0..] == g;
      for i := 0 to |g|
        invariant Schema(old(db), g, gen) == AddAll(db, IdsFirst(g[i..]), gen)
      {
        NextAdded(db, g, i, gen);
        db := AddColumn(db, Column(g[i].name, "uuid"), gen(g[i].name));
        AddReferences(g[i], gen);
      }
    }

    method DropReferences(info: TableInfo)
      modifies this
      ensures db == DropAll(old(db), References(info, info.related))
    {
      ghost var ks := References(info, info.related);
      for j := 0 to |info.related|
        invariant DropAll(old(db), ks) == DropAll(db, ks[j..])
      {
        assert ks[j..][1..] == ks[j+1..] && ks[j..][0] == ks[j];
        db := DropColumn(db, Column(info.related[j], RelationColumnName(info, info.related[j]) + "_uuid"));
      }
    }

    method RollbackSchema(g: seq<TableInfo>)
      modifies this
      ensures db == Rollback(old(db), g)
    {
      assert g[0..] == g;
      for i := 0 to |g|
        invariant Rollback(old(db), g) == DropAll(db, IdsLast(g[i..]))
      {
        NextDropped(db, g, i);
        DropReferences(g[i]);
        db := DropColumn(db, Column(g[i].name, "uuid"));
      }
    }

    method ReplaceReferences(info: TableInfo)
      modifies this
      ensures db == ReplaceAll(old(db), References(info, info.related))
    {
      ghost var ks := References(info, info.related);
      for j := 0 to |info.related|
        invariant ReplaceAll(old(db), ks) == ReplaceAll(db, ks[j..])
      {
        assert ks[j..][1..] == ks[j+1..] && ks[j..][0] == ks[j];
        var table, name := info.related[j], RelationColumnName(info, info.related[j]);
        db := DropColumn(db, Column(table, name + "_id"));
        db := RenameColumn(db, Column(table, name + "_uuid"), Column(table, name + "_id"));
      }
    }

    /** `raised` reports that a table is missing: the script's own rescue raises there. */
    method CleanDb(g: seq<TableInfo>) returns (raised: bool)
      modifies this
      ensures db == Clean(old(db), g)
      ensures raised <==> exists i :: 0 <= i < |g| && g[i].name !in old(db).rows
    {
      assert g[0..] == g;
      for i := 0 to |g|
        invariant Clean(old(db), g) == ReplaceAll(db, CleanKeys(db.rows, g[i..])) && db.rows == old(db).rows
        invariant forall j :: 0 <= j < i ==> g[j].name in old(db).rows
      {
        NextReplaced(db, g, i);
        ReplaceAllKeepsRows(db, References(g[i], g[i].related));
        ReplaceReferences(g[i]);
        if g[i].name !in db.rows {
          return true;
        }
        db := DropColumn(db, Column(g[i].name, "id"));
        db := RenameColumn(db, Column(g[i].name, "uuid"), Column(g[i].name, "id"));
        db := AddPrimaryKey(db, g[i].name);
      }
      raised := false;
    }

    /** One row of the parent: its UUID goes to every related row that names its id. */
    method UpdateReferences(info: TableInfo, id: Value, uuid: Value)
      modifies this
      ensures db == UpdateAll(old(db), RowWrites(References(info, info.related), id, uuid))
    {
      ghost var ws := RowWrites(References(info, info.related), id, uuid);
      for n := 0 to |info.related|
        invariant UpdateAll(old(db), ws) == UpdateAll(db, ws[n..])
      {
        assert ws[n..][1..] == ws[n+1..] && ws[n..][0] == ws[n];
        var table, name := info.related[n], RelationColumnName(info, info.related[n]);
        db := Update(db, Write(Column(table, name + "_uuid"), Column(table, name + "_id"), id, uuid));
      }
    }

    method MigrateTable(info: TableInfo, ids: seq<Value>, uuids: seq<Value>)
      requires |ids| == |uuids|
      modifies this
      ensures db == UpdateAll(old(db), TableWrites(References(info, info.related), ids, uuids))
    {
      ghost var ks := References(info, info.related);
      assert ids[0..] == ids && uuids[0..] == uuids;
      for j := 0 to |ids|
        invariant UpdateAll(old(db), TableWrites(ks, ids, uuids)) == UpdateAll(db, TableWrites(ks, ids[j..], uuids[j..]))
      {
        assert ids[j..][1..] == ids[j+1..] && uuids[j..][1..] == uuids[j+1..];
        UpdateAllAppend(db, RowWrites(ks, ids[j], uuids[j]), TableWrites(ks, ids[j+1..], uuids[j+1..]));
        UpdateReferences(info, ids[j], uuids[j]);
      }
    }

    /** `raised` reports the one statement outside the rescue: reading a table that has not both
        columns. */
    method MigrateMeta(g: seq<TableInfo>) returns (raised: bool)
      modifies this
      ensures db == Meta(old(db), g)
      ensures raised <==> exists i :: 0 <= i < |g| && !Readable(old(db), g[i].name)
    {
      ghost var d0 := db;
      ghost var done: seq<Write> := [];
      assert g[0..] == g && [] + MetaWrites(d0, g) == MetaWrites(d0, g);
      for i := 0 to |g|
        invariant db == UpdateAll(d0, done) && MetaWrites(d0, g) == done + MetaWrites(d0, g[i..])
        invariant forall n :: 0 <= n < i ==> Readable(d0, g[n].name)
      {
        MainColumnsKept(d0, g, done, g[i].name);
        NextRead(d0, g, i, done);
        if !Readable(db, g[i].name) {
          return true;
        }
        var ids, uuids := db.cols[Column(g[i].name, "id")], db.cols[Column(g[i].name, "uuid")];
        MigrateTable(g[i], ids, uuids);
        done := done + TableWrites(References(g[i], g[i].related), ids, uuids);
      }
      assert done + MetaWrites(d0, g[|g|..]) == done;
      return false;
    }
  }

  lemma NextAdded(d: Database, g: seq<TableInfo>, i: nat, gen: string -> seq<Value>)
    requires i < |g|
    ensures AddAll(d, IdsFirst(g[i..]), gen) ==
            AddAll(AddAll(AddColumn(d, Column(g[i].name, "uuid"), gen(g[i].name)), References(g[i], g[i].related), gen), IdsFirst(g[i+1..]), gen)
  {
    var ks, rest := References(g[i], g[i].related), IdsFirst(g[i+1..]);
    assert g[i..][1..] == g[i+1..];
    assert IdsFirst(g[i..])[1..] == ks + rest;
    AddAllAppend(AddColumn(d, Column(g[i].name, "uuid"), gen(g[i].name)), ks, rest, gen);
  }

  lemma NextDropped(d: Database, g: seq<TableInfo>, i: nat)
    requires i < |g|
    ensures DropAll(d, IdsLast(g[i..])) ==
            DropAll(DropColumn(DropAll(d, References(g[i], g[i].related)), Column(g[i].name, "uuid")), IdsLast(g[i+1..]))
  {
    var ks, rest := References(g[i], g[i].related), [Main(g[i].name)] + IdsLast(g[i+1..]);
    assert g[i..][1..] == g[i+1..];
    assert IdsLast(g[i..]) == ks + rest && rest[1..] == IdsLast(g[i+1..]);
    DropAllAppend(d, ks, rest);
  }

  lemma NextReplaced(d: Database, g: seq<TableInfo>, i: nat)
    requires i < |g|
    ensures var ks := References(g[i], g[i].related);
      ReplaceAll(d, CleanKeys(d.rows, g[i..])) ==
        if g[i].name !in d.rows then ReplaceAll(d, ks)
        else ReplaceAll(Replace(ReplaceAll(d, ks), Main(g[i].name)), CleanKeys(d.rows, g[i+1..]))
  {
    var ks, rest := References(g[i], g[i].related), [Main(g[i].name)] + CleanKeys(d.rows, g[i+1..]);
    assert g[i..][1..] == g[i+1..] && g[i..][0] == g[i];
    assert rest[1..] == CleanKeys(d.rows, g[i+1..]);
    if g[i].name in d.rows {
      assert CleanKeys(d.rows, g[i..]) == ks + rest;
      ReplaceAllAppend(d, ks, rest);
    }
  }

  /** The updates of the next table go on from the updates made so far. */
  lemma NextRead(d: Database, g: seq<TableInfo>, i: nat, done: seq<Write>)
    requires i < |g| && MetaWrites(d, g) == done + MetaWrites(d, g[i..])
    ensures !Readable(d, g[i].name) ==> MetaWrites(d, g) == done
    ensures Readable(d, g[i].name) ==>
      var ws := TableWrites(References(g[i], g[i].related), d.cols[Column(g[i].name, "id")], d.cols[Column(g[i].name, "uuid")]);
      MetaWrites(d, g) == (done + ws) + MetaWrites(d, g[i+1..]) && UpdateAll(d, done + ws) == UpdateAll(UpdateAll(d, done), ws)
  {
    var rest := g[i..];
    assert rest[1..] == g[i+1..] && rest[0] == g[i];
    if Readable(d, g[i].name) {
      var ws := TableWrites(References(g[i], g[i].related), d.cols[Column(g[i].name, "id")], d.cols[Column(g[i].name, "uuid")]);
      UpdateAllAppend(d, done, ws);
      assert MetaWrites(d, rest) == ws + MetaWrites(d, g[i+1..]);
      Reassociate(done, ws, MetaWrites(d, g[i+1..]));
    } else {
      assert MetaWrites(d, rest) == [];
    }
  }

  lemma Reassociate<T>(a: seq<T>, b: seq<T>, c: seq<T>)
    ensures a + (b + c) == (a + b) + c
  {
  }

  lemma {:induction false} AddAllAppend(db: Database, a: seq<Key>, b: seq<Key>, gen: string -> seq<Value>)
    ensures AddAll(db, a + b, gen) == AddAll(AddAll(db, a, gen), b, gen)
    decreases |a|
  {
    if a == [] {
      assert a + b == b;
    } else {
      assert (a + b)[1..] == a[1..] + b;
      AddAllAppend(AddColumn(db, UuidColumn(a[0]), Initial(db, a[0], gen)), a[1..], b, gen);
    }
  }

  lemma {:induction false} DropAllAppend(db: Database, a: seq<Key>, b: seq<Key>)
    ensures DropAll(db, a + b) == DropAll(DropAll(db, a), b)
    decreases |a|
  {
    if a == [] {
      assert a + b == b;
    } else {
      assert (a + b)[1..] == a[1..] + b;
      DropAllAppend(DropColumn(db, UuidColumn(a[0])), a[1..], b);
    }
  }

  lemma {:induction false} ReplaceAllAppend(db: Database, a: seq<Key>, b: seq<Key>)
    ensures ReplaceAll(db, a + b) == ReplaceAll(ReplaceAll(db, a), b)
    decreases |a|
  {
    if a == [] {
      assert a + b == b;
    } else {
      assert (a + b)[1..] == a[1..] + b;
      ReplaceAllAppend(Replace(db, a[0]), a[1..], b);
    }
  }

  lemma {:induction false} UpdateAllAppend(db: Database, a: seq<Write>, b: seq<Write>)
    ensures UpdateAll(db, a + b) == UpdateAll(UpdateAll(db, a), b)
    decreases |a|
  {
    if a == [] {
      assert a + b == b;
    } else {
      assert (a + b)[1..] == a[1..] + b;
      UpdateAllAppend(Update(db, a[0]), a[1..], b);
    }
  }

  /** The columns `meta` reads are not among those it has written. */
  lemma MainColumnsKept(db: Database, g: seq<TableInfo>, done: seq<Write>, table: string)
    requires done <= MetaWrites(db, g)
    ensures var d := UpdateAll(db, done);
      && (Readable(d, table) <==> Readable(db, table))
      && (Readable(db, table) ==> d.cols[Column(table, "id")] == db.cols[Column(table, "id")] && d.cols[Column(table, "uuid")] == db.cols[Column(table, "uuid")])
  {
    MetaWritesApart(db, g);
    assert forall w :: w in done ==> w in MetaWrites(db, g);
    UpdateAllTouches(db, done, Targets(MetaWrites(db, g)));
    assert IdColumn(Main(table)) == Column(table, "id") && UuidColumn(Main(table)) == Column(table, "uuid");
  }
}
