/** `script/migrate_to_uuid.rb`: integer keys become UUID keys in stages over a graph of related
    tables.  Statements that fail are logged and ignored, as the script does. */
module UuidMigration {

  datatype Value = Null | Number(n: int) | Uuid(u: int) | Text(s: string)

  datatype Column = Column(table: string, name: string)

  /** Row counts by table, the values of every column by row, and the tables whose primary key is
      their id. */
  datatype Database = Database(rows: map<string, nat>, cols: map<Column, seq<Value>>, keyed: set<string>)

  ghost predicate WellFormed(db: Database) {
    forall c :: c in db.cols ==> c.table in db.rows && |db.cols[c]| == db.rows[c.table]
  }

  /** One entry of the script's `tables` hash. */
  datatype TableInfo = TableInfo(name: string, related: seq<string>, singular: string, relationFor: map<string, string>)

  function RelationColumnName(info: TableInfo, related: string): string {
    if related in info.related && related in info.relationFor then info.relationFor[related] else info.singular
  }

  /** A column to migrate: the id of a table, or the reference of `table` to `parent`. */
  datatype Key = Main(table: string) | Reference(parent: string, table: string, column: string)

  function IdColumn(k: Key): Column {
    Column(k.table, if k.Main? then "id" else k.column + "_id")
  }

  function UuidColumn(k: Key): Column {
    Column(k.table, if k.Main? then "uuid" else k.column + "_uuid")
  }

  function References(info: TableInfo, related: seq<string>): seq<Key> {
    seq(|related|, i requires 0 <= i < |related| => Reference(info.name, related[i], RelationColumnName(info, related[i])))
  }

  /** Every table's id before its references, as `alter_schema` visits them. */
  function IdsFirst(g: seq<TableInfo>): seq<Key> {
    if g == [] then [] else [Main(g[0].name)] + References(g[0], g[0].related) + IdsFirst(g[1..])
  }

  /** Every table's references before its id, as `rollback_schema` and `clean_db` visit them. */
  function IdsLast(g: seq<TableInfo>): seq<Key> {
    if g == [] then [] else References(g[0], g[0].related) + [Main(g[0].name)] + IdsLast(g[1..])
  }

  lemma {:induction false} SameKeys(g: seq<TableInfo>)
    ensures multiset(IdsFirst(g)) == multiset(IdsLast(g))
    ensures forall k :: k in IdsFirst(g) <==> k in IdsLast(g)
  {
    if g != [] {
      SameKeys(g[1..]);
    }
    assert forall k :: k in IdsFirst(g) <==> k in multiset(IdsFirst(g));
    assert forall k :: k in IdsLast(g) <==> k in multiset(IdsLast(g));
  }

  // ----- statements

  /** ALTER TABLE ... ADD: fails when the table is missing or has the column. */
  function AddColumn(db: Database, c: Column, values: seq<Value>): Database {
    if c.table in db.rows && c !in db.cols && |values| == db.rows[c.table] then db.(cols := db.cols[c := values]) else db
  }

  /** ALTER TABLE ... DROP IF EXISTS: a primary key goes with its column. */
  function DropColumn(db: Database, c: Column): Database {
    db.(cols := db.cols - {c}, keyed := if c.name == "id" then db.keyed - {c.table} else db.keyed)
  }

  predicate Distinct(vs: seq<Value>) {
    forall i, j :: 0 <= i < j < |vs| ==> vs[i] != vs[j]
  }

  /** ALTER TABLE ... ADD PRIMARY KEY (id): fails when there is one, when the column is missing, and
      when it holds nulls or repeated values. */
  function AddPrimaryKey(db: Database, table: string): Database {
    var id := Column(table, "id");
    if table !in db.keyed && id in db.cols && Distinct(db.cols[id]) && Null !in db.cols[id]
    then db.(keyed := db.keyed + {table}) else db
  }

  /** ALTER TABLE ... RENAME: fails when the source is missing or the target is there. */
  function RenameColumn(db: Database, a: Column, b: Column): Database {
    if a in db.cols && b !in db.cols then db.(cols := (db.cols - {a})[b := db.cols[a]]) else db
  }

  /** UPDATE ... SET target = uuid WHERE key = id. */
  datatype Write = Write(target: Column, key: Column, id: Value, uuid: Value)

  /** Comparing with null matches nothing, and a null id or UUID makes the statement fail. */
  predicate Matches(w: Write, v: Value) {
    v == w.id && w.id != Null && w.uuid != Null
  }

  function Update(db: Database, w: Write): Database {
    if w.target in db.cols && w.key in db.cols && |db.cols[w.target]| == |db.cols[w.key]| then
      db.(cols := db.cols[w.target := seq(|db.cols[w.target]|, i requires 0 <= i < |db.cols[w.target]| =>
            if Matches(w, db.cols[w.key][i]) then w.uuid else db.cols[w.target][i])])
    else db
  }

  /** What the new column of `k` starts with: fresh UUIDs, or nulls. */
  function Initial(db: Database, k: Key, gen: string -> seq<Value>): seq<Value> {
    if k.Main? then gen(k.table)
    else seq(if k.table in db.rows then db.rows[k.table] else 0, i => Null)
  }

  // ----- stages

  function AddAll(db: Database, ks: seq<Key>, gen: string -> seq<Value>): Database
    decreases |ks|
  {
    if ks == [] then db
    else AddAll(AddColumn(db, UuidColumn(ks[0]), Initial(db, ks[0], gen)), ks[1..], gen)
  }

  function DropAll(db: Database, ks: seq<Key>): Database
    decreases |ks|
  {
    if ks == [] then db else DropAll(DropColumn(db, UuidColumn(ks[0])), ks[1..])
  }

  /** The new column takes the place of the old one, and a new id becomes the primary key. */
  function Replace(db: Database, k: Key): Database {
    var d := RenameColumn(DropColumn(db, IdColumn(k)), UuidColumn(k), IdColumn(k));
    if k.Main? then AddPrimaryKey(d, k.table) else d
  }

  function ReplaceAll(db: Database, ks: seq<Key>): Database
    decreases |ks|
  {
    if ks == [] then db else ReplaceAll(Replace(db, ks[0]), ks[1..])
  }

  function UpdateAll(db: Database, ws: seq<Write>): Database
    decreases |ws|
  {
    if ws == [] then db else UpdateAll(Update(db, ws[0]), ws[1..])
  }

  function RowWrites(ks: seq<Key>, id: Value, uuid: Value): seq<Write> {
    seq(|ks|, i requires 0 <= i < |ks| => Write(UuidColumn(ks[i]), IdColumn(ks[i]), id, uuid))
  }

  function TableWrites(ks: seq<Key>, ids: seq<Value>, uuids: seq<Value>): seq<Write>
    requires |ids| == |uuids|
  {
    if ids == [] then [] else RowWrites(ks, ids[0], uuids[0]) + TableWrites(ks, ids[1..], uuids[1..])
  }

  predicate Readable(db: Database, table: string) {
    var id, uuid := Column(table, "id"), Column(table, "uuid");
    id in db.cols && uuid in db.cols && |db.cols[id]| == |db.cols[uuid]|
  }

  /** The updates of `migrate_meta`; reading a table without both columns raises and ends them. */
  function MetaWrites(db: Database, g: seq<TableInfo>): seq<Write> {
    if g == [] || !Readable(db, g[0].name) then []
    else
      TableWrites(References(g[0], g[0].related), db.cols[Column(g[0].name, "id")], db.cols[Column(g[0].name, "uuid")])
      + MetaWrites(db, g[1..])
  }

  function Schema(db: Database, g: seq<TableInfo>, gen: string -> seq<Value>): Database {
    AddAll(db, IdsFirst(g), gen)
  }

  function Meta(db: Database, g: seq<TableInfo>): Database {
    UpdateAll(db, MetaWrites(db, g))
  }

  /** The keys `clean_db` gets to.  When a table is missing its rescue refers to a variable that is
      not in scope there, which raises and ends the stage. */
  function CleanKeys(rows: map<string, nat>, g: seq<TableInfo>): seq<Key> {
    if g == [] then []
    else if g[0].name !in rows then References(g[0], g[0].related)
    else References(g[0], g[0].related) + [Main(g[0].name)] + CleanKeys(rows, g[1..])
  }

  function Clean(db: Database, g: seq<TableInfo>): Database {
    ReplaceAll(db, CleanKeys(db.rows, g))
  }

  function Rollback(db: Database, g: seq<TableInfo>): Database {
    DropAll(db, IdsLast(g))
  }

  // ----- column names

  /** The column of `related` that refers to the table: the one given for it, or the singular. */
  ghost predicate RefersThrough(info: TableInfo, related: string, id: Column, uuid: Column) {
    if related in info.relationFor then
      id == Column(related, info.relationFor[related] + "_id") && uuid == Column(related, info.relationFor[related] + "_uuid")
    else
      id == Column(related, info.singular + "_id") && uuid == Column(related, info.singular + "_uuid")
  }

  /** `k` is the key of the table's own id, or of one of the references to it. */
  ghost predicate KeyOf(info: TableInfo, k: Key) {
    if k.Main? then
      k.table == info.name && IdColumn(k) == Column(info.name, "id") && UuidColumn(k) == Column(info.name, "uuid")
    else
      k.parent == info.name && k.table in info.related && RefersThrough(info, k.table, IdColumn(k), UuidColumn(k))
  }

  lemma ReferencesRefer(info: TableInfo)
    ensures forall k :: k in References(info, info.related) ==> k.Reference? && KeyOf(info, k)
    ensures forall t :: t in info.related ==> exists k :: k in References(info, info.related) && k.table == t
  {
    var ks := References(info, info.related);
    forall t | t in info.related ensures exists k :: k in ks && k.table == t {
      var i :| 0 <= i < |info.related| && info.related[i] == t;
      assert ks[i] in ks && ks[i].table == t;
    }
  }

  /** Every key of a graph is the id of one of its tables, or refers to it through the column that
      the graph gives. */
  lemma {:induction false} KeyIsOfTheGraph(g: seq<TableInfo>, k: Key) returns (info: TableInfo)
    requires k in IdsFirst(g)
    ensures info in g && KeyOf(info, k)
  {
    if k == Main(g[0].name) || k in References(g[0], g[0].related) {
      ReferencesRefer(g[0]);
      info := g[0];
    } else {
      assert IdsFirst(g) == [Main(g[0].name)] + References(g[0], g[0].related) + IdsFirst(g[1..]);
      info := KeyIsOfTheGraph(g[1..], k);
    }
  }

  /** And every related table of every table has such a key. */
  lemma {:induction false} ReferenceHasItsKey(g: seq<TableInfo>, info: TableInfo, t: string) returns (k: Key)
    requires info in g && t in info.related
    ensures k in IdsFirst(g) && k.Reference? && k.table == t && KeyOf(info, k)
  {
    assert IdsFirst(g) == [Main(g[0].name)] + References(g[0], g[0].related) + IdsFirst(g[1..]);
    if info == g[0] {
      ReferencesRefer(info);
      k :| k in References(info, info.related) && k.table == t;
    } else {
      k := ReferenceHasItsKey(g[1..], info, t);
    }
  }

  lemma SuffixesApart(a: string, b: string)
    ensures a + "_id" != b + "_uuid"
  {
    var x, y := a + "_id", b + "_uuid";
    assert |x| >= 3 && x[|x|-3] == '_';
    assert |y| >= 5 && y[|y|-3] == 'u';
  }

  lemma ShortNamesApart(a: string)
    ensures a + "_id" != "uuid" && a + "_uuid" != "id" && a + "_id" != "id" && a + "_uuid" != "uuid"
  {
    var x := a + "_id";
    assert |x| >= 3 && x[|x|-3] == '_';
    assert "uuid"[1] == 'u' && |"uuid"| == 4;
    assert |a + "_uuid"| == |a| + 5;
  }

  lemma SameSuffix(a: string, b: string, suffix: string)
    ensures a + suffix == b + suffix <==> a == b
  {
    if a + suffix == b + suffix {
      assert a == (a + suffix)[..|a|] && b == (b + suffix)[..|b|];
    }
  }

  /** No reference to migrate can be named like a new column, and new columns of different keys
      clash exactly when their old ones do. */
  lemma NamesDoNotClash(k: Key, l: Key)
    ensures IdColumn(k) != UuidColumn(l)
    ensures UuidColumn(k) == UuidColumn(l) <==> IdColumn(k) == IdColumn(l)
  {
    if k.Reference? {
      ShortNamesApart(k.column);
    }
    if l.Reference? {
      ShortNamesApart(l.column);
    }
    if k.Reference? && l.Reference? {
      SuffixesApart(k.column, l.column);
      SameSuffix(k.column, l.column, "_id");
      SameSuffix(k.column, l.column, "_uuid");
    }
  }

  /** Only a table's own id is called id. */
  lemma NotTheId(k: Key)
    ensures UuidColumn(k).name != "id" && (IdColumn(k).name == "id" ==> k.Main?)
  {
    if k.Reference? {
      ShortNamesApart(k.column);
    }
  }

  ghost function NewColumns(ks: seq<Key>): set<Column> {
    set k | k in ks :: UuidColumn(k)
  }

  // ----- rollback

  lemma {:induction false} AddAllTouches(db: Database, ks: seq<Key>, gen: string -> seq<Value>)
    ensures var r := AddAll(db, ks, gen);
      && r.rows == db.rows && r.keyed == db.keyed
      && (forall c :: c !in NewColumns(ks) ==> (c in r.cols <==> c in db.cols) && (c in db.cols ==> r.cols[c] == db.cols[c]))
      && (forall c :: c in db.cols ==> c in r.cols && r.cols[c] == db.cols[c])
    decreases |ks|
  {
    if ks != [] {
      AddAllTouches(AddColumn(db, UuidColumn(ks[0]), Initial(db, ks[0], gen)), ks[1..], gen);
    }
  }

  lemma {:induction false} DropAllDrops(db: Database, ks: seq<Key>)
    ensures DropAll(db, ks) == db.(cols := db.cols - NewColumns(ks))
    decreases |ks|
  {
    if ks == [] {
      assert db.cols - {} == db.cols;
    } else {
      NotTheId(ks[0]);
      assert DropColumn(db, UuidColumn(ks[0])) == db.(cols := db.cols - {UuidColumn(ks[0])});
      DropAllDrops(DropColumn(db, UuidColumn(ks[0])), ks[1..]);
      assert ks == [ks[0]] + ks[1..];
      assert NewColumns(ks) == {UuidColumn(ks[0])} + NewColumns(ks[1..]);
    }
  }

  lemma {:induction false} UpdateAllTouches(db: Database, ws: seq<Write>, touched: set<Column>)
    requires forall w :: w in ws ==> w.target in touched
    ensures var r := UpdateAll(db, ws);
      && r.rows == db.rows && r.keyed == db.keyed && r.cols.Keys == db.cols.Keys
      && (forall c :: c in db.cols ==> |r.cols[c]| == |db.cols[c]|)
      && (forall c :: c in db.cols && c !in touched ==> r.cols[c] == db.cols[c])
    decreases |ws|
  {
    if ws != [] {
      UpdateAllTouches(Update(db, ws[0]), ws[1..], touched);
    }
  }

  lemma {:induction false} TableWritesTarget(ks: seq<Key>, ids: seq<Value>, uuids: seq<Value>)
    requires |ids| == |uuids|
    ensures forall w :: w in TableWrites(ks, ids, uuids) ==> exists k :: k in ks && w.target == UuidColumn(k) && w.key == IdColumn(k)
  {
    if ids != [] {
      TableWritesTarget(ks, ids[1..], uuids[1..]);
      forall w | w in RowWrites(ks, ids[0], uuids[0])
        ensures exists k :: k in ks && w.target == UuidColumn(k) && w.key == IdColumn(k)
      {
        var i :| 0 <= i < |ks| && w == RowWrites(ks, ids[0], uuids[0])[i];
        assert ks[i] in ks;
      }
    }
  }

  lemma {:induction false} MetaWritesTarget(db: Database, g: seq<TableInfo>)
    ensures forall w :: w in MetaWrites(db, g) ==> exists k :: k in IdsFirst(g) && k.Reference? && w.target == UuidColumn(k) && w.key == IdColumn(k)
  {
    if g != [] && Readable(db, g[0].name) {
      TableWritesTarget(References(g[0], g[0].related), db.cols[Column(g[0].name, "id")], db.cols[Column(g[0].name, "uuid")]);
      MetaWritesTarget(db, g[1..]);
    }
  }

  lemma MetaTouchesNewColumns(db: Database, g: seq<TableInfo>)
    ensures var r := Meta(db, g);
      && r.rows == db.rows && r.keyed == db.keyed && r.cols.Keys == db.cols.Keys
      && (forall c :: c in db.cols ==> |r.cols[c]| == |db.cols[c]|)
      && (forall c :: c in db.cols && c !in NewColumns(IdsFirst(g)) ==> r.cols[c] == db.cols[c])
  {
    MetaWritesTarget(db, g);
    UpdateAllTouches(db, MetaWrites(db, g), NewColumns(IdsFirst(g)));
  }

  lemma RemovingUndoesIff(before: map<Column, seq<Value>>, after: map<Column, seq<Value>>, added: set<Column>)
    requires forall c :: c !in added ==> (c in after <==> c in before) && (c in before ==> after[c] == before[c])
    ensures after - added == before <==> added !! before.Keys
  {
    if added !! before.Keys {
      assert forall c :: c in before ==> c !in added;
      assert after - added == before;
    } else {
      var c :| c in added && c in before;
      assert c !in after - added;
    }
  }

  lemma UndoneIff(db: Database, d: Database, g: seq<TableInfo>)
    requires d.rows == db.rows && d.keyed == db.keyed
    requires forall c :: c !in NewColumns(IdsFirst(g)) ==> (c in d.cols <==> c in db.cols) && (c in db.cols ==> d.cols[c] == db.cols[c])
    ensures Rollback(d, g) == db <==> NewColumns(IdsFirst(g)) !! db.cols.Keys
  {
    SameKeys(g);
    assert NewColumns(IdsLast(g)) == NewColumns(IdsFirst(g));
    DropAllDrops(d, IdsLast(g));
    RemovingUndoesIff(db.cols, d.cols, NewColumns(IdsFirst(g)));
  }

  /** Rolling back after `schema`, or after `schema` and `meta`, restores the database exactly if
      and only if none of the new columns was there before: otherwise the script drops a column it
      did not add. */
  lemma RollbackRestoresIff(db: Database, g: seq<TableInfo>, gen: string -> seq<Value>)
    ensures Rollback(Schema(db, g, gen), g) == db <==> NewColumns(IdsFirst(g)) !! db.cols.Keys
    ensures Rollback(Meta(Schema(db, g, gen), g), g) == db <==> NewColumns(IdsFirst(g)) !! db.cols.Keys
  {
    AddAllTouches(db, IdsFirst(g), gen);
    MetaTouchesNewColumns(Schema(db, g, gen), g);
    UndoneIff(db, Schema(db, g, gen), g);
    UndoneIff(db, Meta(Schema(db, g, gen), g), g);
  }

  /** For instance a table that already had a `uuid` column loses it. */
  lemma RollbackLosesColumn(gen: string -> seq<Value>)
    ensures var g := [TableInfo("users", [], "user", map[])];
      var db := Database(map["users" := 0], map[Column("users", "id") := [], Column("users", "uuid") := []], {"users"});
      WellFormed(db) && Rollback(Schema(db, g, gen), g) != db
  {
    var g := [TableInfo("users", [], "user", map[])];
    var db := Database(map["users" := 0], map[Column("users", "id") := [], Column("users", "uuid") := []], {"users"});
    assert Main(g[0].name) in IdsFirst(g);
    assert UuidColumn(Main("users")) == Column("users", "uuid");
    assert Column("users", "uuid") in NewColumns(IdsFirst(g));
    RollbackRestoresIff(db, g, gen);
  }

  // ----- meta

  /** The last of the updates that hits row `i` of column `c`, if any. */
  function LastHit(ws: seq<Write>, db: Database, c: Column, i: nat): Value
    decreases |ws|
  {
    if ws == [] then Null
    else
      var w := ws[|ws|-1];
      if w.target == c && w.key in db.cols && i < |db.cols[w.key]| && Matches(w, db.cols[w.key][i]) then w.uuid
      else LastHit(ws[..|ws|-1], db, c, i)
  }

  predicate Hit(ws: seq<Write>, db: Database, c: Column, i: nat)
    decreases |ws|
  {
    ws != [] &&
    var w := ws[|ws|-1];
    (w.target == c && w.key in db.cols && i < |db.cols[w.key]| && Matches(w, db.cols[w.key][i]))
    || Hit(ws[..|ws|-1], db, c, i)
  }

  /** Keys are never targets, and target and key columns belong to the same table. */
  ghost predicate Apart(ws: seq<Write>) {
    && (forall v, w :: v in ws && w in ws ==> v.target != w.key)
    && (forall w :: w in ws ==> w.target.table == w.key.table)
  }

  lemma {:induction false} UpdateAllSnoc(db: Database, ws: seq<Write>, w: Write)
    ensures UpdateAll(db, ws + [w]) == Update(UpdateAll(db, ws), w)
    decreases |ws|
  {
    if ws == [] {
      assert ([] + [w])[1..] == [];
    } else {
      assert (ws + [w])[1..] == ws[1..] + [w];
      UpdateAllSnoc(Update(db, ws[0]), ws[1..], w);
    }
  }

  ghost function Targets(ws: seq<Write>): set<Column> {
    set w | w in ws :: w.target
  }

  lemma UpdateCell(db: Database, d: Database, w: Write, c: Column, i: nat)
    requires WellFormed(db) && d.rows == db.rows && d.cols.Keys == db.cols.Keys && c in db.cols && i < |db.cols[c]|
    requires forall c :: c in db.cols ==> |d.cols[c]| == |db.cols[c]|
    requires w.target.table == w.key.table && (w.key in db.cols ==> d.cols[w.key] == db.cols[w.key])
    ensures var r := Update(d, w);
      c in r.cols && |r.cols[c]| == |db.cols[c]| &&
      r.cols[c][i] == if Hit([w], db, c, i) then w.uuid else d.cols[c][i]
  {
    assert [w][..0] == [];
  }

  /** After a list of updates every cell holds the value of the last one that hit it. */
  lemma {:induction false} CellAfter(db: Database, ws: seq<Write>, c: Column, i: nat)
    requires WellFormed(db) && Apart(ws) && c in db.cols && i < |db.cols[c]|
    ensures var r := UpdateAll(db, ws);
      c in r.cols && |r.cols[c]| == |db.cols[c]| &&
      r.cols[c][i] == if Hit(ws, db, c, i) then LastHit(ws, db, c, i) else db.cols[c][i]
    decreases |ws|
  {
    if ws != [] {
      var front, w := ws[..|ws|-1], ws[|ws|-1];
      assert ws == front + [w] && w in ws;
      assert forall v :: v in front ==> v in ws;
      CellAfter(db, front, c, i);
      UpdateAllSnoc(db, front, w);
      UpdateAllTouches(db, front, Targets(front));
      UpdateCell(db, UpdateAll(db, front), w, c, i);
      assert [w][..0] == [];
    }
  }

  lemma {:induction false} MetaWritesStable(db: Database, d: Database, g: seq<TableInfo>)
    requires forall k :: k in IdsFirst(g) && k.Main? ==>
      (IdColumn(k) in db.cols <==> IdColumn(k) in d.cols) && (IdColumn(k) in db.cols ==> db.cols[IdColumn(k)] == d.cols[IdColumn(k)]) &&
      (UuidColumn(k) in db.cols <==> UuidColumn(k) in d.cols) && (UuidColumn(k) in db.cols ==> db.cols[UuidColumn(k)] == d.cols[UuidColumn(k)])
    ensures MetaWrites(db, g) == MetaWrites(d, g)
  {
    if g != [] {
      var k := Main(g[0].name);
      assert k in IdsFirst(g);
      assert IdColumn(k) == Column(g[0].name, "id") && UuidColumn(k) == Column(g[0].name, "uuid");
      MetaWritesStable(db, d, g[1..]);
    }
  }

  /** The main columns are not called like the columns `meta` writes. */
  lemma MainNamesApart(k: Key, l: Key)
    requires k.Main? && l.Reference?
    ensures UuidColumn(k) != UuidColumn(l)
  {
    assert |UuidColumn(l).name| == |l.column| + 5;
  }

  lemma MetaWritesApart(db: Database, g: seq<TableInfo>)
    ensures Apart(MetaWrites(db, g))
    ensures forall k: Key :: k.Main? ==> IdColumn(k) !in Targets(MetaWrites(db, g)) && UuidColumn(k) !in Targets(MetaWrites(db, g))
  {
    var ws := MetaWrites(db, g);
    MetaWritesTarget(db, g);
    forall v, w | v in ws && w in ws
      ensures v.target != w.key
    {
      var k :| k in IdsFirst(g) && k.Reference? && v.target == UuidColumn(k);
      var l :| l in IdsFirst(g) && l.Reference? && w.key == IdColumn(l);
      NamesDoNotClash(l, k);
    }
    forall k: Key, w | k.Main? && w in ws
      ensures w.target != IdColumn(k) && w.target != UuidColumn(k)
    {
      var l :| l in IdsFirst(g) && l.Reference? && w.target == UuidColumn(l);
      NamesDoNotClash(k, l);
      MainNamesApart(k, l);
    }
  }

  /** Running a list of updates again changes no cell, as long as they leave their keys alone. */
  lemma SameCellAgain(db: Database, ws: seq<Write>, c: Column, i: nat)
    requires WellFormed(db) && Apart(ws) && c in db.cols && i < |db.cols[c]|
    ensures var d := UpdateAll(db, ws); var e := UpdateAll(d, ws);
      c in d.cols && |d.cols[c]| == |db.cols[c]| && c in e.cols && |e.cols[c]| == |db.cols[c]| && e.cols[c][i] == d.cols[c][i]
  {
    var d := UpdateAll(db, ws);
    UpdateAllTouches(db, ws, Targets(ws));
    CellAfter(db, ws, c, i);
    CellAfter(d, ws, c, i);
    HitsAgree(ws, db, d, c, i);
  }

  lemma SameAgain(db: Database, ws: seq<Write>)
    requires WellFormed(db) && Apart(ws)
    ensures UpdateAll(UpdateAll(db, ws), ws) == UpdateAll(db, ws)
  {
    var d := UpdateAll(db, ws);
    var e := UpdateAll(d, ws);
    UpdateAllTouches(db, ws, Targets(ws));
    UpdateAllTouches(d, ws, Targets(ws));
    forall c | c in d.cols ensures e.cols[c] == d.cols[c] {
      forall i | 0 <= i < |d.cols[c]| ensures e.cols[c][i] == d.cols[c][i] {
        SameCellAgain(db, ws, c, i);
      }
    }
    assert e.cols == d.cols;
  }

  /** Running `meta` twice equals running it once, whatever the database holds. */
  lemma MetaTwiceIsOnce(db: Database, g: seq<TableInfo>)
    requires WellFormed(db)
    ensures Meta(Meta(db, g), g) == Meta(db, g)
  {
    var ws := MetaWrites(db, g);
    MetaWritesApart(db, g);
    UpdateAllTouches(db, ws, Targets(ws));
    MetaWritesStable(db, Meta(db, g), g);
    SameAgain(db, ws);
  }

  lemma {:induction false} HitsAgree(ws: seq<Write>, db: Database, d: Database, c: Column, i: nat)
    requires forall w :: w in ws ==> (w.key in db.cols <==> w.key in d.cols) && (w.key in db.cols ==> db.cols[w.key] == d.cols[w.key])
    ensures Hit(ws, db, c, i) == Hit(ws, d, c, i) && LastHit(ws, db, c, i) == LastHit(ws, d, c, i)
    decreases |ws|
  {
    if ws != [] {
      var w := ws[|ws|-1];
      assert w in ws;
      HitsAgree(ws[..|ws|-1], db, d, c, i);
    }
  }

  /** Nothing is written for a row without an id or without a UUID, and nothing over a reference to
      nothing. */
  lemma NullsChangeNothing(db: Database, w: Write, i: nat)
    requires w.target in db.cols && w.key in db.cols && |db.cols[w.target]| == |db.cols[w.key]| && i < |db.cols[w.key]|
    ensures w.id == Null || w.uuid == Null || db.cols[w.key][i] == Null ==> Update(db, w).cols[w.target][i] == db.cols[w.target][i]
  {
  }

  /** `meta` ends at the first table it cannot read: what comes after is not migrated. */
  lemma {:induction false} MetaStops(db: Database, a: seq<TableInfo>, x: TableInfo, b: seq<TableInfo>)
    requires !Readable(db, x.name)
    ensures Meta(db, a + [x] + b) == Meta(db, a)
  {
    MetaWritesStop(db, a, x, b);
  }

  lemma {:induction false} MetaWritesStop(db: Database, a: seq<TableInfo>, x: TableInfo, b: seq<TableInfo>)
    requires !Readable(db, x.name)
    ensures MetaWrites(db, a + [x] + b) == MetaWrites(db, a)
  {
    if a == [] {
      assert (a + [x] + b)[0] == x;
    } else {
      assert (a + [x] + b)[0] == a[0] && (a + [x] + b)[1..] == a[1..] + [x] + b;
      MetaWritesStop(db, a[1..], x, b);
    }
  }

  /** `clean` ends at the first table that is missing, once its references are replaced. */
  lemma {:induction false} CleanStops(rows: map<string, nat>, a: seq<TableInfo>, x: TableInfo, b: seq<TableInfo>)
    requires (forall info :: info in a ==> info.name in rows) && x.name !in rows
    ensures CleanKeys(rows, a + [x] + b) == IdsLast(a) + References(x, x.related)
  {
    if a == [] {
      assert (a + [x] + b)[0] == x;
    } else {
      assert (a + [x] + b)[0] == a[0] && (a + [x] + b)[1..] == a[1..] + [x] + b;
      CleanStops(rows, a[1..], x, b);
    }
  }

  // ----- the whole migration

  /** Different keys have different columns, and no key is listed twice. */
  ghost predicate DistinctKeys(ks: seq<Key>) {
    && (forall k, l :: k in ks && l in ks && UuidColumn(k) == UuidColumn(l) ==> k == l)
    && (forall k :: multiset(ks)[k] <= 1)
  }

  /** What the script is meant for: every table and old column is there and no new column is;
      ids are unique and not null, and so are the generated UUIDs. */
  ghost predicate Ready(db: Database, g: seq<TableInfo>, gen: string -> seq<Value>) {
    && WellFormed(db)
    && (forall k :: k in IdsFirst(g) ==> k.table in db.rows && IdColumn(k) in db.cols && UuidColumn(k) !in db.cols)
    && (forall k :: k in IdsFirst(g) && k.Main? ==>
          && Distinct(db.cols[IdColumn(k)]) && Null !in db.cols[IdColumn(k)]
          && |gen(k.table)| == db.rows[k.table] && Distinct(gen(k.table)) && Null !in gen(k.table))
  }

  ghost predicate Migratable(db: Database, g: seq<TableInfo>, gen: string -> seq<Value>) {
    DistinctKeys(IdsFirst(g)) && Ready(db, g, gen)
  }

  lemma {:induction false} AddedOnce(db: Database, ks: seq<Key>, gen: string -> seq<Value>, k: Key)
    requires k in ks && forall l :: l in ks && UuidColumn(l) == UuidColumn(k) ==> l == k
    requires k.table in db.rows && UuidColumn(k) !in db.cols && |Initial(db, k, gen)| == db.rows[k.table]
    ensures var r := AddAll(db, ks, gen);
      UuidColumn(k) in r.cols && r.cols[UuidColumn(k)] == Initial(db, k, gen)
    decreases |ks|
  {
    var d := AddColumn(db, UuidColumn(ks[0]), Initial(db, ks[0], gen));
    if ks[0] == k {
      AddAllTouches(d, ks[1..], gen);
    } else {
      assert Initial(d, k, gen) == Initial(db, k, gen);
      AddedOnce(d, ks[1..], gen, k);
    }
  }

  /** The update that row `j` of the parent makes through reference `k`. */
  function WriteOf(db: Database, k: Key, j: nat): Write
    requires k.Reference? && Readable(db, k.parent) && j < |db.cols[Column(k.parent, "id")]|
  {
    Write(UuidColumn(k), IdColumn(k), db.cols[Column(k.parent, "id")][j], db.cols[Column(k.parent, "uuid")][j])
  }

  lemma {:induction false} TableWritesAre(ks: seq<Key>, ids: seq<Value>, uuids: seq<Value>, w: Write)
    requires |ids| == |uuids|
    ensures w in TableWrites(ks, ids, uuids) <==>
              exists k, j :: k in ks && 0 <= j < |ids| && w == Write(UuidColumn(k), IdColumn(k), ids[j], uuids[j])
  {
    if ids != [] {
      TableWritesAre(ks, ids[1..], uuids[1..], w);
      var row := RowWrites(ks, ids[0], uuids[0]);
      if w in row {
        var i :| 0 <= i < |ks| && row[i] == w;
        assert ks[i] in ks && w == Write(UuidColumn(ks[i]), IdColumn(ks[i]), ids[0], uuids[0]);
      } else if w in TableWrites(ks, ids[1..], uuids[1..]) {
        var k, j :| k in ks && 0 <= j < |ids[1..]| && w == Write(UuidColumn(k), IdColumn(k), ids[1..][j], uuids[1..][j]);
        assert ids[1..][j] == ids[j+1] && uuids[1..][j] == uuids[j+1];
      }
      if k, j :| k in ks && 0 <= j < |ids| && w == Write(UuidColumn(k), IdColumn(k), ids[j], uuids[j]) {
        if j == 0 {
          var i :| 0 <= i < |ks| && ks[i] == k;
          assert row[i] == w;
        } else {
          assert ids[1..][j-1] == ids[j] && uuids[1..][j-1] == uuids[j];
        }
      }
    }
  }

  /** `w` is the update of some row of the parent through one of the references. */
  ghost predicate Issued(db: Database, ks: seq<Key>, w: Write) {
    exists k, j :: k in ks && k.Reference? && Readable(db, k.parent) && 0 <= j < |db.cols[Column(k.parent, "id")]| && w == WriteOf(db, k, j)
  }

  lemma IssuedByTable(db: Database, ks: seq<Key>, table: string, w: Write)
    requires Readable(db, table) && forall k :: k in ks ==> k.Reference? && k.parent == table
    ensures w in TableWrites(ks, db.cols[Column(table, "id")], db.cols[Column(table, "uuid")]) <==> Issued(db, ks, w)
  {
    var ids, uuids := db.cols[Column(table, "id")], db.cols[Column(table, "uuid")];
    TableWritesAre(ks, ids, uuids, w);
    if w in TableWrites(ks, ids, uuids) {
      var k, j :| k in ks && 0 <= j < |ids| && w == Write(UuidColumn(k), IdColumn(k), ids[j], uuids[j]);
      assert w == WriteOf(db, k, j);
    }
  }

  lemma IssuedByParts(db: Database, m: Key, a: seq<Key>, b: seq<Key>, w: Write)
    requires m.Main?
    ensures Issued(db, [m] + a + b, w) <==> Issued(db, a, w) || Issued(db, b, w)
  {
  }

  /** `meta` runs exactly one update for every reference and row of its parent. */
  lemma {:induction false} MetaWritesAre(db: Database, g: seq<TableInfo>, w: Write)
    requires forall k :: k in IdsFirst(g) && k.Main? ==> Readable(db, k.table)
    ensures w in MetaWrites(db, g) <==> Issued(db, IdsFirst(g), w)
  {
    if g != [] {
      var ks := References(g[0], g[0].related);
      assert IdsFirst(g) == [Main(g[0].name)] + ks + IdsFirst(g[1..]);
      assert Main(g[0].name) in IdsFirst(g);
      assert Main(g[0].name).table == g[0].name;
      IssuedByTable(db, ks, g[0].name, w);
      IssuedByParts(db, Main(g[0].name), ks, IdsFirst(g[1..]), w);
      assert forall k :: k in IdsFirst(g[1..]) ==> k in IdsFirst(g);
      MetaWritesAre(db, g[1..], w);
    }
  }

  /** `w` hits row `i` of column `c`. */
  ghost predicate Hits(w: Write, db: Database, c: Column, i: nat) {
    w.target == c && w.key in db.cols && i < |db.cols[w.key]| && Matches(w, db.cols[w.key][i])
  }

  lemma {:induction false} HitMeans(ws: seq<Write>, db: Database, c: Column, i: nat)
    ensures Hit(ws, db, c, i) <==> exists w :: w in ws && Hits(w, db, c, i)
    ensures Hit(ws, db, c, i) ==> exists w :: w in ws && Hits(w, db, c, i) && w.uuid == LastHit(ws, db, c, i)
    decreases |ws|
  {
    if ws != [] {
      var front, w := ws[..|ws|-1], ws[|ws|-1];
      assert ws == front + [w];
      HitMeans(front, db, c, i);
      if Hits(w, db, c, i) {
        assert w in ws;
      }
    }
  }

  lemma {:induction false} ReplaceAllTouches(db: Database, ks: seq<Key>, c: Column)
    requires forall k :: k in ks ==> c != IdColumn(k) && c != UuidColumn(k)
    ensures var r := ReplaceAll(db, ks);
      (c in r.cols <==> c in db.cols) && (c in db.cols ==> r.cols[c] == db.cols[c])
    decreases |ks|
  {
    if ks != [] {
      ReplaceAllTouches(Replace(db, ks[0]), ks[1..], c);
    }
  }

  lemma DistinctRest(ks: seq<Key>)
    requires ks != [] && DistinctKeys(ks)
    ensures DistinctKeys(ks[1..]) && ks[0] !in ks[1..]
  {
    var rest := ks[1..];
    assert ks == [ks[0]] + rest;
    assert multiset(ks) == multiset{ks[0]} + multiset(rest);
    assert forall k :: k in rest ==> k in ks;
    assert multiset(ks)[ks[0]] == 1 + multiset(rest)[ks[0]];
    forall k ensures multiset(rest)[k] <= 1 {
      assert multiset(ks)[k] <= 1;
    }
  }

  lemma ReplaceStep(db: Database, l: Key, k: Key)
    requires UuidColumn(k) in db.cols
    requires IdColumn(k) != UuidColumn(l) && UuidColumn(k) != IdColumn(l) && IdColumn(k) != UuidColumn(k)
    requires k == l || UuidColumn(k) != UuidColumn(l)
    ensures var d := Replace(db, l);
      if k == l then IdColumn(k) in d.cols && d.cols[IdColumn(k)] == db.cols[UuidColumn(k)] && UuidColumn(k) !in d.cols
      else UuidColumn(k) in d.cols && d.cols[UuidColumn(k)] == db.cols[UuidColumn(k)]
  {
  }

  /** `clean` puts every UUID column in the place of its integer column. */
  lemma {:induction false} ReplacedOnce(db: Database, ks: seq<Key>, k: Key)
    requires DistinctKeys(ks) && k in ks && UuidColumn(k) in db.cols
    ensures var r := ReplaceAll(db, ks);
      IdColumn(k) in r.cols && r.cols[IdColumn(k)] == db.cols[UuidColumn(k)] && UuidColumn(k) !in r.cols
    decreases |ks|
  {
    var d := Replace(db, ks[0]);
    NamesDoNotClash(k, k);
    NamesDoNotClash(k, ks[0]);
    NamesDoNotClash(ks[0], k);
    DistinctRest(ks);
    ReplaceStep(db, ks[0], k);
    if ks[0] == k {
      forall l | l in ks[1..]
        ensures IdColumn(k) != IdColumn(l) && IdColumn(k) != UuidColumn(l) && UuidColumn(k) != IdColumn(l) && UuidColumn(k) != UuidColumn(l)
      {
        assert l in ks;
        NamesDoNotClash(k, l);
        NamesDoNotClash(l, k);
      }
      ReplaceAllTouches(d, ks[1..], IdColumn(k));
      ReplaceAllTouches(d, ks[1..], UuidColumn(k));
    } else {
      ReplacedOnce(d, ks[1..], k);
    }
  }

  /** The values can be a primary key. */
  ghost predicate IsKey(vs: seq<Value>) {
    Distinct(vs) && Null !in vs
  }

  lemma ReplaceKeysIff(db: Database, k: Key)
    requires k.Main? && UuidColumn(k) in db.cols
    ensures k.table in Replace(db, k).keyed <==> IsKey(db.cols[UuidColumn(k)])
  {
    assert IdColumn(k) == Column(k.table, "id");
    NamesDoNotClash(k, k);
  }

  lemma {:induction false} KeyStays(db: Database, ks: seq<Key>, table: string)
    requires Main(table) !in ks
    ensures table in ReplaceAll(db, ks).keyed <==> table in db.keyed
    decreases |ks|
  {
    if ks != [] {
      NotTheId(ks[0]);
      assert ks[0] in ks;
      KeyStays(Replace(db, ks[0]), ks[1..], table);
    }
  }

  /** `clean` makes a new id the primary key of its table exactly when its values are unique and not
      null; the old primary key is gone in any case. */
  lemma {:induction false} KeyedOnce(db: Database, ks: seq<Key>, k: Key)
    requires DistinctKeys(ks) && k in ks && k.Main? && UuidColumn(k) in db.cols
    ensures k.table in ReplaceAll(db, ks).keyed <==> IsKey(db.cols[UuidColumn(k)])
    decreases |ks|
  {
    DistinctRest(ks);
    if ks[0] == k {
      ReplaceKeysIff(db, k);
      KeyStays(Replace(db, k), ks[1..], k.table);
    } else {
      NamesDoNotClash(k, ks[0]);
      NamesDoNotClash(ks[0], k);
      NamesDoNotClash(k, k);
      ReplaceStep(db, ks[0], k);
      KeyedOnce(Replace(db, ks[0]), ks[1..], k);
    }
  }

  lemma {:induction false} CleanKeysAre(rows: map<string, nat>, g: seq<TableInfo>)
    ensures forall k :: k in CleanKeys(rows, g) ==> k in IdsFirst(g)
    ensures (forall k :: k in IdsFirst(g) && k.Main? ==> k.table in rows) ==> CleanKeys(rows, g) == IdsLast(g)
  {
    if g != [] {
      CleanKeysAre(rows, g[1..]);
      assert Main(g[0].name) in IdsFirst(g);
      assert Main(g[0].name).table == g[0].name;
    }
  }

  lemma {:induction false} ReplaceAllKeepsRows(db: Database, ks: seq<Key>)
    ensures ReplaceAll(db, ks).rows == db.rows
    decreases |ks|
  {
    if ks != [] {
      ReplaceAllKeepsRows(Replace(db, ks[0]), ks[1..]);
    }
  }

  /** The UUID given to the row of `table` whose integer id is `v`, and null when there is none. */
  ghost function Translated(db: Database, table: string, gen: string -> seq<Value>, v: Value): Value
    requires Column(table, "id") in db.cols && |db.cols[Column(table, "id")]| == |gen(table)|
  {
    var ids := db.cols[Column(table, "id")];
    if j :| 0 <= j < |ids| && ids[j] == v then gen(table)[j] else Null
  }

  lemma SchemaAdds(db: Database, g: seq<TableInfo>, gen: string -> seq<Value>, k: Key)
    requires Migratable(db, g, gen) && k in IdsFirst(g)
    ensures var s := Schema(db, g, gen);
      && IdColumn(k) in s.cols && s.cols[IdColumn(k)] == db.cols[IdColumn(k)]
      && UuidColumn(k) in s.cols && s.cols[UuidColumn(k)] == Initial(db, k, gen)
      && WellFormed(s)
  {
    AddAllTouches(db, IdsFirst(g), gen);
    AddedOnce(db, IdsFirst(g), gen, k);
    AddAllWellFormed(db, IdsFirst(g), gen);
  }

  lemma {:induction false} AddAllWellFormed(db: Database, ks: seq<Key>, gen: string -> seq<Value>)
    requires WellFormed(db)
    ensures WellFormed(AddAll(db, ks, gen))
    decreases |ks|
  {
    if ks != [] {
      AddAllWellFormed(AddColumn(db, UuidColumn(ks[0]), Initial(db, ks[0], gen)), ks[1..], gen);
    }
  }

  lemma {:induction false} ParentIsListed(g: seq<TableInfo>)
    ensures forall k :: k in IdsFirst(g) && k.Reference? ==> Main(k.parent) in IdsFirst(g)
  {
    if g != [] {
      ParentIsListed(g[1..]);
      assert forall k :: k in References(g[0], g[0].related) ==> k.parent == g[0].name;
    }
  }

  /** Only the parent rows whose id the reference names hit its row. */
  lemma HitsNameTheParent(s: Database, g: seq<TableInfo>, k: Key, i: nat)
    requires WellFormed(s) && DistinctKeys(IdsFirst(g)) && k in IdsFirst(g) && k.Reference?
    requires forall l :: l in IdsFirst(g) && l.Main? ==> Readable(s, l.table)
    requires Readable(s, k.parent) && IdColumn(k) in s.cols && i < |s.cols[IdColumn(k)]|
    ensures var ids, uuids, v := s.cols[Column(k.parent, "id")], s.cols[Column(k.parent, "uuid")], s.cols[IdColumn(k)][i];
      forall w :: w in MetaWrites(s, g) && Hits(w, s, UuidColumn(k), i) ==>
        exists j :: 0 <= j < |ids| && ids[j] == v && w.uuid == uuids[j]
    ensures var ids, uuids, v := s.cols[Column(k.parent, "id")], s.cols[Column(k.parent, "uuid")], s.cols[IdColumn(k)][i];
      forall j :: 0 <= j < |ids| && ids[j] == v && v != Null && uuids[j] != Null ==>
        WriteOf(s, k, j) in MetaWrites(s, g) && Hits(WriteOf(s, k, j), s, UuidColumn(k), i)
  {
    var ids, v := s.cols[Column(k.parent, "id")], s.cols[IdColumn(k)][i];
    forall w | w in MetaWrites(s, g) && Hits(w, s, UuidColumn(k), i)
      ensures exists j :: 0 <= j < |ids| && ids[j] == v && w.uuid == s.cols[Column(k.parent, "uuid")][j]
    {
      MetaWritesAre(s, g, w);
      var l, j :| l in IdsFirst(g) && l.Reference? && Readable(s, l.parent) && 0 <= j < |s.cols[Column(l.parent, "id")]| && w == WriteOf(s, l, j);
      assert l == k;
    }
    forall j | 0 <= j < |ids| && ids[j] == v && v != Null && s.cols[Column(k.parent, "uuid")][j] != Null
      ensures WriteOf(s, k, j) in MetaWrites(s, g)
    {
      MetaWritesAre(s, g, WriteOf(s, k, j));
    }
  }

  /** When the hits on a cell are exactly those of the parent rows whose id is `v`, the last hit is
      the UUID of the one there is. */
  lemma LastHitIsParent(ws: seq<Write>, s: Database, c: Column, i: nat, ids: seq<Value>, uuids: seq<Value>, v: Value)
    requires |ids| == |uuids| && Distinct(ids)
    requires forall w :: w in ws && Hits(w, s, c, i) ==> exists j :: 0 <= j < |ids| && ids[j] == v && w.uuid == uuids[j]
    requires forall j :: 0 <= j < |ids| && ids[j] == v && v != Null ==> exists w :: w in ws && Hits(w, s, c, i)
    ensures forall j :: 0 <= j < |ids| && ids[j] == v && v != Null ==> Hit(ws, s, c, i) && LastHit(ws, s, c, i) == uuids[j]
    ensures (forall j :: 0 <= j < |ids| ==> ids[j] != v) ==> !Hit(ws, s, c, i)
  {
    HitMeans(ws, s, c, i);
  }

  /** `meta` alone: a null reference becomes the UUID of the row its integer names. */
  lemma UpdatesTranslate(s: Database, g: seq<TableInfo>, k: Key, i: nat)
    requires WellFormed(s) && DistinctKeys(IdsFirst(g)) && k in IdsFirst(g) && k.Reference?
    requires forall l :: l in IdsFirst(g) && l.Main? ==> Readable(s, l.table)
    requires Readable(s, k.parent) && IdColumn(k) in s.cols && i < |s.cols[IdColumn(k)]|
    requires Distinct(s.cols[Column(k.parent, "id")]) && Null !in s.cols[Column(k.parent, "uuid")]
    requires UuidColumn(k) in s.cols && i < |s.cols[UuidColumn(k)]| && s.cols[UuidColumn(k)][i] == Null
    ensures var ids, uuids, v := s.cols[Column(k.parent, "id")], s.cols[Column(k.parent, "uuid")], s.cols[IdColumn(k)][i];
      var m := Meta(s, g);
      && UuidColumn(k) in m.cols && |m.cols[UuidColumn(k)]| == |s.cols[UuidColumn(k)]|
      && (forall j :: 0 <= j < |ids| && ids[j] == v && v != Null ==> m.cols[UuidColumn(k)][i] == uuids[j])
      && ((forall j :: 0 <= j < |ids| ==> ids[j] != v) ==> m.cols[UuidColumn(k)][i] == Null)
  {
    MetaWritesApart(s, g);
    var ids, uuids, v := s.cols[Column(k.parent, "id")], s.cols[Column(k.parent, "uuid")], s.cols[IdColumn(k)][i];
    CellAfter(s, MetaWrites(s, g), UuidColumn(k), i);
    HitsNameTheParent(s, g, k, i);
    forall j | 0 <= j < |ids| && ids[j] == v && v != Null
      ensures exists w :: w in MetaWrites(s, g) && Hits(w, s, UuidColumn(k), i)
    {
      assert uuids[j] in uuids;
      assert Hits(WriteOf(s, k, j), s, UuidColumn(k), i);
    }
    LastHitIsParent(MetaWrites(s, g), s, UuidColumn(k), i, ids, uuids, v);
  }

  lemma TranslatedIs(db: Database, table: string, gen: string -> seq<Value>, v: Value)
    requires Column(table, "id") in db.cols && |db.cols[Column(table, "id")]| == |gen(table)|
    requires Distinct(db.cols[Column(table, "id")])
    ensures forall j :: 0 <= j < |gen(table)| && db.cols[Column(table, "id")][j] == v ==> Translated(db, table, gen, v) == gen(table)[j]
    ensures (forall j :: 0 <= j < |gen(table)| ==> db.cols[Column(table, "id")][j] != v) ==> Translated(db, table, gen, v) == Null
  {
  }

  /** After `schema` and `meta` a reference holds the UUID of the row its integer names. */
  lemma MetaTranslates(db: Database, g: seq<TableInfo>, gen: string -> seq<Value>, k: Key, i: nat)
    requires Migratable(db, g, gen) && k in IdsFirst(g) && k.Reference? && i < |db.cols[IdColumn(k)]|
    ensures Main(k.parent) in IdsFirst(g)
    ensures var m := Meta(Schema(db, g, gen), g);
      UuidColumn(k) in m.cols && |m.cols[UuidColumn(k)]| == |db.cols[IdColumn(k)]| &&
      m.cols[UuidColumn(k)][i] == Translated(db, k.parent, gen, db.cols[IdColumn(k)][i])
  {
    var s, p := Schema(db, g, gen), Main(k.parent);
    ParentIsListed(g);
    forall l | l in IdsFirst(g) && l.Main? ensures Readable(s, l.table) {
      SchemaAdds(db, g, gen, l);
    }
    SchemaAdds(db, g, gen, k);
    SchemaAdds(db, g, gen, p);
    assert IdColumn(p) == Column(k.parent, "id") && UuidColumn(p) == Column(k.parent, "uuid");
    UpdatesTranslate(s, g, k, i);
    TranslatedIs(db, k.parent, gen, db.cols[IdColumn(k)][i]);
  }

  lemma CleanReplaces(m: Database, g: seq<TableInfo>, k: Key)
    requires DistinctKeys(IdsFirst(g)) && k in IdsFirst(g) && UuidColumn(k) in m.cols
    requires forall l :: l in IdsFirst(g) && l.Main? ==> l.table in m.rows
    ensures var r := Clean(m, g);
      && IdColumn(k) in r.cols && r.cols[IdColumn(k)] == m.cols[UuidColumn(k)] && UuidColumn(k) !in r.cols
      && (k.Main? ==> (k.table in r.keyed <==> IsKey(m.cols[UuidColumn(k)])))
  {
    SameKeys(g);
    CleanKeysAre(m.rows, g);
    ReplacedOnce(m, IdsLast(g), k);
    if k.Main? {
      KeyedOnce(m, IdsLast(g), k);
    }
  }

  /** What stands in the new columns before `clean`. */
  lemma NewColumnsFilled(db: Database, g: seq<TableInfo>, gen: string -> seq<Value>, k: Key)
    requires Migratable(db, g, gen) && k in IdsFirst(g)
    ensures var m := Meta(Schema(db, g, gen), g);
      && m.rows == db.rows && UuidColumn(k) in m.cols
      && (k.Main? ==> m.cols[UuidColumn(k)] == gen(k.table))
      && (k.Reference? ==> |m.cols[UuidColumn(k)]| == |db.cols[IdColumn(k)]|)
  {
    var s := Schema(db, g, gen);
    AddAllTouches(db, IdsFirst(g), gen);
    SchemaAdds(db, g, gen, k);
    MetaTouchesNewColumns(s, g);
    if k.Main? {
      MetaWritesApart(s, g);
      UpdateAllTouches(s, MetaWrites(s, g), Targets(MetaWrites(s, g)));
    }
  }

  lemma ReferencesFilled(db: Database, g: seq<TableInfo>, gen: string -> seq<Value>, k: Key)
    requires Migratable(db, g, gen) && k in IdsFirst(g) && k.Reference?
    ensures Main(k.parent) in IdsFirst(g)
    ensures var m := Meta(Schema(db, g, gen), g);
      && UuidColumn(k) in m.cols && |m.cols[UuidColumn(k)]| == |db.cols[IdColumn(k)]|
      && forall i :: 0 <= i < |db.cols[IdColumn(k)]| ==>
           m.cols[UuidColumn(k)][i] == Translated(db, k.parent, gen, db.cols[IdColumn(k)][i])
  {
    ParentIsListed(g);
    NewColumnsFilled(db, g, gen, k);
    forall i | 0 <= i < |db.cols[IdColumn(k)]|
      ensures Meta(Schema(db, g, gen), g).cols[UuidColumn(k)][i] == Translated(db, k.parent, gen, db.cols[IdColumn(k)][i])
    {
      MetaTranslates(db, g, gen, k, i);
    }
  }

  /** The whole migration: after `schema`, `meta` and `clean` every id column holds the generated
      UUIDs and is the primary key, every reference holds the UUID of the row it named and null where it named none, and
      no other column has changed. */
  lemma MigratedDatabase(db: Database, g: seq<TableInfo>, gen: string -> seq<Value>, k: Key)
    requires Migratable(db, g, gen)
    ensures var r := Clean(Meta(Schema(db, g, gen), g), g);
      && (k in IdsFirst(g) && k.Main? ==> IdColumn(k) in r.cols && r.cols[IdColumn(k)] == gen(k.table) && k.table in r.keyed)
      && (k in IdsFirst(g) && k.Reference? ==>
            && Main(k.parent) in IdsFirst(g)
            && IdColumn(k) in r.cols && |r.cols[IdColumn(k)]| == |db.cols[IdColumn(k)]|
            && forall i :: 0 <= i < |db.cols[IdColumn(k)]| ==>
                 r.cols[IdColumn(k)][i] == Translated(db, k.parent, gen, db.cols[IdColumn(k)][i]))
      && (k in IdsFirst(g) ==> UuidColumn(k) !in r.cols)
  {
    if k in IdsFirst(g) {
      NewColumnsFilled(db, g, gen, k);
      CleanReplaces(Meta(Schema(db, g, gen), g), g, k);
      if k.Reference? {
        ReferencesFilled(db, g, gen, k);
      }
    }
  }

  lemma OtherColumnsUnchanged(db: Database, g: seq<TableInfo>, gen: string -> seq<Value>, c: Column)
    requires forall k :: k in IdsFirst(g) ==> c != IdColumn(k) && c != UuidColumn(k)
    ensures var r := Clean(Meta(Schema(db, g, gen), g), g);
      (c in r.cols <==> c in db.cols) && (c in db.cols ==> r.cols[c] == db.cols[c])
  {
    var s := Schema(db, g, gen);
    AddAllTouches(db, IdsFirst(g), gen);
    MetaTouchesNewColumns(s, g);
    CleanKeysAre(s.rows, g);
    ReplaceAllTouches(Meta(s, g), CleanKeys(s.rows, g), c);
  }

  /** SQL equality on two columns. */
  ghost predicate Joins(db: Database, a: Column, i: nat, b: Column, j: nat) {
    && a in db.cols && i < |db.cols[a]| && b in db.cols && j < |db.cols[b]|
    && db.cols[a][i] == db.cols[b][j] && db.cols[a][i] != Null
  }

  lemma TranslationJoins(db: Database, table: string, gen: string -> seq<Value>, v: Value, j: nat)
    requires Column(table, "id") in db.cols && |db.cols[Column(table, "id")]| == |gen(table)| && j < |gen(table)|
    requires Distinct(db.cols[Column(table, "id")]) && Null !in db.cols[Column(table, "id")]
    requires Distinct(gen(table)) && Null !in gen(table)
    ensures var t := Translated(db, table, gen, v);
      (t == gen(table)[j] && t != Null) <==> (v == db.cols[Column(table, "id")][j] && v != Null)
  {
    var ids, uuids := db.cols[Column(table, "id")], gen(table);
    assert ids[j] in ids && uuids[j] in uuids;
    if n :| 0 <= n < |ids| && ids[n] == v {
      assert Translated(db, table, gen, v) == uuids[n];
      assert uuids[n] == uuids[j] <==> n == j;
      assert ids[n] == ids[j] <==> n == j;
    }
  }

  /** The migration preserves meaning: a related row and a parent row join on the new columns if
      and only if they joined on the old ones. */
  lemma MigrationPreservesJoins(db: Database, g: seq<TableInfo>, gen: string -> seq<Value>, k: Key, i: nat, j: nat)
    requires Migratable(db, g, gen) && k in IdsFirst(g) && k.Reference?
    ensures var r := Clean(Meta(Schema(db, g, gen), g), g);
      Joins(r, IdColumn(k), i, Column(k.parent, "id"), j) <==> Joins(db, IdColumn(k), i, Column(k.parent, "id"), j)
  {
    var p := Main(k.parent);
    ParentIsListed(g);
    MigratedDatabase(db, g, gen, k);
    MigratedDatabase(db, g, gen, p);
    assert IdColumn(p) == Column(k.parent, "id");
    if i < |db.cols[IdColumn(k)]| && j < |gen(k.parent)| {
      TranslationJoins(db, k.parent, gen, db.cols[IdColumn(k)][i], j);
    }
  }
}
