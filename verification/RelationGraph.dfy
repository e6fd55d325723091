/** The relation graph in `script/migrate_to_uuid.rb`: no two of its keys share a column, so what is
    proved of every such graph holds of it. */
module RelationGraph {
  import opened UuidMigration

  const SHIPPED: seq<TableInfo> := [
    TableInfo("assets", [], "asset", map[]),
    TableInfo("client_applications", ["oauth_tokens"], "client_application", map[]),
    TableInfo("data_imports", ["user_tables"], "data_import", map[]),
    TableInfo("geocodings", [], "geocoding", map[]),
    TableInfo("layers", ["layers_maps", "layers_users", "layers_user_tables", "visualizations"], "layer", map["visualizations" := "active_layer"]),
    TableInfo("layers_maps", [], "layer_map", map[]),
    TableInfo("layers_user_tables", [], "layer_user_table", map[]),
    TableInfo("layers_users", [], "layer_user", map[]),
    TableInfo("maps", ["user_tables", "layers_maps", "visualizations"], "map", map[]),
    TableInfo("oauth_nonces", [], "oauth_nonce", map[]),
    TableInfo("oauth_tokens", [], "oauth_token", map[]),
    TableInfo("overlays", [], "overlay", map[]),
    TableInfo("tags", [], "tag", map[]),
    TableInfo("user_tables", ["data_imports", "layers_user_tables", "tags", "geocodings"], "table", map["layers_user_tables" := "user_table"]),
    TableInfo("users", ["user_tables", "maps", "layers_users", "assets", "client_applications", "oauth_tokens", "tags", "data_imports", "synchronizations", "geocodings"], "user", map[])]

  // ----- the columns of the shipped graph

  /** The old columns of the references to a table. */
  function ReferenceColumns(info: TableInfo): seq<Column> {
    seq(|info.related|, i requires 0 <= i < |info.related| => IdColumn(References(info, info.related)[i]))
  }

  lemma ColumnNames()
    ensures "active_layer" + "_id" == "active_layer_id"
    ensures "client_application" + "_id" == "client_application_id"
    ensures "data_import" + "_id" == "data_import_id"
    ensures "layer" + "_id" == "layer_id"
    ensures "map" + "_id" == "map_id"
    ensures "table" + "_id" == "table_id"
    ensures "user" + "_id" == "user_id"
    ensures "user_table" + "_id" == "user_table_id"
  {
  }

  lemma ColumnsOfUsers()
    ensures ReferenceColumns(SHIPPED[14]) == [Column("user_tables", "user_id"), Column("maps", "user_id"), Column("layers_users", "user_id"), Column("assets", "user_id"), Column("client_applications", "user_id"), Column("oauth_tokens", "user_id"), Column("tags", "user_id"), Column("data_imports", "user_id"), Column("synchronizations", "user_id"), Column("geocodings", "user_id")]
  {
    ColumnNames();
  }

  lemma ColumnsOfOthers()
    ensures ReferenceColumns(SHIPPED[1]) == [Column("oauth_tokens", "client_application_id")]
    ensures ReferenceColumns(SHIPPED[2]) == [Column("user_tables", "data_import_id")]
    ensures ReferenceColumns(SHIPPED[4]) == [Column("layers_maps", "layer_id"), Column("layers_users", "layer_id"), Column("layers_user_tables", "layer_id"), Column("visualizations", "active_layer_id")]
    ensures ReferenceColumns(SHIPPED[8]) == [Column("user_tables", "map_id"), Column("layers_maps", "map_id"), Column("visualizations", "map_id")]
    ensures ReferenceColumns(SHIPPED[13]) == [Column("data_imports", "table_id"), Column("layers_user_tables", "user_table_id"), Column("tags", "table_id"), Column("geocodings", "table_id")]
    ensures forall i :: 0 <= i < |SHIPPED| && i !in {1, 2, 4, 8, 13, 14} ==> ReferenceColumns(SHIPPED[i]) == []
  {
    ColumnNames();
  }

  /** Every reference the script migrates, column by column. */
  lemma ShippedColumns()
    ensures ReferenceColumns(SHIPPED[1]) == [Column("oauth_tokens", "client_application_id")]
    ensures ReferenceColumns(SHIPPED[2]) == [Column("user_tables", "data_import_id")]
    ensures ReferenceColumns(SHIPPED[4]) == [Column("layers_maps", "layer_id"), Column("layers_users", "layer_id"), Column("layers_user_tables", "layer_id"), Column("visualizations", "active_layer_id")]
    ensures ReferenceColumns(SHIPPED[8]) == [Column("user_tables", "map_id"), Column("layers_maps", "map_id"), Column("visualizations", "map_id")]
    ensures ReferenceColumns(SHIPPED[13]) == [Column("data_imports", "table_id"), Column("layers_user_tables", "user_table_id"), Column("tags", "table_id"), Column("geocodings", "table_id")]
    ensures ReferenceColumns(SHIPPED[14]) == [Column("user_tables", "user_id"), Column("maps", "user_id"), Column("layers_users", "user_id"), Column("assets", "user_id"), Column("client_applications", "user_id"), Column("oauth_tokens", "user_id"), Column("tags", "user_id"), Column("data_imports", "user_id"), Column("synchronizations", "user_id"), Column("geocodings", "user_id")]
    ensures forall i :: 0 <= i < |SHIPPED| && i !in {1, 2, 4, 8, 13, 14} ==> ReferenceColumns(SHIPPED[i]) == []
  {
    ColumnsOfUsers();
    ColumnsOfOthers();
  }

  // ----- when the keys of a graph are distinct

  /** Tables are listed once, name each related table once, and refer to the same related table
      through different columns. */
  ghost predicate DistinctGraph(g: seq<TableInfo>) {
    && (forall i, j :: 0 <= i < j < |g| ==> g[i].name != g[j].name)
    && (forall i, a, b :: 0 <= i < |g| && 0 <= a < b < |g[i].related| ==> g[i].related[a] != g[i].related[b])
    && (forall i, j, s :: 0 <= i < j < |g| && s in g[i].related && s in g[j].related ==>
          RelationColumnName(g[i], s) != RelationColumnName(g[j], s))
  }

  ghost predicate Disjoint(a: seq<Key>, b: seq<Key>) {
    forall k, l :: k in a && l in b ==> UuidColumn(k) != UuidColumn(l)
  }

  lemma DistinctAppend(a: seq<Key>, b: seq<Key>)
    requires DistinctKeys(a) && DistinctKeys(b) && Disjoint(a, b)
    ensures DistinctKeys(a + b)
  {
    assert forall k, l :: k in a && l in b && UuidColumn(k) != UuidColumn(l) ==> k != l;
    forall k ensures multiset(a + b)[k] <= 1 {
      assert multiset(a)[k] <= 1 && multiset(b)[k] <= 1;
      assert multiset(a + b)[k] == multiset(a)[k] + multiset(b)[k];
      assert k in a ==> k !in b;
    }
  }

  lemma {:induction false} ListedOnce(ks: seq<Key>)
    requires forall i, j :: 0 <= i < j < |ks| ==> UuidColumn(ks[i]) != UuidColumn(ks[j])
    ensures DistinctKeys(ks)
  {
    if ks != [] {
      assert ks == [ks[0]] + ks[1..];
      ListedOnce(ks[1..]);
      DistinctAppend([ks[0]], ks[1..]);
    }
  }

  function Block(info: TableInfo): seq<Key> {
    [Main(info.name)] + References(info, info.related)
  }

  lemma BlockDistinct(info: TableInfo)
    requires forall a, b :: 0 <= a < b < |info.related| ==> info.related[a] != info.related[b]
    ensures DistinctKeys(Block(info))
  {
    var refs := References(info, info.related);
    ListedOnce(refs);
    ListedOnce([Main(info.name)]);
    forall k, l | k in [Main(info.name)] && l in refs ensures UuidColumn(k) != UuidColumn(l) {
      MainNamesApart(k, l);
    }
    DistinctAppend([Main(info.name)], refs);
  }

  lemma BlocksDisjoint(x: TableInfo, y: TableInfo)
    requires x.name != y.name
    requires forall s :: s in x.related && s in y.related ==> RelationColumnName(x, s) != RelationColumnName(y, s)
    ensures Disjoint(Block(x), Block(y))
  {
    forall k, l | k in Block(x) && l in Block(y) ensures UuidColumn(k) != UuidColumn(l) {
      if k.Main? && l.Reference? {
        MainNamesApart(k, l);
      } else if k.Reference? && l.Main? {
        MainNamesApart(l, k);
      } else if k.Reference? {
        SameSuffix(k.column, l.column, "_uuid");
      }
    }
  }

  lemma {:induction false} BlocksCover(g: seq<TableInfo>)
    ensures forall k :: k in IdsFirst(g) ==> exists i :: 0 <= i < |g| && k in Block(g[i])
  {
    if g != [] {
      BlocksCover(g[1..]);
      assert IdsFirst(g) == Block(g[0]) + IdsFirst(g[1..]);
      forall k | k in IdsFirst(g) ensures exists i :: 0 <= i < |g| && k in Block(g[i]) {
        if k in Block(g[0]) {
        } else {
          var i :| 0 <= i < |g[1..]| && k in Block(g[1..][i]);
          assert g[1..][i] == g[i+1];
        }
      }
    }
  }

  /** A distinct graph has distinct keys. */
  lemma {:induction false} GraphKeysAreDistinct(g: seq<TableInfo>)
    requires DistinctGraph(g)
    ensures DistinctKeys(IdsFirst(g))
  {
    if g != [] {
      var rest := g[1..];
      assert forall i :: 0 <= i < |rest| ==> rest[i] == g[i+1];
      GraphKeysAreDistinct(rest);
      BlockDistinct(g[0]);
      BlocksCover(rest);
      forall k, l | k in Block(g[0]) && l in IdsFirst(rest) ensures UuidColumn(k) != UuidColumn(l) {
        var i :| 0 <= i < |rest| && l in Block(rest[i]);
        BlocksDisjoint(g[0], g[i+1]);
      }
      DistinctAppend(Block(g[0]), IdsFirst(rest));
      assert IdsFirst(g) == Block(g[0]) + IdsFirst(rest);
    }
  }

  // ----- the shipped graph is distinct

  function Rank(s: string): nat {
    if s == "assets" then 0
    else if s == "client_applications" then 1
    else if s == "data_imports" then 2
    else if s == "geocodings" then 3
    else if s == "layers" then 4
    else if s == "layers_maps" then 5
    else if s == "layers_user_tables" then 6
    else if s == "layers_users" then 7
    else if s == "maps" then 8
    else if s == "oauth_nonces" then 9
    else if s == "oauth_tokens" then 10
    else if s == "overlays" then 11
    else if s == "tags" then 12
    else if s == "user_tables" then 13
    else if s == "users" then 14
    else if s == "visualizations" then 15
    else if s == "synchronizations" then 16
    else 17
  }

  /** The place of the table that refers to others through this column. */
  function Owner(s: string): nat {
    if s == "asset" then 0
    else if s == "client_application" then 1
    else if s == "data_import" then 2
    else if s == "geocoding" then 3
    else if s == "layer" then 4
    else if s == "active_layer" then 4
    else if s == "layer_map" then 5
    else if s == "layer_user_table" then 6
    else if s == "layer_user" then 7
    else if s == "map" then 8
    else if s == "oauth_nonce" then 9
    else if s == "oauth_token" then 10
    else if s == "overlay" then 11
    else if s == "tag" then 12
    else if s == "table" then 13
    else if s == "user_table" then 13
    else if s == "user" then 14
    else 15
  }

  lemma SameLengthNames()
    ensures "layers" != "assets" && "layers_users" != "data_imports"
    ensures "oauth_nonces" != "data_imports" && "oauth_nonces" != "layers_users"
    ensures "oauth_tokens" != "data_imports" && "oauth_tokens" != "layers_users" && "oauth_tokens" != "oauth_nonces"
    ensures "user_tables" != "layers_maps" && "tags" != "maps"
  {
    assert "layers"[0] == 'l' && "assets"[0] == 'a';
    assert "layers_users"[0] == 'l' && "data_imports"[0] == 'd' && "oauth_nonces"[0] == 'o' && "oauth_tokens"[0] == 'o';
    assert "oauth_nonces"[6] == 'n' && "oauth_tokens"[6] == 't';
    assert "user_tables"[0] == 'u' && "layers_maps"[0] == 'l';
    assert "tags"[0] == 't' && "maps"[0] == 'm';
  }

  lemma SameLengthColumns()
    ensures "layer" != "asset" && "table" != "asset" && "table" != "layer"
    ensures "oauth_nonce" != "data_import" && "oauth_token" != "data_import" && "oauth_token" != "oauth_nonce"
    ensures "layer_map" != "geocoding" && "user_table" != "layer_user" && "tag" != "map"
  {
    assert "layer"[0] == 'l' && "asset"[0] == 'a' && "table"[0] == 't';
    assert "oauth_nonce"[0] == 'o' && "data_import"[0] == 'd' && "oauth_token"[0] == 'o';
    assert "oauth_nonce"[6] == 'n' && "oauth_token"[6] == 't';
    assert "layer_map"[0] == 'l' && "geocoding"[0] == 'g';
    assert "user_table"[0] == 'u' && "layer_user"[0] == 'l';
    assert "tag"[0] == 't' && "map"[0] == 'm';
  }

  lemma RankAt(i: nat)
    requires i < |SHIPPED|
    ensures Rank(SHIPPED[i].name) == i
  {
    SameLengthNames();
  }

  lemma SingularAt(i: nat)
    requires i < |SHIPPED|
    ensures Owner(SHIPPED[i].singular) == i
  {
    SameLengthColumns();
  }

  lemma OtherColumnAt(i: nat, s: string)
    requires i < |SHIPPED| && s in SHIPPED[i].relationFor
    ensures Owner(SHIPPED[i].relationFor[s]) == i
  {
    SameLengthColumns();
  }

  lemma OwnerAt(i: nat, s: string)
    requires i < |SHIPPED|
    ensures Owner(RelationColumnName(SHIPPED[i], s)) == i
  {
    SingularAt(i);
    if s in SHIPPED[i].relationFor {
      OtherColumnAt(i, s);
    }
  }

  lemma RelatedOnce(i: nat, a: nat, b: nat)
    requires i < |SHIPPED| && a < b < |SHIPPED[i].related|
    ensures SHIPPED[i].related[a] != SHIPPED[i].related[b]
  {
    SameLengthNames();
  }

  lemma ShippedIsDistinct()
    ensures DistinctKeys(IdsFirst(SHIPPED))
  {
    forall i, j | 0 <= i < j < |SHIPPED| ensures SHIPPED[i].name != SHIPPED[j].name {
      RankAt(i);
      RankAt(j);
    }
    forall i, a, b | 0 <= i < |SHIPPED| && 0 <= a < b < |SHIPPED[i].related|
      ensures SHIPPED[i].related[a] != SHIPPED[i].related[b]
    {
      RelatedOnce(i, a, b);
    }
    forall i, j, s | 0 <= i < j < |SHIPPED| && s in SHIPPED[i].related && s in SHIPPED[j].related
      ensures RelationColumnName(SHIPPED[i], s) != RelationColumnName(SHIPPED[j], s)
    {
      OwnerAt(i, s);
      OwnerAt(j, s);
    }
    GraphKeysAreDistinct(SHIPPED);
  }

  /** The script's own migration preserves every join of its graph. */
  lemma ShippedMigrationPreservesJoins(db: Database, gen: string -> seq<Value>, k: Key, i: nat, j: nat)
    requires Ready(db, SHIPPED, gen) && k in IdsFirst(SHIPPED) && k.Reference?
    ensures var r := Clean(Meta(Schema(db, SHIPPED, gen), SHIPPED), SHIPPED);
      Joins(r, IdColumn(k), i, Column(k.parent, "id"), j) <==> Joins(db, IdColumn(k), i, Column(k.parent, "id"), j)
  {
    ShippedIsDistinct();
    MigrationPreservesJoins(db, SHIPPED, gen, k, i, j);
  }

  lemma ReferenceColumnIsKey(g: seq<TableInfo>, n: nat, m: nat) returns (k: Key)
    requires n < |g| && m < |g[n].related|
    ensures k in IdsFirst(g) && k.Reference? && k.parent == g[n].name && IdColumn(k) == ReferenceColumns(g[n])[m]
  {
    k := ReferenceHasItsKey(g, g[n], g[n].related[m]);
    ReferencesRefer(g[n]);
    assert References(g[n], g[n].related)[m] in References(g[n], g[n].related);
  }

  /** Table by table: what referred to a row through one of the columns above still does. */
  lemma EveryReferenceStillJoins(db: Database, gen: string -> seq<Value>, n: nat, m: nat, i: nat, j: nat)
    requires Ready(db, SHIPPED, gen) && n < |SHIPPED| && m < |SHIPPED[n].related|
    ensures var r := Clean(Meta(Schema(db, SHIPPED, gen), SHIPPED), SHIPPED);
      var column := ReferenceColumns(SHIPPED[n])[m];
      Joins(r, column, i, Column(SHIPPED[n].name, "id"), j) <==> Joins(db, column, i, Column(SHIPPED[n].name, "id"), j)
  {
    var k := ReferenceColumnIsKey(SHIPPED, n, m);
    ShippedMigrationPreservesJoins(db, gen, k, i, j);
  }

  // ----- the hypotheses can be met

  /** A database over the graph with one row in every table, where every reference names row 1. */
  ghost function OneRowEach(g: seq<TableInfo>): Database {
    var tables := set k | k in IdsFirst(g) :: k.table;
    var columns := set k | k in IdsFirst(g) :: IdColumn(k);
    Database(map t | t in tables :: 1, map c | c in columns :: [Number(1)], {})
  }

  lemma OneRowEachHolds(g: seq<TableInfo>, k: Key)
    requires k in IdsFirst(g)
    ensures OneRow(OneRowEach(g), k)
  {
    var db := OneRowEach(g);
    forall l | l in IdsFirst(g) ensures UuidColumn(k) != IdColumn(l) {
      NamesDoNotClash(l, k);
    }
  }

  lemma OneRowEachIsWellFormed(g: seq<TableInfo>)
    ensures WellFormed(OneRowEach(g))
  {
    var db := OneRowEach(g);
    forall c | c in db.cols ensures c.table in db.rows && |db.cols[c]| == db.rows[c.table] {
      var k :| k in IdsFirst(g) && IdColumn(k) == c;
      OneRowEachHolds(g, k);
    }
  }

  ghost predicate OneRow(db: Database, k: Key) {
    && k.table in db.rows && db.rows[k.table] == 1
    && IdColumn(k) in db.cols && db.cols[IdColumn(k)] == [Number(1)]
    && UuidColumn(k) !in db.cols
  }

  function SameUuid(table: string): seq<Value> {
    [Uuid(1)]
  }

  lemma OneRowIsReady(db: Database, g: seq<TableInfo>)
    requires WellFormed(db) && forall k :: k in IdsFirst(g) ==> OneRow(db, k)
    ensures Ready(db, g, SameUuid)
  {
  }

  lemma OneRowJoins(db: Database, k: Key)
    requires k.Reference? && OneRow(db, k) && OneRow(db, Main(k.parent))
    ensures Joins(db, IdColumn(k), 0, Column(k.parent, "id"), 0)
  {
    assert IdColumn(Main(k.parent)) == Column(k.parent, "id");
  }

  /** So there are databases to migrate, and joins in them to preserve. */
  lemma OneRowEachIsReady(g: seq<TableInfo>)
    ensures Ready(OneRowEach(g), g, SameUuid)
    ensures forall k :: k in IdsFirst(g) && k.Reference? ==> Joins(OneRowEach(g), IdColumn(k), 0, Column(k.parent, "id"), 0)
  {
    var db := OneRowEach(g);
    OneRowEachIsWellFormed(g);
    forall k | k in IdsFirst(g) ensures OneRow(db, k) {
      OneRowEachHolds(g, k);
    }
    OneRowIsReady(db, g);
    ParentIsListed(g);
    forall k | k in IdsFirst(g) && k.Reference?
      ensures Joins(db, IdColumn(k), 0, Column(k.parent, "id"), 0)
    {
      OneRowJoins(db, k);
    }
  }
}
