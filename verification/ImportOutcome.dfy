/** When a registration returns, told from the tables and the failing statements alone; where support
    tables end up; and what a failed registration cleans up. */
module ImportOutcome {
  import opened Wrappers
  import opened ImportSwap

  // ----- renaming and moving support tables, on tables alone

  /** The tables after the renames, if each finds its table and a free name. */
  function RenamePlan(ts: Tables, schema: string, items: seq<string>, old_: string, new_: string): Option<Tables>
    decreases |items|
  {
    if items == [] then Some(ts)
    else
      match Moved(ts, Name(schema, items[0]), Name(schema, SupportName(items[0], old_, new_)))
      case None => None
      case Some(us) => RenamePlan(us, schema, items[1..], old_, new_)
  }

  function MovePlan(ts: Tables, items: seq<string>, origin: string, destination: string): Option<Tables>
    decreases |items|
  {
    if items == [] then Some(ts)
    else
      match Moved(ts, Name(origin, items[0]), Name(destination, items[0]))
      case None => None
      case Some(us) => MovePlan(us, items[1..], origin, destination)
  }

  /** A support table is called something that ends in its parent's name, and that ending changes. */
  lemma SupportNameChangesEnding(prefix: string, old_: string, new_: string)
    ensures SupportName(prefix + old_, old_, new_) == prefix + new_
  {
    assert (prefix + old_)[..|prefix + old_| - |old_|] == prefix;
  }

  /** `us` is `ts` with the tables `a[i]` now called `b[i]`, and nothing else changed. */
  ghost predicate Renames(ts: Tables, us: Tables, a: seq<Name>, b: seq<Name>)
    requires |a| == |b|
  {
    && (forall i :: 0 <= i < |a| ==> a[i] in ts && b[i] in us && us[b[i]] == ts[a[i]])
    && (forall n :: n !in a && n !in b ==> (n in us <==> n in ts) && (n in ts ==> us[n] == ts[n]))
    && (forall n :: n in a && n !in b ==> n !in us)
  }

  ghost predicate AllThere(ts: Tables, names: seq<Name>) {
    forall i :: 0 <= i < |names| ==> names[i] in ts
  }

  ghost predicate NoneThere(ts: Tables, names: seq<Name>) {
    forall i :: 0 <= i < |names| ==> names[i] !in ts
  }

  ghost predicate Unlike(names: seq<Name>) {
    forall i, j :: 0 <= i < j < |names| ==> names[i] != names[j]
  }

  /** One after the other, for any names. */
  function MoveEach(ts: Tables, a: seq<Name>, b: seq<Name>): Option<Tables>
    requires |a| == |b|
    decreases |a|
  {
    if a == [] then Some(ts)
    else
      match Moved(ts, a[0], b[0])
      case None => None
      case Some(us) => MoveEach(us, a[1..], b[1..])
  }

  lemma InHeadOrTail(a: seq<Name>, n: Name)
    requires a != []
    ensures n in a <==> n == a[0] || n in a[1..]
  {
    assert a == [a[0]] + a[1..];
  }

  lemma HeadMoves(ts: Tables, m: Tables, us: Tables, a: seq<Name>, b: seq<Name>)
    requires |a| == |b| > 0 && Moved(ts, a[0], b[0]) == Some(m) && Renames(m, us, a[1..], b[1..])
    requires b[0] !in a[1..] && b[0] !in b[1..] && a[0] !in a[1..]
    ensures forall i :: 0 <= i < |a| ==> a[i] in ts && b[i] in us && us[b[i]] == ts[a[i]]
  {
    forall i | 0 <= i < |a| ensures a[i] in ts && b[i] in us && us[b[i]] == ts[a[i]] {
      if i > 0 {
        assert a[1..][i-1] == a[i] && b[1..][i-1] == b[i];
        assert a[i] in a[1..];
      }
    }
  }

  lemma MoveEachStep(ts: Tables, m: Tables, us: Tables, a: seq<Name>, b: seq<Name>)
    requires |a| == |b| > 0 && Unlike(a + b) && Moved(ts, a[0], b[0]) == Some(m)
    requires Renames(m, us, a[1..], b[1..])
    ensures Renames(ts, us, a, b)
  {
    HeadApart(a, b);
    HeadMoves(ts, m, us, a, b);
    forall n | n !in a && n !in b ensures (n in us <==> n in ts) && (n in ts ==> us[n] == ts[n]) {
      InHeadOrTail(a, n);
      InHeadOrTail(b, n);
    }
    forall n | n in a && n !in b ensures n !in us {
      InHeadOrTail(a, n);
      InHeadOrTail(b, n);
    }
  }

  lemma HeadApart(a: seq<Name>, b: seq<Name>)
    requires |a| == |b| > 0 && Unlike(a + b)
    ensures Unlike(a[1..] + b[1..]) && a[0] != b[0]
    ensures a[0] !in a[1..] && a[0] !in b[1..] && b[0] !in a[1..] && b[0] !in b[1..]
  {
    var ab, n := a + b, |a|;
    assert ab[0] == a[0] && ab[n] == b[0];
    forall i | 0 <= i < |a[1..]| ensures a[0] != a[1..][i] && b[0] != a[1..][i] {
      assert ab[i+1] == a[1..][i];
    }
    forall i | 0 <= i < |b[1..]| ensures a[0] != b[1..][i] && b[0] != b[1..][i] {
      assert ab[n+i+1] == b[1..][i];
    }
    var rest := a[1..] + b[1..];
    forall i, j | 0 <= i < j < |rest| ensures rest[i] != rest[j] {
      assert rest[i] == ab[if i < n - 1 then i + 1 else i + 2];
      assert rest[j] == ab[if j < n - 1 then j + 1 else j + 2];
    }
  }

  /** With unlike names the moves go through exactly when the tables are there and the new names are
      free, and then each table is under its new name with its contents. */
  lemma {:induction false} MoveEachIff(ts: Tables, a: seq<Name>, b: seq<Name>)
    requires |a| == |b| && Unlike(a + b)
    ensures MoveEach(ts, a, b).Some? <==> AllThere(ts, a) && NoneThere(ts, b)
    ensures MoveEach(ts, a, b).Some? ==> Renames(ts, MoveEach(ts, a, b).value, a, b)
    decreases |a|
  {
    if a != [] {
      HeadApart(a, b);
      match Moved(ts, a[0], b[0])
      case None =>
      case Some(m) =>
        MoveEachIff(m, a[1..], b[1..]);
        ThereAfterHead(ts, m, a, b);
        if MoveEach(m, a[1..], b[1..]).Some? {
          MoveEachStep(ts, m, MoveEach(m, a[1..], b[1..]).value, a, b);
        }
    }
  }

  lemma ThereAfterHead(ts: Tables, m: Tables, a: seq<Name>, b: seq<Name>)
    requires |a| == |b| > 0 && Unlike(a + b) && Moved(ts, a[0], b[0]) == Some(m)
    ensures AllThere(m, a[1..]) && NoneThere(m, b[1..]) <==> AllThere(ts, a) && NoneThere(ts, b)
  {
    HeadApart(a, b);
    assert forall n :: n != a[0] && n != b[0] ==> (n in m <==> n in ts);
    forall i | 0 <= i < |a[1..]| ensures a[1..][i] in m <==> a[i+1] in ts {
      assert a[1..][i] in a[1..];
    }
    forall i | 0 <= i < |b[1..]| ensures b[1..][i] in m <==> b[i+1] in ts {
      assert b[1..][i] in b[1..];
    }
    if AllThere(m, a[1..]) && NoneThere(m, b[1..]) {
      forall i | 0 <= i < |a| ensures a[i] in ts && b[i] !in ts {
        if i > 0 {
          assert a[1..][i-1] in m && b[1..][i-1] !in m;
        }
      }
    }
  }

  function In(schema: string, items: seq<string>): seq<Name> {
    seq(|items|, i requires 0 <= i < |items| => Name(schema, items[i]))
  }

  lemma {:induction false} RenamePlanIsMoves(ts: Tables, schema: string, items: seq<string>, old_: string, new_: string)
    ensures RenamePlan(ts, schema, items, old_, new_) == MoveEach(ts, In(schema, items), In(schema, RenamedSupport(items, old_, new_)))
    decreases |items|
  {
    if items != [] {
      var a, b := In(schema, items), In(schema, RenamedSupport(items, old_, new_));
      assert a[1..] == In(schema, items[1..]);
      assert b[1..] == In(schema, RenamedSupport(items[1..], old_, new_));
      match Moved(ts, a[0], b[0])
      case None =>
      case Some(us) => RenamePlanIsMoves(us, schema, items[1..], old_, new_);
    }
  }

  lemma {:induction false} MovePlanIsMoves(ts: Tables, items: seq<string>, origin: string, destination: string)
    ensures MovePlan(ts, items, origin, destination) == MoveEach(ts, In(origin, items), In(destination, items))
    decreases |items|
  {
    if items != [] {
      var a, b := In(origin, items), In(destination, items);
      assert a[1..] == In(origin, items[1..]) && b[1..] == In(destination, items[1..]);
      match Moved(ts, a[0], b[0])
      case None =>
      case Some(us) => MovePlanIsMoves(us, items[1..], origin, destination);
    }
  }

  // ----- statements do what the plans say

  lemma NoFaultSplits(f: Faults, first: nat, m: nat, n: nat)
    ensures NoFault(f, first, m + n) <==> NoFault(f, first, m) && NoFault(f, first + m, n)
  {
    if NoFault(f, first, m) && NoFault(f, first + m, n) {
      forall k: nat | first <= k < first + (m + n) ensures !f(k) {
        assert k < first + m || first + m <= k < first + m + n;
      }
    }
  }

  lemma OneFault(f: Faults, k: nat)
    ensures NoFault(f, k, 1) <==> !f(k)
  {
  }

  lemma {:induction false} RenameSupportIff(f: Faults, c: Conn, schema: string, items: seq<string>, old_: string, new_: string)
    requires !c.aborted
    ensures var d, plan := RenameSupport(f, c, schema, items, old_, new_), RenamePlan(c.tables, schema, items, old_, new_);
      && (d.ok <==> plan.Some? && NoFault(f, c.executed, |items|))
      && (d.ok ==> d.conn == c.(tables := plan.value, executed := c.executed + |items|))
    decreases |items|
  {
    if items != [] {
      var o := Execute(f, c, RenameTable(Name(schema, items[0]), SupportName(items[0], old_, new_)));
      NoFaultSplits(f, c.executed, 1, |items| - 1);
      OneFault(f, c.executed);
      if o.ok {
        RenameSupportIff(f, o.conn, schema, items[1..], old_, new_);
      }
    }
  }

  lemma {:induction false} MoveSupportIff(f: Faults, c: Conn, items: seq<string>, origin: string, destination: string)
    requires !c.aborted
    ensures var d, plan := MoveSupport(f, c, items, origin, destination), MovePlan(c.tables, items, origin, destination);
      && (d.ok <==> plan.Some? && NoFault(f, c.executed, 2 * |items|))
      && (d.ok ==> d.conn == c.(tables := plan.value, executed := c.executed + 2 * |items|))
    decreases |items|
  {
    if items != [] {
      var o := Execute(f, c, SetSchema(Name(origin, items[0]), destination));
      NoFaultSplits(f, c.executed, 1, 2 * |items| - 1);
      NoFaultSplits(f, c.executed + 1, 1, 2 * |items| - 2);
      OneFault(f, c.executed);
      OneFault(f, c.executed + 1);
      if o.ok {
        var p := Execute(f, o.conn, Other);
        if p.ok {
          MoveSupportIff(f, p.conn, items[1..], origin, destination);
        }
      }
    }
  }

  // ----- a new table

  function Then(ts: Option<Tables>, a: Name, b: Name): Option<Tables> {
    if ts.Some? then Moved(ts.value, a, b) else None
  }

  /** What `new_register` makes of the tables when no statement faults: the table and its support
      tables get their names in the origin schema, and then move. */
  function RenamedInOrigin(ts: Tables, r: Imported, name: string): Option<Tables> {
    var t := Moved(ts, Name(ORIGIN_SCHEMA, r.table), Name(ORIGIN_SCHEMA, name));
    if t.Some? then RenamePlan(t.value, ORIGIN_SCHEMA, r.support, r.table, name) else None
  }

  function PlacePlan(ts: Tables, r: Imported, name: string, destination: string): Option<Tables> {
    var t := Then(RenamedInOrigin(ts, r, name), Name(ORIGIN_SCHEMA, name), Name(destination, name));
    if t.Some? then MovePlan(t.value, RenamedSupport(r.support, r.table, name), ORIGIN_SCHEMA, destination) else None
  }

  /** Table, index, support tables. */
  lemma RenameIff(f: Faults, c: Conn, r: Imported, name: string)
    requires c.saved.Some? && !c.aborted
    ensures var d, plan := Rename(f, c, r.support, r.table, name, ORIGIN_SCHEMA), RenamedInOrigin(c.tables, r, name);
      && (d.ok && !d.conn.aborted <==> plan.Some? && NoFault(f, c.executed, 2 + |r.support|))
      && (d.ok && !d.conn.aborted ==> d.conn == c.(tables := plan.value, executed := c.executed + 2 + |r.support|))
  {
    var o := Execute(f, c, RenameTable(Name(ORIGIN_SCHEMA, r.table), name));
    NoFaultSplits(f, c.executed, 1, 1 + |r.support|);
    NoFaultSplits(f, c.executed + 1, 1, |r.support|);
    OneFault(f, c.executed);
    OneFault(f, c.executed + 1);
    RenameInTransaction(f, c, r.support, r.table, name, ORIGIN_SCHEMA);
    if o.ok {
      var i := Execute(f, o.conn, Other);
      if i.ok {
        RenameSupportIff(f, i.conn, ORIGIN_SCHEMA, r.support, r.table, name);
      } else {
        AbortedStays(f, i.conn, ORIGIN_SCHEMA, r.support, r.table, name);
      }
    }
  }

  lemma AbortedStays(f: Faults, c: Conn, schema: string, items: seq<string>, old_: string, new_: string)
    requires c.aborted
    ensures RenameSupport(f, c, schema, items, old_, new_).conn.aborted
  {
    RenameSupportInTransaction(f, c, schema, items, old_, new_);
  }

  lemma MoveIff(f: Faults, c: Conn, support: seq<string>, table: string, origin: string, destination: string)
    requires !c.aborted && origin != destination
    ensures var d := MoveToSchema(f, c, support, table, origin, destination);
      var t := Moved(c.tables, Name(origin, table), Name(destination, table));
      var plan := if t.Some? then MovePlan(t.value, support, origin, destination) else None;
      && (d.ok <==> plan.Some? && NoFault(f, c.executed, 1 + 2 * |support|))
      && (d.ok ==> d.conn == c.(tables := plan.value, executed := c.executed + 1 + 2 * |support|))
  {
    var o := Execute(f, c, SetSchema(Name(origin, table), destination));
    NoFaultSplits(f, c.executed, 1, 2 * |support|);
    OneFault(f, c.executed);
    if o.ok {
      MoveSupportIff(f, o.conn, support, origin, destination);
    }
  }

  /** `new_register` returns exactly when its plan goes through and none of its statements faults: two
      for the table and its index, three for every support table and one for the move. */
  lemma NewRegisterReturnsIff(f: Faults, c: Conn, r: Imported, name: string, destination: string)
    requires Idle(c) && destination != ORIGIN_SCHEMA
    ensures var d, plan := NewRegister(f, c, r, name, destination), PlacePlan(c.tables, r, name, destination);
      && (d.ok <==> plan.Some? && NoFault(f, c.executed, 3 + 3 * |r.support|))
      && (d.ok ==> d.conn == c.(tables := plan.value, executed := c.executed + 3 + 3 * |r.support|))
  {
    var b := Begin(c);
    var n := Rename(f, b, r.support, r.table, name, ORIGIN_SCHEMA);
    var support := RenamedSupport(r.support, r.table, name);
    RenameIff(f, b, r, name);
    RenameInTransaction(f, b, r.support, r.table, name, ORIGIN_SCHEMA);
    NoFaultSplits(f, c.executed, 2 + |r.support|, 1 + 2 * |support|);
    if n.ok {
      if n.conn.aborted {
        MoveInTransaction(f, n.conn, support, name, ORIGIN_SCHEMA, destination);
      } else {
        MoveIff(f, n.conn, support, name, ORIGIN_SCHEMA, destination);
        MoveInTransaction(f, n.conn, support, name, ORIGIN_SCHEMA, destination);
      }
    }
  }

  /** For an import without support tables: the table is there, its name is free in both schemas, and
      the three statements work. */
  lemma PlainRegisterReturnsIff(f: Faults, c: Conn, r: Imported, name: string, destination: string)
    requires Idle(c) && destination != ORIGIN_SCHEMA && r.support == []
    ensures NewRegister(f, c, r, name, destination).ok <==>
      && Name(ORIGIN_SCHEMA, r.table) in c.tables
      && Name(ORIGIN_SCHEMA, name) !in c.tables && Name(destination, name) !in c.tables
      && !f(c.executed) && !f(c.executed + 1) && !f(c.executed + 2)
  {
    NewRegisterReturnsIff(f, c, r, name, destination);
    assert RenamedSupport(r.support, r.table, name) == [];
    assert NoFault(f, c.executed, 3) <==> !f(c.executed) && !f(c.executed + 1) && !f(c.executed + 2) by {
      if !f(c.executed) && !f(c.executed + 1) && !f(c.executed + 2) {
        forall k: nat | c.executed <= k < c.executed + 3 ensures !f(k) {
          assert k == c.executed || k == c.executed + 1 || k == c.executed + 2;
        }
      }
    }
  }

  /** The old and new names of the import's tables in the origin schema, and those at the
      destination. */
  function Olds(r: Imported): seq<Name> {
    In(ORIGIN_SCHEMA, [r.table] + r.support)
  }

  function News(r: Imported, name: string, schema: string): seq<Name> {
    In(schema, [name] + RenamedSupport(r.support, r.table, name))
  }

  lemma {:induction false} MoveEachHead(ts: Tables, a: seq<Name>, b: seq<Name>)
    requires |a| == |b| > 0
    ensures MoveEach(ts, a, b) == var t := Moved(ts, a[0], b[0]); if t.Some? then MoveEach(t.value, a[1..], b[1..]) else None
  {
  }

  lemma PlacePlanIsMoves(ts: Tables, r: Imported, name: string, destination: string)
    ensures var m := MoveEach(ts, Olds(r), News(r, name, ORIGIN_SCHEMA));
      PlacePlan(ts, r, name, destination) ==
        if m.Some? then MoveEach(m.value, News(r, name, ORIGIN_SCHEMA), News(r, name, destination)) else None
  {
    var olds, mids, news := Olds(r), News(r, name, ORIGIN_SCHEMA), News(r, name, destination);
    var support := RenamedSupport(r.support, r.table, name);
    assert olds[1..] == In(ORIGIN_SCHEMA, r.support);
    assert mids[1..] == In(ORIGIN_SCHEMA, support) && news[1..] == In(destination, support);
    MoveEachHead(ts, olds, mids);
    var t := Moved(ts, olds[0], mids[0]);
    if t.Some? {
      RenamePlanIsMoves(t.value, ORIGIN_SCHEMA, r.support, r.table, name);
    }
    var m := RenamedInOrigin(ts, r, name);
    assert m == MoveEach(ts, olds, mids);
    if m.Some? {
      MoveEachHead(m.value, mids, news);
      var u := Moved(m.value, mids[0], news[0]);
      if u.Some? {
        MovePlanIsMoves(u.value, support, ORIGIN_SCHEMA, destination);
      }
    }
  }

  /** For an import whose table and support tables have unlike old and new names: `new_register`
      returns exactly when all of them are there, all new names are free in both schemas, and no
      statement faults; and then each of them is at the destination with its contents. */
  lemma UnlikeRegisterReturnsIff(f: Faults, c: Conn, r: Imported, name: string, destination: string)
    requires Idle(c) && destination != ORIGIN_SCHEMA && Unlike(Olds(r) + News(r, name, ORIGIN_SCHEMA))
    ensures var d, olds, news := NewRegister(f, c, r, name, destination), Olds(r), News(r, name, destination);
      && (d.ok <==>
            && AllThere(c.tables, olds) && NoneThere(c.tables, News(r, name, ORIGIN_SCHEMA)) && NoneThere(c.tables, news)
            && NoFault(f, c.executed, 3 + 3 * |r.support|))
      && (d.ok ==> forall i :: 0 <= i < |olds| ==> news[i] in d.conn.tables && olds[i] in c.tables && d.conn.tables[news[i]] == c.tables[olds[i]])
  {
    var olds, mids, news := Olds(r), News(r, name, ORIGIN_SCHEMA), News(r, name, destination);
    NewRegisterReturnsIff(f, c, r, name, destination);
    PlacePlanIsMoves(c.tables, r, name, destination);
    MoveEachIff(c.tables, olds, mids);
    UnlikeAcross(olds, mids, [name] + RenamedSupport(r.support, r.table, name), destination);
    var m := MoveEach(c.tables, olds, mids);
    if m.Some? {
      MoveEachIff(m.value, mids, news);
      ThereAfterRenames(c.tables, m.value, olds, mids, news);
    }
  }

  lemma UnlikeAcross(olds: seq<Name>, mids: seq<Name>, items: seq<string>, destination: string)
    requires Unlike(olds + mids) && mids == In(ORIGIN_SCHEMA, items) && destination != ORIGIN_SCHEMA
    ensures Unlike(mids + In(destination, items))
  {
    var news := In(destination, items);
    var all, n := mids + news, |mids|;
    forall i, j | 0 <= i < j < |mids| ensures mids[i] != mids[j] {
      assert (olds + mids)[|olds| + i] == mids[i] && (olds + mids)[|olds| + j] == mids[j];
    }
    forall i, j | 0 <= i < j < |all| ensures all[i] != all[j] {
      if i < n && j >= n {
        assert all[i].schema == ORIGIN_SCHEMA && all[j].schema == destination;
      } else if i >= n {
        assert all[i].table == mids[i-n].table && all[j].table == mids[j-n].table && mids[i-n] != mids[j-n];
      }
    }
  }

  lemma ThereAfterRenames(ts: Tables, us: Tables, olds: seq<Name>, mids: seq<Name>, news: seq<Name>)
    requires |olds| == |mids| && Renames(ts, us, olds, mids)
    requires forall n :: n in news ==> n !in olds && n !in mids
    ensures AllThere(us, mids) && (NoneThere(us, news) <==> NoneThere(ts, news))
  {
    assert forall i :: 0 <= i < |news| ==> news[i] in news;
    assert forall i :: 0 <= i < |news| ==> (news[i] in us <==> news[i] in ts);
  }

  // ----- an overwrite

  /** The tables once the old target is dropped and the import has its name. */
  function TargetTaken(ts: Tables, r: Imported, name: string, destination: string): Option<Tables> {
    var target, temp := Name(destination, name), Name(destination, r.table);
    if target in ts then Moved(ts - {target}, temp, target) else None
  }

  /** What follows the index rename: it may fail silently when there is nothing. */
  predicate SupportFollows(f: Faults, first: nat, t: Option<Tables>, r: Imported, name: string, destination: string) {
    t.Some? && (r.support != [] ==> !f(first) && RenamePlan(t.value, destination, r.support, r.table, name).Some?)
  }

  lemma SwapIff(f: Faults, c: Conn, r: Imported, name: string, destination: string)
    requires c.saved.Some? && !c.aborted && r.table != name
    ensures var t := TargetTaken(c.tables, r, name, destination);
      Swap(f, c, r, name, destination).ok <==>
        NoFault(f, c.executed, 3) && SupportFollows(f, c.executed + 3, t, r, name, destination)
        && NoFault(f, c.executed + 4, |r.support|)
  {
    var target, temp := Name(destination, name), Name(destination, r.table);
    var d := Drop(f, c, target);
    ThreeFaults(f, c.executed);
    InTransaction(f, c, target);
    var o := Execute(f, d, RenameTable(temp, name));
    if o.ok {
      assert o.conn.tables == TargetTaken(c.tables, r, name, destination).value;
      var i := Execute(f, o.conn, Other);
      if i.ok {
        RenameSupportIff(f, i.conn, destination, r.support, r.table, name);
      } else {
        AbortedRenamesNothing(f, i.conn, destination, r.support, r.table, name);
      }
    }
  }

  lemma ThreeFaults(f: Faults, k: nat)
    ensures NoFault(f, k, 3) <==> !f(k) && !f(k + 1) && !f(k + 2)
  {
    if !f(k) && !f(k + 1) && !f(k + 2) {
      forall n: nat | k <= n < k + 3 ensures !f(n) {
        assert n == k || n == k + 1 || n == k + 2;
      }
    }
  }

  lemma AbortedRenamesNothing(f: Faults, c: Conn, schema: string, items: seq<string>, old_: string, new_: string)
    requires c.aborted
    ensures RenameSupport(f, c, schema, items, old_, new_).ok <==> items == []
  {
  }

  /** No step of an overwrite's block raises exactly when the old and the imported table are there,
      the four statements before the index rename work and, when there are support tables, the index
      rename works too and they find their new names free. */
  lemma BlockEndsIff(f: Faults, c: Conn, r: Imported, name: string, destination: string)
    requires Idle(c) && r.table != name
    ensures BlockEnds(f, c, r, name, destination) <==>
      && Name(destination, name) in c.tables && Name(destination, r.table) in c.tables
      && NoFault(f, c.executed, 4)
      && SupportFollows(f, c.executed + 4, TargetTaken(c.tables, r, name, destination), r, name, destination)
      && NoFault(f, c.executed + 5, |r.support|)
  {
    var g := Execute(f, c, Other);
    NoFaultSplits(f, c.executed, 1, 3);
    OneFault(f, c.executed);
    if g.ok {
      SwapIff(f, Begin(g.conn), r, name, destination);
    }
  }

  lemma SwapTables(f: Faults, c: Conn, r: Imported, name: string, destination: string)
    requires c.saved.Some? && !c.aborted && r.table != name
    ensures var s, t := Swap(f, c, r, name, destination), TargetTaken(c.tables, r, name, destination);
      s.ok && !s.conn.aborted ==>
        t.Some? && RenamePlan(t.value, destination, r.support, r.table, name) == Some(s.conn.tables)
  {
    var target, temp := Name(destination, name), Name(destination, r.table);
    var d := Drop(f, c, target);
    InTransaction(f, c, target);
    var o := Execute(f, d, RenameTable(temp, name));
    if o.ok {
      assert o.conn.tables == TargetTaken(c.tables, r, name, destination).value;
      var i := Execute(f, o.conn, Other);
      if i.ok {
        RenameSupportIff(f, i.conn, destination, r.support, r.table, name);
      } else {
        AbortedStays(f, i.conn, destination, r.support, r.table, name);
      }
    }
  }

  /** After an overwrite that takes effect the import has the target's name, and the support tables
      have theirs in turn; `MoveEachIff` says where that is. */
  lemma OverwrittenTables(f: Faults, c: Conn, r: Imported, name: string, destination: string)
    requires Idle(c) && r.table != name && BlockEnds(f, c, r, name, destination) && !SilentFailure(f, c, r)
    ensures var us, t := OverwriteRegister(f, c, r, name, destination).conn.tables, TargetTaken(c.tables, r, name, destination);
      t.Some? && RenamePlan(t.value, destination, r.support, r.table, name) == Some(us)
  {
    var g := Execute(f, c, Other);
    var b := Begin(g.conn);
    SwapOutcome(f, b, r, name, destination);
    SwapTables(f, b, r, name, destination);
    AfterOutcome(f, Commit(Swap(f, b, r, name, destination).conn), FINISHING_STEPS);
  }

  /** An overwriting registration reaches a COMMIT exactly when the schemas are compatible, the import
      and its support tables can move next to the target, and the block ends there. */
  lemma ReachesCommitIff(f: Faults, c: Conn, job: Job, destination: string)
    requires Idle(c) && destination != ORIGIN_SCHEMA
    ensures var r := job.imported;
      var t := Moved(c.tables, Name(ORIGIN_SCHEMA, r.table), Name(destination, r.table));
      var plan := if t.Some? then MovePlan(t.value, r.support, ORIGIN_SCHEMA, destination) else None;
      ReachesCommit(f, c, job, destination) <==>
        && job.compatible && plan.Some? && NoFault(f, c.executed, 1 + 2 * |r.support|)
        && BlockEnds(f, c.(tables := plan.value, executed := c.executed + 1 + 2 * |r.support|), r, job.name, destination)
  {
    MoveIff(f, c, job.imported.support, job.imported.table, ORIGIN_SCHEMA, destination);
  }

  // ----- a whole registration

  /** A registration that overwrites nothing returns exactly when the table can be placed and neither
      the statements for that nor the metadata fault. */
  lemma NewTableReturnsIff(f: Faults, c: Conn, job: Job, overwriteStrategy: bool, destination: string)
    requires Idle(c) && destination != ORIGIN_SCHEMA && !Overwrites(c, job, overwriteStrategy, destination)
    ensures Register(f, c, job, overwriteStrategy, destination).ok <==>
      && PlacePlan(c.tables, job.imported, job.name, destination).Some?
      && NoFault(f, c.executed, 4 + 3 * |job.imported.support|)
  {
    NewRegisterReturnsIff(f, c, job.imported, job.name, destination);
    var p := PutInPlace(f, c, job, false, destination);
    NoFaultSplits(f, c.executed, 3 + 3 * |job.imported.support|, 1);
    if p.ok {
      AfterOutcome(f, p.conn, 1);
    }
  }

  /** An ordinary import, without support tables, told from its inputs. */
  lemma PlainTableReturnsIff(f: Faults, c: Conn, job: Job, overwriteStrategy: bool, destination: string)
    requires Idle(c) && destination != ORIGIN_SCHEMA && !Overwrites(c, job, overwriteStrategy, destination)
    requires job.imported.support == []
    ensures Register(f, c, job, overwriteStrategy, destination).ok <==>
      && Name(ORIGIN_SCHEMA, job.imported.table) in c.tables
      && Name(ORIGIN_SCHEMA, job.name) !in c.tables && Name(destination, job.name) !in c.tables
      && NoFault(f, c.executed, 4)
  {
    NewTableReturnsIff(f, c, job, overwriteStrategy, destination);
    NewRegisterReturnsIff(f, c, job.imported, job.name, destination);
    assert RenamedSupport(job.imported.support, job.imported.table, job.name) == [];
  }

  /** A table that is still there after a drop is there because the last statement sent faulted. */
  lemma DropLeavesOnFault(f: Faults, c: Conn, n: Name)
    requires Idle(c)
    ensures var d := Drop(f, c, n); n in d.tables ==> d.executed > 0 && f(d.executed - 1)
  {
  }

  /** The registration up to its rescues. */
  function Tried(f: Faults, c: Conn, job: Job, overwriteStrategy: bool, destination: string): Done {
    var p := PutInPlace(f, c, job, Overwrites(c, job, overwriteStrategy, destination), destination);
    if p.ok then After(f, p.conn, 1) else p
  }

  lemma TriedIsIdle(f: Faults, c: Conn, job: Job, overwriteStrategy: bool, destination: string)
    requires Idle(c) && destination != ORIGIN_SCHEMA
    requires Overwrites(c, job, overwriteStrategy, destination) ==> job.compatible
    ensures Idle(Tried(f, c, job, overwriteStrategy, destination).conn)
  {
    if Overwrites(c, job, overwriteStrategy, destination) {
      OverwriteReturnsIff(f, c, job, destination);
    } else {
      NewRegisterIsAllOrNothing(f, c, job.imported, job.name, destination);
    }
    AfterOutcome(f, PutInPlace(f, c, job, Overwrites(c, job, overwriteStrategy, destination), destination).conn, 1);
  }

  /** A failed registration cleans up: incompatible schemas and statement timeouts leave no table in
      the origin schema, unless the drop itself faults. */
  lemma FailureCleansUp(f: Faults, c: Conn, job: Job, overwriteStrategy: bool, destination: string)
    requires Idle(c) && destination != ORIGIN_SCHEMA
    ensures var d := Register(f, c, job, overwriteStrategy, destination);
      (Overwrites(c, job, overwriteStrategy, destination) && !job.compatible ==> !d.ok)
      && (!d.ok && (job.timeout || (Overwrites(c, job, overwriteStrategy, destination) && !job.compatible)) ==>
            Name(ORIGIN_SCHEMA, job.imported.table) in d.conn.tables ==> d.conn.executed > 0 && f(d.conn.executed - 1))
  {
    var origin, overwrite := Name(ORIGIN_SCHEMA, job.imported.table), Overwrites(c, job, overwriteStrategy, destination);
    if overwrite && !job.compatible {
      DropLeavesOnFault(f, c, origin);
    } else {
      TriedIsIdle(f, c, job, overwriteStrategy, destination);
      DropLeavesOnFault(f, Tried(f, c, job, overwriteStrategy, destination).conn, origin);
    }
  }

  /** So does a move that fails outside a transaction. */
  lemma FailedMoveCleansUp(f: Faults, c: Conn, support: seq<string>, table: string, origin: string, destination: string)
    requires Idle(c) && origin != destination && !MoveToSchema(f, c, support, table, origin, destination).ok
    ensures var d := MoveToSchema(f, c, support, table, origin, destination).conn;
      Name(origin, table) in d.tables ==> d.executed > 0 && f(d.executed - 1)
  {
    var o := Execute(f, c, SetSchema(Name(origin, table), destination));
    IdleMoveSupport(f, o.conn, support, origin, destination);
    var s := if o.ok then MoveSupport(f, o.conn, support, origin, destination) else o;
    DropLeavesOnFault(f, s.conn, Name(origin, table));
  }
}
