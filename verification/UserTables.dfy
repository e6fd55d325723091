/** The `user_tables` rows of one user as an object that `TableFacade`'s four methods update in
    place, and the `sync` that drives them. */
module UserTables {
  import opened TableFacades
  import opened AlteredTables
  import opened SyncPass
  import opened Convergence
  import opened OnePass

  /** What a facade method leaves behind.  `accepted` says that the persistence layer raises
      nothing of its own; a missing row or a taken name still makes the change fail, and every
      failure is swallowed. */
  ghost predicate Applied(s: Store, a: Action, accepted: bool, s': Store) {
    if accepted && exists t :: Success(s, a, t) then Success(s, a, s') else s' == s
  }

  class UserTableRows {
    var store: Store

    constructor (s: Store)
      ensures store == s
    {
      store := s;
    }

    predicate NameTaken(name: string)
      reads this
    {
      exists q :: q in store.rows && store.rows[q].name == name
    }

    method RegenerateUserTable(t: TableFacade, accepted: bool)
      modifies this
      ensures Applied(old(store), Regenerate(t), accepted, store)
    {
      if accepted && NameTaken(t.name) {
        var p :| p in store.rows && store.rows[p].name == t.name;
        store := store.(rows := store.rows[p := TableFacade(t.id, store.rows[p].name)]);
      }
    }

    method RenameUserTableVis(t: TableFacade, accepted: bool)
      modifies this
      ensures Applied(old(store), Rename(t), accepted, store)
    {
      if accepted && !NameTaken(t.name) && exists p :: p in store.rows && store.rows[p].id == t.id {
        var p :| p in store.rows && store.rows[p].id == t.id;
        store := store.(rows := store.rows[p := TableFacade(store.rows[p].id, t.name)]);
      }
    }

    method CreateUserTable(t: TableFacade, accepted: bool)
      modifies this
      ensures Applied(old(store), Create(t), accepted, store)
    {
      ghost var created := Store(store.rows[store.next := t], store.next + 1);
      if accepted && !NameTaken(t.name) {
        store := Store(store.rows[store.next := t], store.next + 1);
        assert Success(old(store), Create(t), created);
      }
    }

    method DropUserTable(t: TableFacade, accepted: bool)
      modifies this
      ensures Applied(old(store), Drop(t), accepted, store)
    {
      if accepted && exists p :: p in store.rows && store.rows[p] == t {
        var p :| p in store.rows && store.rows[p] == t;
        store := store.(rows := store.rows - {p});
      }
    }

    method FetchUserTables() returns (rows: seq<TableFacade>)
      ensures Entries(rows) == Content(store)
      ensures ValidStore(store) ==> DistinctIds(rows)
    {
      rows := [];
      var keys := store.rows.Keys;
      while keys != {}
        invariant keys <= store.rows.Keys
        invariant forall t :: t in rows <==> exists p :: p in store.rows && p !in keys && store.rows[p] == t
        invariant ValidStore(store) ==> DistinctIds(rows)
      {
        var p :| p in keys;
        assert ValidStore(store) ==> forall t :: t in rows ==> t.id != store.rows[p].id;
        rows := rows + [store.rows[p]];
        keys := keys - {p};
      }
    }

    /** `each` over one list: the facade method of every entry, in order. */
    method RunBatch(batch: seq<Action>, accepts: nat -> bool, offset: nat) returns (ghost ts: seq<Store>)
      modifies this
      ensures AppliedTrace(batch, accepts, offset, ts)
      ensures ts[0] == old(store) && ts[|batch|] == store
    {
      ts := [store];
      for i := 0 to |batch|
        invariant |ts| == i + 1 && ts[0] == old(store) && ts[i] == store
        invariant forall k :: 0 <= k < i ==> Applied(ts[k], batch[k], accepts(offset + k), ts[k+1])
      {
        var accepted := accepts(offset + i);
        match batch[i] {
          case Regenerate(t) => RegenerateUserTable(t, accepted);
          case Rename(t) => RenameUserTableVis(t, accepted);
          case Create(t) => CreateUserTable(t, accepted);
          case Drop(t) => DropUserTable(t, accepted);
        }
        ts := ts + [store];
      }
    }

    /** A whole pass: whatever the persistence layer accepts it is a pass of the protocol, in the order
        of regenerations, renames, creations and drops and of ids.  When it accepts everything only
        held names make a step fail, and the rows equal the catalogue afterwards if and only if every
        name that is wanted comes free in time. */
    method Sync(catalogue: seq<TableFacade>, accepts: nat -> bool) returns (a: Altered, ghost ts: seq<Store>)
      requires ValidStore(store) && DistinctIds(catalogue)
      modifies this
      ensures PassFromTo(Entries(catalogue), a, ts, old(store), store)
      ensures AppliedTrace(PassActions(a), accepts, 0, ts)
      ensures forall i, j :: 0 <= i < j < |PassActions(a)| ==> Before(PassActions(a)[i], PassActions(a)[j])
      ensures Unique(Entries(catalogue)) && (forall k :: accepts(k)) ==>
        && DiligentPass(Entries(catalogue), old(store), store)
        && (Content(store) == Entries(catalogue) <==> NamesComeFree(Entries(catalogue), Content(old(store))))
    {
      var rows := FetchUserTables();
      a := FetchAlteredTables(catalogue, rows);
      ghost var t1 := RunBatch(Regenerations(a), accepts, 0);
      var n := |a.regenerated|;
      ghost var t2 := RunBatch(Renames(a), accepts, n);
      n := n + |a.renamed|;
      ghost var t3 := RunBatch(Creations(a), accepts, n);
      n := n + |a.added|;
      ghost var t4 := RunBatch(Drops(a), accepts, n);
      ts := FourBatches(a, accepts, t1, t2, t3, t4);
      WholePass(Entries(catalogue), a, ts, accepts);
    }
  }

  /** The four batches one after the other are one trace. */
  lemma FourBatches(a: Altered, accepts: nat -> bool, t1: seq<Store>, t2: seq<Store>, t3: seq<Store>, t4: seq<Store>)
    returns (ts: seq<Store>)
    requires AppliedTrace(Regenerations(a), accepts, 0, t1)
    requires AppliedTrace(Renames(a), accepts, |a.regenerated|, t2) && t1[|a.regenerated|] == t2[0]
    requires AppliedTrace(Creations(a), accepts, |a.regenerated| + |a.renamed|, t3) && t2[|a.renamed|] == t3[0]
    requires AppliedTrace(Drops(a), accepts, |a.regenerated| + |a.renamed| + |a.added|, t4) && t3[|a.added|] == t4[0]
    ensures AppliedTrace(PassActions(a), accepts, 0, ts) && ts[0] == t1[0] && ts[|ts|-1] == t4[|a.dropped|]
  {
    ts := Chained(Regenerations(a), Renames(a), accepts, 0, t1, t2);
    ts := Chained(Regenerations(a) + Renames(a), Creations(a), accepts, 0, ts, t3);
    ts := Chained(Regenerations(a) + Renames(a) + Creations(a), Drops(a), accepts, 0, ts, t4);
  }

  lemma WholePass(C: set<TableFacade>, a: Altered, ts: seq<Store>, accepts: nat -> bool)
    requires AppliedTrace(PassActions(a), accepts, 0, ts) && ValidStore(ts[0])
    requires Lists(a, C, Content(ts[0])) && StrictLists(a)
    ensures PassFromTo(C, a, ts, ts[0], ts[|ts|-1])
    ensures forall i, j :: 0 <= i < j < |PassActions(a)| ==> Before(PassActions(a)[i], PassActions(a)[j])
    ensures Unique(C) && (forall k :: accepts(k)) ==>
      DiligentPass(C, ts[0], ts[|ts|-1]) && (Content(ts[|ts|-1]) == C <==> NamesComeFree(C, Content(ts[0])))
  {
    AppliedIsTrace(PassActions(a), accepts, ts);
    PassActionsInOrder(a);
    if Unique(C) && forall k :: accepts(k) {
      AcceptedPassIsDiligent(C, a, ts, accepts);
      OnePassIffNamesComeFree(C, ts[0], ts[|ts|-1]);
    }
  }

  ghost predicate AppliedTrace(acts: seq<Action>, accepts: nat -> bool, offset: nat, ts: seq<Store>) {
    |ts| == |acts| + 1 && forall k :: 0 <= k < |acts| ==> Applied(ts[k], acts[k], accepts(offset + k), ts[k+1])
  }

  lemma Chained(acts: seq<Action>, more: seq<Action>, accepts: nat -> bool, offset: nat, ts: seq<Store>, us: seq<Store>)
    returns (r: seq<Store>)
    requires AppliedTrace(acts, accepts, offset, ts) && AppliedTrace(more, accepts, offset + |acts|, us)
    requires ts[|acts|] == us[0]
    ensures AppliedTrace(acts + more, accepts, offset, r)
    ensures r[0] == ts[0] && r[|acts + more|] == us[|more|]
  {
    r := ts + us[1..];
    forall k | 0 <= k < |acts + more|
      ensures Applied(r[k], (acts + more)[k], accepts(offset + k), r[k+1])
    {
      if k >= |acts| {
        assert Applied(us[k-|acts|], more[k-|acts|], accepts(offset + |acts| + (k - |acts|)), us[k-|acts|+1]);
      }
    }
  }

  lemma AppliedIsTrace(acts: seq<Action>, accepts: nat -> bool, ts: seq<Store>)
    requires AppliedTrace(acts, accepts, 0, ts)
    ensures Trace(acts, ts)
  {
  }

  /** At its own step a pending change either has its row and a free name, or its name is held. */
  lemma PendingCanFire(C: set<TableFacade>, s0: Store, s: Store, a: Action)
    requires Unique(C) && ValidStore(s0) && Evolves(C, s0, s)
    requires Pending(C, Content(s0), a) && !Done(Content(s), a) && !NameHeld(s, a)
    ensures exists s' :: Success(s, a, s')
  {
    match a
    case Regenerate(t) =>
      var q := RegeneratedRow(C, s0, s, t);
      assert Success(s, a, s.(rows := s.rows[q := TableFacade(t.id, s.rows[q].name)]));
    case Rename(t) =>
      var q := RenamedRow(C, s0, s, t);
      assert Success(s, a, s.(rows := s.rows[q := TableFacade(s.rows[q].id, t.name)]));
    case Create(t) =>
      assert Success(s, a, Store(s.rows[s.next := t], s.next + 1));
    case Drop(t) =>
      var q :| q in s.rows && s.rows[q] == t;
      assert Success(s, a, s.(rows := s.rows - {q}));
  }

  lemma AcceptedPassIsDiligent(C: set<TableFacade>, a: Altered, ts: seq<Store>, accepts: nat -> bool)
    requires Unique(C) && |ts| > 0 && ValidStore(ts[0]) && PassTrace(C, a, ts)
    requires forall k :: accepts(k)
    requires AppliedTrace(PassActions(a), accepts, 0, ts)
    ensures DiligentTrace(PassActions(a), ts)
  {
    var acts := PassActions(a);
    forall k | 0 <= k < |acts|
      ensures Success(ts[k], acts[k], ts[k+1]) || (NameHeld(ts[k], acts[k]) && ts[k+1] == ts[k])
    {
      StagesEvolve(C, a, ts, k);
      DoneIffOwnStepSucceeded(C, a, ts, k, k);
      PassActionsArePending(a, C, Content(ts[0]));
      assert acts[k] in acts;
      assert Applied(ts[k], acts[k], accepts(0 + k), ts[k+1]);
      if !NameHeld(ts[k], acts[k]) {
        PendingCanFire(C, ts[0], ts[k], acts[k]);
      } else if s' :| Success(ts[k], acts[k], s') {
        HeldFails(ts[k], acts[k], s');
      }
    }
  }
}
