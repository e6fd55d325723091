/** One `sync` pass over the `user_tables` rows: four batches of row changes, each of which may
    fail and be swallowed.  A pass is a trace of stores; everything is proved for every stage of
    the trace, whichever steps fail. */
module SyncPass {
  import opened TableFacades
  import opened AlteredTables

  /** The user's rows by primary key, and the next unused primary key. */
  datatype Store = Store(rows: map<nat, TableFacade>, next: nat)

  ghost function Content(s: Store): set<TableFacade> {
    s.rows.Values
  }

  /** Primary keys are fresh, ids differ, and the unique index on names holds. */
  ghost predicate ValidStore(s: Store) {
    && (forall p :: p in s.rows ==> p < s.next)
    && (forall p, q :: p in s.rows && q in s.rows && (s.rows[p].id == s.rows[q].id || s.rows[p].name == s.rows[q].name) ==> p == q)
  }

  /** What a `TableFacade` does to the rows. */
  datatype Action =
    | Regenerate(t: TableFacade)
    | Rename(t: TableFacade)
    | Create(t: TableFacade)
    | Drop(t: TableFacade)

  /** The action finds its row and the unique index on names admits the change. */
  ghost predicate Success(s: Store, a: Action, s': Store) {
    match a
    case Regenerate(t) =>
      exists p :: p in s.rows && s.rows[p].name == t.name &&
        s' == s.(rows := s.rows[p := TableFacade(t.id, s.rows[p].name)])
    case Rename(t) =>
      && (forall q :: q in s.rows ==> s.rows[q].name != t.name)
      && exists p :: p in s.rows && s.rows[p].id == t.id &&
           s' == s.(rows := s.rows[p := TableFacade(s.rows[p].id, t.name)])
    case Create(t) =>
      && (forall q :: q in s.rows ==> s.rows[q].name != t.name)
      && s' == Store(s.rows[s.next := t], s.next + 1)
    case Drop(t) =>
      exists p :: p in s.rows && s.rows[p] == t && s' == s.(rows := s.rows - {p})
  }

  /** A step succeeds, or its failure is swallowed and nothing changes. */
  ghost predicate Step(s: Store, a: Action, s': Store) {
    s' == s || Success(s, a, s')
  }

  /** A pass still has `a` to do. */
  ghost predicate Pending(C: set<TableFacade>, R: set<TableFacade>, a: Action) {
    match a
    case Regenerate(t) => IsRegenerated(C, R, t)
    case Rename(t) => IsRenamed(C, R, t)
    case Create(t) => IsAdded(C, R, t)
    case Drop(t) => IsDropped(C, R, t)
  }

  /** The change `a` stands for is in place. */
  ghost predicate Done(R: set<TableFacade>, a: Action) {
    if a.Drop? then a.t !in R else a.t in R
  }

  /** `s` is what rows `s0` may look like part way through a pass: every row is as it was, or
      already is its counterpart in the catalogue; only rows without a counterpart may be gone,
      and only added tables may have come. */
  ghost predicate Evolves(C: set<TableFacade>, s0: Store, s: Store) {
    && ValidStore(s)
    && s0.next <= s.next
    && (forall p :: p in s0.rows && (exists t :: Counterpart(C, Content(s0), s0.rows[p], t)) ==> p in s.rows)
    && (forall p :: p in s0.rows && p in s.rows ==> s.rows[p] == s0.rows[p] || Counterpart(C, Content(s0), s0.rows[p], s.rows[p]))
    && (forall p :: p in s.rows && p !in s0.rows ==> IsAdded(C, Content(s0), s.rows[p]))
  }

  lemma ValidStoreIsUnique(s: Store)
    requires ValidStore(s)
    ensures Unique(Content(s))
  {
  }

  lemma EvolvesRefl(C: set<TableFacade>, s: Store)
    requires ValidStore(s)
    ensures Evolves(C, s, s)
  {
  }

  // ----- one step

  /** No row but its own can have the id of a counterpart. */
  lemma OnlyOwnRowHasId(C: set<TableFacade>, s0: Store, s: Store, p: nat, t: TableFacade, q: nat)
    requires Unique(C) && ValidStore(s0) && Evolves(C, s0, s)
    requires p in s0.rows && Counterpart(C, Content(s0), s0.rows[p], t)
    requires q in s.rows && s.rows[q].id == t.id
    ensures q == p
  {
    var R := Content(s0);
    ValidStoreIsUnique(s0);
    CounterpartsPairUp(C, R);
    if q in s0.rows {
      assert Counterpart(C, R, s0.rows[q], t);
    }
  }

  lemma MoveKeepsValid(s: Store, p: nat, t: TableFacade)
    requires ValidStore(s) && p in s.rows
    requires forall q :: q in s.rows && (s.rows[q].name == t.name || s.rows[q].id == t.id) ==> q == p
    ensures ValidStore(s.(rows := s.rows[p := t]))
  {
  }

  /** Moving a row to its counterpart, when no other row holds the name. */
  lemma RowMoves(C: set<TableFacade>, s0: Store, s: Store, p: nat, t: TableFacade)
    requires Unique(C) && ValidStore(s0) && Evolves(C, s0, s)
    requires p in s0.rows && p in s.rows && Counterpart(C, Content(s0), s0.rows[p], t)
    requires forall q :: q in s.rows && s.rows[q].name == t.name ==> q == p
    ensures Evolves(C, s0, s.(rows := s.rows[p := t]))
  {
    forall q | q in s.rows && s.rows[q].id == t.id
      ensures q == p
    {
      OnlyOwnRowHasId(C, s0, s, p, t, q);
    }
    MoveKeepsValid(s, p, t);
  }

  lemma RegenerateStep(C: set<TableFacade>, s0: Store, s: Store, t: TableFacade, s': Store)
    requires Unique(C) && ValidStore(s0) && Evolves(C, s0, s)
    requires IsRegenerated(C, Content(s0), t) && Success(s, Regenerate(t), s')
    ensures Evolves(C, s0, s')
  {
    var q := RegeneratedRow(C, s0, s, t);
    var p :| p in s.rows && s.rows[p].name == t.name && s' == s.(rows := s.rows[p := TableFacade(t.id, s.rows[p].name)]);
    assert p == q && TableFacade(t.id, s.rows[p].name) == t;
    RowMoves(C, s0, s, p, t);
  }

  /** The lookup by name always finds the row that lost its table. */
  lemma RegeneratedRow(C: set<TableFacade>, s0: Store, s: Store, t: TableFacade) returns (q: nat)
    requires Unique(C) && ValidStore(s0) && Evolves(C, s0, s) && IsRegenerated(C, Content(s0), t)
    ensures q in s0.rows && Counterpart(C, Content(s0), s0.rows[q], t)
    ensures q in s.rows && s.rows[q].name == t.name && (s.rows[q] == s0.rows[q] || s.rows[q] == t)
    ensures Missing(C, Content(s0), s0.rows[q])
  {
    ValidStoreIsUnique(s0);
    CounterpartsPairUp(C, Content(s0));
    var m :| Missing(C, Content(s0), m) && m.name == t.name;
    q :| q in s0.rows && s0.rows[q] == m;
    assert Counterpart(C, Content(s0), m, t);
  }

  /** The lookup by id always finds the row whose table was renamed. */
  lemma RenamedRow(C: set<TableFacade>, s0: Store, s: Store, t: TableFacade) returns (q: nat)
    requires Unique(C) && ValidStore(s0) && Evolves(C, s0, s) && IsRenamed(C, Content(s0), t)
    ensures q in s0.rows && Counterpart(C, Content(s0), s0.rows[q], t)
    ensures q in s.rows && s.rows[q].id == t.id && (s.rows[q] == s0.rows[q] || s.rows[q] == t)
    ensures s0.rows[q].id == t.id && s0.rows[q].name != t.name
  {
    ValidStoreIsUnique(s0);
    CounterpartsPairUp(C, Content(s0));
    var r :| r in Content(s0) && r.id == t.id && r.name != t.name;
    q :| q in s0.rows && s0.rows[q] == r;
    assert Counterpart(C, Content(s0), r, t);
  }

  lemma RenameStep(C: set<TableFacade>, s0: Store, s: Store, t: TableFacade, s': Store)
    requires Unique(C) && ValidStore(s0) && Evolves(C, s0, s)
    requires IsRenamed(C, Content(s0), t) && Success(s, Rename(t), s')
    ensures Evolves(C, s0, s')
  {
    var q := RenamedRow(C, s0, s, t);
    var p :| p in s.rows && s.rows[p].id == t.id && s' == s.(rows := s.rows[p := TableFacade(s.rows[p].id, t.name)]);
    assert p == q && TableFacade(s.rows[p].id, t.name) == t;
    RowMoves(C, s0, s, p, t);
  }

  lemma CreateStep(C: set<TableFacade>, s0: Store, s: Store, t: TableFacade, s': Store)
    requires Unique(C) && ValidStore(s0) && Evolves(C, s0, s)
    requires IsAdded(C, Content(s0), t) && Success(s, Create(t), s')
    ensures Evolves(C, s0, s')
  {
    var R := Content(s0);
    ValidStoreIsUnique(s0);
    CounterpartsPairUp(C, R);
    assert s.next !in s0.rows && s.next !in s.rows;
    forall p | p in s.rows
      ensures s.rows[p].id != t.id
    {
      if p in s0.rows {
        assert s0.rows[p] in R;
        assert s.rows[p] == s0.rows[p] || Counterpart(C, R, s0.rows[p], s.rows[p]);
      }
    }
  }

  lemma DropStep(C: set<TableFacade>, s0: Store, s: Store, t: TableFacade, s': Store)
    requires Unique(C) && ValidStore(s0) && Evolves(C, s0, s)
    requires IsDropped(C, Content(s0), t) && Success(s, Drop(t), s')
    ensures Evolves(C, s0, s')
  {
    var R := Content(s0);
    ValidStoreIsUnique(s0);
    CounterpartsPairUp(C, R);
    var p :| p in s.rows && s.rows[p] == t && s' == s.(rows := s.rows - {p});
    assert p in s0.rows && s0.rows[p] == t;
  }

  lemma StepEvolves(C: set<TableFacade>, s0: Store, s: Store, a: Action, s': Store)
    requires Unique(C) && ValidStore(s0) && Evolves(C, s0, s)
    requires Pending(C, Content(s0), a) && Step(s, a, s')
    ensures Evolves(C, s0, s')
  {
    if Success(s, a, s') {
      match a
      case Regenerate(t) => RegenerateStep(C, s0, s, t, s');
      case Rename(t) => RenameStep(C, s0, s, t, s');
      case Create(t) => CreateStep(C, s0, s, t, s');
      case Drop(t) => DropStep(C, s0, s, t, s');
    }
  }

  // ----- what is still stale part way through

  lemma StillAbsent(C: set<TableFacade>, s0: Store, s: Store, t: TableFacade)
    requires Unique(C) && ValidStore(s0) && Evolves(C, s0, s)
    ensures Absent(C, Content(s), t) <==> Absent(C, Content(s0), t) && t !in Content(s)
  {
    var R, S := Content(s0), Content(s);
    ValidStoreIsUnique(s0);
    CounterpartsPairUp(C, R);
    if t in C && !Absent(C, R, t) {
      var p :| p in s0.rows && s0.rows[p].id == t.id;
      assert s0.rows[p] in R && Counterpart(C, R, s0.rows[p], t);
      assert s.rows[p] in S && s.rows[p].id == t.id;
    }
    if t in C && t !in S && !Absent(C, S, t) {
      var p :| p in s.rows && s.rows[p].id == t.id;
      assert s.rows[p] !in C;
      assert s0.rows[p] in R;
    }
  }

  lemma StillMissing(C: set<TableFacade>, s0: Store, s: Store, r: TableFacade)
    requires Unique(C) && ValidStore(s0) && Evolves(C, s0, s)
    ensures Missing(C, Content(s), r) <==> Missing(C, Content(s0), r) && r in Content(s)
  {
    if Missing(C, Content(s), r) {
      var p :| p in s.rows && s.rows[p] == r;
      assert r !in C && p in s0.rows && s0.rows[p] in Content(s0);
    }
  }

  lemma StillRenamed(C: set<TableFacade>, s0: Store, s: Store, t: TableFacade)
    requires Unique(C) && ValidStore(s0) && Evolves(C, s0, s)
    ensures IsRenamed(C, Content(s), t) <==> IsRenamed(C, Content(s0), t) && t !in Content(s)
  {
    if IsRenamed(C, Content(s), t) {
      var p :| p in s.rows && s.rows[p].id == t.id && s.rows[p].name != t.name;
      assert s.rows[p] !in C && p in s0.rows && s0.rows[p] in Content(s0);
      ValidStoreIsUnique(s);
    } else if IsRenamed(C, Content(s0), t) {
      var q := RenamedRow(C, s0, s, t);
      assert s.rows[q] in Content(s);
    }
  }

  lemma StillRegenerated(C: set<TableFacade>, s0: Store, s: Store, t: TableFacade)
    requires Unique(C) && ValidStore(s0) && Evolves(C, s0, s)
    ensures IsRegenerated(C, Content(s), t) <==> IsRegenerated(C, Content(s0), t) && t !in Content(s)
  {
    StillAbsent(C, s0, s, t);
    if IsRegenerated(C, Content(s), t) {
      var m :| Missing(C, Content(s), m) && m.name == t.name;
      StillMissing(C, s0, s, m);
    } else if IsRegenerated(C, Content(s0), t) {
      var q := RegeneratedRow(C, s0, s, t);
      assert s.rows[q] in Content(s);
      StillMissing(C, s0, s, s0.rows[q]);
    }
  }

  lemma StillDropped(C: set<TableFacade>, s0: Store, s: Store, r: TableFacade)
    requires Unique(C) && ValidStore(s0) && Evolves(C, s0, s)
    ensures IsDropped(C, Content(s), r) <==> IsDropped(C, Content(s0), r) && r in Content(s)
  {
    StillMissing(C, s0, s, r);
    ValidStoreIsUnique(s);
    if IsDropped(C, Content(s), r) {
      forall t | IsRegenerated(C, Content(s0), t)
        ensures t.name != r.name
      {
        StillRegenerated(C, s0, s, t);
      }
    } else if IsDropped(C, Content(s0), r) && r in Content(s) {
      var t :| IsRegenerated(C, Content(s), t) && t.name == r.name;
      StillRegenerated(C, s0, s, t);
    }
  }

  /** At any stage of a pass, what a fresh comparison would list is exactly what was listed at the
      start minus what is already done. */
  lemma StaleIsWhatIsNotDone(C: set<TableFacade>, s0: Store, s: Store, a: Action)
    requires Unique(C) && ValidStore(s0) && Evolves(C, s0, s)
    ensures Pending(C, Content(s), a) <==> Pending(C, Content(s0), a) && !Done(Content(s), a)
  {
    match a
    case Regenerate(t) => StillRegenerated(C, s0, s, t);
    case Rename(t) => StillRenamed(C, s0, s, t);
    case Create(t) =>
      StillAbsent(C, s0, s, t);
      StillRegenerated(C, s0, s, t);
    case Drop(t) => StillDropped(C, s0, s, t);
  }

  /** Rows that agree with the catalogue are never touched: same key, same value. */
  lemma CorrectRowsStay(C: set<TableFacade>, s0: Store, s: Store, p: nat)
    requires Unique(C) && ValidStore(s0) && Evolves(C, s0, s)
    requires p in s0.rows && s0.rows[p] in C
    ensures p in s.rows && s.rows[p] == s0.rows[p]
  {
    ValidStoreIsUnique(s0);
    CounterpartsPairUp(C, Content(s0));
    assert Counterpart(C, Content(s0), s0.rows[p], s0.rows[p]);
  }

  // ----- a step decides its own entry and no other

  /** Repeating a change that is in place changes nothing. */
  lemma DoneIsIdle(s: Store, a: Action, s': Store)
    requires ValidStore(s) && Done(Content(s), a) && Success(s, a, s')
    ensures s' == s
  {
    match a
    case Regenerate(t) =>
      var q :| q in s.rows && s.rows[q] == t;
      var p :| p in s.rows && s.rows[p].name == t.name && s' == s.(rows := s.rows[p := TableFacade(t.id, s.rows[p].name)]);
      assert p == q;
      assert s.rows[p := t] == s.rows;
    case Rename(t) =>
    case Create(t) =>
    case Drop(t) =>
  }

  lemma StepFromHere(C: set<TableFacade>, s0: Store, s: Store, b: Action, s': Store)
    requires Unique(C) && ValidStore(s0) && Evolves(C, s0, s)
    requires Pending(C, Content(s0), b) && Step(s, b, s')
    ensures Evolves(C, s, s')
  {
    EvolvesRefl(C, s);
    StaleIsWhatIsNotDone(C, s0, s, b);
    if Success(s, b, s') {
      if Done(Content(s), b) {
        DoneIsIdle(s, b, s');
      } else {
        StepEvolves(C, s, s, b, s');
      }
    }
  }

  lemma DoneStays(C: set<TableFacade>, s0: Store, s: Store, a: Action, b: Action, s': Store)
    requires Unique(C) && ValidStore(s0) && Evolves(C, s0, s)
    requires Pending(C, Content(s0), a) && Pending(C, Content(s0), b)
    requires Done(Content(s), a) && Step(s, b, s')
    ensures Done(Content(s'), a)
  {
    StepFromHere(C, s0, s, b, s');
    if a.Drop? {
      forall p | p in s'.rows ensures s'.rows[p] != a.t {
        if p in s.rows {
          assert s.rows[p] in Content(s);
        }
      }
    } else {
      var p :| p in s.rows && s.rows[p] == a.t;
      CorrectRowsStay(C, s, s', p);
    }
  }

  lemma SuccessIsDone(C: set<TableFacade>, s0: Store, s: Store, a: Action, s': Store)
    requires Unique(C) && ValidStore(s0) && Evolves(C, s0, s)
    requires Pending(C, Content(s0), a) && Success(s, a, s')
    ensures Done(Content(s'), a)
  {
    match a
    case Regenerate(t) =>
      var p :| p in s.rows && s.rows[p].name == t.name && s' == s.(rows := s.rows[p := TableFacade(t.id, s.rows[p].name)]);
      assert s'.rows[p] == t;
    case Rename(t) =>
      var p :| p in s.rows && s.rows[p].id == t.id && s' == s.(rows := s.rows[p := TableFacade(s.rows[p].id, t.name)]);
      assert s'.rows[p] == t;
    case Create(t) =>
      assert s'.rows[s.next] == t;
    case Drop(t) =>
      var p :| p in s.rows && s.rows[p] == t && s' == s.(rows := s.rows - {p});
      assert forall q :: q in s'.rows ==> q in s.rows && q != p;
  }

  /** Every success writes its own entry and removes at most the row it replaces. */
  lemma SuccessChanges(C: set<TableFacade>, s0: Store, s: Store, b: Action, s': Store)
    requires Unique(C) && ValidStore(s0) && Evolves(C, s0, s)
    requires Pending(C, Content(s0), b) && Success(s, b, s')
    ensures !b.Drop? ==> Content(s') <= Content(s) + {b.t}
    ensures b.Drop? ==> Content(s') <= Content(s)
    ensures forall y :: y in Content(s) && y !in Content(s') && IsDropped(C, Content(s0), y) ==> b == Drop(y)
  {
    match b
    case Regenerate(t) =>
      var q := RegeneratedRow(C, s0, s, t);
      assert s' == s.(rows := s.rows[q := t]);
      OtherRowsStay(s, s', q);
    case Rename(t) =>
      var q := RenamedRow(C, s0, s, t);
      assert s' == s.(rows := s.rows[q := t]);
      OtherRowsStay(s, s', q);
    case Create(t) =>
      OtherRowsStay(s, s', s.next);
    case Drop(t) =>
      var p :| p in s.rows && s.rows[p] == t && s' == s.(rows := s.rows - {p});
      OtherRowsStay(s, s', p);
  }

  lemma OtherRowsStay(s: Store, s': Store, q: nat)
    requires forall p :: p != q ==> (p in s.rows <==> p in s'.rows) && (p in s.rows ==> s.rows[p] == s'.rows[p])
    ensures forall y :: y in Content(s) && y !in Content(s') ==> q in s.rows && s.rows[q] == y
    ensures forall y :: y in Content(s') && y !in Content(s) ==> q in s'.rows && s'.rows[q] == y
  {
    forall y | y in Content(s)
      ensures y in Content(s') || (q in s.rows && s.rows[q] == y)
    {
      var p :| p in s.rows && s.rows[p] == y;
      if p != q {
        assert s'.rows[p] == y;
      }
    }
    forall y | y in Content(s')
      ensures y in Content(s) || (q in s'.rows && s'.rows[q] == y)
    {
      var p :| p in s'.rows && s'.rows[p] == y;
      if p != q {
        assert s.rows[p] == y;
      }
    }
  }

  lemma OnlyOwnStepDecides(C: set<TableFacade>, s0: Store, s: Store, a: Action, b: Action, s': Store)
    requires Unique(C) && ValidStore(s0) && Evolves(C, s0, s)
    requires Pending(C, Content(s0), a) && Pending(C, Content(s0), b)
    requires Step(s, b, s') && !Done(Content(s), a) && Done(Content(s'), a)
    ensures a == b
  {
    SuccessChanges(C, s0, s, b, s');
    ValidStoreIsUnique(s0);
    EachEntryInOneClass(C, Content(s0), a.t);
  }

  // ----- whole passes

  function Regenerations(a: Altered): seq<Action> {
    seq(|a.regenerated|, i requires 0 <= i < |a.regenerated| => Regenerate(a.regenerated[i]))
  }

  function Renames(a: Altered): seq<Action> {
    seq(|a.renamed|, i requires 0 <= i < |a.renamed| => Rename(a.renamed[i]))
  }

  function Creations(a: Altered): seq<Action> {
    seq(|a.added|, i requires 0 <= i < |a.added| => Create(a.added[i]))
  }

  function Drops(a: Altered): seq<Action> {
    seq(|a.dropped|, i requires 0 <= i < |a.dropped| => Drop(a.dropped[i]))
  }

  /** The four batches in the order `sync` runs them. */
  function PassActions(a: Altered): seq<Action> {
    Regenerations(a) + Renames(a) + Creations(a) + Drops(a)
  }

  lemma PassActionsArePending(a: Altered, C: set<TableFacade>, R: set<TableFacade>)
    requires Lists(a, C, R)
    ensures forall x :: x in PassActions(a) <==> Pending(C, R, x)
  {
    var g, n, c, d := Regenerations(a), Renames(a), Creations(a), Drops(a);
    forall x ensures x in PassActions(a) <==> Pending(C, R, x) {
      match x
      case Regenerate(t) =>
        if t in a.regenerated { var i :| 0 <= i < |a.regenerated| && a.regenerated[i] == t; assert g[i] == x; }
      case Rename(t) =>
        if t in a.renamed { var i :| 0 <= i < |a.renamed| && a.renamed[i] == t; assert n[i] == x; }
      case Create(t) =>
        if t in a.added { var i :| 0 <= i < |a.added| && a.added[i] == t; assert c[i] == x; }
      case Drop(t) =>
        if t in a.dropped { var i :| 0 <= i < |a.dropped| && a.dropped[i] == t; assert d[i] == x; }
    }
  }

  lemma PassActionsAreDistinct(a: Altered)
    requires StrictLists(a)
    ensures forall i, j :: 0 <= i < j < |PassActions(a)| ==> PassActions(a)[i] != PassActions(a)[j]
  {
  }

  /** `ts[i]` is the store before the `i`th action. */
  ghost predicate Trace(acts: seq<Action>, ts: seq<Store>) {
    |ts| == |acts| + 1 && forall i :: 0 <= i < |acts| ==> Step(ts[i], acts[i], ts[i+1])
  }

  /** `ts` is a whole pass over catalogue `C`, started from `ts[0]`. */
  ghost predicate PassTrace(C: set<TableFacade>, a: Altered, ts: seq<Store>) {
    && Trace(PassActions(a), ts)
    && Lists(a, C, Content(ts[0])) && StrictLists(a)
  }

  /** Whatever fails, every stage of a pass is an intermediate form of its start. */
  lemma {:induction false} StagesEvolve(C: set<TableFacade>, a: Altered, ts: seq<Store>, k: nat)
    requires Unique(C) && |ts| > 0 && ValidStore(ts[0]) && PassTrace(C, a, ts) && k < |ts|
    ensures Evolves(C, ts[0], ts[k])
  {
    if k == 0 {
      EvolvesRefl(C, ts[0]);
    } else {
      StagesEvolve(C, a, ts, k - 1);
      PassActionsArePending(a, C, Content(ts[0]));
      assert PassActions(a)[k-1] in PassActions(a);
      StepEvolves(C, ts[0], ts[k-1], PassActions(a)[k-1], ts[k]);
    }
  }

  /** Up to its own step an entry is not done; from then on it is done exactly when that step
      succeeded. */
  lemma {:induction false} DoneIffOwnStepSucceeded(C: set<TableFacade>, a: Altered, ts: seq<Store>, i: nat, k: nat)
    requires Unique(C) && |ts| > 0 && ValidStore(ts[0]) && PassTrace(C, a, ts)
    requires i < |PassActions(a)| && k < |ts|
    ensures Done(Content(ts[k]), PassActions(a)[i]) <==> i < k && Success(ts[i], PassActions(a)[i], ts[i+1])
  {
    var acts := PassActions(a);
    var R := Content(ts[0]);
    PassActionsArePending(a, C, R);
    assert acts[i] in acts;
    if k == 0 {
      EvolvesRefl(C, ts[0]);
      StaleIsWhatIsNotDone(C, ts[0], ts[0], acts[i]);
    } else {
      DoneIffOwnStepSucceeded(C, a, ts, i, k - 1);
      StagesEvolve(C, a, ts, k - 1);
      assert acts[k-1] in acts;
      if Done(Content(ts[k-1]), acts[i]) {
        DoneStays(C, ts[0], ts[k-1], acts[i], acts[k-1], ts[k]);
      } else if i == k - 1 {
        if Success(ts[i], acts[i], ts[i+1]) {
          SuccessIsDone(C, ts[0], ts[i], acts[i], ts[i+1]);
        }
      } else {
        PassActionsAreDistinct(a);
        if Done(Content(ts[k]), acts[i]) {
          OnlyOwnStepDecides(C, ts[0], ts[k-1], acts[i], acts[k-1], ts[k]);
        }
      }
    }
  }

  /** Whichever steps fail: keys and names stay unique, correct rows stay correct, and the four
      lists a new comparison computes are the old lists minus the steps that succeeded. */
  lemma PassLeavesExactlyTheFailures(C: set<TableFacade>, a: Altered, ts: seq<Store>)
    requires Unique(C) && |ts| > 0 && ValidStore(ts[0]) && PassTrace(C, a, ts)
    ensures var s0, s, acts := ts[0], ts[|ts|-1], PassActions(a);
      && ValidStore(s)
      && (forall p :: p in s0.rows && s0.rows[p] in C ==> p in s.rows && s.rows[p] == s0.rows[p])
      && (forall x :: Pending(C, Content(s), x) <==>
            exists i :: 0 <= i < |acts| && acts[i] == x && !Success(ts[i], acts[i], ts[i+1]))
  {
    var n, acts := |ts| - 1, PassActions(a);
    StagesEvolve(C, a, ts, n);
    forall p | p in ts[0].rows && ts[0].rows[p] in C
      ensures p in ts[n].rows && ts[n].rows[p] == ts[0].rows[p]
    {
      CorrectRowsStay(C, ts[0], ts[n], p);
    }
    PassActionsArePending(a, C, Content(ts[0]));
    forall x
      ensures Pending(C, Content(ts[n]), x) <==>
                exists i :: 0 <= i < |acts| && acts[i] == x && !Success(ts[i], acts[i], ts[i+1])
    {
      StaleIsWhatIsNotDone(C, ts[0], ts[n], x);
      forall i | 0 <= i < |acts| && acts[i] == x
        ensures Done(Content(ts[n]), x) <==> Success(ts[i], acts[i], ts[i+1])
      {
        DoneIffOwnStepSucceeded(C, a, ts, i, n);
      }
      if Pending(C, Content(ts[n]), x) {
        assert x in acts;
        var i :| 0 <= i < |acts| && acts[i] == x;
        assert !Success(ts[i], acts[i], ts[i+1]);
      }
    }
  }

  lemma NothingPendingIffEqual(C: set<TableFacade>, R: set<TableFacade>)
    requires Unique(C) && Unique(R)
    ensures (forall x :: !Pending(C, R, x)) <==> C == R
  {
    NothingStaleIffEqual(C, R);
    if forall x :: !Pending(C, R, x) {
      forall t ensures !IsRenamed(C, R, t) && !IsRegenerated(C, R, t) && !IsAdded(C, R, t) && !IsDropped(C, R, t) {
        assert !Pending(C, R, Rename(t)) && !Pending(C, R, Regenerate(t)) && !Pending(C, R, Create(t)) && !Pending(C, R, Drop(t));
      }
    }
  }

  /** A pass leaves exactly the catalogue's pairs if and only if every one of its steps succeeds. */
  lemma PassReachesCatalogueIffAllSucceed(C: set<TableFacade>, a: Altered, ts: seq<Store>)
    requires Unique(C) && |ts| > 0 && ValidStore(ts[0]) && PassTrace(C, a, ts)
    ensures Content(ts[|ts|-1]) == C <==>
              forall i :: 0 <= i < |PassActions(a)| ==> Success(ts[i], PassActions(a)[i], ts[i+1])
  {
    var n, acts := |ts| - 1, PassActions(a);
    PassLeavesExactlyTheFailures(C, a, ts);
    ValidStoreIsUnique(ts[n]);
    NothingPendingIffEqual(C, Content(ts[n]));
    if x :| Pending(C, Content(ts[n]), x) {
      var i :| 0 <= i < |acts| && acts[i] == x && !Success(ts[i], acts[i], ts[i+1]);
    } else {
      forall i | 0 <= i < |acts| ensures Success(ts[i], acts[i], ts[i+1]) {
        assert !Pending(C, Content(ts[n]), acts[i]);
      }
    }
  }

  /** After the rows equal the catalogue every later pass over it has nothing to do. */
  lemma SyncedPassIsEmpty(C: set<TableFacade>, a: Altered, R: set<TableFacade>)
    requires Unique(C) && Unique(R) && Lists(a, C, R)
    ensures C == R <==> PassActions(a) == []
    ensures C == R <==> Synced(a)
  {
    NothingPendingIffEqual(C, R);
    PassActionsArePending(a, C, R);
    if PassActions(a) != [] {
      assert PassActions(a)[0] in PassActions(a);
    }
  }
}
