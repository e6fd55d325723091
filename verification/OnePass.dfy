/** The order in which a pass takes its steps, and when one pass is enough. */
module OnePass {
  import opened TableFacades
  import opened AlteredTables
  import opened SyncPass
  import opened Convergence

  /** Regenerations, renames, creations, drops. */
  function Rank(a: Action): nat {
    match a
    case Regenerate(_) => 0
    case Rename(_) => 1
    case Create(_) => 2
    case Drop(_) => 3
  }

  /** Smaller ids first within a batch. */
  predicate Before(a: Action, b: Action) {
    Rank(a) < Rank(b) || (Rank(a) == Rank(b) && a.t.id < b.t.id)
  }

  /** A pass takes its steps in this order; with what it consists of, there is only one way. */
  lemma PassActionsInOrder(a: Altered)
    requires StrictLists(a)
    ensures forall i, j :: 0 <= i < j < |PassActions(a)| ==> Before(PassActions(a)[i], PassActions(a)[j])
  {
    forall i, j | 0 <= i < j < |PassActions(a)|
      ensures Before(PassActions(a)[i], PassActions(a)[j])
    {
      ActionAt(a, i);
      ActionAt(a, j);
    }
  }

  lemma ActionAt(a: Altered, i: nat)
    requires i < |PassActions(a)|
    ensures var g, n, c := |a.regenerated|, |a.renamed|, |a.added|;
      && |PassActions(a)| == g + n + c + |a.dropped|
      && PassActions(a)[i] ==
        if i < g then Regenerate(a.regenerated[i])
        else if i < g + n then Rename(a.renamed[i-g])
        else if i < g + n + c then Create(a.added[i-g-n])
        else Drop(a.dropped[i-g-n-c])
  {
  }

  /** Somebody who holds the name `a` wants is renamed before `a` is tried. */
  ghost predicate MovesAway(C: set<TableFacade>, R: set<TableFacade>, a: Action, r: TableFacade) {
    exists u :: IsRenamed(C, R, u) && u.id == r.id && Before(Rename(u), a)
  }

  /** Every name that a pending rename or creation wants is free, or held by a row that is renamed
      before. */
  ghost predicate NamesComeFree(C: set<TableFacade>, R: set<TableFacade>) {
    forall a, r :: Pending(C, R, a) && (a.Rename? || a.Create?) && r in R && r.name == a.t.name ==> MovesAway(C, R, a, r)
  }

  /** What is done by a stage was tried before it, and whatever is tried later comes after it. */
  lemma DoneCameBefore(C: set<TableFacade>, a: Altered, ts: seq<Store>, i: nat, x: Action)
    requires Unique(C) && |ts| > 0 && ValidStore(ts[0]) && PassTrace(C, a, ts) && i < |PassActions(a)|
    requires Pending(C, Content(ts[0]), x) && Done(Content(ts[i]), x)
    ensures Before(x, PassActions(a)[i])
  {
    PassActionsArePending(a, C, Content(ts[0]));
    assert x in PassActions(a);
    var j :| 0 <= j < |PassActions(a)| && PassActions(a)[j] == x;
    DoneIffOwnStepSucceeded(C, a, ts, j, i);
    PassActionsInOrder(a);
  }

  /** And whatever comes before it has been tried. */
  lemma BeforeIsEarlier(C: set<TableFacade>, a: Altered, ts: seq<Store>, i: nat, x: Action) returns (j: nat)
    requires Unique(C) && |ts| > 0 && PassTrace(C, a, ts) && i < |PassActions(a)|
    requires Pending(C, Content(ts[0]), x) && Before(x, PassActions(a)[i])
    ensures j < i && PassActions(a)[j] == x
  {
    PassActionsArePending(a, C, Content(ts[0]));
    assert x in PassActions(a);
    j :| 0 <= j < |PassActions(a)| && PassActions(a)[j] == x;
    PassActionsInOrder(a);
  }

  /** Once a rename is done, the row does not have its old name any more. */
  lemma RenamedLeavesName(C: set<TableFacade>, s0: Store, s: Store, u: TableFacade, q: nat)
    requires Unique(C) && ValidStore(s0) && Evolves(C, s0, s)
    requires q in s0.rows && q in s.rows && IsRenamed(C, Content(s0), u) && u.id == s0.rows[q].id && u in Content(s)
    ensures s.rows[q].name != s0.rows[q].name
  {
    ValidStoreIsUnique(s0);
    var r :| r in Content(s0) && r.id == u.id && r.name != u.name;
    assert s0.rows[q] in Content(s0);
    assert r == s0.rows[q];
    var p :| p in s.rows && s.rows[p] == u;
    assert Counterpart(C, Content(s0), s0.rows[q], u);
    OnlyOwnRowHasId(C, s0, s, q, u, p);
  }

  /** The row that holds the name a pending change wants has held it from the start. */
  lemma HolderIsOld(C: set<TableFacade>, s0: Store, s: Store, a: Action, q: nat)
    requires Unique(C) && ValidStore(s0) && Evolves(C, s0, s)
    requires Pending(C, Content(s0), a) && (a.Rename? || a.Create?) && !Done(Content(s), a)
    requires q in s.rows && s.rows[q].name == a.t.name
    ensures q in s0.rows && s.rows[q] == s0.rows[q]
  {
    var holder := s.rows[q];
    assert holder in Content(s);
    assert holder in C ==> holder == a.t;
  }

  /** When all names come free in time, every step of a diligent pass succeeds. */
  lemma {:induction false} NamesFreeInTime(C: set<TableFacade>, a: Altered, ts: seq<Store>, i: nat)
    requires Unique(C) && |ts| > 0 && ValidStore(ts[0]) && PassTrace(C, a, ts) && DiligentTrace(PassActions(a), ts)
    requires NamesComeFree(C, Content(ts[0])) && i < |PassActions(a)|
    ensures Success(ts[i], PassActions(a)[i], ts[i+1])
    decreases i
  {
    var x := PassActions(a)[i];
    PassActionsArePending(a, C, Content(ts[0]));
    assert x in PassActions(a);
    DoneIffOwnStepSucceeded(C, a, ts, i, i);
    StagesEvolve(C, a, ts, i);
    if NameHeld(ts[i], x) {
      var q :| q in ts[i].rows && ts[i].rows[q].name == x.t.name;
      HolderIsOld(C, ts[0], ts[i], x, q);
      assert ts[0].rows[q] in Content(ts[0]);
      assert MovesAway(C, Content(ts[0]), x, ts[0].rows[q]);
      var u :| IsRenamed(C, Content(ts[0]), u) && u.id == ts[0].rows[q].id && Before(Rename(u), x);
      var j := BeforeIsEarlier(C, a, ts, i, Rename(u));
      NamesFreeInTime(C, a, ts, j);
      DoneIffOwnStepSucceeded(C, a, ts, j, i);
      RenamedLeavesName(C, ts[0], ts[i], u, q);
    }
  }

  /** A row that is gone, or has another name, got there by a drop or a rename of its own. */
  lemma HowANameComesFree(C: set<TableFacade>, s0: Store, s: Store, r: TableFacade)
    requires Unique(C) && ValidStore(s0) && Evolves(C, s0, s)
    requires r in Content(s0) && forall q :: q in s.rows ==> s.rows[q].name != r.name
    ensures (IsDropped(C, Content(s0), r) && r !in Content(s))
            || exists u :: IsRenamed(C, Content(s0), u) && u.id == r.id && u in Content(s)
  {
    var R := Content(s0);
    ValidStoreIsUnique(s0);
    CounterpartsPairUp(C, R);
    var q :| q in s0.rows && s0.rows[q] == r;
    if q in s.rows {
      var u := s.rows[q];
      assert u in Content(s) && Counterpart(C, R, r, u);
      assert IsRenamed(C, R, u);
    } else {
      assert IsDropped(C, R, r);
      assert forall p :: p in s.rows ==> s.rows[p] != r;
    }
  }

  /** When every step of a pass succeeds, all names came free in time. */
  lemma SuccessNeedsFreeNames(C: set<TableFacade>, a: Altered, ts: seq<Store>, x: Action, r: TableFacade)
    requires Unique(C) && |ts| > 0 && ValidStore(ts[0]) && PassTrace(C, a, ts)
    requires forall i :: 0 <= i < |PassActions(a)| ==> Success(ts[i], PassActions(a)[i], ts[i+1])
    requires Pending(C, Content(ts[0]), x) && (x.Rename? || x.Create?) && r in Content(ts[0]) && r.name == x.t.name
    ensures MovesAway(C, Content(ts[0]), x, r)
  {
    PassActionsArePending(a, C, Content(ts[0]));
    assert x in PassActions(a);
    var i :| 0 <= i < |PassActions(a)| && PassActions(a)[i] == x;
    assert Success(ts[i], x, ts[i+1]);
    StagesEvolve(C, a, ts, i);
    HowANameComesFree(C, ts[0], ts[i], r);
    if u :| IsRenamed(C, Content(ts[0]), u) && u.id == r.id && u in Content(ts[i]) {
      DoneCameBefore(C, a, ts, i, Rename(u));
    } else {
      DoneCameBefore(C, a, ts, i, Drop(r));
      assert false;
    }
  }

  /** One diligent pass leaves exactly the catalogue if and only if every name that a rename or a
      creation wants is free at the start, or held by a row whose own rename comes earlier: any
      rename for a creation, one of a smaller id for a rename. */
  lemma OnePassIffNamesComeFree(C: set<TableFacade>, s: Store, s': Store)
    requires Unique(C) && ValidStore(s) && DiligentPass(C, s, s')
    ensures Content(s') == C <==> NamesComeFree(C, Content(s))
  {
    var a, ts :| PassFromTo(C, a, ts, s, s') && DiligentTrace(PassActions(a), ts);
    PassReachesCatalogueIffAllSucceed(C, a, ts);
    if NamesComeFree(C, Content(s)) {
      forall i | 0 <= i < |PassActions(a)| ensures Success(ts[i], PassActions(a)[i], ts[i+1]) {
        NamesFreeInTime(C, a, ts, i);
      }
    }
    if Content(s') == C {
      forall x, r | Pending(C, Content(s), x) && (x.Rename? || x.Create?) && r in Content(s) && r.name == x.t.name
        ensures MovesAway(C, Content(s), x, r)
      {
        SuccessNeedsFreeNames(C, a, ts, x, r);
      }
    }
  }

  /** For instance table 1 gives up the name that table 2 takes: one pass does both. */
  lemma ChainComesFree()
    ensures var C, R := {TableFacade(1, "c"), TableFacade(2, "b")}, {TableFacade(1, "b"), TableFacade(2, "a")};
      Unique(C) && Unique(R) && NamesComeFree(C, R)
  {
    var C, R := {TableFacade(1, "c"), TableFacade(2, "b")}, {TableFacade(1, "b"), TableFacade(2, "a")};
    assert "a" != "b" && "b" != "c" && "a" != "c";
    assert TableFacade(1, "b") in R;
    assert IsRenamed(C, R, TableFacade(1, "c"));
    forall a, r | Pending(C, R, a) && (a.Rename? || a.Create?) && r in R && r.name == a.t.name
      ensures MovesAway(C, R, a, r)
    {
      assert Before(Rename(TableFacade(1, "c")), Rename(TableFacade(2, "b")));
    }
  }
}
