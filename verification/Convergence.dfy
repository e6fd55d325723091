/** Repeated passes over a fixed catalogue.  If the only failures are renames and creates whose
    name another row still holds, the rows reach the catalogue exactly when the pending renames
    form no cycle, in at most as many passes as there were mismatches. */
module Convergence {
  import opened TableFacades
  import opened AlteredTables
  import opened SyncPass

  // ----- runs of passes

  ghost predicate NameHeld(s: Store, a: Action) {
    (a.Rename? || a.Create?) && exists q :: q in s.rows && s.rows[q].name == a.t.name
  }

  /** Every step of the pass succeeds, or fails because its name is held. */
  ghost predicate DiligentTrace(acts: seq<Action>, ts: seq<Store>) {
    && |ts| == |acts| + 1
    && forall i :: 0 <= i < |acts| ==>
         Success(ts[i], acts[i], ts[i+1]) || (NameHeld(ts[i], acts[i]) && ts[i+1] == ts[i])
  }

  ghost predicate Pass(C: set<TableFacade>, s: Store, s': Store) {
    exists a, ts :: PassFromTo(C, a, ts, s, s')
  }

  ghost predicate PassFromTo(C: set<TableFacade>, a: Altered, ts: seq<Store>, s: Store, s': Store) {
    |ts| > 0 && PassTrace(C, a, ts) && ts[0] == s && ts[|ts|-1] == s'
  }

  ghost predicate DiligentPass(C: set<TableFacade>, s: Store, s': Store) {
    exists a, ts :: PassFromTo(C, a, ts, s, s') && DiligentTrace(PassActions(a), ts)
  }

  ghost predicate Passes(C: set<TableFacade>, ss: seq<Store>) {
    |ss| > 0 && forall i :: 0 <= i < |ss| - 1 ==> Pass(C, ss[i], ss[i+1])
  }

  ghost predicate DiligentPasses(C: set<TableFacade>, ss: seq<Store>) {
    |ss| > 0 && forall i :: 0 <= i < |ss| - 1 ==> DiligentPass(C, ss[i], ss[i+1])
  }

  /** The mismatches between catalogue and rows, one per entry of the four lists. */
  ghost function Mismatches(C: set<TableFacade>, R: set<TableFacade>): (m: set<Action>)
    ensures forall x :: x in m <==> Pending(C, R, x)
  {
    (set t | t in C && IsRegenerated(C, R, t) :: Regenerate(t)) +
    (set t | t in C && IsRenamed(C, R, t) :: Rename(t)) +
    (set t | t in C && IsAdded(C, R, t) :: Create(t)) +
    (set t | t in R && IsDropped(C, R, t) :: Drop(t))
  }

  lemma PassKeepsProgress(C: set<TableFacade>, s: Store, s': Store)
    requires Unique(C) && ValidStore(s) && Pass(C, s, s')
    ensures Evolves(C, s, s') && Mismatches(C, Content(s')) <= Mismatches(C, Content(s))
  {
    var a, ts :| PassFromTo(C, a, ts, s, s');
    StagesEvolve(C, a, ts, |ts| - 1);
    forall x | Pending(C, Content(s'), x) ensures Pending(C, Content(s), x) {
      StaleIsWhatIsNotDone(C, s, s', x);
    }
  }

  // ----- cycles of renames

  /** `c[i]` wants a name that is held by the row which itself wants to become `c[i+1]`,
      cyclically. */
  ghost predicate Blocked(C: set<TableFacade>, R: set<TableFacade>, c: seq<TableFacade>, i: nat)
    requires i < |c|
  {
    IsRenamed(C, R, c[i]) && Holds(R, Next(c, i).id, c[i].name)
  }

  ghost predicate RenameCycle(C: set<TableFacade>, R: set<TableFacade>, c: seq<TableFacade>) {
    c != [] && forall i :: 0 <= i < |c| ==> Blocked(C, R, c, i)
  }

  function Next(c: seq<TableFacade>, i: nat): TableFacade
    requires i < |c|
  {
    if i + 1 < |c| then c[i+1] else c[0]
  }

  ghost predicate Holds(R: set<TableFacade>, id: int, name: string) {
    exists r :: r in R && r.id == id && r.name == name
  }

  ghost predicate NoCycle(C: set<TableFacade>, R: set<TableFacade>) {
    forall c: seq<TableFacade> :: !RenameCycle(C, R, c)
  }

  /** While a rename is pending its row has not changed, so a cycle found later was there from the
      start. */
  lemma NoNewCycle(C: set<TableFacade>, s: Store, s': Store)
    requires Unique(C) && ValidStore(s) && Evolves(C, s, s')
    requires NoCycle(C, Content(s))
    ensures NoCycle(C, Content(s'))
  {
    forall c: seq<TableFacade> ensures !RenameCycle(C, Content(s'), c) {
      if RenameCycle(C, Content(s'), c) {
        forall i | 0 <= i < |c|
          ensures Blocked(C, Content(s), c, i)
        {
          assert Blocked(C, Content(s'), c, i) && Blocked(C, Content(s'), c, if i + 1 < |c| then i + 1 else 0);
          PendingRowUnchanged(C, s, s', c[i]);
          PendingRowUnchanged(C, s, s', Next(c, i));
        }
        assert RenameCycle(C, Content(s), c);
      }
    }
  }

  lemma PendingRowUnchanged(C: set<TableFacade>, s: Store, s': Store, t: TableFacade)
    requires Unique(C) && ValidStore(s) && Evolves(C, s, s')
    requires IsRenamed(C, Content(s'), t)
    ensures IsRenamed(C, Content(s), t)
    ensures forall r :: r in Content(s') && r.id == t.id ==> r in Content(s)
  {
    StillRenamed(C, s, s', t);
    var q := RenamedRow(C, s, s', t);
    ValidStoreIsUnique(s');
    assert s'.rows[q] in Content(s');
    assert s.rows[q] in Content(s);
  }

  /** The `k`th step of a pass, and from where it is taken. */
  lemma StageStep(C: set<TableFacade>, a: Altered, ts: seq<Store>, k: nat)
    requires Unique(C) && |ts| > 0 && ValidStore(ts[0]) && PassTrace(C, a, ts) && k + 1 < |ts|
    ensures k < |PassActions(a)| && Evolves(C, ts[0], ts[k])
    ensures Pending(C, Content(ts[0]), PassActions(a)[k]) && Step(ts[k], PassActions(a)[k], ts[k+1])
  {
    StagesEvolve(C, a, ts, k);
    PassActionsArePending(a, C, Content(ts[0]));
    assert PassActions(a)[k] in PassActions(a);
  }

  lemma CycleSurvivesStage(C: set<TableFacade>, a: Altered, ts: seq<Store>, c: seq<TableFacade>, k: nat)
    requires Unique(C) && |ts| > 0 && ValidStore(ts[0]) && PassTrace(C, a, ts) && k + 1 < |ts|
    requires RenameCycle(C, Content(ts[k]), c)
    ensures RenameCycle(C, Content(ts[k+1]), c)
  {
    var s0, s, s' := ts[0], ts[k], ts[k+1];
    StageStep(C, a, ts, k);
    CycleSurvivesStep(C, s0, s, PassActions(a)[k], s', c);
  }

  lemma {:induction false} CycleSurvivesUpTo(C: set<TableFacade>, a: Altered, ts: seq<Store>, c: seq<TableFacade>, k: nat)
    requires Unique(C) && |ts| > 0 && ValidStore(ts[0]) && PassTrace(C, a, ts) && k < |ts|
    requires RenameCycle(C, Content(ts[0]), c)
    ensures RenameCycle(C, Content(ts[k]), c)
  {
    if k > 0 {
      CycleSurvivesUpTo(C, a, ts, c, k - 1);
      CycleSurvivesStage(C, a, ts, c, k - 1);
    }
  }

  /** The members of a cycle block each other through any pass, however it goes. */
  lemma CycleSurvives(C: set<TableFacade>, s: Store, s': Store, c: seq<TableFacade>)
    requires Unique(C) && ValidStore(s) && RenameCycle(C, Content(s), c) && Pass(C, s, s')
    ensures RenameCycle(C, Content(s'), c)
  {
    var a, ts :| PassFromTo(C, a, ts, s, s');
    CycleSurvivesUpTo(C, a, ts, c, |ts| - 1);
  }

  lemma CycleSurvivesStep(C: set<TableFacade>, s0: Store, s: Store, b: Action, s': Store, c: seq<TableFacade>)
    requires Unique(C) && ValidStore(s0) && Evolves(C, s0, s) && Pending(C, Content(s0), b) && Step(s, b, s')
    requires RenameCycle(C, Content(s), c)
    ensures RenameCycle(C, Content(s'), c)
  {
    StepFromHere(C, s0, s, b, s');
    forall i | 0 <= i < |c|
      ensures c[i] !in Content(s')
    {
      BlockedStaysOut(C, s0, s, b, s', c, i);
    }
    forall i | 0 <= i < |c|
      ensures Blocked(C, Content(s'), c, i)
    {
      assert Blocked(C, Content(s), c, i) && Blocked(C, Content(s), c, if i + 1 < |c| then i + 1 else 0);
      StillRenamed(C, s, s', c[i]);
      HolderStays(C, s, s', Next(c, i), c[i].name);
    }
  }

  lemma HeldFails(s: Store, a: Action, s': Store)
    requires NameHeld(s, a)
    ensures !Success(s, a, s')
  {
  }

  lemma BlockedStaysOut(C: set<TableFacade>, s0: Store, s: Store, b: Action, s': Store, c: seq<TableFacade>, i: nat)
    requires Unique(C) && ValidStore(s0) && Evolves(C, s0, s) && Pending(C, Content(s0), b) && Step(s, b, s')
    requires RenameCycle(C, Content(s), c) && i < |c|
    ensures c[i] !in Content(s')
  {
    var x := Rename(c[i]);
    assert Blocked(C, Content(s), c, i);
    ValidStoreIsUnique(s);
    EvolvesRefl(C, s);
    StaleIsWhatIsNotDone(C, s, s, x);
    StaleIsWhatIsNotDone(C, s0, s, x);
    assert NameHeld(s, x) by {
      var r :| r in Content(s) && r.id == Next(c, i).id && r.name == c[i].name;
      var q :| q in s.rows && s.rows[q] == r;
    }
    HeldFails(s, x, s');
    if b != x && c[i] in Content(s') {
      OnlyOwnStepDecides(C, s0, s, x, b, s');
    }
  }

  lemma HolderStays(C: set<TableFacade>, s: Store, s': Store, t: TableFacade, name: string)
    requires Unique(C) && ValidStore(s) && Evolves(C, s, s')
    requires IsRenamed(C, Content(s), t) && t !in Content(s') && Holds(Content(s), t.id, name)
    ensures Holds(Content(s'), t.id, name)
  {
    var q := RenamedRow(C, s, s', t);
    ValidStoreIsUnique(s);
    assert s.rows[q] in Content(s);
    assert s'.rows[q] in Content(s');
    var r :| r in Content(s) && r.id == t.id && r.name == name;
    assert r == s.rows[q];
  }

  /** With a cycle no number of passes, of whatever luck, reaches the catalogue. */
  lemma CycleNeverConverges(C: set<TableFacade>, ss: seq<Store>, c: seq<TableFacade>)
    requires Unique(C) && Passes(C, ss) && ValidStore(ss[0]) && RenameCycle(C, Content(ss[0]), c)
    ensures Content(ss[|ss|-1]) != C
  {
    var k := 0;
    while k < |ss| - 1
      invariant 0 <= k < |ss| && ValidStore(ss[k]) && RenameCycle(C, Content(ss[k]), c)
    {
      CycleSurvives(C, ss[k], ss[k+1], c);
      PassKeepsProgress(C, ss[k], ss[k+1]);
      k := k + 1;
    }
    assert Blocked(C, Content(ss[k]), c, 0);
    ValidStoreIsUnique(ss[k]);
    NothingStaleIffEqual(C, Content(ss[k]));
  }

  // ----- without a cycle some pending change is free

  /** Nothing at the start of a pass stands in the way of `a`. */
  ghost predicate Free(C: set<TableFacade>, R: set<TableFacade>, a: Action) {
    Pending(C, R, a) && (a.Rename? || a.Create? ==> forall r :: r in R ==> r.name != a.t.name)
  }

  /** In a store that agrees with the catalogue on ids, whoever blocks a rename waits for a rename
      itself. */
  lemma BlockerIsRenamed(C: set<TableFacade>, R: set<TableFacade>, t: TableFacade) returns (u: TableFacade)
    requires Unique(C) && Unique(R)
    requires forall r :: !Missing(C, R, r)
    requires IsRenamed(C, R, t) && !Free(C, R, Rename(t))
    ensures IsRenamed(C, R, u) && Holds(R, u.id, t.name)
  {
    var r :| r in R && r.name == t.name;
    assert !Missing(C, R, r);
    u :| u in C && u.id == r.id;
  }

  /** A walk of `n` blockers. */
  lemma {:induction false} BlockerWalk(C: set<TableFacade>, R: set<TableFacade>, t: TableFacade, n: nat) returns (w: seq<TableFacade>)
    requires Unique(C) && Unique(R)
    requires forall r :: !Missing(C, R, r)
    requires forall u :: IsRenamed(C, R, u) ==> !Free(C, R, Rename(u))
    requires IsRenamed(C, R, t)
    ensures |w| == n + 1
    ensures forall i :: 0 <= i <= n ==> IsRenamed(C, R, w[i])
    ensures forall i :: 0 <= i < n ==> Holds(R, w[i+1].id, w[i].name)
  {
    if n == 0 {
      w := [t];
    } else {
      var v := BlockerWalk(C, R, t, n - 1);
      var u := BlockerIsRenamed(C, R, v[n-1]);
      w := v + [u];
    }
  }

  /** A walk longer than the set it stays in repeats an element. */
  lemma {:induction false} Repeats<T>(w: seq<T>, s: set<T>)
    requires |w| > |s| && forall i :: 0 <= i < |w| ==> w[i] in s
    ensures exists i, j :: 0 <= i < j < |w| && w[i] == w[j]
  {
    var n := |w| - 1;
    if k :| 0 <= k < n && w[k] == w[n] {
    } else {
      assert forall i :: 0 <= i < n ==> w[..n][i] in s - {w[n]};
      Repeats(w[..n], s - {w[n]});
      var i, j :| 0 <= i < j < n && w[..n][i] == w[..n][j];
      assert w[i] == w[j];
    }
  }

  lemma LoopIsCycle(C: set<TableFacade>, R: set<TableFacade>, w: seq<TableFacade>, i: nat, j: nat)
    requires forall k :: 0 <= k < |w| ==> IsRenamed(C, R, w[k])
    requires forall k :: 0 <= k < |w| - 1 ==> Holds(R, w[k+1].id, w[k].name)
    requires i < j < |w| && w[i] == w[j]
    ensures RenameCycle(C, R, w[i..j])
  {
    var c := w[i..j];
    forall k | 0 <= k < |c|
      ensures Blocked(C, R, c, k)
    {
      assert c[k] == w[i+k] && Next(c, k) == w[i+k+1];
    }
  }

  lemma AllBlockedIsCycle(C: set<TableFacade>, R: set<TableFacade>, t: TableFacade) returns (c: seq<TableFacade>)
    requires Unique(C) && Unique(R)
    requires forall r :: !Missing(C, R, r)
    requires forall u :: IsRenamed(C, R, u) ==> !Free(C, R, Rename(u))
    requires IsRenamed(C, R, t)
    ensures RenameCycle(C, R, c)
  {
    var w := BlockerWalk(C, R, t, |C|);
    Repeats(w, C);
    var i, j :| 0 <= i < j < |w| && w[i] == w[j];
    c := w[i..j];
    LoopIsCycle(C, R, w, i, j);
  }

  lemma SomethingIsFree(C: set<TableFacade>, R: set<TableFacade>) returns (a: Action)
    requires Unique(C) && Unique(R) && NoCycle(C, R) && C != R
    ensures Free(C, R, a)
  {
    NothingPendingIffEqual(C, R);
    a :| Pending(C, R, a);
    if r :| Missing(C, R, r) {
      if IsDropped(C, R, r) {
        a := Drop(r);
      } else {
        var t :| IsRegenerated(C, R, t) && t.name == r.name;
        a := Regenerate(t);
      }
    } else if t :| IsRenamed(C, R, t) {
      if forall u :: IsRenamed(C, R, u) ==> !Free(C, R, Rename(u)) {
        var c := AllBlockedIsCycle(C, R, t);
        assert false;
      } else {
        var u :| IsRenamed(C, R, u) && Free(C, R, Rename(u));
        a := Rename(u);
      }
    } else {
      OnlyCreatesAreFree(C, R, a);
    }
  }

  lemma OnlyCreatesAreFree(C: set<TableFacade>, R: set<TableFacade>, a: Action)
    requires Unique(C) && Unique(R) && Pending(C, R, a)
    requires (forall r :: !Missing(C, R, r)) && (forall t :: !IsRenamed(C, R, t))
    ensures Free(C, R, a)
  {
    if a.Create? {
      forall r | r in R ensures r.name != a.t.name {
        assert !Missing(C, R, r);
        var c :| c in C && c.id == r.id;
        assert !IsRenamed(C, R, c);
      }
    }
  }

  /** What is free at the start stays possible until it is done. */
  lemma FreeFires(C: set<TableFacade>, s0: Store, s: Store, a: Action)
    requires Unique(C) && ValidStore(s0) && Evolves(C, s0, s) && Free(C, Content(s0), a)
    requires NameHeld(s, a)
    ensures Done(Content(s), a)
  {
    var q :| q in s.rows && s.rows[q].name == a.t.name;
    if q in s0.rows {
      assert s0.rows[q] in Content(s0);
    }
    assert s.rows[q] in C;
    assert s.rows[q] == a.t;
  }

  lemma FreeSucceeds(C: set<TableFacade>, a: Altered, ts: seq<Store>, i: nat)
    requires Unique(C) && ts != [] && ValidStore(ts[0]) && PassTrace(C, a, ts) && DiligentTrace(PassActions(a), ts)
    requires i < |PassActions(a)| && Free(C, Content(ts[0]), PassActions(a)[i])
    ensures Success(ts[i], PassActions(a)[i], ts[i+1])
  {
    DoneIffOwnStepSucceeded(C, a, ts, i, i);
    StagesEvolve(C, a, ts, i);
    if NameHeld(ts[i], PassActions(a)[i]) {
      FreeFires(C, ts[0], ts[i], PassActions(a)[i]);
    }
  }

  /** In a diligent pass every action that was possible at the start is done at the end. */
  lemma FreeGetsDone(C: set<TableFacade>, s: Store, s': Store, x: Action, a: Altered, ts: seq<Store>)
    requires Unique(C) && ValidStore(s) && Free(C, Content(s), x)
    requires PassFromTo(C, a, ts, s, s') && DiligentTrace(PassActions(a), ts)
    ensures Done(Content(s'), x)
  {
    PassActionsArePending(a, C, Content(s));
    assert x in PassActions(a);
    var i :| 0 <= i < |PassActions(a)| && PassActions(a)[i] == x;
    FreeSucceeds(C, a, ts, i);
    DoneIffOwnStepSucceeded(C, a, ts, i, |ts| - 1);
  }

  lemma DiligentPassProgresses(C: set<TableFacade>, s: Store, s': Store)
    requires Unique(C) && ValidStore(s) && NoCycle(C, Content(s)) && Content(s) != C
    requires DiligentPass(C, s, s')
    ensures Mismatches(C, Content(s')) < Mismatches(C, Content(s))
  {
    var a, ts :| PassFromTo(C, a, ts, s, s') && DiligentTrace(PassActions(a), ts);
    assert Pass(C, s, s');
    PassKeepsProgress(C, s, s');
    ValidStoreIsUnique(s);
    var x := SomethingIsFree(C, Content(s));
    FreeGetsDone(C, s, s', x, a, ts);
    StaleIsWhatIsNotDone(C, s, s', x);
    assert x in Mismatches(C, Content(s)) && x !in Mismatches(C, Content(s'));
  }

  lemma SmallerSet<T>(a: set<T>, b: set<T>)
    requires a < b
    ensures |a| < |b|
  {
    var d := b - a;
    assert b == a + d;
    assert d != {};
  }

  lemma DiligentPassIsPass(C: set<TableFacade>, s: Store, s': Store)
    requires DiligentPass(C, s, s')
    ensures Pass(C, s, s')
  {
    var a, ts :| PassFromTo(C, a, ts, s, s') && DiligentTrace(PassActions(a), ts);
  }

  lemma FewerMismatches(C: set<TableFacade>, s: Store, s': Store)
    requires Unique(C) && ValidStore(s) && NoCycle(C, Content(s)) && DiligentPass(C, s, s')
    ensures ValidStore(s') && NoCycle(C, Content(s'))
    ensures |Mismatches(C, Content(s'))| == 0 || |Mismatches(C, Content(s'))| < |Mismatches(C, Content(s))|
  {
    DiligentPassIsPass(C, s, s');
    PassKeepsProgress(C, s, s');
    NoNewCycle(C, s, s');
    ValidStoreIsUnique(s);
    NothingPendingIffEqual(C, Content(s));
    if Content(s) != C {
      DiligentPassProgresses(C, s, s');
      SmallerSet(Mismatches(C, Content(s')), Mismatches(C, Content(s)));
    } else {
      assert Mismatches(C, Content(s)) == {};
    }
  }

  /** Without a cycle, as many diligent passes as there were mismatches are enough. */
  lemma ConvergesWithoutCycle(C: set<TableFacade>, ss: seq<Store>)
    requires Unique(C) && DiligentPasses(C, ss) && ValidStore(ss[0]) && NoCycle(C, Content(ss[0]))
    requires |ss| - 1 >= |Mismatches(C, Content(ss[0]))|
    ensures Content(ss[|ss|-1]) == C
  {
    var k, n := 0, |Mismatches(C, Content(ss[0]))|;
    while k < |ss| - 1
      invariant 0 <= k < |ss| && ValidStore(ss[k]) && NoCycle(C, Content(ss[k]))
      invariant |Mismatches(C, Content(ss[k]))| == 0 || |Mismatches(C, Content(ss[k]))| <= n - k
    {
      FewerMismatches(C, ss[k], ss[k+1]);
      k := k + 1;
    }
    assert Mismatches(C, Content(ss[k])) == {};
    ValidStoreIsUnique(ss[k]);
    NothingPendingIffEqual(C, Content(ss[k]));
  }

  /** A diligent run at least as long as the number of mismatches ends in sync if and only if the
      renames pending at its start form no cycle. */
  lemma ConvergesIffNoCycle(C: set<TableFacade>, ss: seq<Store>)
    requires Unique(C) && DiligentPasses(C, ss) && ValidStore(ss[0])
    requires |ss| - 1 >= |Mismatches(C, Content(ss[0]))|
    ensures Content(ss[|ss|-1]) == C <==> NoCycle(C, Content(ss[0]))
  {
    if NoCycle(C, Content(ss[0])) {
      ConvergesWithoutCycle(C, ss);
    } else {
      var c: seq<TableFacade> :| RenameCycle(C, Content(ss[0]), c);
      forall i | 0 <= i < |ss| - 1 ensures Pass(C, ss[i], ss[i+1]) {
        DiligentPassIsPass(C, ss[i], ss[i+1]);
      }
      CycleNeverConverges(C, ss, c);
    }
  }

  /** Two tables that swapped their names form a cycle. */
  lemma SwappedNamesAreACycle(i: int, j: int, a: string, b: string)
    requires i != j && a != b
    ensures var C, R := {TableFacade(i, a), TableFacade(j, b)}, {TableFacade(i, b), TableFacade(j, a)};
      Unique(C) && Unique(R) && RenameCycle(C, R, [TableFacade(i, a), TableFacade(j, b)])
  {
    var C, R := {TableFacade(i, a), TableFacade(j, b)}, {TableFacade(i, b), TableFacade(j, a)};
    var c := [TableFacade(i, a), TableFacade(j, b)];
    assert TableFacade(i, b) in R && TableFacade(j, a) in R;
    assert IsRenamed(C, R, c[0]) && IsRenamed(C, R, c[1]);
    assert Holds(R, j, a) && Holds(R, i, b);
  }
}
