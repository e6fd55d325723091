/** Sync passes run under the Bolt lock by any number of processes, interleaved step by step, while
    users change the catalogue at any time.  A history records every finished locked block. */
module LockedSync {
  import opened TableFacades
  import opened AlteredTables
  import opened SyncPass
  import opened Convergence
  import B = Bolt

  /** A block from the comparison on: the moments at which it was entered, read the catalogue and
      compared it with the rows, what it compared, and which of its steps so far succeeded. */
  datatype Block = Block(pid: B.Pid, entered: nat, read: nat, compared: nat,
                         catalogue: set<TableFacade>, lists: Altered, outcomes: seq<bool>)

  /** How far a process is in its locked block. */
  datatype Work =
    | ToRead(entered: nat)
    | ToCompare(entered: nat, read: nat, catalogue: set<TableFacade>)
    | Applying(block: Block)

  /** A finished block and the moment of its unlock. */
  datatype Logged = Logged(block: Block, left: nat)

  datatype Sys = Sys(now: nat, bolt: B.State, store: Store, catalogue: set<TableFacade>,
                     work: map<B.Pid, Work>, log: seq<Logged>)

  predicate Finished(w: Work) {
    w.Applying? && |w.block.outcomes| == |PassActions(w.block.lists)|
  }

  /** The lock's own part of a step: entering leaves everything to do, and leaving logs a finished
      block. */
  function WorkAfter(s: Sys, step: B.Step): map<B.Pid, Work> {
    match step
    case Retried(p) => s.work[p := ToRead(s.now)]
    case Unlock(p) => s.work - {p}
    case _ => s.work
  }

  function LogAfter(s: Sys, step: B.Step): seq<Logged> {
    if step.Unlock? && step.p in s.work && Finished(s.work[step.p])
    then s.log + [Logged(s.work[step.p].block, s.now)] else s.log
  }

  /** A lock step leaves the rows alone.  A block is left when its pass is over, or when reading or
      comparing raised before any change. */
  ghost predicate LockStep(s: Sys, step: B.Step, s': Sys) {
    && B.Enabled(s.bolt, step)
    && (step.Unlock? && B.PhaseOf(s.bolt, step.p).Inside? ==>
          step.p in s.work && (s.work[step.p].Applying? ==> Finished(s.work[step.p])))
    && s' == s.(now := s.now + 1, bolt := B.Effect(s.bolt, step), work := WorkAfter(s, step), log := LogAfter(s, step))
  }

  ghost predicate Works(s: Sys, p: B.Pid) {
    p in s.work && B.PhaseOf(s.bolt, p).Inside?
  }

  /** `fetch_cartodbfied_tables`: the catalogue of this moment. */
  ghost predicate ReadStep(s: Sys, p: B.Pid, s': Sys) {
    && Works(s, p) && s.work[p].ToRead?
    && s' == s.(now := s.now + 1, work := s.work[p := ToCompare(s.work[p].entered, s.now, s.catalogue)])
  }

  /** The rest of `fetch_altered_tables`: the lists are computed from the catalogue read before and
      the rows of this moment. */
  ghost predicate CompareStep(s: Sys, p: B.Pid, a: Altered, s': Sys) {
    && Works(s, p) && s.work[p].ToCompare?
    && var w := s.work[p];
    && Lists(a, w.catalogue, Content(s.store)) && StrictLists(a)
    && s' == s.(now := s.now + 1,
                work := s.work[p := Applying(Block(p, w.entered, w.read, s.now, w.catalogue, a, []))])
  }

  /** A facade action that succeeds, or fails and is swallowed. */
  ghost predicate Outcome(s: Store, a: Action, ok: bool, s': Store) {
    if ok then Success(s, a, s') else s' == s
  }

  /** The next facade action of the pass. */
  ghost predicate ApplyStep(s: Sys, p: B.Pid, ok: bool, s': Sys) {
    && Works(s, p) && s.work[p].Applying?
    && var b := s.work[p].block;
    && |b.outcomes| < |PassActions(b.lists)|
    && Outcome(s.store, PassActions(b.lists)[|b.outcomes|], ok, s'.store)
    && s' == s.(now := s.now + 1, store := s'.store, work := s.work[p := Applying(b.(outcomes := b.outcomes + [ok]))])
  }

  /** A user creates, renames or drops tables through the SQL API. */
  ghost predicate UserStep(s: Sys, s': Sys) {
    s' == s.(now := s.now + 1, catalogue := s'.catalogue)
  }

  datatype Event =
    | Lock(step: B.Step)
    | Read(pid: B.Pid)
    | Compare(pid: B.Pid, lists: Altered)
    | Apply(pid: B.Pid, ok: bool)
    | User

  ghost predicate Next(s: Sys, e: Event, s': Sys) {
    match e
    case Lock(step) => LockStep(s, step, s')
    case Read(p) => ReadStep(s, p, s')
    case Compare(p, a) => CompareStep(s, p, a, s')
    case Apply(p, ok) => ApplyStep(s, p, ok, s')
    case User => UserStep(s, s')
  }

  ghost predicate InitSys(s: Sys) {
    s.now == 0 && B.Init(s.bolt) && s.work == map[] && s.log == []
  }

  /** The `i`th event leads from the `i`th state to the next. */
  ghost predicate Moves(ss: seq<Sys>, es: seq<Event>, i: nat) {
    i < |es| && i + 1 < |ss| && Next(ss[i], es[i], ss[i+1])
  }

  ghost predicate Behaviour(ss: seq<Sys>, es: seq<Event>) {
    |ss| == |es| + 1 && InitSys(ss[0]) && forall i :: 0 <= i < |es| ==> Moves(ss, es, i)
  }

  ghost predicate TimelyBehaviour(ss: seq<Sys>, es: seq<Event>) {
    Behaviour(ss, es) && forall i :: 0 <= i < |ss| ==> B.Timely(ss[i].bolt)
  }

  // ----- one worker at a time

  /** Only a process inside its block works, and only holders have work. */
  ghost predicate WorkIsLocked(s: Sys) {
    && B.OwnsKey(s.bolt)
    && forall p :: p in s.work ==> B.PhaseOf(s.bolt, p).Inside?
  }

  lemma WorkIsLockedStep(s: Sys, e: Event, s': Sys)
    requires WorkIsLocked(s) && B.Timely(s.bolt) && Next(s, e, s')
    ensures WorkIsLocked(s')
  {
    if e.Lock? {
      B.OwnsKeyStep(s.bolt, e.step);
    }
  }

  lemma OneWorker(s: Sys, p: B.Pid, q: B.Pid)
    requires WorkIsLocked(s) && p in s.work && q in s.work
    ensures p == q
  {
    assert B.Holds(s.bolt, p) && B.Holds(s.bolt, q);
  }

  /** Whoever takes or gives back the lock is the only one who can have work. */
  lemma HolderIsWorker(s: Sys, p: B.Pid, q: B.Pid)
    requires WorkIsLocked(s) && B.Holds(s.bolt, p) && q in s.work
    ensures p == q
  {
    assert B.Holds(s.bolt, q);
  }

  lemma {:induction false} WorkIsAlwaysLocked(ss: seq<Sys>, es: seq<Event>, n: nat)
    requires TimelyBehaviour(ss, es) && n < |ss|
    ensures WorkIsLocked(ss[n])
  {
    if n > 0 {
      WorkIsAlwaysLocked(ss, es, n - 1);
      assert Moves(ss, es, n - 1);
      WorkIsLockedStep(ss[n-1], es[n-1], ss[n]);
    }
  }

  // ----- the history is what happened

  /** Where among the first `n` events the process entered its block. */
  ghost predicate EnteredAt(es: seq<Event>, n: nat, p: B.Pid, entered: nat) {
    entered < n <= |es| && es[entered] == Lock(B.Retried(p))
  }

  /** And where in it the process read the catalogue. */
  ghost predicate ReadAt(ss: seq<Sys>, es: seq<Event>, n: nat, p: B.Pid, entered: nat, read: nat, catalogue: set<TableFacade>) {
    && EnteredAt(es, n, p, entered) && entered < read < n && es[read] == Read(p)
    && read < |ss| && catalogue == ss[read].catalogue
  }

  /** The block was entered, read the catalogue it names and compared it, at these moments. */
  ghost predicate Began(ss: seq<Sys>, es: seq<Event>, n: nat, b: Block) {
    && ReadAt(ss, es, n, b.pid, b.entered, b.read, b.catalogue)
    && b.read < b.compared < n && es[b.compared] == Compare(b.pid, b.lists)
  }

  ghost predicate WorkTrue(ss: seq<Sys>, es: seq<Event>, n: nat, p: B.Pid, w: Work) {
    match w
    case ToRead(entered) => EnteredAt(es, n, p, entered)
    case ToCompare(entered, read, catalogue) => ReadAt(ss, es, n, p, entered, read, catalogue)
    case Applying(b) => b.pid == p && Began(ss, es, n, b)
  }

  /** The block was over when its process gave the lock back, and this happened as logged. */
  ghost predicate LoggedTrue(ss: seq<Sys>, es: seq<Event>, n: nat, l: Logged) {
    && l.left < n <= |es| && Began(ss, es, l.left, l.block) && Finished(Applying(l.block))
    && es[l.left] == Lock(B.Unlock(l.block.pid))
    && l.left < |ss| && l.block.pid in ss[l.left].work && ss[l.left].work[l.block.pid] == Applying(l.block)
  }

  function Entered(w: Work): nat {
    if w.Applying? then w.block.entered else w.entered
  }

  /** The block was entered after the one before it was left. */
  ghost predicate Apart(log: seq<Logged>, i: nat)
    requires i < |log|
  {
    i > 0 ==> log[i-1].left < log[i].block.entered
  }

  /** Logged blocks happened as recorded, and do not overlap. */
  ghost predicate LogTrue(ss: seq<Sys>, es: seq<Event>, n: nat, log: seq<Logged>) {
    && (forall i :: 0 <= i < |log| ==> LoggedTrue(ss, es, n, log[i]))
    && (forall i :: 0 <= i < |log| ==> Apart(log, i))
  }

  /** The work was entered after the last logged block was left. */
  ghost predicate AfterLog(log: seq<Logged>, w: Work) {
    log != [] ==> log[|log|-1].left < Entered(w)
  }

  ghost predicate History(ss: seq<Sys>, es: seq<Event>, n: nat, s: Sys) {
    && s.now == n && LogTrue(ss, es, n, s.log)
    && forall p :: p in s.work ==> WorkTrue(ss, es, n, p, s.work[p]) && AfterLog(s.log, s.work[p])
  }

  lemma LogStaysTrue(ss: seq<Sys>, es: seq<Event>, n: nat, log: seq<Logged>)
    requires LogTrue(ss, es, n, log) && n < |es|
    ensures LogTrue(ss, es, n + 1, log)
    ensures log != [] ==> log[|log|-1].left < n
  {
    forall i | 0 <= i < |log| ensures LoggedTrue(ss, es, n + 1, log[i]) {
      assert LoggedTrue(ss, es, n, log[i]);
    }
    if log != [] {
      assert LoggedTrue(ss, es, n, log[|log|-1]);
    }
  }

  lemma LogOneMore(ss: seq<Sys>, es: seq<Event>, n: nat, log: seq<Logged>, l: Logged)
    requires LogTrue(ss, es, n, log) && LoggedTrue(ss, es, n, l) && AfterLog(log, Applying(l.block))
    ensures LogTrue(ss, es, n, log + [l])
  {
    var log' := log + [l];
    forall i | 0 <= i < |log'| ensures LoggedTrue(ss, es, n, log'[i]) {
      assert i < |log| ==> log'[i] == log[i];
    }
    forall i | 0 <= i < |log'| ensures Apart(log', i) {
      assert i < |log| ==> Apart(log, i) && log'[i] == log[i];
    }
  }

  lemma HistoryUnlock(ss: seq<Sys>, es: seq<Event>, n: nat, s: Sys, p: B.Pid, s': Sys)
    requires n < |es| && n < |ss| && ss[n] == s && es[n] == Lock(B.Unlock(p))
    requires History(ss, es, n, s) && (forall q :: q in s.work ==> q == p)
    requires s'.now == n + 1 && s'.work == s.work - {p} && s'.log == LogAfter(s, B.Unlock(p))
    ensures History(ss, es, n + 1, s')
  {
    assert s'.work == map[];
    LogStaysTrue(ss, es, n, s.log);
    if p in s.work && Finished(s.work[p]) {
      assert WorkTrue(ss, es, n, p, s.work[p]);
      LogOneMore(ss, es, n + 1, s.log, Logged(s.work[p].block, n));
    }
  }

  lemma WorkStaysTrue(ss: seq<Sys>, es: seq<Event>, n: nat, p: B.Pid, w: Work)
    requires WorkTrue(ss, es, n, p, w) && n < |es|
    ensures WorkTrue(ss, es, n + 1, p, w)
  {
  }

  lemma HistoryMoves(ss: seq<Sys>, es: seq<Event>, n: nat, s: Sys, s': Sys)
    requires n < |es| && n < |ss| && History(ss, es, n, s) && s'.now == n + 1 && s'.log == s.log
    requires forall q :: q in s'.work && q in s.work && s'.work[q] != s.work[q] ==>
      WorkTrue(ss, es, n + 1, q, s'.work[q]) && Entered(s.work[q]) == Entered(s'.work[q])
    requires forall q :: q in s'.work && q !in s.work ==> s'.work[q] == ToRead(n) && EnteredAt(es, n + 1, q, n)
    ensures History(ss, es, n + 1, s')
  {
    LogStaysTrue(ss, es, n, s.log);
    forall q | q in s'.work ensures WorkTrue(ss, es, n + 1, q, s'.work[q]) && AfterLog(s'.log, s'.work[q]) {
      if q in s.work {
        assert WorkTrue(ss, es, n, q, s.work[q]) && AfterLog(s.log, s.work[q]);
        WorkStaysTrue(ss, es, n, q, s.work[q]);
      }
    }
  }

  lemma HistoryLockStep(ss: seq<Sys>, es: seq<Event>, n: nat, s': Sys)
    requires n < |es| && n < |ss| && History(ss, es, n, ss[n]) && WorkIsLocked(ss[n])
    requires es[n].Lock? && LockStep(ss[n], es[n].step, s')
    ensures History(ss, es, n + 1, s')
  {
    var s, step := ss[n], es[n].step;
    if step.Unlock? {
      assert B.Holds(s.bolt, step.p);
      forall q | q in s.work ensures q == step.p {
        HolderIsWorker(s, step.p, q);
      }
      HistoryUnlock(ss, es, n, s, step.p, s');
    } else if step.Retried? {
      assert step.p !in s.work;
      HistoryMoves(ss, es, n, s, s');
    } else {
      HistoryMoves(ss, es, n, s, s');
    }
  }

  lemma HistoryStep(ss: seq<Sys>, es: seq<Event>, n: nat, s': Sys)
    requires n < |es| && n < |ss| && History(ss, es, n, ss[n]) && WorkIsLocked(ss[n]) && Next(ss[n], es[n], s')
    ensures History(ss, es, n + 1, s')
  {
    if es[n].Lock? {
      HistoryLockStep(ss, es, n, s');
    } else {
      HistoryMoves(ss, es, n, ss[n], s');
    }
  }

  lemma HistoryGoesOn(ss: seq<Sys>, es: seq<Event>, n: nat)
    requires TimelyBehaviour(ss, es) && n + 1 < |ss| && History(ss, es, n, ss[n])
    ensures History(ss, es, n + 1, ss[n+1])
  {
    WorkIsAlwaysLocked(ss, es, n);
    assert Moves(ss, es, n);
    HistoryStep(ss, es, n, ss[n+1]);
  }

  lemma HistoryAtStart(ss: seq<Sys>, es: seq<Event>, s: Sys)
    requires InitSys(s)
    ensures History(ss, es, 0, s)
  {
  }

  /** The history of every timely behaviour is true: each logged block was entered, read the
      catalogue, compared it and was left by its process at the moments logged, and no two blocks
      overlap. */
  lemma {:induction false} HistoryIsTrue(ss: seq<Sys>, es: seq<Event>, n: nat)
    requires TimelyBehaviour(ss, es) && n < |ss|
    ensures History(ss, es, n, ss[n])
  {
    if n == 0 {
      HistoryAtStart(ss, es, ss[0]);
    } else {
      HistoryIsTrue(ss, es, n - 1);
      HistoryGoesOn(ss, es, n - 1);
    }
  }

  lemma {:induction false} LogGrows(ss: seq<Sys>, es: seq<Event>, j: nat, n: nat)
    requires Behaviour(ss, es) && j <= n < |ss|
    ensures ss[j].log <= ss[n].log
  {
    if j < n {
      LogGrows(ss, es, j, n - 1);
      assert Moves(ss, es, n - 1);
    }
  }

  /** The event ends a finished block. */
  ghost predicate Ends(s: Sys, e: Event) {
    e.Lock? && e.step.Unlock? && e.step.p in s.work && Finished(s.work[e.step.p])
  }

  lemma EndsAreLogged(ss: seq<Sys>, es: seq<Event>, j: nat, n: nat)
    requires TimelyBehaviour(ss, es) && j < n < |ss| && Ends(ss[j], es[j])
    ensures exists i :: 0 <= i < |ss[n].log| && ss[n].log[i].left == j
  {
    HistoryIsTrue(ss, es, j);
    LogGrows(ss, es, j + 1, n);
    var i := |ss[j].log|;
    assert Moves(ss, es, j);
    assert ss[j+1].log[i].left == j;
    assert ss[n].log[i] == ss[j+1].log[i];
  }

  /** And it is complete: exactly the unlocks that end a finished block are logged. */
  lemma LoggedIffFinished(ss: seq<Sys>, es: seq<Event>, j: nat, n: nat)
    requires TimelyBehaviour(ss, es) && j < n < |ss|
    ensures (exists i :: 0 <= i < |ss[n].log| && ss[n].log[i].left == j) <==> Ends(ss[j], es[j])
  {
    if Ends(ss[j], es[j]) {
      EndsAreLogged(ss, es, j, n);
    }
    HistoryIsTrue(ss, es, n);
    forall i | 0 <= i < |ss[n].log| && ss[n].log[i].left == j ensures Ends(ss[j], es[j]) {
      assert LoggedTrue(ss, es, n, ss[n].log[i]);
    }
  }

  // ----- the rows are those of the logged blocks, one after the other

  /** `ts` runs through the actions with exactly these outcomes. */
  ghost predicate Outcomes(acts: seq<Action>, outcomes: seq<bool>, ts: seq<Store>) {
    && |outcomes| <= |acts| && |ts| == |outcomes| + 1
    && forall i :: 0 <= i < |outcomes| ==> Outcome(ts[i], acts[i], outcomes[i], ts[i+1])
  }

  ghost predicate Reaches(acts: seq<Action>, outcomes: seq<bool>, s: Store, s': Store) {
    exists ts: seq<Store> :: Outcomes(acts, outcomes, ts) && ts[0] == s && ts[|outcomes|] == s'
  }

  /** From the rows it compared, the block's actions lead to `s'` with the outcomes recorded. */
  ghost predicate LeadsTo(b: Block, s: Store, s': Store) {
    && Lists(b.lists, b.catalogue, Content(s)) && StrictLists(b.lists)
    && Reaches(PassActions(b.lists), b.outcomes, s, s')
  }

  /** What the first `i` logged blocks left. */
  ghost function RowsAfter(ss: seq<Sys>, log: seq<Logged>, i: nat): Store
    requires LogInRange(ss, log) && i <= |log|
  {
    if i == 0 then ss[0].store else ss[log[i-1].left].store
  }

  ghost predicate LogInRange(ss: seq<Sys>, log: seq<Logged>) {
    |ss| > 0 && forall j :: 0 <= j < |log| ==> log[j].left < |ss| && log[j].block.compared < |ss|
  }

  /** The block compared the rows `base` and has made them `now`. */
  ghost predicate Ran(ss: seq<Sys>, b: Block, base: Store, now: Store) {
    b.compared < |ss| && ss[b.compared].store == base && LeadsTo(b, base, now)
  }

  /** The block compared the rows that the one before it left, and went on from there. */
  ghost predicate GoesOn(ss: seq<Sys>, log: seq<Logged>, i: nat)
    requires LogInRange(ss, log) && i < |log|
  {
    Ran(ss, log[i].block, RowsAfter(ss, log, i), RowsAfter(ss, log, i + 1))
  }

  ghost predicate Serial(ss: seq<Sys>, log: seq<Logged>)
    requires LogInRange(ss, log)
  {
    forall i :: 0 <= i < |log| ==> GoesOn(ss, log, i)
  }

  /** The rows are `base` and what the present holder has done since. */
  ghost predicate PartWay(ss: seq<Sys>, s: Sys, base: Store) {
    && (forall p :: p in s.work && s.work[p].Applying? ==> Ran(ss, s.work[p].block, base, s.store))
    && ((forall p :: p in s.work ==> !s.work[p].Applying?) ==> s.store == base)
  }

  lemma NothingDoneYet(acts: seq<Action>, s: Store)
    ensures Reaches(acts, [], s, s)
  {
    assert Outcomes(acts, [], [s]);
  }

  lemma ReachesOneMore(acts: seq<Action>, outcomes: seq<bool>, s: Store, m: Store, ok: bool, s': Store)
    requires |outcomes| < |acts| && Reaches(acts, outcomes, s, m) && Outcome(m, acts[|outcomes|], ok, s')
    ensures Reaches(acts, outcomes + [ok], s, s')
  {
    var ts: seq<Store> :| Outcomes(acts, outcomes, ts) && ts[0] == s && ts[|outcomes|] == m;
    assert Outcomes(acts, outcomes + [ok], ts + [s']);
  }

  ghost predicate RowsTrue(ss: seq<Sys>, s: Sys) {
    LogInRange(ss, s.log) && Serial(ss, s.log) && PartWay(ss, s, RowsAfter(ss, s.log, |s.log|))
  }

  lemma CompareKeepsRows(ss: seq<Sys>, n: nat, p: B.Pid, a: Altered, s': Sys, base: Store)
    requires n < |ss| && ss[n].now == n && PartWay(ss, ss[n], base) && WorkIsLocked(ss[n]) && CompareStep(ss[n], p, a, s')
    ensures PartWay(ss, s', base)
  {
    forall q | q in ss[n].work ensures q == p {
      OneWorker(ss[n], p, q);
    }
    NothingDoneYet(PassActions(a), ss[n].store);
  }

  lemma ApplyGoesOn(ss: seq<Sys>, s: Sys, p: B.Pid, ok: bool, s': Sys, base: Store)
    requires PartWay(ss, s, base) && WorkIsLocked(s) && ApplyStep(s, p, ok, s')
    ensures PartWay(ss, s', base)
  {
    var b := s.work[p].block;
    forall q | q in s.work ensures q == p {
      OneWorker(s, p, q);
    }
    assert Ran(ss, b, base, s.store);
    ReachesOneMore(PassActions(b.lists), b.outcomes, base, s.store, ok, s'.store);
    assert Ran(ss, b.(outcomes := b.outcomes + [ok]), base, s'.store);
    assert p in s'.work && s'.work[p].Applying?;
  }

  /** A lock step that ends no block, and what users do, leaves everything as it is. */
  lemma RestKeepsRows(ss: seq<Sys>, s: Sys, s': Sys, base: Store)
    requires PartWay(ss, s, base) && s'.store == s.store
    requires forall p :: p in s'.work && s'.work[p].Applying? ==> p in s.work && s'.work[p] == s.work[p]
    requires forall p :: p in s.work && s.work[p].Applying? ==> p in s'.work && s'.work[p] == s.work[p]
    ensures PartWay(ss, s', base)
  {
  }

  lemma SerialSnoc(ss: seq<Sys>, log: seq<Logged>, l: Logged)
    requires LogInRange(ss, log) && Serial(ss, log) && l.left < |ss| && l.block.compared < |ss|
    requires Ran(ss, l.block, RowsAfter(ss, log, |log|), ss[l.left].store)
    ensures LogInRange(ss, log + [l]) && Serial(ss, log + [l])
    ensures RowsAfter(ss, log + [l], |log| + 1) == ss[l.left].store
  {
    var log' := log + [l];
    assert forall j :: 0 <= j < |log| ==> log'[j] == log[j];
    assert LogInRange(ss, log');
    forall i | 0 <= i < |log'| ensures GoesOn(ss, log', i) {
      SameRowsAfter(ss, log, l, i);
      if i < |log| {
        assert GoesOn(ss, log, i);
        SameRowsAfter(ss, log, l, i + 1);
      }
    }
  }

  lemma SameRowsAfter(ss: seq<Sys>, log: seq<Logged>, l: Logged, i: nat)
    requires LogInRange(ss, log) && LogInRange(ss, log + [l]) && i <= |log|
    ensures RowsAfter(ss, log + [l], i) == RowsAfter(ss, log, i)
  {
    assert i > 0 ==> (log + [l])[i-1] == log[i-1];
  }

  /** Giving the lock back ends a logged block, or one that changed nothing. */
  lemma RowsUnlockStep(ss: seq<Sys>, n: nat, p: B.Pid, s': Sys)
    requires n < |ss| && ss[n].now == n && RowsTrue(ss, ss[n]) && WorkIsLocked(ss[n]) && LockStep(ss[n], B.Unlock(p), s')
    ensures RowsTrue(ss, s')
  {
    var s := ss[n];
    assert B.Holds(s.bolt, p);
    forall q | q in s.work ensures q == p {
      HolderIsWorker(s, p, q);
    }
    assert s'.work == map[];
    if p in s.work && s.work[p].Applying? {
      var l := Logged(s.work[p].block, n);
      assert s'.log == s.log + [l];
      SerialSnoc(ss, s.log, l);
    }
  }

  lemma RowsLockStep(ss: seq<Sys>, s: Sys, step: B.Step, s': Sys)
    requires RowsTrue(ss, s) && WorkIsLocked(s) && !step.Unlock? && LockStep(s, step, s')
    ensures RowsTrue(ss, s')
  {
    if step.Retried? {
      assert B.Holds(s.bolt, step.p) && !B.PhaseOf(s.bolt, step.p).Inside?;
      forall q | q in s.work ensures q == step.p {
        HolderIsWorker(s, step.p, q);
      }
      assert step.p !in s.work;
    }
    RestKeepsRows(ss, s, s', RowsAfter(ss, s.log, |s.log|));
  }

  lemma RowsStep(ss: seq<Sys>, n: nat, e: Event, s': Sys)
    requires n < |ss| && ss[n].now == n && RowsTrue(ss, ss[n]) && WorkIsLocked(ss[n]) && Next(ss[n], e, s')
    ensures RowsTrue(ss, s')
  {
    var s, base := ss[n], RowsAfter(ss, ss[n].log, |ss[n].log|);
    match e
    case Lock(step) =>
      if step.Unlock? {
        RowsUnlockStep(ss, n, step.p, s');
      } else {
        RowsLockStep(ss, s, step, s');
      }
    case Read(p) => RestKeepsRows(ss, s, s', base);
    case Compare(p, a) => CompareKeepsRows(ss, n, p, a, s', base);
    case Apply(p, ok) => ApplyGoesOn(ss, s, p, ok, s', base);
    case User => RestKeepsRows(ss, s, s', base);
  }

  lemma RowsGoOn(ss: seq<Sys>, es: seq<Event>, n: nat)
    requires TimelyBehaviour(ss, es) && n + 1 < |ss| && RowsTrue(ss, ss[n])
    ensures RowsTrue(ss, ss[n+1])
  {
    HistoryIsTrue(ss, es, n);
    WorkIsAlwaysLocked(ss, es, n);
    assert Moves(ss, es, n);
    RowsStep(ss, n, es[n], ss[n+1]);
  }

  lemma RowsAtStart(ss: seq<Sys>)
    requires |ss| > 0 && ss[0].work == map[] && ss[0].log == []
    ensures RowsTrue(ss, ss[0])
  {
  }

  lemma {:induction false} RowsAreTrue(ss: seq<Sys>, es: seq<Event>, n: nat)
    requires TimelyBehaviour(ss, es) && n < |ss|
    ensures RowsTrue(ss, ss[n])
  {
    if n == 0 {
      RowsAtStart(ss);
    } else {
      RowsAreTrue(ss, es, n - 1);
      RowsGoOn(ss, es, n - 1);
    }
  }

  /** In every interleaving of locked syncs that end before their TTL, the rows are those of the
      logged blocks run one after the other in the order of their unlocks: each compared the rows
      the one before it had left with the catalogue it had read, and changed them by its four
      batches with exactly the logged outcomes.  On top of that comes only what the present holder
      has done so far. */
  lemma SyncsAreSerial(ss: seq<Sys>, es: seq<Event>, n: nat)
    requires TimelyBehaviour(ss, es) && n < |ss|
    ensures LogInRange(ss, ss[n].log) && Serial(ss, ss[n].log)
    ensures PartWay(ss, ss[n], RowsAfter(ss, ss[n].log, |ss[n].log|))
  {
    RowsAreTrue(ss, es, n);
  }

  /** A finished block is a whole pass over the catalogue it read. */
  lemma FinishedIsPass(b: Block, s: Store, s': Store) returns (ts: seq<Store>)
    requires LeadsTo(b, s, s') && Finished(Applying(b))
    ensures PassFromTo(b.catalogue, b.lists, ts, s, s') && Outcomes(PassActions(b.lists), b.outcomes, ts)
  {
    ts :| Outcomes(PassActions(b.lists), b.outcomes, ts) && ts[0] == s && ts[|b.outcomes|] == s';
  }

  /** A step that failed did not happen to be done already. */
  lemma FailedIsNoSuccess(C: set<TableFacade>, a: Altered, ts: seq<Store>, i: nat)
    requires Unique(C) && |ts| > 0 && ValidStore(ts[0]) && PassTrace(C, a, ts) && i < |PassActions(a)| && ts[i+1] == ts[i]
    ensures !Success(ts[i], PassActions(a)[i], ts[i+1])
  {
    DoneIffOwnStepSucceeded(C, a, ts, i, i);
    DoneIffOwnStepSucceeded(C, a, ts, i, i + 1);
  }

  /** So a whole block over a catalogue with unique ids and names keeps them unique in the rows, and
      leaves exactly the catalogue if and only if none of its steps failed. */
  lemma FinishedBlockReachesIff(b: Block, s: Store, s': Store)
    requires Unique(b.catalogue) && ValidStore(s) && LeadsTo(b, s, s') && Finished(Applying(b))
    ensures ValidStore(s')
    ensures Content(s') == b.catalogue <==> forall i :: 0 <= i < |b.outcomes| ==> b.outcomes[i]
  {
    var ts := FinishedIsPass(b, s, s');
    StagesEvolve(b.catalogue, b.lists, ts, |ts| - 1);
    PassReachesCatalogueIffAllSucceed(b.catalogue, b.lists, ts);
    var acts := PassActions(b.lists);
    forall i | 0 <= i < |acts| ensures b.outcomes[i] <==> Success(ts[i], acts[i], ts[i+1]) {
      assert Outcome(ts[i], acts[i], b.outcomes[i], ts[i+1]);
      if !b.outcomes[i] {
        FailedIsNoSuccess(b.catalogue, b.lists, ts, i);
      }
    }
    if i :| 0 <= i < |b.outcomes| && !b.outcomes[i] {
      assert !Success(ts[i], acts[i], ts[i+1]);
    }
  }

  // ----- what stays true once the rows are in sync

  /** Rows in sync with catalogue `C`, and nobody with anything left to apply. */
  ghost predicate Settled(s: Sys, C: set<TableFacade>) {
    && s.catalogue == C && ValidStore(s.store) && Content(s.store) == C
    && forall p :: p in s.work ==>
         && (s.work[p].Applying? ==> Finished(s.work[p]))
         && (s.work[p].ToCompare? ==> s.work[p].catalogue == C)
  }

  lemma SettledStep(s: Sys, e: Event, s': Sys, C: set<TableFacade>)
    requires Unique(C) && Settled(s, C) && Next(s, e, s') && s'.catalogue == C
    ensures Settled(s', C) && s'.store == s.store
  {
    if e.Compare? {
      ValidStoreIsUnique(s.store);
      SyncedPassIsEmpty(C, e.lists, C);
    }
  }

  /** With a fixed catalogue, rows that are in sync with nothing left to apply never change again,
      lock or no lock. */
  lemma {:induction false} SettledForEver(ss: seq<Sys>, es: seq<Event>, k: nat, j: nat, C: set<TableFacade>)
    requires Behaviour(ss, es) && Unique(C) && k <= j < |ss| && Settled(ss[k], C)
    requires forall i :: k <= i < |ss| ==> ss[i].catalogue == C
    ensures Settled(ss[j], C) && ss[j].store == ss[k].store
  {
    if k < j {
      SettledForEver(ss, es, k, j - 1, C);
      assert Moves(ss, es, j - 1) && ss[j].catalogue == C;
      SettledStep(ss[j-1], es[j-1], ss[j], C);
    }
  }

  ghost predicate UniqueCatalogues(ss: seq<Sys>) {
    forall i :: 0 <= i < |ss| ==> Unique(ss[i].catalogue)
  }

  /** Every logged block leaves rows with unique ids and names. */
  lemma {:induction false} SerialKeepsValid(ss: seq<Sys>, log: seq<Logged>, i: nat)
    requires LogInRange(ss, log) && Serial(ss, log) && i <= |log| && ValidStore(ss[0].store)
    requires forall j :: 0 <= j < |log| ==> Unique(log[j].block.catalogue) && Finished(Applying(log[j].block))
    ensures ValidStore(RowsAfter(ss, log, i))
  {
    if i > 0 {
      SerialKeepsValid(ss, log, i - 1);
      assert GoesOn(ss, log, i - 1);
      FinishedBlockReachesIff(log[i-1].block, RowsAfter(ss, log, i - 1), RowsAfter(ss, log, i));
    }
  }

  lemma LoggedCataloguesUnique(ss: seq<Sys>, es: seq<Event>, n: nat)
    requires TimelyBehaviour(ss, es) && UniqueCatalogues(ss) && n < |ss|
    ensures forall j :: 0 <= j < |ss[n].log| ==> Unique(ss[n].log[j].block.catalogue) && Finished(Applying(ss[n].log[j].block))
  {
    HistoryIsTrue(ss, es, n);
    forall j | 0 <= j < |ss[n].log|
      ensures Unique(ss[n].log[j].block.catalogue) && Finished(Applying(ss[n].log[j].block))
    {
      assert LoggedTrue(ss, es, n, ss[n].log[j]);
    }
  }

  lemma CleanFinishIsSettled(ss: seq<Sys>, es: seq<Event>, k: nat, p: B.Pid)
    requires TimelyBehaviour(ss, es) && ValidStore(ss[0].store) && UniqueCatalogues(ss) && k < |ss|
    requires p in ss[k].work && Finished(ss[k].work[p]) && ss[k].catalogue == ss[k].work[p].block.catalogue
    requires forall i :: 0 <= i < |ss[k].work[p].block.outcomes| ==> ss[k].work[p].block.outcomes[i]
    ensures Settled(ss[k], ss[k].catalogue)
  {
    var s, b := ss[k], ss[k].work[p].block;
    SyncsAreSerial(ss, es, k);
    WorkIsAlwaysLocked(ss, es, k);
    LoggedCataloguesUnique(ss, es, k);
    SerialKeepsValid(ss, s.log, |s.log|);
    FinishedBlockReachesIff(b, RowsAfter(ss, s.log, |s.log|), s.store);
    forall q | q in s.work ensures q == p {
      OneWorker(s, p, q);
    }
  }

  /** Once one pass has gone through without a failure under the lock, and the catalogue stays as
      it was read, the rows equal it ever after. */
  lemma FailureFreePassSettles(ss: seq<Sys>, es: seq<Event>, k: nat, p: B.Pid, j: nat)
    requires TimelyBehaviour(ss, es) && ValidStore(ss[0].store) && UniqueCatalogues(ss) && k <= j < |ss|
    requires p in ss[k].work && Finished(ss[k].work[p])
    requires forall i :: 0 <= i < |ss[k].work[p].block.outcomes| ==> ss[k].work[p].block.outcomes[i]
    requires forall i :: k <= i < |ss| ==> ss[i].catalogue == ss[k].work[p].block.catalogue
    ensures Content(ss[j].store) == ss[j].catalogue && ss[j].store == ss[k].store
  {
    CleanFinishIsSettled(ss, es, k, p);
    SettledForEver(ss, es, k, j, ss[k].catalogue);
  }
}
