/** The Bolt lock protocol as a state machine: any number of processes run `run_locked` on one key,
    and every Redis command is a step of its own.  The key holds `true` for everyone; which
    process set it is recorded only to state what `unlock` deletes. */
module Bolt {
  import opened Wrappers

  type Pid = nat

  /** The arguments of one `run_locked` call: `reschedules` says that a fail function is given. */
  datatype Request = Request(ttl: nat, attempts: nat, timeout: nat, reschedules: bool)

  /** Where a process is in `run_locked`. */
  datatype Phase =
    | Idle
    | Trying(req: Request, left: nat)
    | Sleeping(req: Request, left: nat, until: int)
    | Acquired(req: Request, at: int)
    | Inside(req: Request, at: int)
    | Denied(req: Request)
    | Calling

  datatype Lock = Lock(owner: Pid, expires: int)

  /** The two Redis keys, the clock and the processes, with counters of the `retried` resets, of
      the `set_retry` calls that found no flag, and of the fail function calls. */
  datatype State = State(clock: int, lock: Option<Lock>, retry: bool, procs: map<Pid, Phase>,
                         resets: nat, grants: nat, calls: nat)

  datatype Step =
    | Tick(ms: nat)
    | Start(p: Pid, req: Request)
    | GetLock(p: Pid)
    | GiveUp(p: Pid)
    | Wake(p: Pid)
    | Retried(p: Pid)
    | Unlock(p: Pid)
    | SetRetry(p: Pid)
    | CallFail(p: Pid)

  function PhaseOf(s: State, p: Pid): Phase {
    if p in s.procs then s.procs[p] else Idle
  }

  /** A key set with PX is there until its time is over. */
  predicate Alive(s: State) {
    s.lock.Some? && s.clock < s.lock.value.expires
  }

  function Goto(s: State, p: Pid, ph: Phase): State {
    s.(procs := s.procs[p := ph])
  }

  predicate Enabled(s: State, step: Step) {
    match step
    case Tick(ms) => true
    case Start(p, req) => PhaseOf(s, p).Idle?
    case GetLock(p) => PhaseOf(s, p).Trying? && PhaseOf(s, p).left > 0
    case GiveUp(p) => PhaseOf(s, p).Trying? && PhaseOf(s, p).left == 0
    case Wake(p) => PhaseOf(s, p).Sleeping? && s.clock >= PhaseOf(s, p).until
    case Retried(p) => PhaseOf(s, p).Acquired?
    case Unlock(p) => PhaseOf(s, p).Acquired? || PhaseOf(s, p).Inside?
    case SetRetry(p) => PhaseOf(s, p).Denied?
    case CallFail(p) => PhaseOf(s, p).Calling?
  }

  function Effect(s: State, step: Step): State
    requires Enabled(s, step)
  {
    match step
    case Tick(ms) => s.(clock := s.clock + ms)
    case Start(p, req) => Goto(s, p, Trying(req, req.attempts))
    case GetLock(p) =>
      var Trying(req, left) := PhaseOf(s, p);
      if !Alive(s) then
        Goto(s, p, Acquired(req, s.clock)).(lock := Some(Lock(p, s.clock + req.ttl)))
      else if left == 1 then
        Goto(s, p, Denied(req))
      else
        Goto(s, p, Sleeping(req, left - 1, s.clock + req.timeout))
    case GiveUp(p) => Goto(s, p, Denied(PhaseOf(s, p).req))
    case Wake(p) => Goto(s, p, Trying(PhaseOf(s, p).req, PhaseOf(s, p).left))
    case Retried(p) =>
      Goto(s, p, Inside(PhaseOf(s, p).req, PhaseOf(s, p).at)).(retry := false, resets := s.resets + 1)
    case Unlock(p) => Goto(s, p, Idle).(lock := None)
    case SetRetry(p) =>
      if !PhaseOf(s, p).req.reschedules then Goto(s, p, Idle)
      else if s.retry then Goto(s, p, Idle)
      else Goto(s, p, Calling).(retry := true, grants := s.grants + 1)
    case CallFail(p) => Goto(s, p, Idle).(calls := s.calls + 1)
  }

  predicate Init(s: State) {
    !Alive(s) && !s.retry && s.procs == map[] && s.resets == 0 && s.grants == 0 && s.calls == 0
  }

  ghost predicate Run(ss: seq<State>, steps: seq<Step>) {
    && |ss| == |steps| + 1
    && forall i :: 0 <= i < |steps| ==> Enabled(ss[i], steps[i]) && ss[i+1] == Effect(ss[i], steps[i])
  }

  // ----- mutual exclusion

  /** Between taking the lock and giving it back. */
  predicate Holds(s: State, p: Pid) {
    PhaseOf(s, p).Acquired? || PhaseOf(s, p).Inside?
  }

  /** No holder has used up its TTL. */
  ghost predicate Timely(s: State) {
    forall p :: Holds(s, p) ==> s.clock < PhaseOf(s, p).at + PhaseOf(s, p).req.ttl
  }

  /** The key is the one the holder set. */
  ghost predicate OwnsKey(s: State) {
    forall p :: Holds(s, p) ==> s.lock == Some(Lock(p, PhaseOf(s, p).at + PhaseOf(s, p).req.ttl))
  }

  lemma OwnsKeyStep(s: State, step: Step)
    requires Enabled(s, step) && OwnsKey(s) && Timely(s)
    ensures OwnsKey(Effect(s, step))
  {
    var s' := Effect(s, step);
    forall p | Holds(s', p)
      ensures s'.lock == Some(Lock(p, PhaseOf(s', p).at + PhaseOf(s', p).req.ttl))
    {
      assert Holds(s, p) || step == GetLock(p);
      if step.GetLock? && step.p != p {
        assert Alive(s);
      }
    }
  }

  lemma {:induction false} OwnsKeyAlways(ss: seq<State>, steps: seq<Step>, k: nat)
    requires Run(ss, steps) && Init(ss[0]) && k < |ss|
    requires forall i :: 0 <= i < k ==> Timely(ss[i])
    ensures OwnsKey(ss[k])
  {
    if k > 0 {
      OwnsKeyAlways(ss, steps, k - 1);
      OwnsKeyStep(ss[k-1], steps[k-1]);
    }
  }

  /** If every holder gives the lock back before its TTL, then at every moment at most one process
      holds it, and every `unlock` deletes the key its caller set: it was there and is gone. */
  lemma MutualExclusion(ss: seq<State>, steps: seq<Step>)
    requires Run(ss, steps) && Init(ss[0]) && forall i :: 0 <= i < |ss| ==> Timely(ss[i])
    ensures forall i, p, q :: 0 <= i < |ss| && Holds(ss[i], p) && Holds(ss[i], q) ==> p == q
    ensures forall i :: 0 <= i < |steps| && steps[i].Unlock? ==>
      Alive(ss[i]) && ss[i].lock.value.owner == steps[i].p && !Alive(ss[i+1])
  {
    forall i | 0 <= i < |ss| ensures OwnsKey(ss[i]) {
      OwnsKeyAlways(ss, steps, i);
    }
    forall i, p, q | 0 <= i < |ss| && Holds(ss[i], p) && Holds(ss[i], q)
      ensures p == q
    {
      assert OwnsKey(ss[i]);
    }
    forall i | 0 <= i < |steps| && steps[i].Unlock?
      ensures Alive(ss[i]) && ss[i].lock.value.owner == steps[i].p && !Alive(ss[i+1])
    {
      assert OwnsKey(ss[i]) && Timely(ss[i]) && Holds(ss[i], steps[i].p);
      assert ss[i+1] == Effect(ss[i], steps[i]);
    }
  }

  /** Somebody is between taking the lock and giving it back. */
  ghost predicate Held(s: State) {
    exists p :: Holds(s, p)
  }

  lemma KeyIsHeldStep(s: State, step: Step)
    requires Enabled(s, step) && (Alive(s) ==> Held(s))
    ensures Alive(Effect(s, step)) ==> Held(Effect(s, step))
  {
    var s' := Effect(s, step);
    if Alive(s') {
      if step.GetLock? && !Alive(s) {
        assert Holds(s', step.p);
      } else {
        var p :| Holds(s, p);
        assert Holds(s', p);
      }
    }
  }

  lemma {:induction false} KeyIsHeld(ss: seq<State>, steps: seq<Step>, k: nat)
    requires Run(ss, steps) && Init(ss[0]) && k < |ss|
    ensures Alive(ss[k]) ==> Held(ss[k])
  {
    if k > 0 {
      KeyIsHeld(ss, steps, k - 1);
      KeyIsHeldStep(ss[k-1], steps[k-1]);
    }
  }

  /** The key is there exactly while somebody holds the lock: giving it back frees it at once. */
  lemma KeyIffHeld(ss: seq<State>, steps: seq<Step>, k: nat)
    requires Run(ss, steps) && Init(ss[0]) && k < |ss|
    requires forall i :: 0 <= i < |ss| ==> Timely(ss[i])
    ensures Alive(ss[k]) <==> Held(ss[k])
  {
    KeyIsHeld(ss, steps, k);
    OwnsKeyAlways(ss, steps, k);
    assert Timely(ss[k]);
  }

  /** So whoever tries gets the lock exactly when nobody holds it. */
  lemma GetsTheLockIff(ss: seq<State>, steps: seq<Step>, k: nat)
    requires Run(ss, steps) && Init(ss[0]) && k < |steps| && steps[k].GetLock?
    requires forall i :: 0 <= i < |ss| ==> Timely(ss[i])
    ensures Holds(ss[k+1], steps[k].p) <==> !Held(ss[k])
  {
    KeyIffHeld(ss, steps, k);
    assert Enabled(ss[k], steps[k]) && ss[k+1] == Effect(ss[k], steps[k]);
  }

  // ----- attempts

  /** How often the process has asked for the key since it last started, and when it started. */
  function Asked(steps: seq<Step>, p: Pid): nat {
    if steps == [] then 0
    else
      var last, before := steps[|steps|-1], steps[..|steps|-1];
      if last.Start? && last.p == p then 0
      else Asked(before, p) + if last == GetLock(p) then 1 else 0
  }

  function StartedAt(ss: seq<State>, steps: seq<Step>, p: Pid): int
    requires |ss| == |steps| + 1
    decreases |steps|
  {
    if steps == [] then 0
    else
      var n := |steps| - 1;
      if steps[n].Start? && steps[n].p == p then ss[n].clock else StartedAt(ss[..n+1], steps[..n], p)
  }

  /** Each attempt but the last is followed by the timeout; all of them are used before giving up. */
  ghost predicate Attempts(ph: Phase, clock: int, asked: nat, started: int) {
    match ph
    case Trying(req, left) => asked + left == req.attempts && clock >= started + asked * req.timeout
    case Sleeping(req, left, until) => asked + left == req.attempts && left > 0 && until >= started + asked * req.timeout
    case Denied(req) => asked == req.attempts && clock >= started + (asked - 1) * req.timeout
    case _ => true
  }

  lemma AttemptsStep(s: State, step: Step, p: Pid, asked: nat, started: int)
    requires Enabled(s, step) && Attempts(PhaseOf(s, p), s.clock, asked, started)
    requires !(step.Start? && step.p == p)
    ensures Attempts(PhaseOf(Effect(s, step), p), Effect(s, step).clock, asked + (if step == GetLock(p) then 1 else 0), started)
  {
    if step == GetLock(p) {
      var Trying(req, left) := PhaseOf(s, p);
      OneMoreTimeout(asked, req.timeout);
    }
  }

  lemma OneMoreTimeout(n: nat, t: nat)
    ensures (n + 1) * t == n * t + t
  {
  }

  lemma RunPrefix(ss: seq<State>, steps: seq<Step>)
    requires Run(ss, steps) && steps != []
    ensures var n := |steps| - 1; Run(ss[..n+1], steps[..n])
  {
    var n := |steps| - 1;
    forall i | 0 <= i < n ensures Enabled(ss[..n+1][i], steps[..n][i]) && ss[..n+1][i+1] == Effect(ss[..n+1][i], steps[..n][i]) {
      assert Enabled(ss[i], steps[i]) && ss[i+1] == Effect(ss[i], steps[i]);
    }
  }

  lemma {:induction false} AttemptsAlways(ss: seq<State>, steps: seq<Step>, p: Pid)
    requires Run(ss, steps) && Init(ss[0])
    ensures Attempts(PhaseOf(ss[|steps|], p), ss[|steps|].clock, Asked(steps, p), StartedAt(ss, steps, p))
    decreases |steps|
  {
    if steps != [] {
      var n := |steps| - 1;
      var ss', steps' := ss[..n+1], steps[..n];
      RunPrefix(ss, steps);
      AttemptsAlways(ss', steps', p);
      assert Enabled(ss[n], steps[n]) && ss[n+1] == Effect(ss[n], steps[n]);
      if !(steps[n].Start? && steps[n].p == p) {
        AttemptsStep(ss[n], steps[n], p, Asked(steps', p), StartedAt(ss', steps', p));
      }
    }
  }

  /** Nobody is denied before having asked exactly as often as the request allows, with the timeout
      between any two attempts. */
  lemma DeniedAfterAllAttempts(ss: seq<State>, steps: seq<Step>, p: Pid)
    requires Run(ss, steps) && Init(ss[0]) && PhaseOf(ss[|steps|], p).Denied?
    ensures var req := PhaseOf(ss[|steps|], p).req;
      && Asked(steps, p) == req.attempts
      && ss[|steps|].clock >= StartedAt(ss, steps, p) + (req.attempts - 1) * req.timeout
  {
    AttemptsAlways(ss, steps, p);
  }

  /** Wherever two processes hold the lock at once, some holder overstayed at or before that
      moment. */
  lemma OverlapMeansOverstay(ss: seq<State>, steps: seq<Step>, k: nat, p: Pid, q: Pid)
    requires Run(ss, steps) && Init(ss[0]) && k < |ss| && p != q && Holds(ss[k], p) && Holds(ss[k], q)
    ensures exists i :: 0 <= i < k && !Timely(ss[i])
  {
    if forall i :: 0 <= i < k ==> Timely(ss[i]) {
      OwnsKeyAlways(ss, steps, k);
    }
  }

  /** The TTL really is needed: a holder that overstays lets a second one in, and its late `unlock`
      deletes the second one's key. */
  lemma OverstayBreaksExclusion() returns (ss: seq<State>, steps: seq<Step>, k: nat, p: Pid, q: Pid)
    ensures Run(ss, steps) && Init(ss[0]) && k < |steps|
    ensures p != q && Holds(ss[k], p) && Holds(ss[k], q)
    ensures steps[k] == Unlock(p) && Alive(ss[k]) && ss[k].lock.value.owner == q
    ensures Holds(ss[k+1], q) && !Alive(ss[k+1])
  {
    var req := Request(10, 1, 0, false);
    var s0 := State(0, None, false, map[], 0, 0, 0);
    var s1 := Effect(s0, Start(0, req));
    var s2 := Effect(s1, GetLock(0));
    var s3 := Effect(s2, Tick(10));
    var s4 := Effect(s3, Start(1, req));
    var s5 := Effect(s4, GetLock(1));
    var s6 := Effect(s5, Unlock(0));
    ss := [s0, s1, s2, s3, s4, s5, s6];
    steps := [Start(0, req), GetLock(0), Tick(10), Start(1, req), GetLock(1), Unlock(0)];
    k, p, q := 5, 0, 1;
    assert Run(ss, steps);
  }

  // ----- rescheduling

  ghost function CallingSet(s: State): set<Pid> {
    set p | p in s.procs && s.procs[p].Calling?
  }

  /** Since the last reset the flag was granted once if it is set, and not at all if it is not;
      whoever was granted it has called its fail function or is about to. */
  ghost predicate Accounts(s: State) {
    && s.grants <= s.resets + (if s.retry then 1 else 0)
    && s.calls + |CallingSet(s)| == s.grants
  }

  function CallsOf(ph: Phase): nat {
    if ph.Calling? then 1 else 0
  }

  lemma GotoCalling(s: State, p: Pid, ph: Phase)
    ensures |CallingSet(Goto(s, p, ph))| == |CallingSet(s)| + CallsOf(ph) - CallsOf(PhaseOf(s, p))
  {
    var others := CallingSet(s) - {p};
    assert CallingSet(s) == if PhaseOf(s, p).Calling? then others + {p} else others;
    assert CallingSet(Goto(s, p, ph)) == if ph.Calling? then others + {p} else others;
  }

  lemma CallingSetStep(s: State, step: Step)
    requires Enabled(s, step)
    ensures var s' := Effect(s, step);
      |CallingSet(s')| + s'.calls - s'.grants == |CallingSet(s)| + s.calls - s.grants
  {
    var s' := Effect(s, step);
    if !step.Tick? {
      var ph := PhaseOf(s', step.p);
      assert s'.procs == Goto(s, step.p, ph).procs;
      assert CallingSet(s') == CallingSet(Goto(s, step.p, ph));
      GotoCalling(s, step.p, ph);
      assert s'.calls - s'.grants == s.calls - s.grants + CallsOf(PhaseOf(s, step.p)) - CallsOf(ph);
    }
  }

  lemma {:induction false} AccountsAlways(ss: seq<State>, steps: seq<Step>, k: nat)
    requires Run(ss, steps) && Init(ss[0]) && k < |ss|
    ensures Accounts(ss[k])
  {
    if k == 0 {
      assert CallingSet(ss[0]) == {};
    } else {
      AccountsAlways(ss, steps, k - 1);
      CallingSetStep(ss[k-1], steps[k-1]);
    }
  }

  /** Over any run, overstaying holders included, fail functions are called at most once more than
      locked blocks are started. */
  lemma CallsAreThrottled(ss: seq<State>, steps: seq<Step>, k: nat)
    requires Run(ss, steps) && Init(ss[0]) && k < |ss|
    ensures ss[k].calls <= ss[k].grants <= ss[k].resets + 1
  {
    AccountsAlways(ss, steps, k);
  }

  lemma {:induction false} GrantsSince(ss: seq<State>, steps: seq<Step>, i: nat, j: nat)
    requires Run(ss, steps) && i <= j < |ss| && ss[i].resets == ss[j].resets
    ensures ss[j].grants - ss[i].grants == (if ss[j].retry then 1 else 0) - (if ss[i].retry then 1 else 0)
    ensures |CallingSet(ss[j])| + ss[j].calls - ss[j].grants == |CallingSet(ss[i])| + ss[i].calls - ss[i].grants
  {
    if i < j {
      ResetsGrow(ss, steps, i, j - 1);
      GrantsSince(ss, steps, i, j - 1);
      CallingSetStep(ss[j-1], steps[j-1]);
    }
  }

  lemma {:induction false} ResetsGrow(ss: seq<State>, steps: seq<Step>, i: nat, j: nat)
    requires Run(ss, steps) && i <= j < |ss|
    ensures ss[i].resets <= ss[j].resets
  {
    if i < j {
      ResetsGrow(ss, steps, i, j - 1);
    }
  }

  /** Between two resets at most one denied process is granted the right to reschedule. */
  lemma OneGrantPerEpoch(ss: seq<State>, steps: seq<Step>, i: nat, j: nat)
    requires Run(ss, steps) && i <= j < |ss| && ss[i].resets == ss[j].resets
    ensures ss[j].grants <= ss[i].grants + 1
  {
    GrantsSince(ss, steps, i, j);
  }

  lemma {:induction false} FlagStays(ss: seq<State>, steps: seq<Step>, i: nat, j: nat)
    requires Run(ss, steps) && i <= j < |ss| && ss[i].resets == ss[j].resets && ss[i].retry
    ensures ss[j].retry
  {
    if i < j {
      ResetsGrow(ss, steps, i, j - 1);
      FlagStays(ss, steps, i, j - 1);
      assert Enabled(ss[j-1], steps[j-1]) && ss[j] == Effect(ss[j-1], steps[j-1]);
    }
  }

  /** And the right is not lost: from a reset to the next, once a process with a fail function has
      been denied, exactly one has been granted it; before that none has. */
  lemma GrantedIffSomeoneDenied(ss: seq<State>, steps: seq<Step>, i: nat, j: nat)
    requires Run(ss, steps) && i <= j < |ss| && ss[i].resets == ss[j].resets && !ss[i].retry
    ensures ss[j].grants == ss[i].grants +
      if exists k :: i <= k < j && steps[k].SetRetry? && PhaseOf(ss[k], steps[k].p).req.reschedules then 1 else 0
  {
    GrantsSince(ss, steps, i, j);
    if k :| i <= k < j && steps[k].SetRetry? && PhaseOf(ss[k], steps[k].p).req.reschedules {
      ResetsGrow(ss, steps, i, k);
      ResetsGrow(ss, steps, k, k + 1);
      ResetsGrow(ss, steps, k + 1, j);
      assert Enabled(ss[k], steps[k]) && ss[k+1] == Effect(ss[k], steps[k]);
      FlagStays(ss, steps, k + 1, j);
    } else {
      NobodyAsks(ss, steps, i, j);
    }
  }

  lemma {:induction false} NobodyAsks(ss: seq<State>, steps: seq<Step>, i: nat, j: nat)
    requires Run(ss, steps) && i <= j < |ss| && !ss[i].retry
    requires forall k :: i <= k < j && steps[k].SetRetry? ==> Enabled(ss[k], steps[k]) && !PhaseOf(ss[k], steps[k].p).req.reschedules
    ensures !ss[j].retry
  {
    if i < j {
      NobodyAsks(ss, steps, i, j - 1);
      assert Enabled(ss[j-1], steps[j-1]) && ss[j] == Effect(ss[j-1], steps[j-1]);
    }
  }

  /** The calls themselves may lag behind: right after a reset, every way to go on up to the next
      reset has at most one fail call exactly when no granted call was still outstanding. */
  lemma OneCallPerEpochIff(s: State)
    requires !s.retry
    ensures (forall ss: seq<State>, steps: seq<Step> :: Run(ss, steps) && ss[0] == s && ss[|steps|].resets == s.resets ==>
               ss[|steps|].calls <= s.calls + 1)
            <==> CallingSet(s) == {}
  {
    if CallingSet(s) == {} {
      forall ss: seq<State>, steps: seq<Step> | Run(ss, steps) && ss[0] == s && ss[|steps|].resets == s.resets
        ensures ss[|steps|].calls <= s.calls + 1
      {
        GrantsSince(ss, steps, 0, |steps|);
      }
    } else {
      var p :| p in CallingSet(s);
      var q := FreshPid(s.procs.Keys);
      var req := Request(1, 0, 0, true);
      var steps := [CallFail(p), Start(q, req), GiveUp(q), SetRetry(q), CallFail(q)];
      var s1 := Effect(s, CallFail(p));
      var s2 := Effect(s1, Start(q, req));
      var s3 := Effect(s2, GiveUp(q));
      var s4 := Effect(s3, SetRetry(q));
      var s5 := Effect(s4, CallFail(q));
      var ss := [s, s1, s2, s3, s4, s5];
      assert Run(ss, steps) && ss[|steps|] == s5 && s5.resets == s.resets && s5.calls == s.calls + 2;
    }
  }

  lemma {:induction false} FreshPid(s: set<Pid>) returns (q: Pid)
    ensures forall p :: p in s ==> p < q
  {
    if s == {} {
      q := 0;
    } else {
      var p :| p in s;
      var r := FreshPid(s - {p});
      q := if p < r then r else p + 1;
      assert forall x :: x in s ==> x == p || x in s - {p};
    }
  }

  /** A run from the start in which every holder is in time. */
  ghost predicate TimelyRun(ss: seq<State>, steps: seq<Step>) {
    Run(ss, steps) && Init(ss[0]) && forall k :: 0 <= k < |ss| ==> Timely(ss[k])
  }

  lemma Extend(ss: seq<State>, steps: seq<Step>, step: Step, s': State) returns (ss': seq<State>, steps': seq<Step>)
    requires TimelyRun(ss, steps) && Enabled(ss[|steps|], step) && s' == Effect(ss[|steps|], step) && Timely(s')
    ensures TimelyRun(ss', steps') && |steps'| == |steps| + 1 && steps'[|steps|] == step && ss'[|steps'|] == s'
  {
    ss', steps' := ss + [s'], steps + [step];
  }

  /** One process holds the lock and has yet to call `retried`; another is waiting for it. */
  lemma HolderAndWaiter(req: Request) returns (ss: seq<State>, steps: seq<Step>)
    requires req == Request(10, 1, 0, true)
    ensures TimelyRun(ss, steps)
    ensures ss[|steps|] == State(0, Some(Lock(0, 10)), false, map[0 := Acquired(req, 0), 1 := Trying(req, 1)], 0, 0, 0)
  {
    var key := Some(Lock(0, 10));
    ss, steps := [State(0, None, false, map[], 0, 0, 0)], [];
    ss, steps := Extend(ss, steps, Start(0, req), State(0, None, false, map[0 := Trying(req, 1)], 0, 0, 0));
    ss, steps := Extend(ss, steps, GetLock(0), State(0, key, false, map[0 := Acquired(req, 0)], 0, 0, 0));
    ss, steps := Extend(ss, steps, Start(1, req), State(0, key, false, map[0 := Acquired(req, 0), 1 := Trying(req, 1)], 0, 0, 0));
  }

  /** The waiting process is denied and granted the flag before the holder has called `retried`. */
  lemma GrantedBeforeReset(req: Request) returns (ss: seq<State>, steps: seq<Step>)
    requires req == Request(10, 1, 0, true)
    ensures TimelyRun(ss, steps)
    ensures ss[|steps|] == State(0, Some(Lock(0, 10)), true, map[0 := Acquired(req, 0), 1 := Calling], 0, 1, 0)
  {
    var key := Some(Lock(0, 10));
    ss, steps := HolderAndWaiter(req);
    ss, steps := Extend(ss, steps, GetLock(1), State(0, key, false, map[0 := Acquired(req, 0), 1 := Denied(req)], 0, 0, 0));
    ss, steps := Extend(ss, steps, SetRetry(1), State(0, key, true, map[0 := Acquired(req, 0), 1 := Calling], 0, 1, 0));
  }

  /** A call can be outstanding at a reset, with every holder in time: a denied process is granted
      the flag after the lock is taken but before the new holder's `retried`. */
  lemma CallOutstandingAtReset() returns (ss: seq<State>, steps: seq<Step>)
    ensures TimelyRun(ss, steps) && steps != [] && steps[|steps|-1].Retried?
    ensures Alive(ss[|steps|]) && !ss[|steps|].retry && CallingSet(ss[|steps|]) != {}
  {
    var req := Request(10, 1, 0, true);
    ss, steps := GrantedBeforeReset(req);
    ss, steps := Extend(ss, steps, Retried(0), State(0, Some(Lock(0, 10)), false, map[0 := Inside(req, 0), 1 := Calling], 1, 1, 0));
    assert 1 in CallingSet(ss[|steps|]);
  }
}
