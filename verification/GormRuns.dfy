/**
 Runs of many expiry-row lockers on one lock name, with a shared clock. Lock and Renew
 read the clock first and commit later, with anything in between.
 */
module GormRuns {
  import opened Common
  import opened LeaseSpec
  import opened GormLocker

  datatype Settings = Settings(owner: string, timeout: int)
  type Config = map<Client, Settings>

  datatype Phase = Idle | Locking(reading: int) | Renewing(reading: int)

  /** A client, the lease it believes in, and what it is about to commit. */
  datatype ClientState = ClientState(phase: Phase, lease: Option<int>)

  datatype State = State(now: int, cell: Option<Row>, clients: map<Client, ClientState>)

  /** A lock attempt or a renewal fails when a statement of it does: it then commits nothing. */
  datatype Step =
    | Tick(to: int)
    | BeginLock(c: Client)
    | CommitLock(c: Client)
    | BeginRenew(c: Client)
    | CommitRenew(c: Client)
    | Fail(c: Client)
    | Unlock(c: Client)
    | Crash(c: Client)

  predicate HasLease(s: State, c: Client) {
    c in s.clients && s.clients[c].lease.Some?
  }

  /** The client's believed lease has not run out. */
  predicate Live(s: State, c: Client) {
    HasLease(s, c) && s.now <= s.clients[c].lease.value
  }

  ghost predicate Init(cfg: Config, s: State) {
    && s.clients.Keys == cfg.Keys && s.cell.None?
    && forall c :: c in s.clients ==> s.clients[c] == ClientState(Idle, None)
  }

  /** The steps that the code takes, whether or not it is wise to. */
  predicate Possible(cfg: Config, s: State, step: Step) {
    match step
    case Tick(to) => s.now <= to
    case BeginLock(c) => c in cfg && c in s.clients && s.clients[c].phase.Idle?
    case CommitLock(c) => c in cfg && c in s.clients && s.clients[c].phase.Locking?
    case BeginRenew(c) => c in cfg && c in s.clients && s.clients[c].phase.Idle?
    case CommitRenew(c) => c in cfg && c in s.clients && s.clients[c].phase.Renewing?
    case Fail(c) => c in cfg && c in s.clients && !s.clients[c].phase.Idle?
    case Unlock(c) => c in cfg && c in s.clients && s.clients[c].phase.Idle?
    case Crash(c) => c in cfg && c in s.clients
  }

  /** The discipline: renewals and unlocks commit only within the client's own lease. */
  predicate Disciplined(s: State, step: Step) {
    match step
    case CommitRenew(c) => Live(s, c)
    case Unlock(c) => Live(s, c)
    case _ => true
  }

  function Set(s: State, c: Client, x: ClientState): State {
    s.(clients := s.clients[c := x])
  }

  predicate LockSucceeds(cfg: Config, s: State, c: Client)
    requires Possible(cfg, s, CommitLock(c))
  {
    LockCommit(s.cell, cfg[c].owner, s.clients[c].phase.reading, cfg[c].timeout).0
  }

  function Apply(cfg: Config, s: State, step: Step): State
    requires Possible(cfg, s, step)
  {
    match step
    case Tick(to) => s.(now := to)
    case BeginLock(c) => Set(s, c, s.clients[c].(phase := Locking(s.now)))
    case CommitLock(c) =>
      var reading := s.clients[c].phase.reading;
      var (ok, cell) := LockCommit(s.cell, cfg[c].owner, reading, cfg[c].timeout);
      Set(s.(cell := cell), c, ClientState(Idle, if ok then Some(reading + cfg[c].timeout) else s.clients[c].lease))
    case BeginRenew(c) => Set(s, c, s.clients[c].(phase := Renewing(s.now)))
    case CommitRenew(c) =>
      var reading := s.clients[c].phase.reading;
      var cell := RenewCommit(s.cell, reading, cfg[c].timeout);
      Set(s.(cell := cell), c, ClientState(Idle, Some(reading + cfg[c].timeout)))
    case Fail(c) => Set(s, c, s.clients[c].(phase := Idle))
    case Unlock(c) => Set(s.(cell := None), c, ClientState(Idle, None))
    case Crash(c) => Set(s, c, ClientState(Idle, None))
  }

  ghost predicate Run(cfg: Config, states: seq<State>, steps: seq<Step>) {
    && |states| == |steps| + 1 && Init(cfg, states[0])
    && forall i :: 0 <= i < |steps| ==>
      && Possible(cfg, states[i], steps[i])
      && states[i + 1] == Apply(cfg, states[i], steps[i])
  }

  ghost predicate DisciplinedRun(cfg: Config, states: seq<State>, steps: seq<Step>) {
    Run(cfg, states, steps) && forall i :: 0 <= i < |steps| ==> Disciplined(states[i], steps[i])
  }

  /** The row is exactly the lease of whoever is within its lease, and there is at most one such client. */
  ghost predicate Inv(cfg: Config, s: State) {
    && s.clients.Keys == cfg.Keys
    && (forall c :: Live(s, c) ==> s.cell == Some(Row(cfg[c].owner, s.clients[c].lease.value)))
    && (forall c, d :: Live(s, c) && Live(s, d) ==> c == d)
    && (forall c :: c in s.clients && !s.clients[c].phase.Idle? ==> s.clients[c].phase.reading <= s.now)
  }

  /** A lock that commits finds nobody within a lease, however stale its clock reading. */
  lemma LockFindsNobody(cfg: Config, s: State, c: Client)
    requires Inv(cfg, s) && Possible(cfg, s, CommitLock(c)) && LockSucceeds(cfg, s, c)
    ensures forall d :: !Live(s, d)
  {
  }

  lemma StepKeepsInv(cfg: Config, s: State, step: Step)
    requires Inv(cfg, s) && Possible(cfg, s, step) && Disciplined(s, step)
    ensures Inv(cfg, Apply(cfg, s, step))
  {
    var t := Apply(cfg, s, step);
    if step.CommitLock? && LockSucceeds(cfg, s, step.c) {
      LockFindsNobody(cfg, s, step.c);
    }
    forall d | Live(t, d) ensures Live(s, d) || (step.CommitLock? && step.c == d) {
    }
  }

  lemma {:induction false} RunKeepsInv(cfg: Config, states: seq<State>, steps: seq<Step>, i: nat)
    requires DisciplinedRun(cfg, states, steps) && i < |states|
    ensures Inv(cfg, states[i])
  {
    if i > 0 {
      RunKeepsInv(cfg, states, steps, i - 1);
      StepKeepsInv(cfg, states[i - 1], steps[i - 1]);
    }
  }

  /**
   Mutual exclusion over all disciplined runs: one client at most is within its lease, and the row
   carries exactly that lease.
   */
  lemma MutualExclusion(cfg: Config, states: seq<State>, steps: seq<Step>, i: nat, c: Client, d: Client)
    requires DisciplinedRun(cfg, states, steps) && i < |states|
    requires Live(states[i], c)
    ensures Live(states[i], d) ==> c == d
    ensures c in cfg && states[i].cell == Some(Row(cfg[c].owner, states[i].clients[c].lease.value))
  {
    RunKeepsInv(cfg, states, steps, i);
  }

  // Refinement of the lease machine.

  function Abstract(s: State): Leases {
    Leases(s.now, map c | c in s.clients && s.clients[c].lease.Some? :: s.clients[c].lease.value)
  }

  lemma HoldsIsLive(s: State)
    ensures forall c :: Holds(Abstract(s), c) <==> Live(s, c)
  {
  }

  /** What one step does to the lease machine. */
  function ActionOf(cfg: Config, s: State, step: Step): Option<Action>
    requires Possible(cfg, s, step)
  {
    match step
    case Tick(to) => Some(Pass(to))
    case CommitLock(c) =>
      if LockSucceeds(cfg, s, c) then Some(Acquire(c, s.clients[c].phase.reading + cfg[c].timeout)) else None
    case CommitRenew(c) => Some(Extend(c, s.clients[c].phase.reading + cfg[c].timeout))
    case Unlock(c) => Some(GiveUp(c))
    case Crash(c) => Some(GiveUp(c))
    case _ => None
  }

  lemma StepDoesAction(cfg: Config, s: State, step: Step)
    requires Inv(cfg, s) && Possible(cfg, s, step)
    ensures Abstract(Apply(cfg, s, step)) ==
      match ActionOf(cfg, s, step) { case None => Abstract(s) case Some(a) => Do(Abstract(s), a) }
  {
  }

  lemma StepRefines(cfg: Config, s: State, step: Step)
    requires Inv(cfg, s) && Possible(cfg, s, step) && Disciplined(s, step)
    ensures Moves(Abstract(s), Abstract(Apply(cfg, s, step)))
  {
    StepDoesAction(cfg, s, step);
    HoldsIsLive(s);
    if ActionOf(cfg, s, step).Some? {
      assert Allowed(Abstract(s), ActionOf(cfg, s, step).value);
    }
  }

  function AbstractRun(states: seq<State>): (run: seq<Leases>)
    ensures |run| == |states| && forall i :: 0 <= i < |run| ==> run[i] == Abstract(states[i])
  {
    seq(|states|, i requires 0 <= i < |states| => Abstract(states[i]))
  }

  /** Every disciplined run of the expiry-row lockers is a run of the lease machine. */
  lemma RunRefines(cfg: Config, states: seq<State>, steps: seq<Step>)
    requires DisciplinedRun(cfg, states, steps)
    ensures LeaseRun(AbstractRun(states))
  {
    var run := AbstractRun(states);
    assert run[0].until == map[];
    forall i | 0 <= i < |run| - 1 ensures Moves(run[i], run[i + 1]) {
      RunKeepsInv(cfg, states, steps, i);
      StepRefines(cfg, states[i], steps[i]);
    }
  }

  // What the discipline is for.

  /**
   From a good state an unlock, disciplined or not, leads to a good state exactly when no other
   client is within its lease.
   */
  lemma UnlockSafeIff(cfg: Config, s: State, c: Client)
    requires Inv(cfg, s) && Possible(cfg, s, Unlock(c))
    ensures Inv(cfg, Apply(cfg, s, Unlock(c))) <==> forall d :: Live(s, d) ==> d == c
  {
    var t := Apply(cfg, s, Unlock(c));
    forall d | d != c ensures Live(s, d) <==> Live(t, d) {
    }
  }

  /**
   A renewal leads to a good state exactly when no other client is within its lease and
   either the new lease is over before it begins or the client's own row is still there.
   */
  lemma RenewSafeIff(cfg: Config, s: State, c: Client)
    requires Inv(cfg, s) && Possible(cfg, s, CommitRenew(c))
    ensures Inv(cfg, Apply(cfg, s, CommitRenew(c))) <==>
      && (forall d :: Live(s, d) ==> d == c)
      && (s.clients[c].phase.reading + cfg[c].timeout < s.now || (s.cell.Some? && s.cell.value.owner == cfg[c].owner))
  {
    var t := Apply(cfg, s, CommitRenew(c));
    forall d | d != c ensures Live(s, d) <==> Live(t, d) {
    }
    assert Live(t, c) <==> s.now <= s.clients[c].phase.reading + cfg[c].timeout;
    if d :| Live(s, d) && d != c {
      assert Live(t, d);
      if Inv(cfg, t) {
        assert t.cell == Some(Row(cfg[d].owner, s.clients[d].lease.value));
      }
    }
  }

  lemma RunExtends(cfg: Config, states: seq<State>, steps: seq<Step>, step: Step)
    requires Run(cfg, states, steps) && Possible(cfg, states[|steps|], step)
    ensures Run(cfg, states + [Apply(cfg, states[|steps|], step)], steps + [step])
  {
  }

  lemma RunStep(cfg: Config, states: seq<State>, steps: seq<Step>, step: Step)
    returns (states': seq<State>, steps': seq<Step>)
    requires Run(cfg, states, steps) && Possible(cfg, states[|steps|], step)
    ensures Run(cfg, states', steps') && states'[|steps'|] == Apply(cfg, states[|steps|], step)
  {
    states', steps' := states + [Apply(cfg, states[|steps|], step)], steps + [step];
    RunExtends(cfg, states, steps, step);
  }

  /** Without the discipline a late unlock of an expired holder lets two clients into the lock. */
  lemma UndisciplinedUnlockBreaksExclusion() returns (cfg: Config, states: seq<State>, steps: seq<Step>)
    ensures Run(cfg, states, steps)
    ensures Live(states[|steps|], 1) && Live(states[|steps|], 2)
  {
    cfg := map[0 := Settings("a", 10), 1 := Settings("b", 10), 2 := Settings("c", 10)];
    var idle := ClientState(Idle, None);
    states, steps := [State(0, None, map[0 := idle, 1 := idle, 2 := idle])], [];
    states, steps := RunStep(cfg, states, steps, BeginLock(0));
    states, steps := RunStep(cfg, states, steps, CommitLock(0));
    states, steps := RunStep(cfg, states, steps, Tick(12));
    states, steps := RunStep(cfg, states, steps, BeginLock(1));
    states, steps := RunStep(cfg, states, steps, CommitLock(1));
    states, steps := RunStep(cfg, states, steps, Unlock(0));
    states, steps := RunStep(cfg, states, steps, BeginLock(2));
    states, steps := RunStep(cfg, states, steps, CommitLock(2));
  }

  // Takeover.

  /** A step that neither renews the row nor gives it a new owner. */
  predicate LeavesHolder(cfg: Config, s: State, step: Step)
    requires Possible(cfg, s, step)
  {
    match step
    case CommitLock(c) => !LockSucceeds(cfg, s, c)
    case CommitRenew(_) => false
    case _ => true
  }

  lemma {:induction false} CellStays(cfg: Config, states: seq<State>, steps: seq<Step>, i: nat, j: nat)
    requires Run(cfg, states, steps) && i <= j < |states|
    requires forall k :: i <= k < j ==> LeavesHolder(cfg, states[k], steps[k])
    ensures states[j].cell == states[i].cell || states[j].cell.None?
    decreases j
  {
    if i < j {
      CellStays(cfg, states, steps, i, j - 1);
      assert LeavesHolder(cfg, states[j - 1], steps[j - 1]);
    }
  }

  /**
   Once the holder has stopped renewing, an attempt whose reading exceeds the stored expiry
   succeeds if no one acquired in between.
   */
  lemma Takeover(cfg: Config, states: seq<State>, steps: seq<Step>, i: nat, j: nat, c: Client)
    requires Run(cfg, states, steps) && i <= j < |states| && states[i].cell.Some?
    requires forall k :: i <= k < j ==> LeavesHolder(cfg, states[k], steps[k])
    requires Possible(cfg, states[j], CommitLock(c))
    requires states[j].clients[c].phase.reading > states[i].cell.value.expiredAt
    ensures LockSucceeds(cfg, states[j], c)
    ensures Apply(cfg, states[j], CommitLock(c)).cell ==
      Some(Row(cfg[c].owner, states[j].clients[c].phase.reading + cfg[c].timeout))
  {
    CellStays(cfg, states, steps, i, j);
  }

  // Handover.

  /** An unlock leaves no row, and the first attempt that commits after it gets the lock. */
  lemma {:induction false} UnlockHandsOver(cfg: Config, states: seq<State>, steps: seq<Step>, i: nat, j: nat, c: Client)
    requires Run(cfg, states, steps) && i < j < |states| && steps[i] == Unlock(c)
    requires forall k :: i < k < j ==> !steps[k].CommitLock?
    ensures states[j].cell.None? && !HasLease(states[i + 1], c)
    ensures forall d :: Possible(cfg, states[j], CommitLock(d)) ==> LockSucceeds(cfg, states[j], d)
    decreases j
  {
    assert Possible(cfg, states[j - 1], steps[j - 1]) && states[j] == Apply(cfg, states[j - 1], steps[j - 1]);
    if j > i + 1 {
      UnlockHandsOver(cfg, states, steps, i, j - 1, c);
    }
  }

  /** The row is there, and nobody is within a lease. */
  ghost predicate Abandoned(s: State, row: Row) {
    s.cell == Some(row) && forall d :: !Live(s, d)
  }

  /** An abandoned row that has not expired gives nobody the lock, and no step changes it. */
  lemma AbandonedStays(cfg: Config, s: State, step: Step, row: Row)
    requires Inv(cfg, s) && Possible(cfg, s, step) && Disciplined(s, step)
    requires Abandoned(s, row) && s.now <= row.expiredAt
    ensures Abandoned(Apply(cfg, s, step), row)
    ensures step.CommitLock? ==> !LockSucceeds(cfg, s, step.c)
  {
    var t := Apply(cfg, s, step);
    assert forall d :: Live(t, d) ==> Live(s, d);
  }

  lemma CrashAbandons(cfg: Config, s: State, c: Client)
    requires Inv(cfg, s) && Live(s, c)
    ensures Abandoned(Apply(cfg, s, Crash(c)), Row(cfg[c].owner, s.clients[c].lease.value))
  {
    assert forall d :: Live(Apply(cfg, s, Crash(c)), d) ==> Live(s, d) && d != c;
  }

  /** A lock left behind by a crash stays closed to everybody until its expiry. */
  lemma {:induction false} CrashKeepsLock(cfg: Config, states: seq<State>, steps: seq<Step>, i: nat, j: nat, c: Client)
    requires DisciplinedRun(cfg, states, steps) && i < j < |states| && steps[i] == Crash(c) && Live(states[i], c)
    requires forall k :: i < k <= j ==> states[k].now <= states[i].clients[c].lease.value
    ensures c in cfg && Abandoned(states[j], Row(cfg[c].owner, states[i].clients[c].lease.value))
    ensures j < |steps| && steps[j].CommitLock? ==> !LockSucceeds(cfg, states[j], steps[j].c)
    decreases j
  {
    RunKeepsInv(cfg, states, steps, i);
    var row := Row(cfg[c].owner, states[i].clients[c].lease.value);
    if j > i + 1 {
      CrashKeepsLock(cfg, states, steps, i, j - 1, c);
      RunKeepsInv(cfg, states, steps, j - 1);
      AbandonedStays(cfg, states[j - 1], steps[j - 1], row);
    } else {
      CrashAbandons(cfg, states[i], c);
    }
    assert states[j - 1 + 1] == Apply(cfg, states[j - 1], steps[j - 1]);
    if j < |steps| {
      RunKeepsInv(cfg, states, steps, j);
      AbandonedStays(cfg, states[j], steps[j], row);
    }
  }
}
