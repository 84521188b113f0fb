/**
 Several watch instances that start their schedulers behind one expiry-row lock. All
 instances of a host share an owner identity, so nothing here rests on it.
 */
module WatchRuns {
  import opened Common
  import opened LeaseSpec
  import opened GormLocker
  import G = GormRuns

  /** Where an instance is between Start and Stop. */
  datatype Stage = Off | Waiting | Acquired | Running | Stopping

  datatype State = State(lock: G.State, stage: map<Client, Stage>)

  datatype Step =
    | Tick(to: int)
    | Begin(c: Client)
    | ReadClock(c: Client)
    | TryLock(c: Client)
    | TryFails(c: Client)
    | StartJobs(c: Client)
    | StopJobs(c: Client)
    | Release(c: Client)
    | ReleaseFails(c: Client)
    | RenewRead(c: Client)
    | RenewWrite(c: Client)
    | RenewFails(c: Client)
    | Crash(c: Client)

  ghost predicate Init(cfg: G.Config, s: State) {
    G.Init(cfg, s.lock) && s.stage.Keys == cfg.Keys && forall c :: c in s.stage ==> s.stage[c] == Off
  }

  predicate At(s: State, c: Client, stage: Stage) {
    c in s.stage && s.stage[c] == stage
  }

  /** The renewal ticker runs from the moment the lock is acquired until it is released. */
  predicate Ticking(s: State, c: Client) {
    At(s, c, Acquired) || At(s, c, Running) || At(s, c, Stopping)
  }

  /** The step of the lock that a step takes, if any. */
  function LockStep(step: Step): Option<G.Step> {
    match step
    case Tick(to) => Some(G.Tick(to))
    case ReadClock(c) => Some(G.BeginLock(c))
    case TryLock(c) => Some(G.CommitLock(c))
    case Release(c) => Some(G.Unlock(c))
    case RenewRead(c) => Some(G.BeginRenew(c))
    case RenewWrite(c) => Some(G.CommitRenew(c))
    case TryFails(c) => Some(G.Fail(c))
    case RenewFails(c) => Some(G.Fail(c))
    case Crash(c) => Some(G.Crash(c))
    case _ => None
  }

  predicate Placed(s: State, step: Step) {
    match step
    case Tick(_) => true
    case Begin(c) => At(s, c, Off)
    case ReadClock(c) => At(s, c, Waiting)
    case TryLock(c) => At(s, c, Waiting)
    case TryFails(c) => At(s, c, Waiting)
    case StartJobs(c) => At(s, c, Acquired)
    case StopJobs(c) => At(s, c, Running)
    case Release(c) => At(s, c, Stopping)
    case ReleaseFails(c) => At(s, c, Stopping) && c in s.lock.clients && s.lock.clients[c].phase.Idle?
    case RenewRead(c) => Ticking(s, c)
    case RenewWrite(c) => Ticking(s, c)
    case RenewFails(c) => Ticking(s, c)
    case Crash(c) => c in s.stage
  }

  /** Possible, and disciplined where it touches the row. */
  predicate Allowed(cfg: G.Config, s: State, step: Step) {
    && Placed(s, step)
    && (LockStep(step).Some? ==>
      G.Possible(cfg, s.lock, LockStep(step).value) && G.Disciplined(s.lock, LockStep(step).value))
  }

  function NextStage(cfg: G.Config, s: State, step: Step): map<Client, Stage>
    requires Allowed(cfg, s, step)
  {
    match step
    case Begin(c) => s.stage[c := Waiting]
    case TryLock(c) => if G.LockSucceeds(cfg, s.lock, c) then s.stage[c := Acquired] else s.stage
    case StartJobs(c) => s.stage[c := Running]
    case StopJobs(c) => s.stage[c := Stopping]
    case Release(c) => s.stage[c := Off]
    case ReleaseFails(c) => s.stage[c := Off]
    case Crash(c) => s.stage[c := Off]
    case _ => s.stage
  }

  function Apply(cfg: G.Config, s: State, step: Step): State
    requires Allowed(cfg, s, step)
  {
    var lock := if LockStep(step).Some? then G.Apply(cfg, s.lock, LockStep(step).value) else s.lock;
    State(lock, NextStage(cfg, s, step))
  }

  ghost predicate Run(cfg: G.Config, states: seq<State>, steps: seq<Step>) {
    && |states| == |steps| + 1 && Init(cfg, states[0])
    && forall i :: 0 <= i < |steps| ==>
      Allowed(cfg, states[i], steps[i]) && states[i + 1] == Apply(cfg, states[i], steps[i])
  }

  /** The lock's invariant, and a lease behind every scheduler that runs or is about to. */
  ghost predicate Inv(cfg: G.Config, s: State) {
    && G.Inv(cfg, s.lock) && s.stage.Keys == cfg.Keys
    && forall c :: Ticking(s, c) ==> G.HasLease(s.lock, c)
  }

  lemma LeaseStays(cfg: G.Config, s: G.State, step: G.Step, c: Client)
    requires G.Possible(cfg, s, step) && step != G.Unlock(c) && step != G.Crash(c)
    requires G.HasLease(s, c) || (step == G.CommitLock(c) && G.LockSucceeds(cfg, s, c))
    ensures G.HasLease(G.Apply(cfg, s, step), c)
  {
  }

  /** After a step, an instance whose ticker runs believes in a lease. */
  lemma LeaseBehind(cfg: G.Config, s: State, step: Step, c: Client)
    requires Inv(cfg, s) && Allowed(cfg, s, step) && Ticking(Apply(cfg, s, step), c)
    ensures G.HasLease(Apply(cfg, s, step).lock, c)
  {
    assert Ticking(s, c) || (step == TryLock(c) && G.LockSucceeds(cfg, s.lock, c));
    if LockStep(step).Some? {
      LeaseStays(cfg, s.lock, LockStep(step).value, c);
    }
  }

  lemma StepKeepsInv(cfg: G.Config, s: State, step: Step)
    requires Inv(cfg, s) && Allowed(cfg, s, step)
    ensures Inv(cfg, Apply(cfg, s, step))
  {
    if LockStep(step).Some? {
      G.StepKeepsInv(cfg, s.lock, LockStep(step).value);
    }
    forall c | Ticking(Apply(cfg, s, step), c) ensures G.HasLease(Apply(cfg, s, step).lock, c) {
      LeaseBehind(cfg, s, step, c);
    }
  }

  lemma {:induction false} RunKeepsInv(cfg: G.Config, states: seq<State>, steps: seq<Step>, i: nat)
    requires Run(cfg, states, steps) && i < |states|
    ensures Inv(cfg, states[i])
  {
    if i > 0 {
      RunKeepsInv(cfg, states, steps, i - 1);
      StepKeepsInv(cfg, states[i - 1], steps[i - 1]);
    }
  }

  /** Two schedulers running at once means that one of them has outlived its lease. */
  lemma TwoSchedulersNeedALapsedLease(cfg: G.Config, states: seq<State>, steps: seq<Step>, i: nat, c: Client, d: Client)
    requires Run(cfg, states, steps) && i < |states|
    requires c != d && At(states[i], c, Running) && At(states[i], d, Running)
    ensures G.HasLease(states[i].lock, c) && G.HasLease(states[i].lock, d)
    ensures !G.Live(states[i].lock, c) || !G.Live(states[i].lock, d)
  {
    RunKeepsInv(cfg, states, steps, i);
    assert Ticking(states[i], c) && Ticking(states[i], d);
  }

  /** The renewals have come in time: no lease of an instance whose ticker runs has lapsed. */
  ghost predicate NoLapse(s: State) {
    forall c :: Ticking(s, c) && G.HasLease(s.lock, c) ==> G.Live(s.lock, c)
  }

  /**
   While no lease has lapsed at most one scheduler runs, and the row carries exactly its
   lease: jobs start after the lock is taken and stop before it is given back.
   */
  lemma SingleScheduler(cfg: G.Config, states: seq<State>, steps: seq<Step>, i: nat, c: Client)
    requires Run(cfg, states, steps) && i < |states| && NoLapse(states[i])
    requires At(states[i], c, Running)
    ensures forall d :: At(states[i], d, Running) ==> d == c
    ensures c in cfg && G.HasLease(states[i].lock, c)
    ensures states[i].lock.cell == Some(Row(cfg[c].owner, states[i].lock.clients[c].lease.value))
  {
    RunKeepsInv(cfg, states, steps, i);
    forall d | At(states[i], d, Running) ensures G.Live(states[i].lock, d) {
      assert Ticking(states[i], d);
    }
  }

  /** No row changes hands while its scheduler runs without a lapse: an attempt by anyone fails. */
  lemma RunningHolderIsNotRobbed(cfg: G.Config, states: seq<State>, steps: seq<Step>, i: nat, c: Client, d: Client)
    requires Run(cfg, states, steps) && i < |states| && NoLapse(states[i])
    requires At(states[i], c, Running) && Allowed(cfg, states[i], TryLock(d))
    ensures !G.LockSucceeds(cfg, states[i].lock, d)
  {
    RunKeepsInv(cfg, states, steps, i);
    assert Ticking(states[i], c);
    if G.LockSucceeds(cfg, states[i].lock, d) {
      G.LockFindsNobody(cfg, states[i].lock, d);
      assert false;
    }
  }

  // What the lock is given back for.

  /** A waiting instance that is not in the middle of an attempt. */
  predicate Ready(cfg: G.Config, s: State, d: Client) {
    d in cfg && At(s, d, Waiting) && d in s.lock.clients && s.lock.clients[d].phase.Idle?
  }

  /** One attempt: such an instance reads the clock and tries. */
  function Attempt(cfg: G.Config, s: State, d: Client): State
    requires Ready(cfg, s, d)
  {
    Apply(cfg, Apply(cfg, s, ReadClock(d)), TryLock(d))
  }

  /** It gets the lock exactly when the row is absent, or expired before the reading, and then the row is its own. */
  lemma AttemptIff(cfg: G.Config, s: State, d: Client)
    requires Ready(cfg, s, d)
    ensures At(Attempt(cfg, s, d), d, Acquired) <==>
      s.lock.cell.None? || s.lock.cell.value.expiredAt < s.lock.now
    ensures At(Attempt(cfg, s, d), d, Acquired) ==>
      Attempt(cfg, s, d).lock.cell == Some(Row(cfg[d].owner, s.lock.now + cfg[d].timeout))
    ensures !At(Attempt(cfg, s, d), d, Acquired) ==> Attempt(cfg, s, d) == s
  {
    var t := Attempt(cfg, s, d);
    if !At(t, d, Acquired) {
      assert t.lock.clients == s.lock.clients;
    }
  }

  /**
   The handover: an instance that stops leaves no row behind and is off, and every waiting
   instance that then reads the clock and tries gets the lock at once.
   */
  lemma ReleaseHandsOver(cfg: G.Config, states: seq<State>, steps: seq<Step>, i: nat, c: Client)
    requires Run(cfg, states, steps) && i < |states|
    requires At(states[i], c, Stopping) && Allowed(cfg, states[i], Release(c))
    ensures var t := Apply(cfg, states[i], Release(c));
      && t.lock.cell.None? && At(t, c, Off) && !G.HasLease(t.lock, c)
      && forall d :: Ready(cfg, t, d) ==>
        && At(states[i], d, Waiting)
        && Allowed(cfg, t, ReadClock(d)) && Allowed(cfg, Apply(cfg, t, ReadClock(d)), TryLock(d))
        && At(Attempt(cfg, t, d), d, Acquired)
        && Attempt(cfg, t, d).lock.cell == Some(Row(cfg[d].owner, t.lock.now + cfg[d].timeout))
  {
    var t := Apply(cfg, states[i], Release(c));
    forall d | Ready(cfg, t, d)
      ensures At(Attempt(cfg, t, d), d, Acquired)
      ensures Attempt(cfg, t, d).lock.cell == Some(Row(cfg[d].owner, t.lock.now + cfg[d].timeout))
    {
      AttemptIff(cfg, t, d);
    }
  }

  /** Whatever others do after the release, short of taking the lock, the row stays away, and whoever tries first gets the lock. */
  lemma {:induction false} FirstAttemptAfterRelease(cfg: G.Config, states: seq<State>, steps: seq<Step>,
                                                    i: nat, j: nat, c: Client, d: Client)
    requires Run(cfg, states, steps) && i < j < |states| && steps[i] == Release(c)
    requires forall k :: i < k < j ==> !steps[k].TryLock?
    ensures states[j].lock.cell.None?
    ensures Allowed(cfg, states[j], TryLock(d)) ==> At(Apply(cfg, states[j], TryLock(d)), d, Acquired)
    decreases j
  {
    assert Allowed(cfg, states[j - 1], steps[j - 1]) && states[j] == Apply(cfg, states[j - 1], steps[j - 1]);
    if j > i + 1 {
      FirstAttemptAfterRelease(cfg, states, steps, i, j - 1, c, d);
    }
  }

  /**
   An instance that crashes, or whose release fails, leaves its row: an attempt succeeds only
   once its reading is past the expiry that the row had.
   */
  lemma LeftRowLasts(cfg: G.Config, s: State, step: Step, c: Client, d: Client)
    requires Allowed(cfg, s, step) && (step == Crash(c) || step == ReleaseFails(c))
    requires Ready(cfg, Apply(cfg, s, step), d)
    ensures var t := Apply(cfg, s, step);
      && t.lock.cell == s.lock.cell && At(t, c, Off)
      && (At(Attempt(cfg, t, d), d, Acquired) <==>
        s.lock.cell.None? || s.lock.cell.value.expiredAt < s.lock.now)
  {
    AttemptIff(cfg, Apply(cfg, s, step), d);
  }

  /** A renewal in time moves lease and row of a scheduler to the timeout behind its clock reading. */
  lemma RenewalExtends(cfg: G.Config, states: seq<State>, steps: seq<Step>, i: nat, c: Client)
    requires Run(cfg, states, steps) && i < |states| && Allowed(cfg, states[i], RenewWrite(c))
    ensures var reading := states[i].lock.clients[c].phase.reading; var t := Apply(cfg, states[i], RenewWrite(c));
      && G.Live(states[i].lock, c) && t.stage == states[i].stage
      && t.lock.cell == Some(Row(cfg[c].owner, reading + cfg[c].timeout))
      && t.lock.clients[c].lease == Some(reading + cfg[c].timeout)
  {
    RunKeepsInv(cfg, states, steps, i);
  }

  // The order of the calls.

  /** Step j brought c to its present stage, which it has not left before i. */
  ghost predicate Since(states: seq<State>, j: nat, i: nat, c: Client) {
    && j < i < |states| && c in states[i].stage
    && forall k :: j < k <= i ==> At(states[k], c, states[i].stage[c])
  }

  /** The step that brings an instance to the stage. */
  predicate Brings(cfg: G.Config, s: State, step: Step, c: Client, stage: Stage) {
    match stage
    case Off => step == Release(c) || step == ReleaseFails(c) || step == Crash(c)
    case Waiting => step == Begin(c) && At(s, c, Off)
    case Acquired =>
      step == TryLock(c) && At(s, c, Waiting) && G.Possible(cfg, s.lock, G.CommitLock(c)) && G.LockSucceeds(cfg, s.lock, c)
    case Running => step == StartJobs(c) && At(s, c, Acquired)
    case Stopping => step == StopJobs(c) && At(s, c, Running)
  }

  /** Every stage but the first one has been entered by its one step from the stage before. */
  lemma {:induction false} StageEntered(cfg: G.Config, states: seq<State>, steps: seq<Step>, i: nat, c: Client) returns (j: nat)
    requires Run(cfg, states, steps) && i < |states| && c in states[i].stage && !states[i].stage[c].Off?
    ensures j < i && Since(states, j, i, c) && Brings(cfg, states[j], steps[j], c, states[i].stage[c])
  {
    assert i > 0;
    assert Allowed(cfg, states[i - 1], steps[i - 1]) && states[i] == Apply(cfg, states[i - 1], steps[i - 1]);
    if At(states[i - 1], c, states[i].stage[c]) {
      j := StageEntered(cfg, states, steps, i - 1, c);
    } else {
      j := i - 1;
    }
  }

  /** Jobs are started behind a lock that the instance took last, and not gave back since. */
  lemma JobsStartBehindLock(cfg: G.Config, states: seq<State>, steps: seq<Step>, i: nat, c: Client) returns (j: nat)
    requires Run(cfg, states, steps) && i < |steps| && steps[i] == StartJobs(c)
    ensures j < i && steps[j] == TryLock(c) && At(states[j + 1], c, Acquired)
    ensures forall k :: j < k < i ==> steps[k] !in {Release(c), ReleaseFails(c), Crash(c)}
  {
    j := StageEntered(cfg, states, steps, i, c);
    NoLeaving(cfg, states, steps, j, i, c);
  }

  /** The lock is given back only once the jobs have been stopped, and not started since. */
  lemma UnlockBehindJobStop(cfg: G.Config, states: seq<State>, steps: seq<Step>, i: nat, c: Client) returns (j: nat)
    requires Run(cfg, states, steps) && i < |steps| && (steps[i] == Release(c) || steps[i] == ReleaseFails(c))
    ensures j < i && steps[j] == StopJobs(c) && At(states[j], c, Running)
    ensures forall k :: j < k < i ==> steps[k] != StartJobs(c)
  {
    j := StageEntered(cfg, states, steps, i, c);
    forall k | j < k < i ensures steps[k] != StartJobs(c) {
      assert Allowed(cfg, states[k], steps[k]) && At(states[k], c, Stopping);
    }
  }

  lemma NoLeaving(cfg: G.Config, states: seq<State>, steps: seq<Step>, j: nat, i: nat, c: Client)
    requires Run(cfg, states, steps) && i < |steps| && Since(states, j, i, c) && !states[i].stage[c].Off?
    ensures forall k :: j < k < i ==> steps[k] !in {Release(c), ReleaseFails(c), Crash(c)}
  {
    forall k | j < k < i ensures steps[k] !in {Release(c), ReleaseFails(c), Crash(c)} {
      assert Allowed(cfg, states[k], steps[k]) && states[k + 1] == Apply(cfg, states[k], steps[k]);
    }
  }

  // What happens on a lapse.

  /**
   While a scheduler runs, a waiting instance that reads the clock and tries at once comes to
   start a second one exactly when the row is absent, or expired before the reading: nothing
   stops a scheduler whose lease has lapsed.
   */
  lemma SecondSchedulerIff(cfg: G.Config, states: seq<State>, steps: seq<Step>, i: nat, c: Client, d: Client)
    requires Run(cfg, states, steps) && i < |states| && At(states[i], c, Running)
    requires Allowed(cfg, states[i], ReadClock(d))
    ensures var s := states[i]; var read := Apply(cfg, s, ReadClock(d));
      && Allowed(cfg, read, TryLock(d))
      && var tried := Apply(cfg, read, TryLock(d));
        (Allowed(cfg, tried, StartJobs(d)) && At(Apply(cfg, tried, StartJobs(d)), c, Running)
          && At(Apply(cfg, tried, StartJobs(d)), d, Running)) <==>
        (s.lock.cell.None? || s.lock.cell.value.expiredAt < s.lock.now)
  {
    RunKeepsInv(cfg, states, steps, i);
    var s := states[i];
    var read := Apply(cfg, s, ReadClock(d));
    var tried := Apply(cfg, read, TryLock(d));
    assert c != d;
    assert At(tried, d, Acquired) <==> s.lock.cell.None? || s.lock.cell.value.expiredAt < s.lock.now;
  }

  lemma RunStep(cfg: G.Config, states: seq<State>, steps: seq<Step>, step: Step)
    returns (states': seq<State>, steps': seq<Step>)
    requires Run(cfg, states, steps) && Allowed(cfg, states[|steps|], step)
    ensures Run(cfg, states', steps') && states'[|steps'|] == Apply(cfg, states[|steps|], step)
  {
    states', steps' := states + [Apply(cfg, states[|steps|], step)], steps + [step];
  }

  /** The lock of an instance that takes it at this moment, and nothing else of the lock's state. */
  ghost predicate TakenBy(cfg: G.Config, s: G.State, t: G.State, c: Client) {
    && c in cfg && t.now == s.now && t.cell == Some(Row(cfg[c].owner, s.now + cfg[c].timeout))
    && t.clients.Keys == s.clients.Keys
    && forall d :: d in s.clients && d != c ==> t.clients[d] == s.clients[d]
  }

  predicate FreeFor(s: G.State, c: Client) {
    c in s.clients && s.clients[c].phase.Idle? && (s.cell.None? || s.cell.value.expiredAt < s.now)
  }

  /** One attempt at a free lock. */
  lemma Takes(cfg: G.Config, states: seq<State>, steps: seq<Step>, c: Client)
    returns (states': seq<State>, steps': seq<Step>)
    requires Run(cfg, states, steps) && c in cfg && At(states[|steps|], c, Waiting) && FreeFor(states[|steps|].lock, c)
    ensures Run(cfg, states', steps')
    ensures states'[|steps'|].stage == states[|steps|].stage[c := Acquired]
    ensures TakenBy(cfg, states[|steps|].lock, states'[|steps'|].lock, c)
  {
    states', steps' := RunStep(cfg, states, steps, ReadClock(c));
    states', steps' := RunStep(cfg, states', steps', TryLock(c));
  }

  /** Start, with a free lock. */
  lemma Starts(cfg: G.Config, states: seq<State>, steps: seq<Step>, c: Client)
    returns (states': seq<State>, steps': seq<Step>)
    requires Run(cfg, states, steps) && c in cfg && At(states[|steps|], c, Off) && FreeFor(states[|steps|].lock, c)
    ensures Run(cfg, states', steps')
    ensures states'[|steps'|].stage == states[|steps|].stage[c := Running]
    ensures TakenBy(cfg, states[|steps|].lock, states'[|steps'|].lock, c)
  {
    states', steps' := RunStep(cfg, states, steps, Begin(c));
    states', steps' := Takes(cfg, states', steps', c);
    states', steps' := RunStep(cfg, states', steps', StartJobs(c));
  }

  /** Any two instances can both come to run a scheduler: the second starts once the lease of the first has lapsed. */
  lemma LapseStartsSecondScheduler(cfg: G.Config, c: Client, d: Client) returns (states: seq<State>, steps: seq<Step>)
    requires c in cfg && d in cfg && c != d && cfg[c].timeout >= 0
    ensures Run(cfg, states, steps)
    ensures At(states[|steps|], c, Running) && At(states[|steps|], d, Running)
  {
    var lock := G.State(0, None, map e | e in cfg :: G.ClientState(G.Idle, None));
    states, steps := [State(lock, map e | e in cfg :: Off)], [];
    states, steps := Starts(cfg, states, steps, c);
    states, steps := RunStep(cfg, states, steps, Tick(cfg[c].timeout + 1));
    states, steps := Starts(cfg, states, steps, d);
  }
}
