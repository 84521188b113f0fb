/** Runs of many Redis lockers on one key. The two commands of Lock may lie apart, and answers may be lost. */
module RedisRuns {
  import opened Common
  import opened LeaseSpec
  import opened TtlStore
  import opened RedisLocker

  datatype Settings = Settings(owner: string, timeout: int)
  type Config = map<Client, Settings>

  /** A client between the two commands of Lock is checking; its lease is what the last success promised. */
  datatype ClientState = ClientState(checking: bool, lease: Option<int>)

  /** The setter is the client whose command wrote the key; the store does not know it. */
  datatype State = State(now: int, cell: Option<Entry>, setter: Option<Client>, clients: map<Client, ClientState>)

  /** A command that is not carried out is no step; an unlock that fails so leaves what a crash leaves. */
  datatype Step =
    | Tick(to: int)
    | TrySet(c: Client, answered: bool)
    | CheckOwner(c: Client)
    | CheckFails(c: Client)
    | Renew(c: Client, answered: bool)
    | Unlock(c: Client)
    | Crash(c: Client)

  predicate Live(s: State, c: Client) {
    c in s.clients && s.clients[c].lease.Some? && s.now <= s.clients[c].lease.value
  }

  ghost predicate Init(cfg: Config, s: State) {
    && s.clients.Keys == cfg.Keys && s.cell.None?
    && forall c :: c in s.clients ==> s.clients[c] == ClientState(false, None)
  }

  predicate Possible(cfg: Config, s: State, step: Step) {
    match step
    case Tick(to) => s.now <= to
    case TrySet(c, _) => c in cfg && c in s.clients && !s.clients[c].checking
    case CheckOwner(c) => c in cfg && c in s.clients && s.clients[c].checking
    case CheckFails(c) => c in cfg && c in s.clients && s.clients[c].checking
    case Renew(c, _) => c in cfg && c in s.clients && !s.clients[c].checking
    case Unlock(c) => c in cfg && c in s.clients && !s.clients[c].checking
    case Crash(c) => c in cfg && c in s.clients
  }

  /** The client's own key is there: one that it wrote itself, before a restart perhaps. */
  predicate OwnKeyThere(s: State, c: Client) {
    Visible(s.cell, s.now) && s.setter == Some(c)
  }

  /** Renewals and unlocks only within the own lease; repeated locking of the own key only where that is allowed. */
  predicate Disciplined(repeats: bool, s: State, step: Step) {
    match step
    case TrySet(c, _) => repeats || !OwnKeyThere(s, c)
    case Renew(c, _) => Live(s, c)
    case Unlock(c) => Live(s, c)
    case _ => true
  }

  function Set(s: State, c: Client, x: ClientState): State {
    s.(clients := s.clients[c := x])
  }

  predicate FindsOwn(cfg: Config, s: State, c: Client)
    requires c in cfg
  {
    OwnerCheck(GetCommand(s.cell, s.now), cfg[c].owner).None?
  }

  /** A success at this moment promises the lock for the timeout. */
  function Promise(cfg: Config, s: State, c: Client): Option<int>
    requires c in cfg
  {
    Some(s.now + cfg[c].timeout - 1)
  }

  function Apply(cfg: Config, s: State, step: Step): State
    requires Possible(cfg, s, step)
  {
    match step
    case Tick(to) => s.(now := to)
    case TrySet(c, answered) =>
      var (ok, cell) := AddCommand(s.cell, s.now, Entry(cfg[c].owner, Some(s.now + cfg[c].timeout)));
      var lease := s.clients[c].lease;
      if ok then
        Set(s.(cell := cell, setter := Some(c)), c, ClientState(false, if answered then Promise(cfg, s, c) else lease))
      else Set(s, c, ClientState(answered, lease))
    case CheckOwner(c) =>
      Set(s, c, ClientState(false, if FindsOwn(cfg, s, c) then Promise(cfg, s, c) else s.clients[c].lease))
    case CheckFails(c) => Set(s, c, s.clients[c].(checking := false))
    case Renew(c, answered) =>
      Set(s.(cell := ExpireCommand(s.cell, s.now, s.now + cfg[c].timeout)), c,
          ClientState(false, if answered then Promise(cfg, s, c) else s.clients[c].lease))
    case Unlock(c) => Set(s.(cell := None), c, ClientState(false, None))
    case Crash(c) => Set(s, c, ClientState(false, None))
  }

  ghost predicate Run(cfg: Config, repeats: bool, states: seq<State>, steps: seq<Step>) {
    && |states| == |steps| + 1 && Init(cfg, states[0])
    && forall i :: 0 <= i < |steps| ==>
      && Possible(cfg, states[i], steps[i]) && Disciplined(repeats, states[i], steps[i])
      && states[i + 1] == Apply(cfg, states[i], steps[i])
  }

  predicate DistinctOwners(cfg: Config) {
    forall c, d :: c in cfg && d in cfg && cfg[c].owner == cfg[d].owner ==> c == d
  }

  /** The key of whoever is within a lease was written by that client, and outlives the lease. */
  predicate Backed(s: State, c: Client) {
    && s.cell.Some? && s.setter == Some(c) && c in s.clients && s.clients[c].lease.Some?
    && s.cell.value.gone.Some? && s.clients[c].lease.value < s.cell.value.gone.value
  }

  /** Who checks, checks a key of somebody else. */
  ghost predicate Inv(cfg: Config, s: State) {
    && s.clients.Keys == cfg.Keys
    && (s.cell.Some? ==> s.setter.Some? && s.setter.value in cfg && s.cell.value.value == cfg[s.setter.value].owner)
    && (forall c :: c in s.clients && s.clients[c].lease.Some? ==> s.clients[c].lease.value < s.now + cfg[c].timeout)
    && (forall c :: Live(s, c) ==> Backed(s, c))
    && (forall c :: c in s.clients && s.clients[c].checking ==> !OwnKeyThere(s, c))
  }

  /** A key that is not there leaves nobody within a lease. */
  lemma NoKeyNoHolder(cfg: Config, s: State)
    requires Inv(cfg, s) && !Visible(s.cell, s.now)
    ensures forall d :: !Live(s, d)
  {
    forall d ensures !Live(s, d) {
      assert Live(s, d) ==> Backed(s, d);
    }
  }

  /** With distinct owners and no repeated locking the own-key branch of Lock is never taken. */
  lemma CheckFindsOthers(cfg: Config, s: State, c: Client)
    requires DistinctOwners(cfg) && Inv(cfg, s) && c in cfg && s.clients[c].checking
    ensures !FindsOwn(cfg, s, c)
  {
    assert !OwnKeyThere(s, c);
  }

  /** A step that writes no key and gives no lease. */
  lemma NobodyGains(cfg: Config, s: State, t: State)
    requires Inv(cfg, s) && t.clients.Keys == s.clients.Keys
    requires t.cell == s.cell && t.setter == s.setter && s.now <= t.now
    requires forall d :: d in s.clients ==> t.clients[d].lease.None? || t.clients[d].lease == s.clients[d].lease
    requires forall d :: d in t.clients && t.clients[d].checking ==> !OwnKeyThere(t, d)
    ensures Inv(cfg, t)
  {
    forall d | Live(t, d) ensures Backed(t, d) {
      assert Live(s, d) && Backed(s, d);
    }
  }

  /** A client that writes the key while nobody else is within a lease. */
  lemma LoneWriter(cfg: Config, s: State, t: State, c: Client, x: ClientState)
    requires Inv(cfg, s) && c in cfg && t == Set(s, c, x).(cell := t.cell, setter := t.setter)
    requires forall d :: Live(s, d) ==> d == c
    requires t.setter == Some(c) && !x.checking && t.cell == Some(Entry(cfg[c].owner, Some(s.now + cfg[c].timeout)))
    requires x.lease == s.clients[c].lease || x.lease == Promise(cfg, s, c)
    ensures Inv(cfg, t)
  {
    forall d | Live(t, d) ensures Backed(t, d) {
      assert d != c ==> Live(s, d);
    }
  }

  lemma SetKeepsInv(cfg: Config, s: State, step: Step)
    requires Inv(cfg, s) && step.TrySet? && Possible(cfg, s, step) && Disciplined(false, s, step)
    ensures Inv(cfg, Apply(cfg, s, step))
  {
    var t := Apply(cfg, s, step);
    if Visible(s.cell, s.now) {
      NobodyGains(cfg, s, t);
    } else {
      NoKeyNoHolder(cfg, s);
      LoneWriter(cfg, s, t, step.c, t.clients[step.c]);
    }
  }

  lemma WriterKeepsInv(cfg: Config, s: State, step: Step)
    requires Inv(cfg, s) && (step.Renew? || step.Unlock?) && Possible(cfg, s, step) && Disciplined(false, s, step)
    ensures Inv(cfg, Apply(cfg, s, step))
  {
    var t := Apply(cfg, s, step);
    assert Backed(s, step.c);
    if step.Renew? {
      LoneWriter(cfg, s, t, step.c, t.clients[step.c]);
    } else {
      forall d ensures !Live(t, d) {
        assert Live(s, d) ==> Backed(s, d);
      }
    }
  }

  lemma StepKeepsInv(cfg: Config, s: State, step: Step)
    requires DistinctOwners(cfg) && Inv(cfg, s) && Possible(cfg, s, step) && Disciplined(false, s, step)
    ensures Inv(cfg, Apply(cfg, s, step))
  {
    if step.TrySet? {
      SetKeepsInv(cfg, s, step);
    } else if step.Renew? || step.Unlock? {
      WriterKeepsInv(cfg, s, step);
    } else {
      var t := Apply(cfg, s, step);
      if step.CheckOwner? {
        CheckFindsOthers(cfg, s, step.c);
      }
      assert forall d :: OwnKeyThere(t, d) ==> OwnKeyThere(s, d);
      NobodyGains(cfg, s, t);
    }
  }

  lemma {:induction false} RunKeepsInv(cfg: Config, states: seq<State>, steps: seq<Step>, i: nat)
    requires DistinctOwners(cfg) && Run(cfg, false, states, steps) && i < |states|
    ensures Inv(cfg, states[i])
  {
    if i > 0 {
      RunKeepsInv(cfg, states, steps, i - 1);
      StepKeepsInv(cfg, states[i - 1], steps[i - 1]);
    }
  }

  // What the discipline is for.

  /**
   From a good state an unlock, disciplined or not, leads to a good state exactly when no other
   client is within its lease.
   */
  lemma UnlockSafeIff(cfg: Config, s: State, c: Client)
    requires Inv(cfg, s) && Possible(cfg, s, Unlock(c))
    ensures Inv(cfg, Apply(cfg, s, Unlock(c))) <==> forall d :: Live(s, d) ==> d == c
  {
    var t := Apply(cfg, s, Unlock(c));
    assert forall d :: d != c ==> (Live(t, d) <==> Live(s, d));
    assert forall d :: !Backed(t, d);
  }

  /** An answered renewal leads to a good state exactly when the key there is the client's own. */
  lemma RenewSafeIff(cfg: Config, s: State, c: Client)
    requires Inv(cfg, s) && Possible(cfg, s, Renew(c, true)) && cfg[c].timeout > 0
    ensures Inv(cfg, Apply(cfg, s, Renew(c, true))) <==> OwnKeyThere(s, c)
  {
    var t := Apply(cfg, s, Renew(c, true));
    assert Live(t, c);
    if OwnKeyThere(s, c) {
      assert forall d :: Live(s, d) ==> Backed(s, d);
      LoneWriter(cfg, s, t, c, t.clients[c]);
    } else {
      assert Backed(t, c) ==> !Visible(s.cell, s.now);
    }
  }

  /**
   A renewal without an answer, which moves the expiry of whatever key is there and changes no
   belief, does exactly when no lease outlasts the new expiry.
   */
  lemma LostRenewalSafeIff(cfg: Config, s: State, c: Client)
    requires Inv(cfg, s) && Possible(cfg, s, Renew(c, false))
    ensures Inv(cfg, Apply(cfg, s, Renew(c, false))) <==>
      forall d :: Live(s, d) ==> s.clients[d].lease.value < s.now + cfg[c].timeout
  {
    var t := Apply(cfg, s, Renew(c, false));
    assert forall d :: Live(t, d) <==> Live(s, d);
    assert forall d :: Live(s, d) ==> Backed(s, d);
    assert forall d :: OwnKeyThere(t, d) ==> OwnKeyThere(s, d);
    if forall d :: Live(s, d) ==> s.clients[d].lease.value < s.now + cfg[c].timeout {
      assert forall d :: Live(t, d) ==> Backed(t, d);
    } else {
      var d :| Live(s, d) && !(s.clients[d].lease.value < s.now + cfg[c].timeout);
      assert Live(t, d) && !Backed(t, d);
    }
  }

  // Refinement of the lease machine.

  function Abstract(s: State): Leases {
    Leases(s.now, map c | c in s.clients && s.clients[c].lease.Some? :: s.clients[c].lease.value)
  }

  lemma HoldsIsLive(s: State)
    ensures forall c :: Holds(Abstract(s), c) <==> Live(s, c)
  {
  }

  function ActionOf(cfg: Config, s: State, step: Step): Option<Action>
    requires Possible(cfg, s, step)
  {
    match step
    case Tick(to) => Some(Pass(to))
    case TrySet(c, answered) =>
      if answered && !Visible(s.cell, s.now) then Some(Acquire(c, Promise(cfg, s, c).value)) else None
    case CheckOwner(c) => if FindsOwn(cfg, s, c) then Some(Acquire(c, Promise(cfg, s, c).value)) else None
    case CheckFails(_) => None
    case Renew(c, answered) => if answered then Some(Extend(c, Promise(cfg, s, c).value)) else None
    case Unlock(c) => Some(GiveUp(c))
    case Crash(c) => Some(GiveUp(c))
  }

  lemma StepDoesAction(cfg: Config, s: State, step: Step)
    requires Possible(cfg, s, step)
    ensures Abstract(Apply(cfg, s, step)) ==
      match ActionOf(cfg, s, step) { case None => Abstract(s) case Some(a) => Do(Abstract(s), a) }
  {
  }

  /** Each step is an action of the lease machine or none, whatever happens between the two commands of Lock. */
  lemma StepRefines(cfg: Config, s: State, step: Step)
    requires DistinctOwners(cfg) && Inv(cfg, s) && Possible(cfg, s, step) && Disciplined(false, s, step)
    ensures Moves(Abstract(s), Abstract(Apply(cfg, s, step)))
  {
    StepDoesAction(cfg, s, step);
    HoldsIsLive(s);
    if step.TrySet? && !Visible(s.cell, s.now) {
      NoKeyNoHolder(cfg, s);
    }
    if step.CheckOwner? {
      CheckFindsOthers(cfg, s, step.c);
    }
    if ActionOf(cfg, s, step).Some? {
      assert Allowed(Abstract(s), ActionOf(cfg, s, step).value);
    }
  }

  function AbstractRun(states: seq<State>): (run: seq<Leases>)
    ensures |run| == |states| && forall i :: 0 <= i < |run| ==> run[i] == Abstract(states[i])
  {
    seq(|states|, i requires 0 <= i < |states| => Abstract(states[i]))
  }

  /** With distinct owners and no repeated locking every disciplined run is a run of the lease machine. */
  lemma RunRefines(cfg: Config, states: seq<State>, steps: seq<Step>)
    requires DistinctOwners(cfg) && Run(cfg, false, states, steps)
    ensures LeaseRun(AbstractRun(states))
  {
    var run := AbstractRun(states);
    assert run[0].until == map[];
    forall i | 0 <= i < |run| - 1 ensures Moves(run[i], run[i + 1]) {
      RunKeepsInv(cfg, states, steps, i);
      StepRefines(cfg, states[i], steps[i]);
    }
  }

  // Exactly when the lock excludes.

  ghost predicate AlwaysExclusive(cfg: Config, repeats: bool) {
    forall states, steps, i: nat :: Run(cfg, repeats, states, steps) && i < |states| ==> Exclusive(Abstract(states[i]))
  }

  lemma RunStep(cfg: Config, repeats: bool, states: seq<State>, steps: seq<Step>, step: Step)
    returns (states': seq<State>, steps': seq<Step>)
    requires Run(cfg, repeats, states, steps)
    requires Possible(cfg, states[|steps|], step) && Disciplined(repeats, states[|steps|], step)
    ensures Run(cfg, repeats, states', steps') && states'[|steps'|] == Apply(cfg, states[|steps|], step)
  {
    states', steps' := states + [Apply(cfg, states[|steps|], step)], steps + [step];
  }

  lemma FirstState(cfg: Config, repeats: bool) returns (states: seq<State>, steps: seq<Step>)
    ensures Run(cfg, repeats, states, steps) && steps == []
    ensures states == [State(0, None, None, map e | e in cfg :: ClientState(false, None))]
  {
    states, steps := [State(0, None, None, map e | e in cfg :: ClientState(false, None))], [];
  }

  /** A client that shares its identity with the holder takes the held lock for its own. */
  lemma SharedOwnerBreaksExclusion(cfg: Config, repeats: bool, c: Client, d: Client)
    returns (states: seq<State>, steps: seq<Step>)
    requires c in cfg && d in cfg && c != d && cfg[c].owner == cfg[d].owner && cfg[c].timeout > 0 && cfg[d].timeout > 0
    ensures Run(cfg, repeats, states, steps)
    ensures Live(states[|steps|], c) && Live(states[|steps|], d)
  {
    states, steps := FirstState(cfg, repeats);
    states, steps := RunStep(cfg, repeats, states, steps, TrySet(c, true));
    states, steps := RunStep(cfg, repeats, states, steps, TrySet(d, true));
    states, steps := RunStep(cfg, repeats, states, steps, CheckOwner(d));
  }

  /**
   A client that locks again while its own key is there is told that it holds the lock, but
   the key runs out when it would have, and somebody else locks.
   */
  lemma RepeatedLockBreaksExclusion(cfg: Config, c: Client, d: Client) returns (states: seq<State>, steps: seq<Step>)
    requires c in cfg && d in cfg && c != d && cfg[c].timeout > 1 && cfg[d].timeout > 0
    ensures Run(cfg, true, states, steps)
    ensures Live(states[|steps|], c) && Live(states[|steps|], d)
  {
    var t := cfg[c].timeout;
    states, steps := FirstState(cfg, true);
    states, steps := RunStep(cfg, true, states, steps, TrySet(c, true));
    states, steps := RunStep(cfg, true, states, steps, Tick(t - 1));
    states, steps := RunStep(cfg, true, states, steps, TrySet(c, true));
    states, steps := RunStep(cfg, true, states, steps, CheckOwner(c));
    states, steps := RunStep(cfg, true, states, steps, Tick(t));
    states, steps := RunStep(cfg, true, states, steps, TrySet(d, true));
  }

  lemma TwoLiveAreNotExclusive(s: State, c: Client, d: Client)
    requires c != d && Live(s, c) && Live(s, d)
    ensures !Exclusive(Abstract(s))
  {
    HoldsIsLive(s);
    assert Holds(Abstract(s), c) && Holds(Abstract(s), d);
  }

  /**
   Two clients or more exclude each other in all disciplined runs exactly when their owner
   identities are distinct and nobody locks again while its own key is there.
   */
  lemma ExclusiveIff(cfg: Config, repeats: bool, a: Client, b: Client)
    requires a in cfg && b in cfg && a != b && forall c :: c in cfg ==> cfg[c].timeout > 1
    ensures AlwaysExclusive(cfg, repeats) <==> DistinctOwners(cfg) && !repeats
  {
    if !DistinctOwners(cfg) {
      var c, d :| c in cfg && d in cfg && cfg[c].owner == cfg[d].owner && c != d;
      var states, steps := SharedOwnerBreaksExclusion(cfg, repeats, c, d);
      TwoLiveAreNotExclusive(states[|steps|], c, d);
    } else if repeats {
      var states, steps := RepeatedLockBreaksExclusion(cfg, a, b);
      TwoLiveAreNotExclusive(states[|steps|], a, b);
    } else {
      forall states, steps, i: nat | Run(cfg, repeats, states, steps) && i < |states|
        ensures Exclusive(Abstract(states[i]))
      {
        RunRefines(cfg, states, steps);
        RunExclusive(AbstractRun(states), i);
      }
    }
  }

  // Handover.

  /** An unlock leaves no key, and the first to set it afterwards gets the lock for its timeout. */
  lemma {:induction false} UnlockHandsOver(cfg: Config, states: seq<State>, steps: seq<Step>, i: nat, j: nat, c: Client, d: Client)
    requires Run(cfg, false, states, steps) && i < j < |states| && steps[i] == Unlock(c)
    requires forall k :: i < k < j ==> !steps[k].TrySet?
    ensures states[j].cell.None? && states[i + 1].clients[c].lease.None?
    ensures Possible(cfg, states[j], TrySet(d, true)) ==>
      var t := Apply(cfg, states[j], TrySet(d, true));
      && t.clients[d] == ClientState(false, Some(states[j].now + cfg[d].timeout - 1))
      && t.cell == Some(Entry(cfg[d].owner, Some(states[j].now + cfg[d].timeout)))
    decreases j
  {
    assert Possible(cfg, states[j - 1], steps[j - 1]) && states[j] == Apply(cfg, states[j - 1], steps[j - 1]);
    if j > i + 1 {
      UnlockHandsOver(cfg, states, steps, i, j - 1, c, d);
    }
  }

  /** While nobody is within a lease and the key is there, no step short of its running out changes that. */
  lemma ClosedStays(cfg: Config, s: State, step: Step)
    requires DistinctOwners(cfg) && Inv(cfg, s) && Possible(cfg, s, step) && Disciplined(false, s, step)
    requires Visible(s.cell, s.now) && forall d :: !Live(s, d)
    ensures var t := Apply(cfg, s, step); t.cell == s.cell && t.setter == s.setter && forall d :: !Live(t, d)
  {
    var t := Apply(cfg, s, step);
    if step.CheckOwner? {
      CheckFindsOthers(cfg, s, step.c);
    }
    assert forall d :: Live(t, d) ==> Live(s, d);
  }

  lemma CrashLeavesLock(cfg: Config, s: State, c: Client)
    requires Inv(cfg, s) && Live(s, c)
    ensures var t := Apply(cfg, s, Crash(c));
      && t.cell == s.cell && t.setter == s.setter == Some(c)
      && t.cell.Some? && t.cell.value.gone.Some? && s.clients[c].lease.value < t.cell.value.gone.value
      && forall d :: !Live(t, d)
  {
    assert forall d :: Live(s, d) ==> Backed(s, d);
    assert forall d :: Live(Apply(cfg, s, Crash(c)), d) ==> Live(s, d) && d != c;
  }

  /** A lock left behind by a crash stays closed to everybody until its lease is over. */
  lemma {:induction false} CrashKeepsLock(cfg: Config, states: seq<State>, steps: seq<Step>, i: nat, j: nat, c: Client)
    requires DistinctOwners(cfg) && Run(cfg, false, states, steps) && i < j < |states|
    requires steps[i] == Crash(c) && Live(states[i], c)
    requires forall k :: i < k <= j ==> states[k].now <= states[i].clients[c].lease.value
    ensures states[j].cell == states[i].cell && states[j].setter == Some(c) && Visible(states[j].cell, states[j].now)
    ensures forall d :: !Live(states[j], d)
    decreases j
  {
    var s, step := states[j - 1], steps[j - 1];
    RunKeepsInv(cfg, states, steps, i);
    RunKeepsInv(cfg, states, steps, j - 1);
    CrashLeavesLock(cfg, states[i], c);
    if j > i + 1 {
      CrashKeepsLock(cfg, states, steps, i, j - 1, c);
      assert Possible(cfg, s, step) && Disciplined(false, s, step);
      ClosedStays(cfg, s, step);
    }
    assert states[j - 1 + 1] == Apply(cfg, s, step);
  }
}
