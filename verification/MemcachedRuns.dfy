/** Runs of many Memcached lockers on one key, with a Unix clock. Answers may be lost. */
module MemcachedRuns {
  import opened Common
  import opened LeaseSpec
  import opened TtlStore
  import opened MemcachedLocker

  datatype Settings = Settings(owner: string, timeout: nat)
  type Config = map<Client, Settings>

  /** The leases are what the last successes promised. */
  datatype State = State(now: int, cell: Option<Entry>, setter: Option<Client>, leases: map<Client, int>)

  /** A command that is not carried out is no step; an unlock that fails so leaves what a crash leaves. */
  datatype Step =
    | Tick(to: int)
    | TryAdd(c: Client, answered: bool)
    | Renew(c: Client, answered: bool)
    | Unlock(c: Client)
    | Crash(c: Client)

  predicate Live(s: State, c: Client) {
    c in s.leases && s.now <= s.leases[c]
  }

  predicate Possible(cfg: Config, s: State, step: Step) {
    match step
    case Tick(to) => s.now <= to
    case TryAdd(c, _) => c in cfg
    case Renew(c, _) => c in cfg
    case Unlock(c) => c in cfg
    case Crash(c) => c in cfg
  }

  predicate Disciplined(s: State, step: Step) {
    match step
    case Renew(c, _) => Live(s, c)
    case Unlock(c) => Live(s, c)
    case _ => true
  }

  function Written(cfg: Config, s: State, c: Client): Entry
    requires c in cfg
  {
    Entry(cfg[c].owner, GoneAt(Expiration(cfg[c].timeout), s.now))
  }

  /** A success at this moment promises the lock for the timeout. */
  function Promised(cfg: Config, s: State, c: Client, answered: bool): map<Client, int>
    requires c in cfg
  {
    if answered then s.leases[c := s.now + cfg[c].timeout - 1] else s.leases
  }

  function Apply(cfg: Config, s: State, step: Step): State
    requires Possible(cfg, s, step)
  {
    match step
    case Tick(to) => s.(now := to)
    case TryAdd(c, answered) =>
      var (ok, cell) := AddCommand(s.cell, s.now, Written(cfg, s, c));
      if ok then s.(cell := cell, setter := Some(c), leases := Promised(cfg, s, c, answered)) else s
    case Renew(c, answered) =>
      var (ok, cell) := ReplaceCommand(s.cell, s.now, Written(cfg, s, c));
      if ok then s.(cell := cell, setter := Some(c), leases := Promised(cfg, s, c, answered)) else s
    case Unlock(c) => s.(cell := None, leases := s.leases - {c})
    case Crash(c) => s.(leases := s.leases - {c})
  }

  ghost predicate Run(cfg: Config, start: int, states: seq<State>, steps: seq<Step>) {
    && |states| == |steps| + 1 && states[0] == State(start, None, None, map[])
    && forall i :: 0 <= i < |steps| ==>
      && Possible(cfg, states[i], steps[i]) && Disciplined(states[i], steps[i])
      && states[i + 1] == Apply(cfg, states[i], steps[i])
  }

  ghost predicate AllCovering(cfg: Config) {
    forall c :: c in cfg ==> Covering(cfg[c].timeout)
  }

  /** The key of whoever is within a lease was written by that client, and outlives the lease. */
  predicate Backed(s: State, c: Client) {
    && s.cell.Some? && s.setter == Some(c) && c in s.leases
    && (s.cell.value.gone.Some? ==> s.leases[c] < s.cell.value.gone.value)
  }

  ghost predicate Inv(cfg: Config, s: State) {
    && (forall c :: c in s.leases ==> c in cfg && s.leases[c] < s.now + cfg[c].timeout)
    && (forall c :: Live(s, c) ==> Backed(s, c))
  }

  /** A client writes the key while nobody else is within a lease. */
  lemma LoneWriter(cfg: Config, s: State, c: Client, answered: bool)
    requires AllCovering(cfg) && Inv(cfg, s) && c in cfg && forall d :: Live(s, d) ==> d == c
    ensures Inv(cfg, s.(cell := Some(Written(cfg, s, c)), setter := Some(c), leases := Promised(cfg, s, c, answered)))
  {
    WholeSeconds(cfg[c].timeout);
    assert Covering(cfg[c].timeout);
    var t := s.(cell := Some(Written(cfg, s, c)), setter := Some(c), leases := Promised(cfg, s, c, answered));
    forall d | Live(t, d) ensures Backed(t, d) {
      assert d != c ==> Live(s, d);
    }
  }

  lemma HolderIsSetter(cfg: Config, s: State, c: Client)
    requires Inv(cfg, s) && Live(s, c)
    ensures Visible(s.cell, s.now) && forall d :: Live(s, d) ==> d == c
  {
    forall d | Live(s, d) ensures d == c {
      assert Backed(s, c) && Backed(s, d);
    }
  }

  lemma StepKeepsInv(cfg: Config, s: State, step: Step)
    requires AllCovering(cfg) && Inv(cfg, s) && Possible(cfg, s, step) && Disciplined(s, step)
    ensures Inv(cfg, Apply(cfg, s, step))
  {
    var t := Apply(cfg, s, step);
    match step
    case Tick(to) => assert forall d :: Live(t, d) ==> Live(s, d) && Backed(s, d);
    case TryAdd(c, answered) =>
      if !Visible(s.cell, s.now) {
        assert forall d :: Live(s, d) ==> Backed(s, d);
        LoneWriter(cfg, s, c, answered);
      }
    case Renew(c, answered) =>
      HolderIsSetter(cfg, s, c);
      LoneWriter(cfg, s, c, answered);
    case Unlock(c) =>
      HolderIsSetter(cfg, s, c);
      assert forall d :: Live(t, d) ==> Live(s, d) && d != c;
    case Crash(c) => assert forall d :: Live(t, d) ==> Live(s, d) && Backed(s, d);
  }

  lemma {:induction false} RunKeepsInv(cfg: Config, start: int, states: seq<State>, steps: seq<Step>, i: nat)
    requires AllCovering(cfg) && Run(cfg, start, states, steps) && i < |states|
    ensures Inv(cfg, states[i])
  {
    if i > 0 {
      RunKeepsInv(cfg, start, states, steps, i - 1);
      StepKeepsInv(cfg, states[i - 1], steps[i - 1]);
    }
  }

  // What the discipline is for.

  /**
   From a good state an unlock, disciplined or not, leads to a good state exactly when no other
   client is within its lease.
   */
  lemma UnlockSafeIff(cfg: Config, s: State, c: Client)
    requires Inv(cfg, s) && Possible(cfg, s, Unlock(c))
    ensures Inv(cfg, Apply(cfg, s, Unlock(c))) <==> forall d :: Live(s, d) ==> d == c
  {
    var t := Apply(cfg, s, Unlock(c));
    assert forall d :: d != c ==> (Live(t, d) <==> Live(s, d));
    assert forall d :: !Backed(t, d);
  }

  /** So does a renewal, answered or not: it makes whatever key is there the client's own. */
  lemma RenewSafeIff(cfg: Config, s: State, c: Client, answered: bool)
    requires AllCovering(cfg) && Inv(cfg, s) && Possible(cfg, s, Renew(c, answered))
    ensures Inv(cfg, Apply(cfg, s, Renew(c, answered))) <==> forall d :: Live(s, d) ==> d == c
  {
    var t := Apply(cfg, s, Renew(c, answered));
    assert forall d :: Live(s, d) ==> Backed(s, d);
    if d :| Live(s, d) && d != c {
      assert Live(t, d) && !Backed(t, d);
    } else if Visible(s.cell, s.now) {
      LoneWriter(cfg, s, c, answered);
    }
  }

  // Refinement of the lease machine.

  function Abstract(s: State): Leases {
    Leases(s.now, s.leases)
  }

  function ActionOf(cfg: Config, s: State, step: Step): Option<Action>
    requires Possible(cfg, s, step)
  {
    match step
    case Tick(to) => Some(Pass(to))
    case TryAdd(c, answered) =>
      if answered && !Visible(s.cell, s.now) then Some(Acquire(c, s.now + cfg[c].timeout - 1)) else None
    case Renew(c, answered) =>
      if answered && Visible(s.cell, s.now) then Some(Extend(c, s.now + cfg[c].timeout - 1)) else None
    case Unlock(c) => Some(GiveUp(c))
    case Crash(c) => Some(GiveUp(c))
  }

  /** Each step is an action of the lease machine or none. */
  lemma StepRefines(cfg: Config, s: State, step: Step)
    requires Inv(cfg, s) && Possible(cfg, s, step) && Disciplined(s, step)
    ensures Moves(Abstract(s), Abstract(Apply(cfg, s, step)))
  {
    assert forall c :: Holds(Abstract(s), c) <==> Live(s, c);
    var action := ActionOf(cfg, s, step);
    if action.Some? {
      assert Allowed(Abstract(s), action.value) by {
        assert forall d :: Live(s, d) ==> Backed(s, d);
      }
      assert Abstract(Apply(cfg, s, step)) == Do(Abstract(s), action.value);
    }
  }

  function AbstractRun(states: seq<State>): (run: seq<Leases>)
    ensures |run| == |states| && forall i :: 0 <= i < |run| ==> run[i] == Abstract(states[i])
  {
    seq(|states|, i requires 0 <= i < |states| => Abstract(states[i]))
  }

  /** With covering timeouts every disciplined run is a run of the lease machine. */
  lemma RunRefines(cfg: Config, start: int, states: seq<State>, steps: seq<Step>)
    requires AllCovering(cfg) && Run(cfg, start, states, steps)
    ensures LeaseRun(AbstractRun(states))
  {
    var run := AbstractRun(states);
    forall i | 0 <= i < |run| - 1 ensures Moves(run[i], run[i + 1]) {
      RunKeepsInv(cfg, start, states, steps, i);
      StepRefines(cfg, states[i], steps[i]);
    }
  }

  // Exactly when the lock excludes.

  ghost predicate AlwaysExclusive(cfg: Config, start: int) {
    forall states, steps, i: nat :: Run(cfg, start, states, steps) && i < |states| ==> Exclusive(Abstract(states[i]))
  }

  /**
   A timeout that is sent as too short a time, or as a moment that is past: a second client adds
   within the timeout of the first.
   */
  lemma UncoveredBreaksExclusion(cfg: Config, start: int, c: Client, d: Client)
    returns (states: seq<State>, steps: seq<Step>)
    requires c in cfg && d in cfg && c != d && start > 0
    requires !Covering(cfg[c].timeout) && cfg[d].timeout > 0
    ensures Run(cfg, start, states, steps)
    ensures Live(states[|steps|], c) && Live(states[|steps|], d)
  {
    WholeSeconds(cfg[c].timeout);
    var s0 := State(start, None, None, map[]);
    var s1 := Apply(cfg, s0, TryAdd(c, true));
    var gone := s1.cell.value.gone.value;
    var tick := Tick(if gone > start then gone else start);
    var s2 := Apply(cfg, s1, tick);
    states, steps := [s0, s1, s2, Apply(cfg, s2, TryAdd(d, true))], [TryAdd(c, true), tick, TryAdd(d, true)];
  }

  /** A second and a half is sent as one second. */
  lemma FractionExample(start: int) returns (states: seq<State>, steps: seq<Step>)
    requires start > 0
    ensures var half := Settings("a", 1_500_000_000); var cfg := map[0 := half, 1 := half.(owner := "b")];
      && Run(cfg, start, states, steps)
      && Live(states[|steps|], 0) && Live(states[|steps|], 1)
  {
    var half := Settings("a", 1_500_000_000);
    states, steps := UncoveredBreaksExclusion(map[0 := half, 1 := half.(owner := "b")], start, 0, 1);
  }

  /** Thirty-one days are sent as a moment of 1970. */
  lemma LongExample(start: int) returns (states: seq<State>, steps: seq<Step>)
    requires start > 0
    ensures var long := Settings("a", 31 * 86_400 * SECOND); var cfg := map[0 := long, 1 := long.(owner := "b")];
      && Run(cfg, start, states, steps)
      && Live(states[|steps|], 0) && Live(states[|steps|], 1)
  {
    var long := Settings("a", 31 * 86_400 * SECOND);
    states, steps := UncoveredBreaksExclusion(map[0 := long, 1 := long.(owner := "b")], start, 0, 1);
  }

  /**
   Two clients or more exclude each other in all disciplined runs, from any moment on, exactly
   when all timeouts are covering.
   */
  lemma ExclusiveIffCovering(cfg: Config, start: int, a: Client, b: Client)
    requires a in cfg && b in cfg && a != b && start > 0 && forall c :: c in cfg ==> cfg[c].timeout > 1
    ensures AlwaysExclusive(cfg, start) <==> AllCovering(cfg)
  {
    if AllCovering(cfg) {
      forall states, steps, i: nat | Run(cfg, start, states, steps) && i < |states|
        ensures Exclusive(Abstract(states[i]))
      {
        RunRefines(cfg, start, states, steps);
        RunExclusive(AbstractRun(states), i);
      }
    } else {
      var c :| c in cfg && !Covering(cfg[c].timeout);
      var d := if c == a then b else a;
      var states, steps := UncoveredBreaksExclusion(cfg, start, c, d);
      assert Holds(Abstract(states[|steps|]), c) && Holds(Abstract(states[|steps|]), d);
    }
  }

  // Handover.

  /** An unlock leaves no key, and the first to add it afterwards gets the lock for its timeout. */
  lemma {:induction false} UnlockHandsOver(cfg: Config, start: int, states: seq<State>, steps: seq<Step>,
                                           i: nat, j: nat, c: Client, d: Client)
    requires Run(cfg, start, states, steps) && i < j < |states| && steps[i] == Unlock(c)
    requires forall k :: i < k < j ==> !steps[k].TryAdd?
    ensures states[j].cell.None? && c !in states[i + 1].leases
    ensures d in cfg ==>
      var t := Apply(cfg, states[j], TryAdd(d, true));
      && d in t.leases && t.leases[d] == states[j].now + cfg[d].timeout - 1
      && t.cell == Some(Entry(cfg[d].owner, GoneAt(Expiration(cfg[d].timeout), states[j].now)))
    decreases j
  {
    assert Possible(cfg, states[j - 1], steps[j - 1]) && states[j] == Apply(cfg, states[j - 1], steps[j - 1]);
    if j > i + 1 {
      UnlockHandsOver(cfg, start, states, steps, i, j - 1, c, d);
    }
  }

  /** A lock left behind by a crash stays closed to everybody until its lease is over. */
  lemma {:induction false} CrashKeepsLock(cfg: Config, start: int, states: seq<State>, steps: seq<Step>, i: nat, j: nat, c: Client)
    requires AllCovering(cfg) && Run(cfg, start, states, steps) && i < j < |states|
    requires steps[i] == Crash(c) && Live(states[i], c)
    requires forall k :: i < k <= j ==> states[k].now <= states[i].leases[c]
    ensures states[j].cell == states[i].cell && Visible(states[j].cell, states[j].now)
    ensures forall d :: !Live(states[j], d)
    decreases j
  {
    assert Possible(cfg, states[j - 1], steps[j - 1]) && Disciplined(states[j - 1], steps[j - 1]);
    assert states[j] == Apply(cfg, states[j - 1], steps[j - 1]);
    RunKeepsInv(cfg, start, states, steps, i);
    HolderIsSetter(cfg, states[i], c);
    assert Backed(states[i], c);
    if j > i + 1 {
      CrashKeepsLock(cfg, start, states, steps, i, j - 1, c);
      assert forall d :: Live(states[j], d) ==> Live(states[j - 1], d);
    } else {
      assert forall d :: Live(states[j], d) ==> Live(states[i], d) && d != c;
    }
  }
}
