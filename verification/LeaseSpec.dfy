/**
 What a distributed lock is: clients that each believe in a lease up to some moment, of
 whom at most one is right now within its lease.
 */
module LeaseSpec {

  type Client = nat

  /** The moments up to which the clients believe they hold the lock. */
  datatype Leases = Leases(now: int, until: map<Client, int>)

  predicate Holds(s: Leases, c: Client) {
    c in s.until && s.now <= s.until[c]
  }

  ghost predicate Exclusive(s: Leases) {
    forall c, d :: Holds(s, c) && Holds(s, d) ==> c == d
  }

  datatype Action =
    | Acquire(c: Client, until: int)
    | Extend(c: Client, until: int)
    | GiveUp(c: Client)
    | Pass(to: int)

  /** Acquire while nobody else holds; extend while holding; give up and pass time freely. */
  ghost predicate Allowed(s: Leases, a: Action) {
    match a
    case Acquire(c, _) => forall d :: Holds(s, d) ==> d == c
    case Extend(c, _) => Holds(s, c)
    case GiveUp(_) => true
    case Pass(to) => s.now <= to
  }

  function Do(s: Leases, a: Action): Leases {
    match a
    case Acquire(c, until) => s.(until := s.until[c := until])
    case Extend(c, until) => s.(until := s.until[c := until])
    case GiveUp(c) => s.(until := s.until - {c})
    case Pass(to) => s.(now := to)
  }

  /** One allowed action, or none. */
  ghost predicate Moves(s: Leases, t: Leases) {
    s == t || exists a :: Allowed(s, a) && t == Do(s, a)
  }

  ghost predicate LeaseRun(run: seq<Leases>) {
    && |run| > 0 && run[0].until == map[]
    && forall i :: 0 <= i < |run| - 1 ==> Moves(run[i], run[i + 1])
  }

  lemma MovesExclusive(s: Leases, t: Leases)
    requires Exclusive(s) && Moves(s, t)
    ensures Exclusive(t)
  {
    if s != t {
      var a :| Allowed(s, a) && t == Do(s, a);
      forall c, d | Holds(t, c) && Holds(t, d) ensures c == d {
        assert Holds(s, c) || (a.Acquire? && a.c == c);
        assert Holds(s, d) || (a.Acquire? && a.c == d);
      }
    }
  }

  /** Mutual exclusion over every run. */
  lemma {:induction false} RunExclusive(run: seq<Leases>, i: nat)
    requires LeaseRun(run) && i < |run|
    ensures Exclusive(run[i])
  {
    if i > 0 {
      RunExclusive(run, i - 1);
      MovesExclusive(run[i - 1], run[i]);
    }
  }
}
