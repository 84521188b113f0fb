/** Registering the watchers of a process as jobs, in whatever order their map is walked. */
module Watchers {
  import opened Common
  import opened JobManager
  import StringSearch

  /** A watcher may bring its own schedule. */
  datatype Watcher = Watcher(job: Job, spec: Option<string>)

  const EVERY_3_SECONDS := "@every 3s"

  function EntryOf(w: Watcher): Entry {
    Entry(if w.spec.Some? then w.spec.value else EVERY_3_SECONDS, w.job)
  }

  /** The watcher's job, on its own schedule if it has one, and else every three seconds. */
  predicate ComesAs(w: Watcher, e: Entry) {
    e.job == w.job &&
    match w.spec
    case Some(own) => e.schedule == own
    case None => e.schedule == "@every 3s"
  }

  /** The jobs that the enabled watchers stand for. */
  ghost function Enabled(watchers: map<string, Watcher>, disabled: seq<string>): map<string, Entry> {
    map n | n in watchers && n !in disabled :: EntryOf(watchers[n])
  }

  /** Nothing stands in the way of the entry. */
  ghost predicate Addable(present: map<string, Entry>, parses: string -> bool, name: string, entry: Entry) {
    name !in present && parses(entry.schedule)
  }

  ghost function Refusal(present: map<string, Entry>, name: string, entry: Entry): AddError {
    if name in present then AlreadyExists(name) else BadSchedule(entry.schedule)
  }

  /** The jobs once the wanted ones of some names came in. */
  ghost function With(before: map<string, Entry>, wanted: map<string, Entry>, added: set<string>): map<string, Entry> {
    before + (map n | n in added && n in wanted :: wanted[n])
  }

  lemma WithOneMore(before: map<string, Entry>, wanted: map<string, Entry>, added: set<string>, name: string)
    requires name in wanted
    ensures With(before, wanted, added)[name := wanted[name]] == With(before, wanted, added + {name})
    ensures name in With(before, wanted, added) <==> name in before || name in added
  {
  }

  lemma WithAll(before: map<string, Entry>, wanted: map<string, Entry>)
    ensures With(before, wanted, wanted.Keys) == before + wanted
    ensures With(before, wanted, {}) == before
  {
    assert (map n | n in wanted.Keys && n in wanted :: wanted[n]) == wanted;
  }

  /** The step for one watcher that has not come in before. */
  method AddWatcher(jm: Manager, name: string, w: Watcher, ghost before: map<string, Entry>,
                    ghost wanted: map<string, Entry>, ghost added: set<string>)
    returns (r: Result<int, AddError>)
    requires jm.Valid() && jm.Jobs() == With(before, wanted, added)
    requires name in wanted && wanted[name] == EntryOf(w) && name !in added
    modifies jm`jobs, jm.scheduler
    ensures jm.Valid()
    ensures r.Ok? <==> Addable(before, jm.scheduler.parses, name, wanted[name])
    ensures r.Err? ==> r.error == Refusal(before, name, wanted[name])
    ensures jm.Jobs() == With(before, wanted, if r.Ok? then added + {name} else added)
  {
    WithOneMore(before, wanted, added, name);
    var entry := EntryOf(w);
    r := jm.AddJob(name, entry.schedule, entry.job);
  }

  method AddWatchers(jm: Manager, watchers: map<string, Watcher>, disabled: seq<string>)
    returns (err: Option<AddError>, ghost added: set<string>)
    requires jm.Valid()
    modifies jm`jobs, jm.scheduler
    ensures jm.Valid()
    ensures forall n :: n in watchers && n !in disabled ==> ComesAs(watchers[n], Enabled(watchers, disabled)[n])
    ensures var wanted := Enabled(watchers, disabled);
      && (err.None? <==> forall n :: n in wanted ==> Addable(old(jm.Jobs()), jm.scheduler.parses, n, wanted[n]))
      && (err.None? ==> jm.Jobs() == old(jm.Jobs()) + wanted)
      && (err.Some? ==> exists n :: n in wanted && n !in added && err.value == Refusal(old(jm.Jobs()), n, wanted[n]))
      && added <= wanted.Keys
      && jm.Jobs() == With(old(jm.Jobs()), wanted, added)
  {
    ghost var wanted := Enabled(watchers, disabled);
    ghost var before := jm.Jobs();
    var remaining := watchers.Keys;
    added := {};
    WithAll(before, wanted);
    while remaining != {}
      invariant jm.Valid()
      invariant remaining <= watchers.Keys
      invariant forall n :: n in added <==> n in wanted && n !in remaining
      invariant forall n :: n in added ==> Addable(before, jm.scheduler.parses, n, wanted[n])
      invariant jm.Jobs() == With(before, wanted, added)
      decreases |remaining|
    {
      var name :| name in remaining;
      remaining := remaining - {name};
      var skip := StringSearch.StringIn(name, disabled);
      if skip {
        continue;
      }
      var r := AddWatcher(jm, name, watchers[name], before, wanted, added);
      if r.Err? {
        return Some(r.error), added;
      }
      added := added + {name};
    }
    assert added == wanted.Keys;
    err := None;
  }

  lemma EnabledOnEmpty(watchers: map<string, Watcher>, disabled: seq<string>, parses: string -> bool)
    ensures var wanted := Enabled(watchers, disabled);
      && map[] + wanted == wanted
      && wanted.Keys == (set n | n in watchers && n !in disabled)
      && ((forall n :: n in wanted ==> Addable(map[], parses, n, wanted[n])) <==>
          forall n :: n in watchers && n !in disabled ==> parses(EntryOf(watchers[n]).schedule))
  {
    var wanted := Enabled(watchers, disabled);
    forall n | n in watchers && n !in disabled
      ensures Addable(map[], parses, n, wanted[n]) <==> parses(EntryOf(watchers[n]).schedule)
    {
    }
  }

  lemma KeysShown(t: Table, foreign: map<int, Entry>)
    requires Agrees(t, foreign)
    ensures Catalogue(t).Keys == t.jobs.Keys
  {
  }

  /** A new watch: a new manager around a new runner, with the enabled watchers as its jobs. */
  method NewWatch(standard: Scheduler, parses: string -> bool, watchers: map<string, Watcher>, disabled: seq<string>)
    returns (r: Result<Manager, AddError>)
    requires standard.IdsGivenOut()
    ensures r.Ok? <==> forall n :: n in watchers && n !in disabled ==> parses(EntryOf(watchers[n]).schedule)
    ensures r.Ok? ==> r.value.Valid() && r.value.foreign == map[] && r.value.Jobs() == Enabled(watchers, disabled)
    ensures r.Ok? ==> r.value.jobs.Keys == set n | n in watchers && n !in disabled
    ensures r.Ok? ==> forall n :: n in watchers && n !in disabled ==> ComesAs(watchers[n], r.value.Jobs()[n])
  {
    var runner := new Scheduler(parses);
    var jm := new Manager(standard, [runner]);
    assert jm.scheduler == runner && jm.Jobs() == map[];
    var err, _ := AddWatchers(jm, watchers, disabled);
    EnabledOnEmpty(watchers, disabled, parses);
    if err.Some? {
      return Err(err.value);
    }
    KeysShown(jm.Value(), jm.foreign);
    return Ok(jm);
  }
}
