/**
 The index from job names to scheduler entries. What a user of the manager sees is a plain
 map from names to jobs; that the index and the scheduler together behave as that map, over
 every sequence of calls and beside entries that somebody else put into the scheduler, is
 what is proved here.
 */
module JobManager {
  import opened Common

  datatype Job = Job(id: nat)

  datatype Entry = Entry(schedule: string, job: Job)

  datatype AddError = AlreadyExists(name: string) | BadSchedule(schedule: string)

  /** The manager's index with its scheduler: the entries, and the last id given out. */
  datatype Table = Table(jobs: map<string, int>, entries: map<int, Entry>, lastID: int)

  function AddTo(t: Table, parses: string -> bool, name: string, entry: Entry): (Result<int, AddError>, Table) {
    if name in t.jobs then (Err(AlreadyExists(name)), t)
    else if !parses(entry.schedule) then (Err(BadSchedule(entry.schedule)), t)
    else
      var id := t.lastID + 1;
      (Ok(id), Table(t.jobs[name := id], t.entries[id := entry], id))
  }

  function RemoveFrom(t: Table, name: string): Table {
    if name !in t.jobs then t
    else t.(jobs := t.jobs - {name}, entries := t.entries - {t.jobs[name]})
  }

  ghost predicate Indexed(t: Table, id: int) {
    exists n :: n in t.jobs && t.jobs[n] == id
  }

  /** Every scheduler entry is the job of exactly one name, or one of the foreign entries, which are untouched. */
  ghost predicate Agrees(t: Table, foreign: map<int, Entry>) {
    && (forall n, m :: n in t.jobs && m in t.jobs && t.jobs[n] == t.jobs[m] ==> n == m)
    && (forall n :: n in t.jobs ==> t.jobs[n] in t.entries && t.jobs[n] !in foreign)
    && (forall id :: id in foreign ==> id in t.entries && t.entries[id] == foreign[id])
    && (forall id :: id in t.entries ==> id <= t.lastID && (id in foreign || Indexed(t, id)))
  }

  /** What the users of the manager see. */
  ghost function Catalogue(t: Table): map<string, Entry> {
    map n | n in t.jobs && t.jobs[n] in t.entries :: t.entries[t.jobs[n]]
  }

  lemma AddAgrees(t: Table, parses: string -> bool, name: string, entry: Entry, foreign: map<int, Entry>)
    requires Agrees(t, foreign)
    ensures Agrees(AddTo(t, parses, name, entry).1, foreign)
  {
    var (r, after) := AddTo(t, parses, name, entry);
    if r.Ok? {
      assert after.jobs[name] == after.lastID && Indexed(after, after.lastID);
      forall id | id in t.entries
        ensures id in foreign || Indexed(after, id)
      {
        if id !in foreign {
          var n :| n in t.jobs && t.jobs[n] == id;
          assert after.jobs[n] == id;
        }
      }
    }
  }

  lemma AddShows(t: Table, parses: string -> bool, name: string, entry: Entry, foreign: map<int, Entry>)
    requires Agrees(t, foreign)
    ensures var (r, after) := AddTo(t, parses, name, entry);
      && (r.Ok? <==> name !in Catalogue(t) && parses(entry.schedule))
      && (r == Err(AlreadyExists(name)) <==> name in Catalogue(t))
      && (r == Err(BadSchedule(entry.schedule)) <==> name !in Catalogue(t) && !parses(entry.schedule))
      && Catalogue(after) == (if r.Ok? then Catalogue(t)[name := entry] else Catalogue(t))
  {
    var (r, after) := AddTo(t, parses, name, entry);
    if r.Ok? {
      forall n | n in t.jobs
        ensures t.jobs[n] in t.entries && after.jobs[n] == t.jobs[n] && after.entries[t.jobs[n]] == t.entries[t.jobs[n]]
      {
        assert t.jobs[n] <= t.lastID;
      }
    }
  }

  lemma RemoveAgrees(t: Table, name: string, foreign: map<int, Entry>)
    requires Agrees(t, foreign)
    ensures Agrees(RemoveFrom(t, name), foreign)
  {
    var after := RemoveFrom(t, name);
    forall id | id in after.entries
      ensures id in foreign || Indexed(after, id)
    {
      if id !in foreign {
        var n :| n in t.jobs && t.jobs[n] == id;
        assert after.jobs[n] == id;
      }
    }
  }

  lemma RemoveShows(t: Table, name: string, foreign: map<int, Entry>)
    requires Agrees(t, foreign)
    ensures Catalogue(RemoveFrom(t, name)) == Catalogue(t) - {name}
  {
  }

  datatype Call = Add(name: string, entry: Entry) | Remove(name: string)

  function Perform(t: Table, parses: string -> bool, call: Call): Table {
    match call
    case Add(name, entry) => AddTo(t, parses, name, entry).1
    case Remove(name) => RemoveFrom(t, name)
  }

  function Run(t: Table, parses: string -> bool, calls: seq<Call>): Table
    decreases |calls|
  {
    if calls == [] then t
    else Perform(Run(t, parses, calls[..|calls| - 1]), parses, calls[|calls| - 1])
  }

  /** The plain map that the manager stands for. */
  function PlainRun(m: map<string, Entry>, parses: string -> bool, calls: seq<Call>): map<string, Entry>
    decreases |calls|
  {
    if calls == [] then m
    else
      var before := PlainRun(m, parses, calls[..|calls| - 1]);
      match calls[|calls| - 1]
      case Add(name, entry) => if name in before || !parses(entry.schedule) then before else before[name := entry]
      case Remove(name) => before - {name}
  }

  /** After any calls, the scheduler holds the foreign entries and the plain map's jobs, each under one name. */
  lemma {:induction false} RunIsPlainMap(t: Table, parses: string -> bool, calls: seq<Call>, foreign: map<int, Entry>)
    requires Agrees(t, foreign)
    ensures Agrees(Run(t, parses, calls), foreign)
    ensures Catalogue(Run(t, parses, calls)) == PlainRun(Catalogue(t), parses, calls)
    decreases |calls|
  {
    if calls != [] {
      var front, last := calls[..|calls| - 1], calls[|calls| - 1];
      RunIsPlainMap(t, parses, front, foreign);
      var before := Run(t, parses, front);
      match last
      case Add(name, entry) =>
        AddAgrees(before, parses, name, entry, foreign);
        AddShows(before, parses, name, entry, foreign);
      case Remove(name) =>
        RemoveAgrees(before, name, foreign);
        RemoveShows(before, name, foreign);
    }
  }

  /** The entry ids that the calls return. */
  function Issued(t: Table, parses: string -> bool, calls: seq<Call>): seq<int>
    decreases |calls|
  {
    if calls == [] then []
    else
      var front, last := calls[..|calls| - 1], calls[|calls| - 1];
      Issued(t, parses, front) +
      match last
      case Add(name, entry) =>
        var r := AddTo(Run(t, parses, front), parses, name, entry).0;
        if r.Ok? then [r.value] else []
      case Remove(_) => []
  }

  /** Ids in order, all above a first bound and none above a last one. */
  ghost predicate Ascending(ids: seq<int>, low: int, high: int) {
    && low <= high
    && (forall i :: 0 <= i < |ids| ==> low < ids[i] <= high)
    && (forall i, j :: 0 <= i < j < |ids| ==> ids[i] < ids[j])
  }

  /** No entry id is given out twice, not even after its job was removed. */
  lemma {:induction false} IssuedAscend(t: Table, parses: string -> bool, calls: seq<Call>)
    ensures Ascending(Issued(t, parses, calls), t.lastID, Run(t, parses, calls).lastID)
    decreases |calls|
  {
    if calls != [] {
      IssuedAscend(t, parses, calls[..|calls| - 1]);
    }
  }

  /** Call i adds the name with a good schedule, and nothing removes the name before call n. */
  ghost predicate Stands(parses: string -> bool, calls: seq<Call>, name: string, i: nat, n: nat)
    requires i < n <= |calls|
  {
    && calls[i].Add? && calls[i].name == name && parses(calls[i].entry.schedule)
    && forall k :: i < k < n ==> calls[k] != Remove(name)
  }

  /** Call i is the one that the job of the name comes from. */
  ghost predicate Source(parses: string -> bool, calls: seq<Call>, name: string, i: nat)
    requires i < |calls|
  {
    && Stands(parses, calls, name, i, |calls|)
    && forall j: nat :: j < i ==> !Stands(parses, calls, name, j, i)
  }

  lemma StandsInFront(parses: string -> bool, calls: seq<Call>, name: string, i: nat, n: nat)
    requires i < n < |calls|
    ensures Stands(parses, calls[..|calls| - 1], name, i, n) <==> Stands(parses, calls, name, i, n)
  {
    var front := calls[..|calls| - 1];
    assert forall k :: 0 <= k < |front| ==> front[k] == calls[k];
  }

  lemma StandsOneLater(parses: string -> bool, calls: seq<Call>, name: string, i: nat)
    requires i < |calls| - 1
    ensures Stands(parses, calls, name, i, |calls|) <==>
      Stands(parses, calls[..|calls| - 1], name, i, |calls| - 1) && calls[|calls| - 1] != Remove(name)
  {
    var last := |calls| - 1;
    StandsInFront(parses, calls, name, i, last);
    assert calls[last] == Remove(name) ==> !Stands(parses, calls, name, i, |calls|);
  }

  lemma SourceInFront(parses: string -> bool, calls: seq<Call>, name: string, i: nat)
    requires i < |calls| - 1 && calls[|calls| - 1] != Remove(name)
    requires Source(parses, calls[..|calls| - 1], name, i)
    ensures Source(parses, calls, name, i)
  {
    StandsOneLater(parses, calls, name, i);
    forall j: nat | j < i
      ensures !Stands(parses, calls, name, j, i)
    {
      StandsInFront(parses, calls, name, j, i);
    }
  }

  /** A new manager has a job under a name exactly if some good Add of the name was not undone since. */
  lemma {:induction false} PresentIff(parses: string -> bool, calls: seq<Call>, name: string)
    ensures name in PlainRun(map[], parses, calls) <==>
      exists i: nat :: i < |calls| && Stands(parses, calls, name, i, |calls|)
    decreases |calls|
  {
    if calls != [] {
      var last := |calls| - 1;
      var front, call := calls[..last], calls[last];
      PresentIff(parses, front, name);
      forall i: nat | i < last
        ensures Stands(parses, calls, name, i, |calls|) <==>
          Stands(parses, front, name, i, last) && call != Remove(name)
      {
        StandsOneLater(parses, calls, name, i);
      }
      assert Stands(parses, calls, name, last, |calls|) <==>
        call.Add? && call.name == name && parses(call.entry.schedule);
    }
  }

  /** The job is the one of the first such Add: later ones were refused. */
  lemma {:induction false} PresentFromFirst(parses: string -> bool, calls: seq<Call>, name: string) returns (i: nat)
    requires name in PlainRun(map[], parses, calls)
    ensures i < |calls| && Source(parses, calls, name, i)
    ensures calls[i].entry == PlainRun(map[], parses, calls)[name]
    decreases |calls|
  {
    var last := |calls| - 1;
    var front := calls[..last];
    if name in PlainRun(map[], parses, front) {
      i := PresentFromFirst(parses, front, name);
      SourceInFront(parses, calls, name, i);
    } else {
      i := last;
      PresentIff(parses, front, name);
      forall j: nat | j < last
        ensures !Stands(parses, calls, name, j, last)
      {
        StandsInFront(parses, calls, name, j, last);
      }
    }
  }

  /** The cron scheduler, as far as the manager uses it. */
  class Scheduler {
    const parses: string -> bool
    var entries: map<int, Entry>
    var lastID: int

    /** Every entry has an id that was given out. */
    ghost predicate IdsGivenOut()
      reads this
    {
      forall id :: id in entries ==> id <= lastID
    }

    constructor (parses: string -> bool)
      ensures this.parses == parses && entries == map[] && lastID == 0
    {
      this.parses, entries, lastID := parses, map[], 0;
    }

    method AddJob(schedule: string, job: Job) returns (r: Result<int, AddError>)
      modifies this
      ensures r == if parses(schedule) then Ok(old(lastID) + 1) else Err(BadSchedule(schedule))
      ensures r.Ok? ==> lastID == r.value && entries == old(entries)[r.value := Entry(schedule, job)]
      ensures r.Err? ==> lastID == old(lastID) && entries == old(entries)
    {
      if !parses(schedule) {
        return Err(BadSchedule(schedule));
      }
      lastID := lastID + 1;
      entries := entries[lastID := Entry(schedule, job)];
      return Ok(lastID);
    }

    method Remove(id: int)
      modifies this
      ensures lastID == old(lastID) && entries == old(entries) - {id}
    {
      entries := entries - {id};
    }
  }

  class Manager {
    const scheduler: Scheduler
    var jobs: map<string, int>
    /** What the scheduler held when the manager was given it. */
    ghost const foreign: map<int, Entry>

    function Value(): Table
      reads this, scheduler
    {
      Table(jobs, scheduler.entries, scheduler.lastID)
    }

    ghost predicate Valid()
      reads this, scheduler
    {
      Agrees(Value(), foreign)
    }

    ghost function Jobs(): map<string, Entry>
      reads this, scheduler
    {
      Catalogue(Value())
    }

    /** The last scheduler that the options name, else the new one. */
    constructor (standard: Scheduler, options: seq<Scheduler>)
      requires forall s :: s in [standard] + options ==> s.IdsGivenOut()
      ensures scheduler == ([standard] + options)[|options|]
      ensures Valid() && jobs == map[] && foreign == scheduler.entries
    {
      var chosen := standard;
      for i := 0 to |options|
        invariant chosen == ([standard] + options)[i] && chosen.IdsGivenOut()
      {
        chosen := options[i];
        assert chosen == ([standard] + options)[i + 1];
      }
      scheduler, jobs, foreign := chosen, map[], chosen.entries;
    }

    method AddJob(name: string, schedule: string, job: Job) returns (r: Result<int, AddError>)
      requires Valid()
      modifies this`jobs, scheduler
      ensures Valid()
      ensures (r, Value()) == AddTo(old(Value()), scheduler.parses, name, Entry(schedule, job))
      ensures r.Ok? <==> name !in old(Jobs()) && scheduler.parses(schedule)
      ensures Jobs() == if r.Ok? then old(Jobs())[name := Entry(schedule, job)] else old(Jobs())
    {
      AddAgrees(Value(), scheduler.parses, name, Entry(schedule, job), foreign);
      AddShows(Value(), scheduler.parses, name, Entry(schedule, job), foreign);
      if name in jobs {
        return Err(AlreadyExists(name));
      }
      r := scheduler.AddJob(schedule, job);
      if r.Err? {
        return;
      }
      jobs := jobs[name := r.value];
    }

    method RemoveJob(name: string)
      requires Valid()
      modifies this`jobs, scheduler
      ensures Valid()
      ensures Value() == RemoveFrom(old(Value()), name)
      ensures Jobs() == old(Jobs()) - {name}
    {
      RemoveAgrees(Value(), name, foreign);
      RemoveShows(Value(), name, foreign);
      if name !in jobs {
        return;
      }
      scheduler.Remove(jobs[name]);
      jobs := jobs - {name};
    }

    method JobExists(name: string) returns (found: bool)
      requires Valid()
      ensures found <==> name in Jobs()
    {
      found := name in jobs;
    }
  }
}
