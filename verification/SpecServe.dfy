/** The spec cache serves: no call is lost, a warm row is answered at once, and a cold one is filed for the next. */
module SpecServe {
  import opened SpecCache

  // ---- no call is lost ----

  /** The second query finds a section that is empty or does not parse. */
  ghost predicate Refuses(s: State, step: Step, readable: string -> bool) {
    && step.Fetch? && step.reader in s.readers && s.readers[step.reader].Missed?
    && var vs := Versions(s, s.readers[step.reader].id);
    vs == [] || vs[|vs| - 1].section == "" || !readable(vs[|vs| - 1].section)
  }

  /** This step starts a call: its row is stored, and the reader is free. */
  ghost predicate Starts(s: State, step: Step) {
    step.Validate? && step.reader !in s.readers && Versions(s, step.id) != []
  }

  /** A call in flight that a step ends has added one answer, for its contract and the version it validated, unless the
      section it fetched was refused; nothing else adds an answer. */
  lemma EndedIsAnswered(s: State, step: Step, readable: string -> bool, r: nat)
    ensures var t := Next(s, step, readable);
      r in s.readers && r !in t.readers ==>
        if Refuses(s, step, readable) then t.answers == s.answers
        else && |t.answers| == |s.answers| + 1 && s.answers <= t.answers
             && t.answers[|s.answers|].id == s.readers[r].id && t.answers[|s.answers|].seen == s.readers[r].seen
  {
    if step.Fetch? && step.reader in s.readers && s.readers[step.reader].Missed? { FetchRefuses(s, step, readable); }
    hide Reread, Hits;
  }

  lemma FetchRefuses(s: State, step: Step, readable: string -> bool)
    requires step.Fetch? && step.reader in s.readers && s.readers[step.reader].Missed?
    ensures var v := s.readers[step.reader];
      Refuses(s, step, readable) <==> Reread(Versions(s, v.id), v.hash, readable).None?
  {
  }

  /** Calls in flight. */
  function InFlight(s: State): nat { |s.readers| }

  lemma OneMore(m: map<nat, Reader>, r: nat, v: Reader)
    ensures |m[r := v]| == if r in m then |m| else |m| + 1
  {
    assert m[r := v].Keys == m.Keys + {r};
  }

  lemma OneLess(m: map<nat, Reader>, r: nat)
    requires r in m
    ensures |m - {r}| == |m| - 1
  {
    assert (m - {r}).Keys == m.Keys - {r};
  }

  /** Each step starts, answers and refuses at most one call, and every call it starts is in flight until then. */
  lemma StepConserves(s: State, step: Step, readable: string -> bool)
    ensures var t := Next(s, step, readable);
      InFlight(t) + |t.answers| + (if Refuses(s, step, readable) then 1 else 0)
      == InFlight(s) + |s.answers| + if Starts(s, step) then 1 else 0
  {
    hide DoLookup, DoFetch;
    match step
    case Write(_, _) =>
    case Invalidate(_) =>
    case Validate(r, id) =>
      var vs := Versions(s, id);
      if vs != [] { OneMore(s.readers, r, Validated(id, |vs| - 1, vs[|vs| - 1].hash, vs[|vs| - 1].fetchedAt)); }
    case Lookup(r) => LookupConserves(s, r);
    case Fetch(r) => FetchConserves(s, r, readable);
    case Insert(r) => if r in s.readers { OneLess(s.readers, r); }
  }

  lemma LookupConserves(s: State, r: nat)
    ensures InFlight(DoLookup(s, r)) + |DoLookup(s, r).answers| == InFlight(s) + |s.answers|
  {
    hide Hits;
    if r in s.readers && s.readers[r].Validated? {
      var v := s.readers[r];
      OneMore(s.readers, r, Missed(v.id, v.seen, v.hash, v.fetchedAt));
      OneLess(s.readers, r);
    }
  }

  lemma FetchConserves(s: State, r: nat, readable: string -> bool)
    ensures var t := DoFetch(s, r, readable);
      t.answers == s.answers && InFlight(t) + (if Refuses(s, Fetch(r), readable) then 1 else 0) == InFlight(s)
  {
    if r in s.readers && s.readers[r].Missed? {
      var v, vs := s.readers[r], Versions(s, s.readers[r].id);
      FetchRefuses(s, Fetch(r), readable);
      FetchOutcome(s, r, readable);
      OneLess(s.readers, r);
      if Reread(vs, v.hash, readable).Some? {
        OneMore(s.readers, r, Fetched(v.id, v.seen, v.hash, v.fetchedAt, |vs| - 1, Reread(vs, v.hash, readable).value));
      }
      hide Refuses, Reread, DoFetch, Versions;
    }
  }

  ghost function Started(s: State, steps: seq<Step>, readable: string -> bool): nat
    decreases |steps|
  {
    if steps == [] then 0
    else (if Starts(s, steps[0]) then 1 else 0) + Started(Next(s, steps[0], readable), steps[1..], readable)
  }

  ghost function Refused(s: State, steps: seq<Step>, readable: string -> bool): nat
    decreases |steps|
  {
    if steps == [] then 0
    else (if Refuses(s, steps[0], readable) then 1 else 0) + Refused(Next(s, steps[0], readable), steps[1..], readable)
  }

  /** Over every interleaving, each call that started has been answered, was refused for its section, or is in
      flight. */
  lemma {:induction false} NoCallIsLost(s: State, steps: seq<Step>, readable: string -> bool)
    ensures var end := Run(s, steps, readable);
      InFlight(end) + |end.answers| + Refused(s, steps, readable)
      == InFlight(s) + |s.answers| + Started(s, steps, readable)
    decreases |steps|
  {
    hide Next, Starts, Refuses;
    if steps != [] {
      StepConserves(s, steps[0], readable);
      NoCallIsLost(Next(s, steps[0], readable), steps[1..], readable);
    }
  }

  // ---- a warm row ----

  /** The cache holds an entry filed at the stored version of the row. */
  ghost predicate Warm(s: State, id: string) {
    && Versions(s, id) != [] && id in s.cache
    && s.cache[id].fetchedAt == Versions(s, id)[|Versions(s, id)| - 1].fetchedAt
  }

  /** What a call's first query reads. */
  function FirstSeen(s: State, id: string): Reader
    requires Versions(s, id) != []
  {
    var vs := Versions(s, id);
    Validated(id, |vs| - 1, vs[|vs| - 1].hash, vs[|vs| - 1].fetchedAt)
  }

  lemma HitsIffWarm(s: State, id: string)
    requires Inv(s) && Versions(s, id) != []
    ensures Hits(s, FirstSeen(s, id)) <==> Warm(s, id)
  {
    hide Inv, EntryOk, Increasing;
    if id in s.cache {
      EntriesAreOk(s, id);
      FiledAt(s.cache[id], Versions(s, id));
    }
  }

  /** An entry no older than the last version was filed at it, under its hash. */
  lemma FiledAt(e: CacheEntry, vs: seq<Row>)
    requires Increasing(vs) && EntryOk(e, vs)
    ensures e.fetchedAt <= vs[|vs| - 1].fetchedAt
    ensures e.fetchedAt == vs[|vs| - 1].fetchedAt ==> e.hash == vs[|vs| - 1].hash
  {
    var i :| 0 <= i < |vs| && e.hash == vs[i].hash && e.fetchedAt == vs[i].fetchedAt && AtLeast(e.spec, i, e.read, vs);
    assert i < |vs| - 1 ==> vs[i].fetchedAt < vs[|vs| - 1].fetchedAt;
  }

  /** What the first query and the look into the cache make of a call. */
  ghost predicate AnsweredIffWarm(s: State, t: State, r: nat, id: string)
    requires Versions(s, id) != []
  {
    var v := FirstSeen(s, id);
    t == if Warm(s, id) then s.(answers := s.answers + [Return(id, v.seen, s.cache[id].read, s.cache[id].spec)])
         else Waiting(s, r, v)
  }

  /** The call goes on to its second query. */
  function Waiting(s: State, r: nat, v: Reader): State {
    s.(readers := s.readers[r := Missed(v.id, v.seen, v.hash, v.fetchedAt)])
  }

  /** In any reachable state the first query and the look into the cache answer a call at once, with what is cached, if
      and only if the cache holds an entry filed at the stored version; otherwise the call goes on to its second
      query. */
  lemma WarmIsServedIff(steps: seq<Step>, r: nat, id: string, readable: string -> bool)
    requires r !in Run(INITIAL, steps, readable).readers && Versions(Run(INITIAL, steps, readable), id) != []
    ensures var s := Run(INITIAL, steps, readable);
      AnsweredIffWarm(s, DoLookup(DoValidate(s, r, id), r), r, id)
  {
    RunKeeps(INITIAL, steps, readable);
    hide Run, Inv, AnsweredIffWarm;
    LookupServes(Run(INITIAL, steps, readable), r, id);
  }

  lemma LookupServes(s: State, r: nat, id: string)
    requires Inv(s) && r !in s.readers && Versions(s, id) != []
    ensures AnsweredIffWarm(s, DoLookup(DoValidate(s, r, id), r), r, id)
  {
    HitsIffWarm(s, id);
    hide Inv, Warm, Hits;
    var v := FirstSeen(s, id);
    assert DoValidate(s, r, id) == s.(readers := s.readers[r := v]);
    hide DoValidate;
    LookupOf(s, r, v);
  }

  lemma LookupOf(s: State, r: nat, v: Reader)
    requires r !in s.readers && v.Validated?
    ensures DoLookup(s.(readers := s.readers[r := v]), r)
            == if !Hits(s, v) then Waiting(s, r, v)
               else s.(answers := s.answers + [Return(v.id, v.seen, s.cache[v.id].read, s.cache[v.id].spec)])
  {
    var t := s.(readers := s.readers[r := v]);
    assert Hits(t, v) == Hits(s, v);
    assert t.readers - {r} == s.readers;
    assert s.readers[r := v][r := Missed(v.id, v.seen, v.hash, v.fetchedAt)]
        == s.readers[r := Missed(v.id, v.seen, v.hash, v.fetchedAt)];
  }

  // ---- a cold row ----

  /** The stored section is there and parses. */
  predicate Readable(s: State, id: string, readable: string -> bool) {
    var vs := Versions(s, id);
    vs != [] && vs[|vs| - 1].section != "" && readable(vs[|vs| - 1].section)
  }

  /** The stored version, filed. */
  function CurrentEntry(s: State, id: string): CacheEntry
    requires Versions(s, id) != []
  {
    var last := |Versions(s, id)| - 1;
    var row := Versions(s, id)[last];
    CacheEntry(row.hash, row.fetchedAt, last, CachedSpec(row.section, row.hash))
  }

  /** With nothing between them, the four steps of a call on a cold row answer with the stored version and file it. */
  lemma ColdIsServedAndFiled(steps: seq<Step>, r: nat, id: string, readable: string -> bool)
    requires var s := Run(INITIAL, steps, readable); r !in s.readers && Readable(s, id, readable) && !Warm(s, id)
    ensures var s := Run(INITIAL, steps, readable);
            var t := DoInsert(DoFetch(DoLookup(DoValidate(s, r, id), r), r, readable), r);
            var e := CurrentEntry(s, id);
      && t.answers == s.answers + [Return(id, e.read, e.read, e.spec)] && t.rows == s.rows && t.readers == s.readers
      && id in t.cache && t.cache[id] == e
  {
    RunKeeps(INITIAL, steps, readable);
    hide Run, Inv, Warm;
    var s := Run(INITIAL, steps, readable);
    LookupServes(s, r, id);
    hide DoValidate, DoLookup, DoFetch, DoInsert;
    FetchAndInsert(s, r, id, readable);
  }

  lemma FetchAndInsert(s: State, r: nat, id: string, readable: string -> bool)
    requires r !in s.readers && Readable(s, id, readable)
    ensures var t := DoInsert(DoFetch(Waiting(s, r, FirstSeen(s, id)), r, readable), r);
            var e := CurrentEntry(s, id);
      && t.answers == s.answers + [Return(id, e.read, e.read, e.spec)] && t.rows == s.rows && t.readers == s.readers
      && id in t.cache && t.cache[id] == e
  {
    var e := CurrentEntry(s, id);
    var fetched := s.(readers := s.readers[r := Fetched(id, e.read, e.hash, e.fetchedAt, e.read, e.spec)]);
    FetchOf(s, r, id, readable);
    hide DoFetch, Waiting, CurrentEntry;
    assert fetched.readers - {r} == s.readers;
    var t := DoInsert(fetched, r);
  }

  lemma FetchOf(s: State, r: nat, id: string, readable: string -> bool)
    requires Readable(s, id, readable)
    ensures var e := CurrentEntry(s, id);
      DoFetch(Waiting(s, r, FirstSeen(s, id)), r, readable)
      == s.(readers := s.readers[r := Fetched(id, e.read, e.hash, e.fetchedAt, e.read, e.spec)])
  {
    var e, w := CurrentEntry(s, id), Waiting(s, r, FirstSeen(s, id));
    assert Versions(w, id) == Versions(s, id);
    assert w.readers[r := Fetched(id, e.read, e.hash, e.fetchedAt, e.read, e.spec)]
        == s.readers[r := Fetched(id, e.read, e.hash, e.fetchedAt, e.read, e.spec)];
  }

  // ---- what is filed is served ----

  /** This step stores a new version of the row, or takes its entry out of the cache or files another. */
  ghost predicate Disturbs(s: State, step: Step, id: string) {
    || Rewrites(s, step, id)
    || step == Invalidate(id)
    || (step.Insert? && step.reader in s.readers && s.readers[step.reader].Fetched?
        && (s.readers[step.reader].id == id || |s.cache| >= MAX_ENTRIES))
  }

  ghost predicate Disturbed(s: State, steps: seq<Step>, id: string, readable: string -> bool)
    decreases |steps|
  {
    steps != [] && (Disturbs(s, steps[0], id) || Disturbed(Next(s, steps[0], readable), steps[1..], id, readable))
  }

  lemma StepLeaves(s: State, step: Step, id: string, readable: string -> bool)
    requires !Disturbs(s, step, id) && id in s.cache
    ensures var t := Next(s, step, readable);
      id in t.cache && t.cache[id] == s.cache[id] && Versions(t, id) == Versions(s, id)
  {
    hide Reread, Hits;
  }

  lemma {:induction false} RunLeaves(s: State, steps: seq<Step>, id: string, readable: string -> bool)
    requires !Disturbed(s, steps, id, readable) && id in s.cache
    ensures var t := Run(s, steps, readable);
      id in t.cache && t.cache[id] == s.cache[id] && Versions(t, id) == Versions(s, id)
    decreases |steps|
  {
    hide Next, Disturbs;
    if steps != [] {
      StepLeaves(s, steps[0], id, readable);
      RunLeaves(Next(s, steps[0], readable), steps[1..], id, readable);
    }
  }

  lemma {:induction false} RunThen(s: State, steps: seq<Step>, more: seq<Step>, readable: string -> bool)
    ensures Run(s, steps + more, readable) == Run(Run(s, steps, readable), more, readable)
    decreases |steps|
  {
    hide Next;
    if steps == [] {
      assert steps + more == more;
    } else {
      assert (steps + more)[0] == steps[0] && (steps + more)[1..] == steps[1..] + more;
      RunThen(Next(s, steps[0], readable), steps[1..], more, readable);
    }
  }

  /** The entry is filed at the stored version. */
  ghost predicate FiledIn(s: State, id: string, e: CacheEntry) {
    && Versions(s, id) != [] && id in s.cache && s.cache[id] == e
    && e.fetchedAt == Versions(s, id)[|Versions(s, id)| - 1].fetchedAt
  }

  /** A call's first query and the cache alone answer it with the entry's section, and leave all else as it is. */
  ghost predicate AnswersAtOnce(s: State, q: nat, id: string, e: CacheEntry) {
    && Versions(s, id) != []
    && DoLookup(DoValidate(s, q, id), q)
       == s.(answers := s.answers + [Return(id, |Versions(s, id)| - 1, e.read, e.spec)])
  }

  /** A call about to file the version that is still stored. */
  ghost predicate Files(s: State, p: nat, id: string) {
    && p in s.readers && s.readers[p].Fetched? && s.readers[p].id == id
    && s.readers[p].seen == |Versions(s, id)| - 1
  }

  function EntryOf(v: Reader): CacheEntry
    requires v.Fetched?
  {
    CacheEntry(v.hash, v.fetchedAt, v.read, v.spec)
  }

  /** Once a call has filed the stored version, the next call answers from its first query and the cache alone, with
      that very section, for as long as the row is not rewritten and its entry not invalidated, cleared or filed
      anew. */
  lemma FiledIsServed(before: seq<Step>, p: nat, between: seq<Step>, q: nat, id: string, readable: string -> bool)
    requires var s := Run(INITIAL, before, readable);
      && Files(s, p, id) && !Disturbed(DoInsert(s, p), between, id, readable)
      && q !in Run(DoInsert(s, p), between, readable).readers
    ensures var s := Run(INITIAL, before, readable);
            var end := Run(DoInsert(s, p), between, readable);
      AnswersAtOnce(end, q, id, EntryOf(s.readers[p]))
  {
    RunKeeps(INITIAL, before, readable);
    hide Run, Disturbed, Inv, DoInsert, FiledIn, AnswersAtOnce;
    var s := Run(INITIAL, before, readable);
    InsertFiles(s, p, id);
    InsertKeeps(s, p);
    FiledStays(DoInsert(s, p), between, id, EntryOf(s.readers[p]), readable);
    RunKeeps(DoInsert(s, p), between, readable);
    FiledIsWarm(Run(DoInsert(s, p), between, readable), q, id, EntryOf(s.readers[p]));
  }

  lemma FiledIsWarm(s: State, q: nat, id: string, e: CacheEntry)
    requires Inv(s) && q !in s.readers && FiledIn(s, id, e)
    ensures AnswersAtOnce(s, q, id, e)
  {
    hide Inv, DoLookup, DoValidate, Versions;
    LookupServes(s, q, id);
  }

  lemma FiledStays(s: State, steps: seq<Step>, id: string, e: CacheEntry, readable: string -> bool)
    requires FiledIn(s, id, e) && !Disturbed(s, steps, id, readable)
    ensures FiledIn(Run(s, steps, readable), id, e)
  {
    hide Disturbed, Run, Versions;
    RunLeaves(s, steps, id, readable);
  }

  lemma InsertFiles(s: State, p: nat, id: string)
    requires Inv(s) && Files(s, p, id)
    ensures FiledIn(DoInsert(s, p), id, EntryOf(s.readers[p]))
  {
    ReadersAreOk(s, p);
    hide Inv;
  }

  // ---- what is taken out ----

  /** After an invalidation the row is cold, and every other entry is as it was. */
  lemma InvalidatedIsCold(s: State, id: string, readable: string -> bool)
    ensures var t := Next(s, Invalidate(id), readable);
      && !Warm(t, id) && t == s.(cache := t.cache)
      && forall x :: x != id ==> (x in t.cache <==> x in s.cache) && (x in t.cache ==> t.cache[x] == s.cache[x])
  {
  }

  /** An insert into a full cache of 256 leaves its own entry alone; into any other, all the others as they were. */
  lemma InsertClearsWhenFull(s: State, r: nat)
    requires r in s.readers && s.readers[r].Fetched?
    ensures var t, v := DoInsert(s, r), s.readers[r];
      t.cache == (if |s.cache| >= 256 then map[] else s.cache)[v.id := EntryOf(v)]
  {
  }
}
