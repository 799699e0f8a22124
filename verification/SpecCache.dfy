/** The in-memory spec cache as a protocol: readers' two queries interleaved with the indexer's writes. */
module SpecCache {
  import opened Basics

  const MAX_ENTRIES: nat := 256

  /** One version of a contract's row in `contract_specs`. */
  datatype Row = Row(hash: string, fetchedAt: int, section: string)

  /** A parsed interface, with the hash it is filed under. */
  datatype CachedSpec = CachedSpec(section: string, wasmHash: string)

  /** `read` records which version the section was read from. */
  datatype CacheEntry = CacheEntry(hash: string, fetchedAt: int, read: nat, spec: CachedSpec)

  /** Where a call to `current` stands. `seen` records which version its validating query read, `read` which version
      its section came from. */
  datatype Reader =
    | Validated(id: string, seen: nat, hash: string, fetchedAt: int)
    | Missed(id: string, seen: nat, hash: string, fetchedAt: int)
    | Fetched(id: string, seen: nat, hash: string, fetchedAt: int, read: nat, spec: CachedSpec)

  /** A finished call: what it returned. */
  datatype Return = Return(id: string, seen: nat, read: nat, spec: CachedSpec)

  /** `rows` keeps every version a contract's row has had; the last is the stored one. */
  datatype State = State(
    rows: map<string, seq<Row>>,
    cache: map<string, CacheEntry>,
    readers: map<nat, Reader>,
    answers: seq<Return>)

  datatype Step =
    | Write(id: string, row: Row)
    | Validate(reader: nat, id: string)
    | Lookup(reader: nat)
    | Fetch(reader: nat)
    | Insert(reader: nat)
    | Invalidate(id: string)

  const INITIAL: State := State(map[], map[], map[], [])

  function Versions(s: State, id: string): seq<Row> { if id in s.rows then s.rows[id] else [] }

  function Finish(s: State, r: nat): State { s.(readers := s.readers - {r}) }

  function Answer(s: State, r: nat, id: string, seen: nat, read: nat, spec: CachedSpec): State {
    Finish(s, r).(answers := s.answers + [Return(id, seen, read, spec)])
  }

  /** The parser's verdict on a stored section is left open; only an empty section is known to be refused. */
  function Parse(section: string, hash: string, readable: string -> bool): Option<CachedSpec> {
    if section == "" || !readable(section) then None else Some(CachedSpec(section, hash))
  }

  /** Wholesale clear at the cap, then insert. */
  function Store(cache: map<string, CacheEntry>, id: string, e: CacheEntry): map<string, CacheEntry> {
    (if |cache| >= MAX_ENTRIES then map[] else cache)[id := e]
  }

  function DoWrite(s: State, id: string, row: Row): State {
    var vs := Versions(s, id);
    if vs == [] || vs[|vs| - 1].fetchedAt < row.fetchedAt then s.(rows := s.rows[id := vs + [row]]) else s
  }

  /** The validating query: hash and timestamp of the stored row. */
  function DoValidate(s: State, r: nat, id: string): State {
    var vs := Versions(s, id);
    if r in s.readers || vs == [] then s
    else s.(readers := s.readers[r := Validated(id, |vs| - 1, vs[|vs| - 1].hash, vs[|vs| - 1].fetchedAt)])
  }

  predicate Hits(s: State, v: Reader) {
    v.id in s.cache && s.cache[v.id].hash == v.hash && s.cache[v.id].fetchedAt >= v.fetchedAt
  }

  function DoLookup(s: State, r: nat): State {
    if r in s.readers && s.readers[r].Validated? then
      var v := s.readers[r];
      if Hits(s, v) then Answer(s, r, v.id, v.seen, s.cache[v.id].read, s.cache[v.id].spec)
      else s.(readers := s.readers[r := Missed(v.id, v.seen, v.hash, v.fetchedAt)])
    else s
  }

  /** The second query: the section of whatever row is stored by now, filed under the hash read before. */
  function Reread(vs: seq<Row>, hash: string, readable: string -> bool): Option<CachedSpec> {
    if vs == [] then None else Parse(vs[|vs| - 1].section, hash, readable)
  }

  function DoFetch(s: State, r: nat, readable: string -> bool): State {
    if r in s.readers && s.readers[r].Missed? then
      var v := s.readers[r];
      var vs := Versions(s, v.id);
      var spec := Reread(vs, v.hash, readable);
      if spec.None? then Finish(s, r)
      else s.(readers := s.readers[r := Fetched(v.id, v.seen, v.hash, v.fetchedAt, |vs| - 1, spec.value)])
    else s
  }

  function DoInsert(s: State, r: nat): State {
    if r in s.readers && s.readers[r].Fetched? then
      var v := s.readers[r];
      Answer(s.(cache := Store(s.cache, v.id, CacheEntry(v.hash, v.fetchedAt, v.read, v.spec))), r, v.id, v.seen,
             v.read, v.spec)
    else s
  }

  /** Each step touches the shared state once; a step that is not enabled changes nothing. */
  function Next(s: State, step: Step, readable: string -> bool): State {
    match step
    case Write(id, row) => DoWrite(s, id, row)
    case Validate(r, id) => DoValidate(s, r, id)
    case Lookup(r) => DoLookup(s, r)
    case Fetch(r) => DoFetch(s, r, readable)
    case Insert(r) => DoInsert(s, r)
    case Invalidate(id) => s.(cache := s.cache - {id})
  }

  function Run(s: State, steps: seq<Step>, readable: string -> bool): State
    decreases |steps|
  {
    if steps == [] then s else Run(Next(s, steps[0], readable), steps[1..], readable)
  }

  // ---- the invariant ----

  ghost predicate Increasing(vs: seq<Row>) { forall i, j :: 0 <= i < j < |vs| ==> vs[i].fetchedAt < vs[j].fetchedAt }

  /** The section of version `read`, which is version `seen` or a later one, filed under the hash of version `seen`. */
  ghost predicate AtLeast(spec: CachedSpec, seen: nat, read: nat, vs: seq<Row>) {
    seen <= read < |vs| && spec == CachedSpec(vs[read].section, vs[seen].hash)
  }

  ghost predicate EntryOk(e: CacheEntry, vs: seq<Row>) {
    exists i :: 0 <= i < |vs| && e.hash == vs[i].hash && e.fetchedAt == vs[i].fetchedAt
      && AtLeast(e.spec, i, e.read, vs)
  }

  ghost predicate ReaderOk(v: Reader, vs: seq<Row>) {
    && v.seen < |vs| && v.hash == vs[v.seen].hash && v.fetchedAt == vs[v.seen].fetchedAt
    && (v.Fetched? ==> AtLeast(v.spec, v.seen, v.read, vs))
  }

  ghost predicate RowsOk(s: State) { forall id :: id in s.rows ==> Increasing(s.rows[id]) }

  ghost predicate CacheOk(s: State) {
    (forall id :: id in s.cache ==> EntryOk(s.cache[id], Versions(s, id))) && |s.cache| <= MAX_ENTRIES
  }

  ghost predicate ReadersOk(s: State) {
    forall r :: r in s.readers ==> ReaderOk(s.readers[r], Versions(s, s.readers[r].id))
  }

  ghost predicate AnswersOk(s: State) {
    forall k :: 0 <= k < |s.answers| ==>
      AtLeast(s.answers[k].spec, s.answers[k].seen, s.answers[k].read, Versions(s, s.answers[k].id))
  }

  ghost predicate Inv(s: State) { RowsOk(s) && CacheOk(s) && ReadersOk(s) && AnswersOk(s) }

  lemma AtLeastGrows(spec: CachedSpec, seen: nat, read: nat, vs: seq<Row>, more: seq<Row>)
    requires AtLeast(spec, seen, read, vs) && vs <= more
    ensures AtLeast(spec, seen, read, more)
  {
    assert more[read] == vs[read] && more[seen] == vs[seen];
  }

  lemma EntryGrows(e: CacheEntry, vs: seq<Row>, more: seq<Row>)
    requires EntryOk(e, vs) && vs <= more
    ensures EntryOk(e, more)
  {
    var i :| 0 <= i < |vs| && e.hash == vs[i].hash && e.fetchedAt == vs[i].fetchedAt && AtLeast(e.spec, i, e.read, vs);
    AtLeastGrows(e.spec, i, e.read, vs, more);
    assert more[i] == vs[i];
  }

  lemma VersionsGrow(s: State, id: string, row: Row, x: string)
    requires RowsOk(s)
    ensures Versions(s, x) <= Versions(DoWrite(s, id, row), x)
    ensures RowsOk(DoWrite(s, id, row))
  {
    var vs := Versions(s, id);
    forall i, j | 0 <= i < j < |vs + [row]| && (vs == [] || vs[|vs| - 1].fetchedAt < row.fetchedAt)
      ensures (vs + [row])[i].fetchedAt < (vs + [row])[j].fetchedAt
    {
      if j == |vs| && i < |vs| - 1 { assert vs[i].fetchedAt < vs[|vs| - 1].fetchedAt; }
    }
  }

  lemma WriteKeeps(s: State, id: string, row: Row)
    requires Inv(s)
    ensures Inv(DoWrite(s, id, row))
  {
    hide AtLeast, EntryOk, Increasing, RowsOk;
    var t := DoWrite(s, id, row);
    VersionsGrow(s, id, row, id);
    forall x | x in t.cache ensures EntryOk(t.cache[x], Versions(t, x)) {
      VersionsGrow(s, id, row, x);
      EntryGrows(s.cache[x], Versions(s, x), Versions(t, x));
    }
    forall r | r in t.readers ensures ReaderOk(t.readers[r], Versions(t, t.readers[r].id)) {
      var v := s.readers[r];
      VersionsGrow(s, id, row, v.id);
      if v.Fetched? { AtLeastGrows(v.spec, v.seen, v.read, Versions(s, v.id), Versions(t, v.id)); }
    }
    forall k | 0 <= k < |t.answers|
      ensures AtLeast(t.answers[k].spec, t.answers[k].seen, t.answers[k].read, Versions(t, t.answers[k].id))
    {
      var x := s.answers[k];
      VersionsGrow(s, id, row, x.id);
      AtLeastGrows(x.spec, x.seen, x.read, Versions(s, x.id), Versions(t, x.id));
    }
  }

  /** The heart of it: a hit's entry was filed at the validated version or later. */
  lemma HitIsFresh(e: CacheEntry, v: Reader, vs: seq<Row>)
    requires Increasing(vs) && EntryOk(e, vs) && ReaderOk(v, vs)
    requires e.hash == v.hash && e.fetchedAt >= v.fetchedAt
    ensures AtLeast(e.spec, v.seen, e.read, vs)
  {
    var i :| 0 <= i < |vs| && e.hash == vs[i].hash && e.fetchedAt == vs[i].fetchedAt && AtLeast(e.spec, i, e.read, vs);
    assert i >= v.seen;
  }

  /** A reader may leave, or move to a state that is itself in order. */
  lemma MoveKeeps(s: State, r: nat, v: Reader)
    requires Inv(s) && ReaderOk(v, Versions(s, v.id))
    ensures Inv(s.(readers := s.readers[r := v])) && Inv(Finish(s, r))
  {
    hide ReaderOk, EntryOk, AtLeast, Increasing;
  }

  /** A fresh answer may be recorded. */
  lemma AnswerKeeps(s: State, r: nat, id: string, seen: nat, read: nat, spec: CachedSpec)
    requires Inv(s) && AtLeast(spec, seen, read, Versions(s, id))
    ensures Inv(Answer(s, r, id, seen, read, spec))
  {
    hide ReaderOk, EntryOk, AtLeast, Increasing, CacheOk, RowsOk;
    var t := Answer(s, r, id, seen, read, spec);
    assert AnswersOk(t);
    assert ReadersOk(t);
    SameTables(s, t);
  }

  lemma SameTables(s: State, t: State)
    requires t.rows == s.rows && t.cache == s.cache
    ensures RowsOk(s) ==> RowsOk(t)
    ensures CacheOk(s) ==> CacheOk(t)
  {
    hide EntryOk, Increasing;
  }

  lemma ValidateKeeps(s: State, r: nat, id: string)
    requires Inv(s)
    ensures Inv(DoValidate(s, r, id))
  {
    hide Inv;
    var vs := Versions(s, id);
    if vs != [] { MoveKeeps(s, r, Validated(id, |vs| - 1, vs[|vs| - 1].hash, vs[|vs| - 1].fetchedAt)); }
  }

  lemma LookupKeeps(s: State, r: nat)
    requires Inv(s)
    ensures Inv(DoLookup(s, r))
  {
    if r in s.readers && s.readers[r].Validated? {
      var v := s.readers[r];
      assert ReaderOk(v, Versions(s, v.id));
      hide Inv, EntryOk, AtLeast, Increasing;
      if Hits(s, v) {
        EntriesAreOk(s, v.id);
        HitIsFresh(s.cache[v.id], v, Versions(s, v.id));
        AnswerKeeps(s, r, v.id, v.seen, s.cache[v.id].read, s.cache[v.id].spec);
      } else {
        MoveKeeps(s, r, Missed(v.id, v.seen, v.hash, v.fetchedAt));
      }
    }
  }

  lemma EntriesAreOk(s: State, id: string)
    requires Inv(s) && id in s.cache
    ensures EntryOk(s.cache[id], Versions(s, id)) && Increasing(Versions(s, id))
  {
  }

  /** What the second query can do: nothing, drop the reader, or move it on. */
  lemma FetchOutcome(s: State, r: nat, readable: string -> bool)
    requires r in s.readers && s.readers[r].Missed?
    ensures var v, vs := s.readers[r], Versions(s, s.readers[r].id);
      DoFetch(s, r, readable) ==
      if Reread(vs, v.hash, readable).None? then Finish(s, r)
      else
        var reread := Reread(vs, v.hash, readable).value;
        s.(readers := s.readers[r := Fetched(v.id, v.seen, v.hash, v.fetchedAt, |vs| - 1, reread)])
  {
    hide Versions, Finish;
  }

  lemma FetchKeeps(s: State, r: nat, readable: string -> bool)
    requires Inv(s)
    ensures Inv(DoFetch(s, r, readable))
  {
    hide Inv, ReaderOk, Reread, Versions, Finish;
    if r in s.readers && s.readers[r].Missed? {
      FetchOutcome(s, r, readable);
      var v, vs := s.readers[r], Versions(s, s.readers[r].id);
      ReadersAreOk(s, r);
      hide DoFetch;
      MoveKeeps(s, r, v);
      if Reread(vs, v.hash, readable).Some? {
        FetchedIsOk(v, vs, readable);
        MoveKeeps(s, r, Fetched(v.id, v.seen, v.hash, v.fetchedAt, |vs| - 1, Reread(vs, v.hash, readable).value));
      }
    }
  }

  lemma ReadersAreOk(s: State, r: nat)
    requires Inv(s) && r in s.readers
    ensures ReaderOk(s.readers[r], Versions(s, s.readers[r].id))
  {
  }

  lemma FetchedIsOk(v: Reader, vs: seq<Row>, readable: string -> bool)
    requires ReaderOk(v, vs) && Reread(vs, v.hash, readable).Some?
    ensures ReaderOk(Fetched(v.id, v.seen, v.hash, v.fetchedAt, |vs| - 1, Reread(vs, v.hash, readable).value), vs)
  {
  }

  lemma StoreKeeps(s: State, id: string, e: CacheEntry)
    requires Inv(s) && EntryOk(e, Versions(s, id))
    ensures Inv(s.(cache := Store(s.cache, id, e)))
  {
    hide ReaderOk, EntryOk, AtLeast, Increasing;
    StoreSize(s.cache, id, e);
    var t := s.(cache := Store(s.cache, id, e));
    forall x | x in t.cache ensures EntryOk(t.cache[x], Versions(t, x)) {
      assert x == id || (x in s.cache && t.cache[x] == s.cache[x]);
    }
    assert forall x :: Versions(t, x) == Versions(s, x);
  }

  lemma StoreSize(cache: map<string, CacheEntry>, id: string, e: CacheEntry)
    requires |cache| <= MAX_ENTRIES
    ensures |Store(cache, id, e)| <= MAX_ENTRIES
  {
    var base := if |cache| >= MAX_ENTRIES then map[] else cache;
    assert base[id := e].Keys == base.Keys + {id};
  }

  lemma InsertKeeps(s: State, r: nat)
    requires Inv(s)
    ensures Inv(DoInsert(s, r))
  {
    if r in s.readers && s.readers[r].Fetched? {
      var v := s.readers[r];
      var e := CacheEntry(v.hash, v.fetchedAt, v.read, v.spec);
      assert ReaderOk(v, Versions(s, v.id));
      hide Inv, AtLeast;
      assert EntryOk(e, Versions(s, v.id));
      StoreKeeps(s, v.id, e);
      AnswerKeeps(s.(cache := Store(s.cache, v.id, e)), r, v.id, v.seen, v.read, v.spec);
    }
  }

  lemma InvalidateKeeps(s: State, id: string)
    requires Inv(s)
    ensures Inv(s.(cache := s.cache - {id}))
  {
    hide ReaderOk, EntryOk, AtLeast, Increasing;
    SmallerMap(s.cache, id);
  }

  lemma SmallerMap(m: map<string, CacheEntry>, id: string)
    ensures |m - {id}| <= |m|
  {
    var left := (m - {id}).Keys;
    assert left == m.Keys - {id};
    assert left <= m.Keys;
    assert m.Keys == left + (m.Keys - left);
    assert |m.Keys| == |left| + |m.Keys - left|;
  }

  lemma NextKeeps(s: State, step: Step, readable: string -> bool)
    requires Inv(s)
    ensures Inv(Next(s, step, readable))
  {
    hide Inv;
    match step
    case Write(id, row) => WriteKeeps(s, id, row);
    case Validate(r, id) => ValidateKeeps(s, r, id);
    case Lookup(r) => LookupKeeps(s, r);
    case Fetch(r) => FetchKeeps(s, r, readable);
    case Insert(r) => InsertKeeps(s, r);
    case Invalidate(id) => InvalidateKeeps(s, id);
  }

  lemma {:induction false} RunKeeps(s: State, steps: seq<Step>, readable: string -> bool)
    requires Inv(s)
    ensures Inv(Run(s, steps, readable))
    decreases |steps|
  {
    hide Inv, Next;
    if steps != [] {
      NextKeeps(s, steps[0], readable);
      RunKeeps(Next(s, steps[0], readable), steps[1..], readable);
    }
  }

  // ---- main results ----

  /** Over every interleaving: each call returned the section of the version it validated against or of a later one,
      under the validated version's hash, and the cache stayed within its cap. */
  lemma EveryReturnIsFresh(steps: seq<Step>, readable: string -> bool)
    ensures var s := Run(INITIAL, steps, readable);
            && |s.cache| <= 256
            && forall k :: 0 <= k < |s.answers| ==>
                 AtLeast(s.answers[k].spec, s.answers[k].seen, s.answers[k].read, Versions(s, s.answers[k].id))
  {
    hide Next, AtLeast;
    RunKeeps(INITIAL, steps, readable);
  }

  /** A call returned exactly the version it validated against if and only if the version its section was read from
      holds the same section. */
  lemma ReturnIsValidatedIffSameSection(steps: seq<Step>, readable: string -> bool, k: nat)
    requires k < |Run(INITIAL, steps, readable).answers|
    ensures var s := Run(INITIAL, steps, readable);
            var r, vs := s.answers[k], Versions(s, s.answers[k].id);
            r.seen <= r.read < |vs|
            && (r.spec == CachedSpec(vs[r.seen].section, vs[r.seen].hash) <==> vs[r.read].section == vs[r.seen].section)
  {
    hide Next, Run;
    EveryReturnIsFresh(steps, readable);
    var s := Run(INITIAL, steps, readable);
    assert AtLeast(s.answers[k].spec, s.answers[k].seen, s.answers[k].read, Versions(s, s.answers[k].id));
  }

  /** A call that validated against the row's last version returned that version's section. */
  lemma QuietRowIsServedCurrent(steps: seq<Step>, readable: string -> bool, k: nat)
    requires k < |Run(INITIAL, steps, readable).answers|
    requires var s := Run(INITIAL, steps, readable); s.answers[k].seen == |Versions(s, s.answers[k].id)| - 1
    ensures var s := Run(INITIAL, steps, readable);
            var r := s.answers[k];
            r.spec == CachedSpec(Versions(s, r.id)[r.seen].section, Versions(s, r.id)[r.seen].hash)
  {
    hide Next, Run;
    ReturnIsValidatedIffSameSection(steps, readable, k);
  }

  // ---- the two queries are not one ----

  /** Run one step, then the rest. */
  lemma RunStep(s: State, step: Step, rest: seq<Step>, readable: string -> bool)
    ensures Run(s, [step] + rest, readable) == Run(Next(s, step, readable), rest, readable)
  {
    hide Next;
    assert ([step] + rest)[0] == step && ([step] + rest)[1..] == rest;
  }

  /** A write landing between the two queries pairs the new section with the old hash, whatever the contract. */
  lemma TornRead(id: string, r1: Row, r2: Row, readable: string -> bool)
    requires r1.fetchedAt < r2.fetchedAt && r2.section != "" && readable(r2.section)
    ensures Run(INITIAL,
                [Write(id, r1)]
                + ([Validate(0, id)] + ([Lookup(0)] + ([Write(id, r2)] + ([Fetch(0)] + ([Insert(0)] + []))))),
                readable).answers
            == [Return(id, 0, 1, CachedSpec(r2.section, r1.hash))]
  {
    var s1 := DoWrite(INITIAL, id, r1);
    assert Versions(s1, id) == [r1];
    var s2 := DoValidate(s1, 0, id);
    var s3 := DoLookup(s2, 0);
    assert s3.readers == map[0 := Missed(id, 0, r1.hash, r1.fetchedAt)];
    var s4 := DoWrite(s3, id, r2);
    assert Versions(s4, id) == [r1, r2];
    var s5 := DoFetch(s4, 0, readable);
    assert s5.readers == map[0 := Fetched(id, 0, r1.hash, r1.fetchedAt, 1, CachedSpec(r2.section, r1.hash))];
    var s6 := DoInsert(s5, 0);
    hide DoWrite, DoValidate, DoLookup, DoFetch, DoInsert;
    RunStep(s5, Insert(0), [], readable);
    RunStep(s4, Fetch(0), [Insert(0)] + [], readable);
    RunStep(s3, Write(id, r2), [Fetch(0)] + ([Insert(0)] + []), readable);
    RunStep(s2, Lookup(0), [Write(id, r2)] + ([Fetch(0)] + ([Insert(0)] + [])), readable);
    RunStep(s1, Validate(0, id), [Lookup(0)] + ([Write(id, r2)] + ([Fetch(0)] + ([Insert(0)] + []))), readable);
    RunStep(INITIAL, Write(id, r1),
            [Validate(0, id)] + ([Lookup(0)] + ([Write(id, r2)] + ([Fetch(0)] + ([Insert(0)] + [])))), readable);
  }

  // ---- when the two queries see one version ----

  /** This step stores a new version of the contract's row. */
  ghost predicate Rewrites(s: State, step: Step, id: string) {
    step.Write? && step.id == id
    && (Versions(s, id) == [] || Versions(s, id)[|Versions(s, id)| - 1].fetchedAt < step.row.fetchedAt)
  }

  /** Some step of the run stores a new version of the contract's row. */
  ghost predicate Rewritten(s: State, steps: seq<Step>, id: string, readable: string -> bool)
    decreases |steps|
  {
    steps != [] && (Rewrites(s, steps[0], id) || Rewritten(Next(s, steps[0], readable), steps[1..], id, readable))
  }

  lemma StepVersions(s: State, step: Step, id: string, readable: string -> bool)
    ensures |Versions(Next(s, step, readable), id)| == |Versions(s, id)| + if Rewrites(s, step, id) then 1 else 0
  {
  }

  lemma {:induction false} RunVersions(s: State, steps: seq<Step>, id: string, readable: string -> bool)
    ensures |Versions(Run(s, steps, readable), id)| >= |Versions(s, id)|
    ensures |Versions(Run(s, steps, readable), id)| == |Versions(s, id)| <==> !Rewritten(s, steps, id, readable)
    decreases |steps|
  {
    hide Next, Versions, Rewrites;
    if steps != [] {
      StepVersions(s, steps[0], id, readable);
      RunVersions(Next(s, steps[0], readable), steps[1..], id, readable);
    }
  }

  /** Steps of other readers, the indexer and invalidation, and this reader's own look at the cache. */
  ghost predicate BetweenQueries(steps: seq<Step>, r: nat) {
    forall i :: 0 <= i < |steps| ==> steps[i] != Fetch(r) && !(steps[i].Validate? && steps[i].reader == r)
  }

  /** The reader is past its first query with what that query saw, or has already answered from the cache. */
  ghost predicate Waits(s: State, r: nat, id: string, seen: nat, row: Row) {
    r in s.readers ==>
      s.readers[r] == Validated(id, seen, row.hash, row.fetchedAt)
        || s.readers[r] == Missed(id, seen, row.hash, row.fetchedAt)
  }

  lemma StepWaits(s: State, step: Step, r: nat, id: string, seen: nat, row: Row, readable: string -> bool)
    requires Waits(s, r, id, seen, row) && BetweenQueries([step], r)
    ensures Waits(Next(s, step, readable), r, id, seen, row)
  {
    assert [step][0] == step;
  }

  lemma {:induction false} RunWaits(s: State, steps: seq<Step>, r: nat, id: string, seen: nat, row: Row,
                                    readable: string -> bool)
    requires Waits(s, r, id, seen, row) && BetweenQueries(steps, r)
    ensures Waits(Run(s, steps, readable), r, id, seen, row)
    decreases |steps|
  {
    hide Next, Waits;
    if steps != [] {
      StepWaits(s, steps[0], r, id, seen, row, readable);
      RunWaits(Next(s, steps[0], readable), steps[1..], r, id, seen, row, readable);
    }
  }

  lemma StepKeepsFetched(s: State, step: Step, r: nat, readable: string -> bool)
    requires r in s.readers && s.readers[r].Fetched? && step != Insert(r)
    ensures r in Next(s, step, readable).readers && Next(s, step, readable).readers[r] == s.readers[r]
  {
  }

  lemma {:induction false} FetchedIsKept(s: State, steps: seq<Step>, r: nat, readable: string -> bool)
    requires r in s.readers && s.readers[r].Fetched? && Insert(r) !in steps
    ensures r in Run(s, steps, readable).readers && Run(s, steps, readable).readers[r] == s.readers[r]
    decreases |steps|
  {
    hide Next;
    if steps != [] {
      assert steps[0] in steps;
      StepKeepsFetched(s, steps[0], r, readable);
      FetchedIsKept(Next(s, steps[0], readable), steps[1..], r, readable);
    }
  }

  /** A whole missing call: what was stored before, the first query, what happened until the second, that query, what
      happened until the insert, and the insert. */
  function FirstQuery(before: seq<Step>, r: nat, id: string, readable: string -> bool): State {
    DoValidate(Run(INITIAL, before, readable), r, id)
  }

  function SecondQuery(before: seq<Step>, r: nat, id: string, between: seq<Step>, readable: string -> bool): State {
    DoFetch(Run(FirstQuery(before, r, id, readable), between, readable), r, readable)
  }

  /** A call that missed the cache returns the section of the very version it validated against if and only if no new
      version of the row was stored between its two queries. What happens before, and after the second query, is
      all one. */
  lemma MissReadsValidatedIffNotRewritten(before: seq<Step>, r: nat, id: string, between: seq<Step>, after: seq<Step>,
                                          readable: string -> bool)
    requires r !in Run(INITIAL, before, readable).readers && Versions(Run(INITIAL, before, readable), id) != []
    requires BetweenQueries(between, r) && Insert(r) !in after
    requires r in SecondQuery(before, r, id, between, readable).readers
    requires SecondQuery(before, r, id, between, readable).readers[r].Fetched?
    ensures var end := Run(SecondQuery(before, r, id, between, readable), after, readable);
            var done := DoInsert(end, r);
            |done.answers| == |end.answers| + 1
            && var answer := done.answers[|end.answers|];
            answer.id == id && answer.seen == |Versions(Run(INITIAL, before, readable), id)| - 1
            && (answer.read == answer.seen <==> !Rewritten(FirstQuery(before, r, id, readable), between, id, readable))
  {
    hide Run, Rewritten, BetweenQueries;
    var s := Run(INITIAL, before, readable);
    var vs := Versions(s, id);
    var first := FirstQuery(before, r, id, readable);
    RunWaits(first, between, r, id, |vs| - 1, vs[|vs| - 1], readable);
    RunVersions(first, between, id, readable);
    FetchedIsKept(SecondQuery(before, r, id, between, readable), after, r, readable);
  }
}
