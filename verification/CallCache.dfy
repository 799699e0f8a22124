/** The read-through cache of `/call` results: least recently used first out, entries that expire, and invalidation. */
module CallCache {
  import opened Basics
  import opened Json
  import opened Lru
  import opened CacheKey
  import Canonical

  /** What besides the call itself can change its result. */
  datatype Scope = Scope(source: Option<string>, wasmHash: string)

  datatype Request = Request(contract: string, entry: string, args: Json, scope: Scope)

  datatype Key = Key(contract: string, entry: string, args: string, source: Option<string>, wasmHash: string)

  function MakeKey(r: Request): Key {
    Key(r.contract, r.entry, Normalize(r.args), r.scope.source, r.scope.wasmHash)
  }

  datatype Stored = Stored(result: Json, insertedAt: int)

  /** The keys, most recently used first, and what is stored under them. */
  datatype State = State(order: seq<Key>, entries: map<Key, Stored>)

  datatype Settings = Settings(capacity: nat, ttl: nat)

  /** `Instant::elapsed` saturates at zero. */
  function Age(e: Stored, now: int): int { if now >= e.insertedAt then now - e.insertedAt else 0 }

  function Promote(order: seq<Key>, key: Key): seq<Key> { [key] + Without(order, key) }

  function Pop(s: State, key: Key): State { State(Without(s.order, key), s.entries - {key}) }

  function Lookup(s: State, cfg: Settings, key: Key, now: int): (State, Option<Json>) {
    if cfg.ttl == 0 || key !in s.entries then (s, None)
    else if Age(s.entries[key], now) < cfg.ttl then
      (State(Promote(s.order, key), s.entries), Some(s.entries[key].result))
    else (Pop(s, key), None)
  }

  function Put(s: State, cfg: Settings, key: Key, result: Json, now: int): State {
    if cfg.ttl == 0 then s
    else
      var kept := if key in s.entries || |s.order| < cfg.capacity || s.order == [] then s
                  else State(s.order[..|s.order| - 1], s.entries - {s.order[|s.order| - 1]});
      State(Promote(kept.order, key), kept.entries[key := Stored(result, now)])
  }

  function PopAll(s: State, keys: seq<Key>): State
    decreases |keys|
  {
    if keys == [] then s else PopAll(Pop(s, keys[0]), keys[1..])
  }

  function OfContract(keys: seq<Key>, contract: string): seq<Key> {
    if keys == [] then []
    else if keys[0].contract == contract then [keys[0]] + OfContract(keys[1..], contract)
    else OfContract(keys[1..], contract)
  }

  function Drop(s: State, contract: string): State { PopAll(s, OfContract(s.order, contract)) }

  ghost predicate Coherent(s: State, capacity: nat) {
    && |s.order| <= capacity
    && (forall i, j :: 0 <= i < j < |s.order| ==> s.order[i] != s.order[j])
    && (forall k :: k in s.order <==> k in s.entries)
  }

  // ---- the cache ----

  class Cache {
    var order: seq<Key>
    var entries: map<Key, Stored>
    var hits: nat
    var misses: nat
    var evictions: nat
    const settings: Settings

    ghost function Contents(): State
      reads this
    {
      State(order, entries)
    }

    ghost predicate Valid()
      reads this
    {
      settings.capacity >= 1 && Coherent(Contents(), settings.capacity)
    }

    constructor (maxEntries: nat, ttl: nat)
      ensures Valid() && Contents() == State([], map[])
      ensures settings == Settings(if maxEntries > 1 then maxEntries else 1, ttl)
    {
      settings := Settings(if maxEntries > 1 then maxEntries else 1, ttl);
      order, entries, hits, misses, evictions := [], map[], 0, 0, 0;
    }

    /** Every lookup of an enabled cache counts once, as a hit exactly when it returns a result. */
    method Get(request: Request, now: int) returns (found: Option<Json>)
      requires Valid()
      modifies this
      ensures Valid() && (Contents(), found) == Lookup(old(Contents()), settings, MakeKey(request), now)
      ensures hits == old(hits) + (if found.Some? then 1 else 0)
      ensures hits + misses == old(hits + misses) + (if settings.ttl > 0 then 1 else 0)
      ensures evictions == old(evictions)
    {
      if settings.ttl == 0 { return None; }
      var key := MakeKey(request);
      hide MakeKey, Coherent, Without;
      LookupKeeps(Contents(), settings, key, now);
      if key in entries {
        var stored := entries[key];
        PromoteThenDrop(order, key);
        order := Promote(order, key);
        hide Promote;
        if Age(stored, now) < settings.ttl {
          hits := hits + 1;
          found := Some(stored.result);
        } else {
          order, entries := Without(order, key), entries - {key};
          misses := misses + 1;
          found := None;
        }
      } else {
        misses := misses + 1;
        found := None;
      }
    }

    /** `put` hands back the value it replaces, so `evictions` counts replacements and not entries pushed out. */
    method Insert(request: Request, result: Json, now: int)
      requires Valid()
      modifies this
      ensures Valid() && Contents() == Put(old(Contents()), settings, MakeKey(request), result, now)
      ensures evictions == old(evictions) + (if settings.ttl > 0 && MakeKey(request) in old(entries) then 1 else 0)
      ensures hits == old(hits) && misses == old(misses)
    {
      if settings.ttl == 0 { return; }
      var key := MakeKey(request);
      hide MakeKey, Coherent, Without;
      PutKeeps(Contents(), settings, key, result, now);
      if key in entries {
        evictions := evictions + 1;
      } else if |order| >= settings.capacity {
        entries := entries - {order[|order| - 1]};
        order := order[..|order| - 1];
      }
      order := Promote(order, key);
      entries := entries[key := Stored(result, now)];
    }

    /** Collect the contract's keys, then pop them one by one. */
    method InvalidateContract(contract: string)
      requires Valid()
      modifies this`order, this`entries
      ensures Valid() && Contents() == Drop(old(Contents()), contract)
    {
      hide Coherent;
      DropKeeps(Contents(), settings.capacity, contract);
      hide OfContract, Without;
      var stale := KeysOfContract(order, contract);
      assert stale[0..] == stale;
      for i := 0 to |stale|
        invariant PopAll(Contents(), stale[i..]) == Drop(old(Contents()), contract)
      {
        assert stale[i..][1..] == stale[i + 1..];
        order, entries := Without(order, stale[i]), entries - {stale[i]};
      }
    }
  }

  method KeysOfContract(keys: seq<Key>, contract: string) returns (stale: seq<Key>)
    ensures stale == OfContract(keys, contract)
  {
    stale := [];
    for i := 0 to |keys|
      invariant stale + OfContract(keys[i..], contract) == OfContract(keys, contract)
    {
      assert keys[i..][1..] == keys[i + 1..];
      if keys[i].contract == contract { stale := stale + [keys[i]]; }
    }
  }

  lemma PromoteThenDrop(order: seq<Key>, key: Key)
    ensures Without(Promote(order, key), key) == Without(order, key)
  {
  }

  lemma PutKeeps(s: State, cfg: Settings, key: Key, result: Json, now: int)
    requires cfg.capacity >= 1 && Coherent(s, cfg.capacity)
    ensures Coherent(Put(s, cfg, key, result, now), cfg.capacity)
    ensures forall k | k in s.entries && k !in Put(s, cfg, key, result, now).entries ::
      cfg.ttl > 0 && key !in s.entries && |s.order| == cfg.capacity && k == s.order[|s.order| - 1]
  {
    if cfg.ttl > 0 && key !in s.entries && |s.order| >= cfg.capacity {
      var last, kept := s.order[|s.order| - 1], s.order[..|s.order| - 1];
      assert s.order == kept + [last];
      assert forall k :: k in kept <==> k in s.order && k != last;
      WithoutKeeps(kept, key);
    } else {
      WithoutKeeps(s.order, key);
    }
  }

  lemma {:induction false} OfContractHolds(keys: seq<Key>, contract: string)
    ensures forall k :: k in OfContract(keys, contract) <==> k in keys && k.contract == contract
  {
    if keys != [] {
      OfContractHolds(keys[1..], contract);
      assert keys == [keys[0]] + keys[1..];
    }
  }

  lemma PopKeeps(s: State, capacity: nat, key: Key)
    requires Coherent(s, capacity)
    ensures Coherent(Pop(s, key), capacity)
  {
    WithoutKeeps(s.order, key);
  }

  lemma {:induction false} PopAllKeeps(s: State, capacity: nat, keys: seq<Key>)
    requires Coherent(s, capacity)
    ensures Coherent(PopAll(s, keys), capacity)
    ensures forall k :: k in PopAll(s, keys).entries <==> k in s.entries && k !in keys
    ensures forall k :: k in PopAll(s, keys).entries ==> PopAll(s, keys).entries[k] == s.entries[k]
    decreases |keys|
  {
    if keys != [] {
      PopKeeps(s, capacity, keys[0]);
      PopAllKeeps(Pop(s, keys[0]), capacity, keys[1..]);
      hide Coherent, Without;
      assert keys == [keys[0]] + keys[1..];
    }
  }

  /** Invalidation drops exactly the contract's entries. */
  lemma DropKeeps(s: State, capacity: nat, contract: string)
    requires Coherent(s, capacity)
    ensures Coherent(Drop(s, contract), capacity)
    ensures forall k :: k in Drop(s, contract).entries <==> k in s.entries && k.contract != contract
    ensures forall k :: k in Drop(s, contract).entries ==> Drop(s, contract).entries[k] == s.entries[k]
  {
    hide Without;
    OfContractHolds(s.order, contract);
    PopAllKeeps(s, capacity, OfContract(s.order, contract));
  }

  lemma LookupKeeps(s: State, cfg: Settings, key: Key, now: int)
    requires Coherent(s, cfg.capacity)
    ensures Coherent(Lookup(s, cfg, key, now).0, cfg.capacity)
  {
    WithoutKeeps(s.order, key);
  }

  // ---- whole runs ----

  datatype Op =
    | GetOp(request: Request, now: int)
    | InsertOp(request: Request, result: Json, now: int)
    | InvalidateOp(contract: string)

  function Step(s: State, cfg: Settings, op: Op): State {
    match op
    case GetOp(r, now) => Lookup(s, cfg, MakeKey(r), now).0
    case InsertOp(r, result, now) => Put(s, cfg, MakeKey(r), result, now)
    case InvalidateOp(contract) => Drop(s, contract)
  }

  function Run(cfg: Settings, ops: seq<Op>): State {
    if ops == [] then State([], map[])
    else Step(Run(cfg, ops[..|ops| - 1]), cfg, ops[|ops| - 1])
  }

  lemma EmptyCoherent(capacity: nat)
    ensures Coherent(State([], map[]), capacity)
  {
  }

  lemma {:induction false} RunCoherent(cfg: Settings, ops: seq<Op>)
    requires cfg.capacity >= 1
    ensures Coherent(Run(cfg, ops), cfg.capacity)
  {
    hide Lookup, Put, Drop, MakeKey, Coherent;
    if ops == [] {
      EmptyCoherent(cfg.capacity);
    } else {
      var s := Run(cfg, ops[..|ops| - 1]);
      RunCoherent(cfg, ops[..|ops| - 1]);
      match ops[|ops| - 1] {
        case GetOp(r, now) => LookupKeeps(s, cfg, MakeKey(r), now);
        case InsertOp(r, result, now) => PutKeeps(s, cfg, MakeKey(r), result, now);
        case InvalidateOp(contract) => DropKeeps(s, cfg.capacity, contract);
      }
    }
  }

  // ---- what a run's history says about one key ----

  /** The latest insert under a key that no invalidation of its contract has followed. */
  function LastInsert(ops: seq<Op>, key: Key): Option<Stored> {
    if ops == [] then None
    else
      var earlier := LastInsert(ops[..|ops| - 1], key);
      match ops[|ops| - 1]
      case GetOp(_, _) => earlier
      case InsertOp(r, result, now) => if MakeKey(r) == key then Some(Stored(result, now)) else earlier
      case InvalidateOp(contract) => if key.contract == contract then None else earlier
  }

  lemma {:induction false} EntriesAreLatest(cfg: Settings, ops: seq<Op>, key: Key)
    requires cfg.capacity >= 1 && cfg.ttl > 0 && key in Run(cfg, ops).entries
    ensures LastInsert(ops, key) == Some(Run(cfg, ops).entries[key])
  {
    hide MakeKey, Step, Without;
    if ops != [] {
      var before, op := ops[..|ops| - 1], ops[|ops| - 1];
      RunCoherent(cfg, before);
      StepOrigin(cfg, Run(cfg, before), op, key);
      if key in Run(cfg, before).entries { EntriesAreLatest(cfg, before, key); }
    }
  }

  /** Where an entry comes from: the insert just made, or the state before. */
  lemma StepOrigin(cfg: Settings, s: State, op: Op, key: Key)
    requires cfg.capacity >= 1 && Coherent(s, cfg.capacity) && key in Step(s, cfg, op).entries
    ensures if op.InsertOp? && MakeKey(op.request) == key && cfg.ttl > 0
            then Step(s, cfg, op).entries[key] == Stored(op.result, op.now)
            else key in s.entries && Step(s, cfg, op).entries[key] == s.entries[key]
    ensures op.InvalidateOp? ==> key.contract != op.contract
  {
    hide MakeKey, Drop, Without, Coherent;
    if op.InvalidateOp? { DropKeeps(s, cfg.capacity, op.contract); }
  }

  // ---- the same history, in terms of requests ----

  ghost predicate SameRequest(r: Request, q: Request) {
    r.contract == q.contract && r.entry == q.entry && r.scope == q.scope && SameJson(r.args, q.args)
  }

  ghost predicate PlainRequest(r: Request) { Plain(r.args) && Canonical.DistinctDeep(r.args) }

  ghost predicate PlainOps(ops: seq<Op>) {
    forall i :: 0 <= i < |ops| && !ops[i].InvalidateOp? ==> PlainRequest(ops[i].request)
  }

  ghost function LatestFor(ops: seq<Op>, r: Request): Option<Stored> {
    if ops == [] then None
    else
      var earlier := LatestFor(ops[..|ops| - 1], r);
      match ops[|ops| - 1]
      case GetOp(_, _) => earlier
      case InsertOp(q, result, now) => if SameRequest(q, r) then Some(Stored(result, now)) else earlier
      case InvalidateOp(contract) => if r.contract == contract then None else earlier
  }

  lemma SameKey(r: Request, q: Request)
    requires PlainRequest(r) && PlainRequest(q)
    ensures MakeKey(r) == MakeKey(q) <==> SameRequest(r, q)
  {
    hide Normalize, Plain, Canonical.DistinctDeep, SameJson;
    KeysAgree(r.args, q.args);
  }

  lemma {:induction false} LatestAgree(ops: seq<Op>, r: Request)
    requires PlainOps(ops) && PlainRequest(r)
    ensures LastInsert(ops, MakeKey(r)) == LatestFor(ops, r)
  {
    hide SameRequest, PlainRequest;
    if ops != [] {
      LatestAgree(ops[..|ops| - 1], r);
      var op := ops[|ops| - 1];
      if op.InsertOp? { SameKey(op.request, r); }
      hide Normalize;
    }
  }

  /** Over any run, a hit is the result of the latest insert for the same contract, function, arguments up to member
      order, source and interface, no older than the time to live and not followed by an invalidation. */
  lemma HitIsLatest(cfg: Settings, ops: seq<Op>, r: Request, now: int)
    requires cfg.capacity >= 1 && PlainOps(ops) && PlainRequest(r)
    requires Lookup(Run(cfg, ops), cfg, MakeKey(r), now).1.Some?
    ensures LatestFor(ops, r).Some?
    ensures Lookup(Run(cfg, ops), cfg, MakeKey(r), now).1 == Some(LatestFor(ops, r).value.result)
    ensures Age(LatestFor(ops, r).value, now) < cfg.ttl
  {
    hide MakeKey, Run, LatestFor, LastInsert, PlainRequest, PlainOps, Promote;
    EntriesAreLatest(cfg, ops, MakeKey(r));
    LatestAgree(ops, r);
  }

  // ---- when nothing is pushed out ----

  /** Operations happen in clock order, none later than `now`. */
  ghost predicate Clocked(ops: seq<Op>, now: int) {
    ops == [] ||
    match ops[|ops| - 1]
    case GetOp(_, t) => t <= now && Clocked(ops[..|ops| - 1], t)
    case InsertOp(_, _, t) => t <= now && Clocked(ops[..|ops| - 1], t)
    case InvalidateOp(_) => Clocked(ops[..|ops| - 1], now)
  }

  function Inserted(ops: seq<Op>): set<Key> {
    if ops == [] then {}
    else
      var earlier := Inserted(ops[..|ops| - 1]);
      var op := ops[|ops| - 1];
      if op.InsertOp? then earlier + {MakeKey(op.request)} else earlier
  }

  lemma {:induction false} EntriesInserted(cfg: Settings, ops: seq<Op>)
    requires cfg.capacity >= 1
    ensures Run(cfg, ops).entries.Keys <= Inserted(ops)
  {
    hide MakeKey, Drop, Without;
    if ops != [] {
      EntriesInserted(cfg, ops[..|ops| - 1]);
      RunCoherent(cfg, ops[..|ops| - 1]);
      var op := ops[|ops| - 1];
      if op.InvalidateOp? { DropKeeps(Run(cfg, ops[..|ops| - 1]), cfg.capacity, op.contract); }
    }
  }

  /** An insert pushes nothing out while no more distinct keys than the capacity were ever inserted. */
  lemma RoomLeft(cfg: Settings, s: State, seen: set<Key>, key: Key)
    requires Coherent(s, cfg.capacity) && s.entries.Keys <= seen && |seen + {key}| <= cfg.capacity
    ensures key in s.entries || |s.order| < cfg.capacity
  {
    if key !in s.entries {
      OrderCounts(s.order, s.entries.Keys);
      assert s.entries.Keys < seen + {key};
      SubsetSmaller(s.entries.Keys, seen + {key});
    }
  }

  lemma SubsetSmaller<T>(a: set<T>, b: set<T>)
    requires a < b
    ensures |a| < |b|
  {
    assert b == a + (b - a);
    assert |b - a| > 0;
  }

  lemma {:induction false} OrderCounts(order: seq<Key>, keys: set<Key>)
    requires forall i, j :: 0 <= i < j < |order| ==> order[i] != order[j]
    requires forall k :: k in order <==> k in keys
    ensures |order| == |keys|
  {
    if order == [] {
      assert keys == {};
    } else {
      assert order == [order[0]] + order[1..];
      OrderCounts(order[1..], keys - {order[0]});
    }
  }

  lemma {:induction false} FreshIsKept(cfg: Settings, ops: seq<Op>, key: Key, now: int)
    requires cfg.capacity >= 1 && cfg.ttl > 0 && Clocked(ops, now) && |Inserted(ops)| <= cfg.capacity
    requires LastInsert(ops, key).Some? && now - LastInsert(ops, key).value.insertedAt < cfg.ttl
    ensures key in Run(cfg, ops).entries && LastInsert(ops, key).value.insertedAt <= now
  {
    hide MakeKey, Drop, Without, Coherent;
    var before, op := ops[..|ops| - 1], ops[|ops| - 1];
    var s := Run(cfg, before);
    RunCoherent(cfg, before);
    SubsetCard(Inserted(before), Inserted(ops));
    match op {
      case GetOp(_, t) =>
        FreshIsKept(cfg, before, key, t);
        EntriesAreLatest(cfg, before, key);
      case InsertOp(r, result, t) =>
        EntriesInserted(cfg, before);
        RoomLeft(cfg, s, Inserted(before), MakeKey(r));
        PutKeeps(s, cfg, MakeKey(r), result, t);
        if MakeKey(r) != key { FreshIsKept(cfg, before, key, t); }
      case InvalidateOp(contract) =>
        FreshIsKept(cfg, before, key, now);
        DropKeeps(s, cfg.capacity, contract);
    }
  }

  lemma SubsetCard<T>(a: set<T>, b: set<T>)
    requires a <= b
    ensures |a| <= |b|
  {
    if a != b { SubsetSmaller(a, b); }
  }

  /** While the capacity suffices, a lookup hits exactly when the history holds a live result. */
  lemma HitsExactlyWhenLive(cfg: Settings, ops: seq<Op>, r: Request, now: int)
    requires cfg.capacity >= 1 && PlainOps(ops) && PlainRequest(r)
    requires Clocked(ops, now) && |Inserted(ops)| <= cfg.capacity
    ensures Lookup(Run(cfg, ops), cfg, MakeKey(r), now).1.Some?
      <==> cfg.ttl > 0 && LatestFor(ops, r).Some? && Age(LatestFor(ops, r).value, now) < cfg.ttl
  {
    hide MakeKey, Run, LatestFor, LastInsert, PlainRequest, PlainOps, Promote, Clocked, Inserted;
    LatestAgree(ops, r);
    var key := MakeKey(r);
    if Lookup(Run(cfg, ops), cfg, key, now).1.Some? { HitIsLatest(cfg, ops, r, now); }
    if cfg.ttl > 0 && LatestFor(ops, r).Some? && Age(LatestFor(ops, r).value, now) < cfg.ttl {
      FreshIsKept(cfg, ops, key, now);
      EntriesAreLatest(cfg, ops, key);
    }
  }
}
