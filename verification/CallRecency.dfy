/** Which entry the call cache gives up for a new one: the least recently used. */
module CallRecency {
  import opened Basics
  import opened Json
  import opened Lru
  import opened CallCache

  /** The key an operation uses: one it stores under, or one it hits. */
  function Touched(cfg: Settings, s: State, op: Op): Option<Key> {
    match op
    case InsertOp(r, _, _) => if cfg.ttl > 0 then Some(MakeKey(r)) else None
    case GetOp(r, now) => if Lookup(s, cfg, MakeKey(r), now).1.Some? then Some(MakeKey(r)) else None
    case InvalidateOp(_) => None
  }

  /** The last operation of a run that used the key: its position plus one, or zero. */
  function LastUse(cfg: Settings, ops: seq<Op>, key: Key): nat {
    if ops == [] then 0
    else if Touched(cfg, Run(cfg, ops[..|ops| - 1]), ops[|ops| - 1]) == Some(key) then |ops|
    else LastUse(cfg, ops[..|ops| - 1], key)
  }

  function Use(cfg: Settings, ops: seq<Op>): Key -> nat { (key: Key) => LastUse(cfg, ops, key) }

  lemma {:induction false} LastUseBound(cfg: Settings, ops: seq<Op>, key: Key)
    ensures LastUse(cfg, ops, key) <= |ops|
  {
    hide Touched, Run;
    if ops != [] { LastUseBound(cfg, ops[..|ops| - 1], key); }
  }

  /** How a step leaves the order: the key it uses in front of what stays, in the order it had. */
  ghost predicate Reordered(before: seq<Key>, after: seq<Key>, used: Option<Key>, rank: Key -> nat) {
    if used.Some? then exists kept :: after == [used.value] + kept && used.value !in kept && ByRank(kept, rank)
    else ByRank(after, rank)
  }

  lemma StepReorders(cfg: Settings, s: State, op: Op, rank: Key -> nat)
    requires cfg.capacity >= 1 && Coherent(s, cfg.capacity) && ByRank(s.order, rank)
    ensures Reordered(s.order, Step(s, cfg, op).order, Touched(cfg, s, op), rank)
  {
    hide MakeKey, Without, Coherent, ByRank;
    match op
    case GetOp(r, now) =>
      WithoutByRank(s.order, MakeKey(r), rank);
      if Touched(cfg, s, op).Some? {
        assert Step(s, cfg, op).order == [MakeKey(r)] + Without(s.order, MakeKey(r));
      }
    case InsertOp(r, result, now) =>
      if cfg.ttl > 0 { PutReorders(cfg, s, MakeKey(r), result, now, rank); }
    case InvalidateOp(contract) => PopAllByRank(s, OfContract(s.order, contract), rank);
  }

  lemma PutReorders(cfg: Settings, s: State, key: Key, result: Json, now: int, rank: Key -> nat)
    requires cfg.capacity >= 1 && cfg.ttl > 0 && ByRank(s.order, rank)
    ensures Reordered(s.order, Put(s, cfg, key, result, now).order, Some(key), rank)
  {
    var kept := if key in s.entries || |s.order| < cfg.capacity || s.order == [] then s.order
                else s.order[..|s.order| - 1];
    if s.order != [] { PrefixByRank(s.order, |s.order| - 1, rank); }
    hide ByRank, Without;
    WithoutByRank(kept, key, rank);
    assert Put(s, cfg, key, result, now).order == [key] + Without(kept, key);
  }

  lemma {:induction false} PopAllByRank(s: State, keys: seq<Key>, rank: Key -> nat)
    requires ByRank(s.order, rank)
    ensures ByRank(PopAll(s, keys).order, rank)
    decreases |keys|
  {
    hide ByRank, Without;
    if keys != [] {
      WithoutByRank(s.order, keys[0], rank);
      PopAllByRank(Pop(s, keys[0]), keys[1..], rank);
    }
  }

  /** Over any run the entries are kept in order of last use, the latest first. */
  lemma {:induction false} KeptByLastUse(cfg: Settings, ops: seq<Op>)
    requires cfg.capacity >= 1
    ensures ByRank(Run(cfg, ops).order, Use(cfg, ops))
  {
    if ops != [] {
      var before, op := ops[..|ops| - 1], ops[|ops| - 1];
      var s := Run(cfg, before);
      KeptByLastUse(cfg, before);
      RunCoherent(cfg, before);
      StepReorders(cfg, s, op, Use(cfg, before));
      UseGrows(cfg, ops, Step(s, cfg, op).order);
    }
  }

  lemma UseGrows(cfg: Settings, ops: seq<Op>, order: seq<Key>)
    requires ops != []
    requires var s := Run(cfg, ops[..|ops| - 1]);
      Reordered(s.order, order, Touched(cfg, s, ops[|ops| - 1]), Use(cfg, ops[..|ops| - 1]))
    ensures ByRank(order, Use(cfg, ops))
  {
    var before := ops[..|ops| - 1];
    var used := Touched(cfg, Run(cfg, before), ops[|ops| - 1]);
    forall key ensures Use(cfg, before)(key) <= |before| { LastUseBound(cfg, before, key); }
    hide Touched, Run;
    if used.Some? {
      var kept :| order == [used.value] + kept && used.value !in kept && ByRank(kept, Use(cfg, before));
      FrontByRank(kept, used.value, Use(cfg, before), Use(cfg, ops));
    } else {
      SameByRank(order, Use(cfg, before), Use(cfg, ops));
    }
  }

  /** After any run, an insert loses at most one entry: the one used least recently, and only when a new key comes to a
      full cache. Every other entry but its own stays as it was. */
  lemma InsertEvictsLeastRecent(cfg: Settings, ops: seq<Op>, r: Request, result: Json, now: int, k: Key)
    requires cfg.capacity >= 1 && k in Run(cfg, ops).entries && k != MakeKey(r)
    ensures var s := Run(cfg, ops);
            var t := Put(s, cfg, MakeKey(r), result, now);
      if k in t.entries then t.entries[k] == s.entries[k]
      else cfg.ttl > 0 && MakeKey(r) !in s.entries && |s.order| == cfg.capacity
           && forall other :: other in s.entries ==> LastUse(cfg, ops, k) <= LastUse(cfg, ops, other)
  {
    var s := Run(cfg, ops);
    RunCoherent(cfg, ops);
    KeptByLastUse(cfg, ops);
    hide Run, MakeKey, LastUse, Coherent, Put, ByRank;
    PutLoses(s, cfg, MakeKey(r), result, now, k);
    if k !in Put(s, cfg, MakeKey(r), result, now).entries {
      forall other | other in s.entries ensures Use(cfg, ops)(k) <= Use(cfg, ops)(other) {
        InOrderToo(s, cfg.capacity, other);
        LastIsLeast(s.order, other, Use(cfg, ops));
      }
    }
  }

  lemma InOrderToo(s: State, capacity: nat, k: Key)
    requires Coherent(s, capacity) && k in s.entries
    ensures k in s.order
  {
  }

  lemma PutLoses(s: State, cfg: Settings, key: Key, result: Json, now: int, k: Key)
    requires cfg.capacity >= 1 && Coherent(s, cfg.capacity) && k in s.entries && k != key
    ensures var t := Put(s, cfg, key, result, now);
      if k in t.entries then t.entries[k] == s.entries[k]
      else cfg.ttl > 0 && key !in s.entries && |s.order| == cfg.capacity && k == s.order[|s.order| - 1]
  {
    PutKeeps(s, cfg, key, result, now);
    hide Without, Coherent;
  }

  lemma LastIsLeast(order: seq<Key>, other: Key, rank: Key -> nat)
    requires other in order && ByRank(order, rank)
    ensures rank(order[|order| - 1]) <= rank(other)
  {
    var i :| 0 <= i < |order| && order[i] == other;
  }

  /** A lookup returns what is stored for less than the time to live, drops what has been for longer, and otherwise
      leaves the entries alone. */
  lemma LookupMeans(cfg: Settings, s: State, key: Key, now: int)
    requires cfg.ttl > 0
    ensures var (t, found) := Lookup(s, cfg, key, now);
      if key !in s.entries then t == s && found.None?
      else if now - s.entries[key].insertedAt < cfg.ttl then
        t.entries == s.entries && found == Some(s.entries[key].result)
      else
        && found.None? && key !in t.entries
        && forall k :: k != key ==>
          (k in t.entries <==> k in s.entries) && (k in t.entries ==> t.entries[k] == s.entries[k])
  {
    hide Without;
  }

  /** A time to live of zero switches the cache off. */
  lemma SwitchedOff(cfg: Settings, s: State, key: Key, result: Json, now: int)
    requires cfg.ttl == 0
    ensures Lookup(s, cfg, key, now) == (s, None) && Put(s, cfg, key, result, now) == s
  {
  }
}
