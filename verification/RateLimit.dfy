/** The in-memory token bucket: one shard of buckets behind a lock, least recently seen evicted first. */
module RateLimit {
  import opened Basics
  import opened Lru

  const SHARDS: nat := 64

  datatype Bucket = Bucket(tokens: real, lastRefill: real)

  datatype Status = Status(allowed: bool, remaining: int, retryAfter: Option<int>)

  /** A shard's identities, most recently seen first, and their buckets. */
  datatype ShardState = ShardState(lru: seq<string>, buckets: map<string, Bucket>)

  datatype Request = Request(identity: string, now: real)

  // ---- one bucket ----

  function Rate(limit: int): real { limit as real / 60.0 }

  function MinReal(a: real, b: real): real { if a <= b then a else b }

  /** Elapsed time saturates at zero. */
  function Elapsed(b: Bucket, now: real): real { if now >= b.lastRefill then now - b.lastRefill else 0.0 }

  function Refill(b: Bucket, limit: int, now: real): Bucket {
    Bucket(MinReal(b.tokens + Elapsed(b, now) * Rate(limit), limit as real), now)
  }

  function Ceil(x: real): int { -((-x).Floor) }

  function RetryAfter(tokens: real, limit: int): int
    requires limit > 0
  {
    var secs := Ceil((1.0 - tokens) / Rate(limit));
    if secs < 1 then 1 else secs
  }

  /** Spend one token of a refilled bucket, if it holds one. */
  function Spend(b: Bucket, limit: int): (Bucket, Status)
    requires limit > 0
  {
    if b.tokens >= 1.0 then
      (b.(tokens := b.tokens - 1.0), Status(true, (b.tokens - 1.0).Floor, None))
    else
      (b, Status(false, 0, Some(RetryAfter(b.tokens, limit))))
  }

  // ---- one shard ----

  /** `push` of a new identity: evict the least recently seen one when full. */
  function Push(s: ShardState, capacity: nat, id: string, b: Bucket): ShardState
    requires s.lru != [] || capacity > 0
  {
    var kept := if |s.lru| >= capacity && s.lru != [] then
                  ShardState(s.lru[..|s.lru| - 1], s.buckets - {s.lru[|s.lru| - 1]})
                else s;
    ShardState([id] + kept.lru, kept.buckets[id := b])
  }

  function Admit(s: ShardState, capacity: nat, id: string, limit: int, now: real): ShardState
    requires capacity > 0
  {
    if id in s.buckets then s else Push(s, capacity, id, Bucket(limit as real, now))
  }

  function CheckShard(s: ShardState, capacity: nat, id: string, limit: int, now: real): (ShardState, Status)
    requires capacity > 0
  {
    if limit <= 0 then (s, Status(true, limit, None))
    else
      var present := Admit(s, capacity, id, limit, now);
      assert id in present.buckets;
      var (b, status) := Spend(Refill(present.buckets[id], limit, now), limit);
      (ShardState([id] + Without(present.lru, id), present.buckets[id := b]), status)
  }

  ghost predicate ShardOk(s: ShardState, capacity: nat) {
    && |s.lru| <= capacity
    && (forall i, j :: 0 <= i < j < |s.lru| ==> s.lru[i] != s.lru[j])
    && (forall id :: id in s.lru <==> id in s.buckets)
    && (forall id :: id in s.buckets ==> s.buckets[id].tokens >= 0.0)
  }

  lemma AdmitKeeps(s: ShardState, capacity: nat, id: string, limit: int, now: real)
    requires capacity > 0 && limit > 0 && ShardOk(s, capacity)
    ensures ShardOk(Admit(s, capacity, id, limit, now), capacity)
    ensures id in Admit(s, capacity, id, limit, now).buckets
  {
    if id !in s.buckets && |s.lru| >= capacity {
      var last := s.lru[|s.lru| - 1];
      var kept := s.lru[..|s.lru| - 1];
      assert s.lru == kept + [last];
      assert forall x :: x in kept <==> x in s.lru && x != last;
    }
  }

  lemma CheckKeeps(s: ShardState, capacity: nat, id: string, limit: int, now: real)
    requires capacity > 0 && ShardOk(s, capacity)
    ensures ShardOk(CheckShard(s, capacity, id, limit, now).0, capacity)
  {
    if limit > 0 {
      AdmitKeeps(s, capacity, id, limit, now);
      var present := Admit(s, capacity, id, limit, now);
      WithoutKeeps(present.lru, id);
      RefillBounds(present.buckets[id], limit, now);
    }
  }

  lemma RefillBounds(b: Bucket, limit: int, now: real)
    requires limit > 0 && b.tokens >= 0.0
    ensures 0.0 <= Refill(b, limit, now).tokens <= limit as real
    ensures Spend(Refill(b, limit, now), limit).0.tokens >= 0.0
  {
    assert Elapsed(b, now) * Rate(limit) >= 0.0;
  }

  /** A shard as the backend keeps it: state behind a lock, updated in place. */
  class Shard {
    var lru: seq<string>
    var buckets: map<string, Bucket>
    const capacity: nat

    ghost function State(): ShardState
      reads this
    {
      ShardState(lru, buckets)
    }

    ghost predicate Valid()
      reads this
    {
      capacity > 0 && ShardOk(State(), capacity)
    }

    constructor (total: nat)
      ensures Valid() && State() == ShardState([], map[])
      ensures capacity * 64 >= total && (total > 0 ==> (capacity - 1) * 64 < total)
    {
      var share := (total + SHARDS - 1) / SHARDS;
      capacity := if share < 1 then 1 else share;
      lru, buckets := [], map[];
    }

    /** Insert a new identity as most recently seen, evicting the least recently seen one when full. */
    method PushNew(identity: string, bucket: Bucket)
      requires Valid()
      modifies this
      ensures State() == Push(old(State()), capacity, identity, bucket)
    {
      if |lru| >= capacity {
        buckets := buckets - {lru[|lru| - 1]};
        lru := lru[..|lru| - 1];
      }
      lru := [identity] + lru;
      buckets := buckets[identity := bucket];
    }

    /** Refill a tracked identity's bucket, promote it, and spend one token if there is one. */
    method Charge(identity: string, limit: int, now: real) returns (status: Status)
      requires limit > 0 && identity in buckets
      modifies this
      ensures var (b, spent) := Spend(Refill(old(buckets)[identity], limit, now), limit);
              && State() == ShardState([identity] + Without(old(lru), identity), old(buckets)[identity := b])
              && status == spent
    {
      hide Refill, RetryAfter, Without;
      lru := [identity] + Without(lru, identity);
      var bucket := Refill(buckets[identity], limit, now);
      if bucket.tokens >= 1.0 {
        bucket := bucket.(tokens := bucket.tokens - 1.0);
        status := Status(true, bucket.tokens.Floor, None);
      } else {
        status := Status(false, 0, Some(RetryAfter(bucket.tokens, limit)));
      }
      buckets := buckets[identity := bucket];
    }

    method Check(identity: string, limit: int, now: real) returns (status: Status)
      requires Valid()
      modifies this
      ensures Valid()
      ensures (State(), status) == CheckShard(old(State()), capacity, identity, limit, now)
    {
      CheckKeeps(State(), capacity, identity, limit, now);
      hide ShardOk, Push, Refill, Spend, Without;
      if limit <= 0 { return Status(true, limit, None); }
      if identity !in buckets {
        PushNew(identity, Bucket(limit as real, now));
      }
      assert State() == Admit(old(State()), capacity, identity, limit, now);
      status := Charge(identity, limit, now);
    }
  }

  // ---- whole runs ----

  /** The shard after a run of requests; every identity has the same fixed limit. */
  function After(s: ShardState, capacity: nat, limit: int, rs: seq<Request>): ShardState
    requires capacity > 0
    decreases |rs|
  {
    if rs == [] then s else After(CheckShard(s, capacity, rs[0].identity, limit, rs[0].now).0, capacity, limit, rs[1..])
  }

  /** How many of an identity's requests a run admits. */
  function Admitted(s: ShardState, capacity: nat, limit: int, rs: seq<Request>, id: string): nat
    requires capacity > 0
    decreases |rs|
  {
    if rs == [] then 0
    else
      var (t, status) := CheckShard(s, capacity, rs[0].identity, limit, rs[0].now);
      (if rs[0].identity == id && status.allowed then 1 else 0) + Admitted(t, capacity, limit, rs[1..], id)
  }

  /** How many times a run evicts an identity's bucket. */
  function Evictions(s: ShardState, capacity: nat, limit: int, rs: seq<Request>, id: string): nat
    requires capacity > 0
    decreases |rs|
  {
    if rs == [] then 0
    else
      var t := CheckShard(s, capacity, rs[0].identity, limit, rs[0].now).0;
      (if id in s.buckets && id !in t.buckets then 1 else 0) + Evictions(t, capacity, limit, rs[1..], id)
  }

  /** Timestamps in lock order never go back, and stay inside the window. */
  ghost predicate InWindow(rs: seq<Request>, start: real, end: real) {
    && (forall i :: 0 <= i < |rs| ==> start <= rs[i].now <= end)
    && (forall i, j :: 0 <= i < j < |rs| ==> rs[i].now <= rs[j].now)
  }

  /** What an identity could spend at a time: its refilled tokens, or a full bucket when it has none. */
  function Credit(s: ShardState, limit: int, id: string, now: real): real {
    if id in s.buckets then Refill(s.buckets[id], limit, now).tokens else limit as real
  }

  /** Tokens gained by waiting. */
  function Gain(dt: real, limit: int): real { dt * Rate(limit) }

  lemma GainAdds(a: real, b: real, limit: int)
    ensures Gain(a + b, limit) == Gain(a, limit) + Gain(b, limit)
  {
  }

  lemma GainGrows(a: real, b: real, limit: int)
    requires a <= b && limit > 0
    ensures Gain(a, limit) <= Gain(b, limit)
  {
    ScaleUp(a, b, Rate(limit));
  }

  lemma GainOfNothing(limit: int)
    ensures Gain(0.0, limit) == 0.0
  {
  }

  lemma ScaleUp(x: real, y: real, k: real)
    requires x <= y && k >= 0.0
    ensures x * k <= y * k
  {
  }

  lemma StrictScale(x: real, y: real, k: real)
    requires x < y && k > 0.0
    ensures x * k < y * k
  {
  }

  /** Waiting adds credit at the refill rate at most. */
  lemma CreditGrows(s: ShardState, limit: int, id: string, t: real, u: real)
    requires limit > 0 && t <= u
    ensures Credit(s, limit, id, u) <= Credit(s, limit, id, t) + Gain(u - t, limit)
  {
    hide Rate;
    GainOfNothing(limit);
    GainGrows(0.0, u - t, limit);
    if id in s.buckets {
      var b := s.buckets[id];
      GainAdds(Elapsed(b, t), u - t, limit);
      GainGrows(Elapsed(b, u), Elapsed(b, t) + (u - t), limit);
    }
  }

  /** One request, seen at its own time or, for another identity, at any time: what it admits is paid from credit,
      unless the bucket is evicted. */
  lemma StepIsPaid(s: ShardState, capacity: nat, limit: int, r: Request, id: string, at: real)
    requires capacity > 0 && limit > 0 && ShardOk(s, capacity) && (r.identity == id ==> at == r.now)
    ensures var (t, status) := CheckShard(s, capacity, r.identity, limit, r.now);
            var spent := if r.identity == id && status.allowed then 1.0 else 0.0;
            var evicted := if id in s.buckets && id !in t.buckets then limit as real else 0.0;
            spent + Credit(t, limit, id, at) <= Credit(s, limit, id, at) + evicted
  {
    var (t, status) := CheckShard(s, capacity, r.identity, limit, r.now);
    var present := Admit(s, capacity, r.identity, limit, r.now);
    AdmitKeeps(s, capacity, r.identity, limit, r.now);
    RefillBounds(present.buckets[r.identity], limit, r.now);
    if r.identity == id {
      var full := Refill(present.buckets[id], limit, r.now);
      assert full.tokens <= Credit(s, limit, id, r.now);
      Settled(full, limit, r.now);
    } else if id in s.buckets {
      RefillBounds(s.buckets[id], limit, at);
      if id in t.buckets { assert t.buckets[id] == s.buckets[id]; }
    }
  }

  /** A bucket just refilled gains nothing more at the same instant. */
  lemma Settled(full: Bucket, limit: int, now: real)
    requires limit > 0 && full.lastRefill == now && full.tokens <= limit as real
    ensures var (b, status) := Spend(full, limit);
            Refill(b, limit, now).tokens == b.tokens && b.tokens == full.tokens - (if status.allowed then 1.0 else 0.0)
  {
  }

  /** The credit a run's evictions hand back: one full bucket each. */
  function Restored(s: ShardState, capacity: nat, limit: int, rs: seq<Request>, id: string): real
    requires capacity > 0
    decreases |rs|
  {
    if rs == [] then 0.0
    else
      var t := CheckShard(s, capacity, rs[0].identity, limit, rs[0].now).0;
      (if id in s.buckets && id !in t.buckets then limit as real else 0.0) + Restored(t, capacity, limit, rs[1..], id)
  }

  /** That many full buckets. */
  function FullBuckets(n: nat, limit: int): real { if n == 0 then 0.0 else limit as real + FullBuckets(n - 1, limit) }

  lemma {:induction false} RestoredCounts(s: ShardState, capacity: nat, limit: int, rs: seq<Request>, id: string)
    requires capacity > 0
    ensures Restored(s, capacity, limit, rs, id) == FullBuckets(Evictions(s, capacity, limit, rs, id), limit)
    decreases |rs|
  {
    hide CheckShard;
    if rs != [] {
      RestoredCounts(CheckShard(s, capacity, rs[0].identity, limit, rs[0].now).0, capacity, limit, rs[1..], id);
    }
  }

  lemma {:induction false} FullBucketsProduct(n: nat, limit: int)
    ensures FullBuckets(n, limit) == limit as real * n as real
  {
    if n > 0 {
      FullBucketsProduct(n - 1, limit);
      OneMore(limit as real, n - 1);
    }
  }

  lemma OneMore(x: real, k: nat)
    ensures x * (1 + k) as real == x + x * k as real
  {
    assert (1 + k) as real == 1.0 + k as real;
  }

  function Positive(x: real): real { if x > 0.0 then x else 0.0 }

  /** How far an identity's own timestamps move forward in lock order, from a time on. */
  function Forward(rs: seq<Request>, id: string, from: real): real
    decreases |rs|
  {
    if rs == [] then 0.0
    else if rs[0].identity != id then Forward(rs[1..], id, from)
    else Positive(rs[0].now - from) + Forward(rs[1..], id, rs[0].now)
  }

  /** How far they move back. */
  function Backward(rs: seq<Request>, id: string, from: real): (r: real)
    ensures r >= 0.0
    decreases |rs|
  {
    if rs == [] then 0.0
    else if rs[0].identity != id then Backward(rs[1..], id, from)
    else Positive(from - rs[0].now) + Backward(rs[1..], id, rs[0].now)
  }

  ghost predicate EndsBy(rs: seq<Request>, id: string, end: real) {
    forall i :: 0 <= i < |rs| && rs[i].identity == id ==> rs[i].now <= end
  }

  lemma EndsByRest(rs: seq<Request>, id: string, end: real)
    requires rs != [] && EndsBy(rs, id, end)
    ensures EndsBy(rs[1..], id, end) && (rs[0].identity == id ==> rs[0].now <= end)
  {
    assert forall i :: 0 <= i < |rs[1..]| ==> rs[1..][i] == rs[i + 1];
  }

  lemma {:induction false} ForwardIsNetAndBack(rs: seq<Request>, id: string, start: real, end: real)
    requires EndsBy(rs, id, end) && start <= end
    ensures Forward(rs, id, start) <= end - start + Backward(rs, id, start)
    decreases |rs|
  {
    hide EndsBy;
    if rs != [] {
      EndsByRest(rs, id, end);
      ForwardIsNetAndBack(rs[1..], id, if rs[0].identity == id then rs[0].now else start, end);
    }
  }

  lemma {:induction false} CreditBoundsRun(s: ShardState, capacity: nat, limit: int, rs: seq<Request>, id: string,
                                           at: real)
    requires capacity > 0 && limit > 0 && ShardOk(s, capacity)
    ensures Admitted(s, capacity, limit, rs, id) as real
            <= Credit(s, limit, id, at) + Restored(s, capacity, limit, rs, id) + Gain(Forward(rs, id, at), limit)
    decreases |rs|
  {
    hide CheckShard, Credit, ShardOk, Gain;
    if rs == [] {
      CreditIsPositive(s, capacity, limit, id, at);
      GainOfNothing(limit);
    } else {
      var r := rs[0];
      var (t, status) := CheckShard(s, capacity, r.identity, limit, r.now);
      var next := if r.identity == id then r.now else at;
      CheckKeeps(s, capacity, r.identity, limit, r.now);
      StepIsPaid(s, capacity, limit, r, id, next);
      CreditMoves(s, limit, id, at, next);
      CreditBoundsRun(t, capacity, limit, rs[1..], id, next);
      GainAdds(Positive(next - at), Forward(rs[1..], id, next), limit);
    }
  }

  /** Credit at another time: more by waiting, never more by going back. */
  lemma CreditMoves(s: ShardState, limit: int, id: string, t: real, u: real)
    requires limit > 0
    ensures Credit(s, limit, id, u) <= Credit(s, limit, id, t) + Gain(Positive(u - t), limit)
  {
    GainOfNothing(limit);
    if t <= u {
      CreditGrows(s, limit, id, t, u);
    } else if id in s.buckets {
      hide Gain, Rate;
      ElapsedBack(s.buckets[id], t, u, limit);
    }
  }

  lemma ElapsedBack(b: Bucket, t: real, u: real, limit: int)
    requires limit > 0 && u <= t
    ensures Refill(b, limit, u).tokens <= Refill(b, limit, t).tokens
  {
    hide Rate;
    GainGrows(Elapsed(b, u), Elapsed(b, t), limit);
  }

  lemma {:induction false} OrderedNeverGoesBack(rs: seq<Request>, id: string, start: real, end: real)
    requires InWindow(rs, start, end)
    ensures Backward(rs, id, start) == 0.0
    decreases |rs|
  {
    hide InWindow;
    if rs != [] {
      WindowRest(rs, start, end);
      OrderedNeverGoesBack(rs[1..], id, if rs[0].identity == id then rs[0].now else start, end);
    }
  }

  lemma WindowRest(rs: seq<Request>, start: real, end: real)
    requires rs != [] && InWindow(rs, start, end)
    ensures InWindow(rs[1..], rs[0].now, end) && InWindow(rs[1..], start, end) && start <= rs[0].now <= end
  {
    assert forall i :: 0 <= i < |rs[1..]| ==> rs[1..][i] == rs[i + 1];
  }

  lemma CreditIsPositive(s: ShardState, capacity: nat, limit: int, id: string, now: real)
    requires limit > 0 && ShardOk(s, capacity)
    ensures 0.0 <= Credit(s, limit, id, now) <= limit as real
  {
    if id in s.buckets { RefillBounds(s.buckets[id], limit, now); }
  }

  // ---- main results ----

  /** Over any run at all, whatever order its timestamps come in, from `start` to `end` an identity is admitted at most
      `limit + limit*(T + R)/60` times, plus one full bucket for every time it was evicted: `T` is the length of the
      window and `R` how far the identity's own timestamps moved back in lock order. */
  lemma AdmissionIsBoundedInAnyOrder(s: ShardState, capacity: nat, limit: int, rs: seq<Request>, id: string,
                                     start: real, end: real)
    requires capacity > 0 && limit > 0 && ShardOk(s, capacity) && EndsBy(rs, id, end) && start <= end
    ensures Admitted(s, capacity, limit, rs, id) as real
            <= limit as real * (1 + Evictions(s, capacity, limit, rs, id)) as real
             + limit as real * (end - start + Backward(rs, id, start)) / 60.0
  {
    hide Admitted, Evictions, Restored, Credit, ShardOk, Gain, EndsBy, Forward, Backward;
    var moved := end - start + Backward(rs, id, start);
    CreditBoundsRun(s, capacity, limit, rs, id, start);
    CreditIsPositive(s, capacity, limit, id, start);
    RestoredCounts(s, capacity, limit, rs, id);
    FullBucketsProduct(Evictions(s, capacity, limit, rs, id), limit);
    OneMore(limit as real, Evictions(s, capacity, limit, rs, id));
    ForwardIsNetAndBack(rs, id, start, end);
    GainGrows(Forward(rs, id, start), moved, limit);
    GainIsRate(moved, limit);
  }

  /** With timestamps in lock order, a window of length T admits at most `limit + limit*T/60` requests of an identity,
      plus one full bucket for every time it was evicted inside the window. */
  lemma AdmissionIsBounded(s: ShardState, capacity: nat, limit: int, rs: seq<Request>, id: string, start: real,
                           end: real)
    requires capacity > 0 && limit > 0 && ShardOk(s, capacity) && InWindow(rs, start, end) && start <= end
    ensures Admitted(s, capacity, limit, rs, id) as real
            <= limit as real * (1 + Evictions(s, capacity, limit, rs, id)) as real
               + limit as real * (end - start) / 60.0
  {
    hide Admitted, Evictions, ShardOk, Backward;
    OrderedNeverGoesBack(rs, id, start, end);
    AdmissionIsBoundedInAnyOrder(s, capacity, limit, rs, id, start, end);
  }

  lemma GainIsRate(dt: real, limit: int)
    ensures Gain(dt, limit) == limit as real * dt / 60.0
  {
  }

  /** Out of lock order the bound fails: a timestamp from the past rewinds the refill clock. */
  lemma RewindAdmitsTwice(id: string)
    ensures var rs := [Request(id, 60.0), Request(id, 0.0), Request(id, 60.0)];
            Admitted(ShardState([], map[]), 1, 1, rs, id) == 2
  {
    var s0 := ShardState([], map[]);
    var rs := [Request(id, 60.0), Request(id, 0.0), Request(id, 60.0)];
    var s1 := CheckShard(s0, 1, id, 1, 60.0).0;
    assert s1.buckets == map[id := Bucket(0.0, 60.0)] && CheckShard(s0, 1, id, 1, 60.0).1.allowed;
    var s2 := CheckShard(s1, 1, id, 1, 0.0).0;
    assert s2.buckets == map[id := Bucket(0.0, 0.0)] && !CheckShard(s1, 1, id, 1, 0.0).1.allowed;
    assert CheckShard(s2, 1, id, 1, 60.0).1.allowed;
    assert rs[1..][1..] == [Request(id, 60.0)];
    assert Admitted(s2, 1, 1, [Request(id, 60.0)], id) == 1;
    assert Admitted(s1, 1, 1, rs[1..], id) == 1;
  }

  /** Requests of other identities leave a bucket alone, or evict it. */
  lemma {:induction false} OthersLeaveIt(s: ShardState, capacity: nat, limit: int, rs: seq<Request>, id: string)
    requires capacity > 0 && limit > 0 && ShardOk(s, capacity) && forall i :: 0 <= i < |rs| ==> rs[i].identity != id
    ensures var t := After(s, capacity, limit, rs);
            ShardOk(t, capacity) && (id in t.buckets ==> id in s.buckets && t.buckets[id] == s.buckets[id])
    decreases |rs|
  {
    if rs != [] {
      CheckKeeps(s, capacity, rs[0].identity, limit, rs[0].now);
      AdmitKeeps(s, capacity, rs[0].identity, limit, rs[0].now);
      hide ShardOk, Refill, Spend;
      OthersLeaveIt(CheckShard(s, capacity, rs[0].identity, limit, rs[0].now).0, capacity, limit, rs[1..], id);
    }
  }

  /** The retry hint is honest: between 1 and 60 seconds, and a check that much later is allowed,
      whatever other identities did in between. */
  lemma RetryHintIsHonest(s: ShardState, capacity: nat, id: string, limit: int, now: real, others: seq<Request>,
                          later: real)
    requires capacity > 0 && limit > 0 && ShardOk(s, capacity)
    requires !CheckShard(s, capacity, id, limit, now).1.allowed
    requires forall i :: 0 <= i < |others| ==> others[i].identity != id
    ensures CheckShard(s, capacity, id, limit, now).1.retryAfter.Some?
    ensures 1 <= CheckShard(s, capacity, id, limit, now).1.retryAfter.value <= 60
    ensures later >= now + CheckShard(s, capacity, id, limit, now).1.retryAfter.value as real ==>
              CheckShard(After(CheckShard(s, capacity, id, limit, now).0, capacity, limit, others), capacity, id,
                         limit, later).1.allowed
  {
    var (t, status) := CheckShard(s, capacity, id, limit, now);
    DeniedBucket(s, capacity, id, limit, now);
    var b := t.buckets[id];
    RetryBounds(b.tokens, limit);
    CheckKeeps(s, capacity, id, limit, now);
    OthersLeaveIt(t, capacity, limit, others, id);
    if later >= now + RetryAfter(b.tokens, limit) as real {
      RefillSuffices(b, limit, later);
      EnoughIsAllowed(After(t, capacity, limit, others), capacity, id, limit, later);
    }
  }

  /** A denial leaves a refilled bucket short of one token, and hints from it. */
  lemma DeniedBucket(s: ShardState, capacity: nat, id: string, limit: int, now: real)
    requires capacity > 0 && limit > 0 && ShardOk(s, capacity) && !CheckShard(s, capacity, id, limit, now).1.allowed
    ensures var (t, status) := CheckShard(s, capacity, id, limit, now);
            && id in t.buckets && 0.0 <= t.buckets[id].tokens < 1.0 && t.buckets[id].lastRefill == now
            && status.retryAfter == Some(RetryAfter(t.buckets[id].tokens, limit))
  {
    AdmitKeeps(s, capacity, id, limit, now);
    RefillBounds(Admit(s, capacity, id, limit, now).buckets[id], limit, now);
    hide RetryAfter;
  }

  lemma EnoughIsAllowed(s: ShardState, capacity: nat, id: string, limit: int, now: real)
    requires capacity > 0 && limit > 0 && ShardOk(s, capacity)
    requires id in s.buckets ==> Refill(s.buckets[id], limit, now).tokens >= 1.0
    ensures CheckShard(s, capacity, id, limit, now).1.allowed
  {
    GainOfNothing(limit);
  }

  lemma RetryBounds(tokens: real, limit: int)
    requires limit > 0 && 0.0 <= tokens < 1.0
    ensures 1 <= RetryAfter(tokens, limit) <= 60
    ensures Gain(RetryAfter(tokens, limit) as real, limit) >= 1.0 - tokens
  {
    var k, need := Rate(limit), 1.0 - tokens;
    var secs := need / k;
    WaitBounds(need, k);
    assert Ceil(secs) as real >= secs;
    assert Ceil(secs) <= 60;
    ScaleUp(secs, RetryAfter(tokens, limit) as real, k);
  }

  lemma WaitBounds(need: real, k: real)
    requires 0.0 < need <= 1.0 && k >= 1.0 / 60.0
    ensures 0.0 < need / k <= 60.0 && need / k * k == need
  {
    var secs := need / k;
    if secs > 60.0 {
      StrictScale(60.0, secs, k);
      assert false;
    }
    if secs <= 0.0 {
      ScaleUp(secs, 0.0, k);
      assert false;
    }
  }

  lemma RefillSuffices(b: Bucket, limit: int, later: real)
    requires limit > 0 && 0.0 <= b.tokens < 1.0 && later >= b.lastRefill + RetryAfter(b.tokens, limit) as real
    ensures Refill(b, limit, later).tokens >= 1.0
  {
    hide RetryAfter, Rate;
    RetryBounds(b.tokens, limit);
    GainGrows(RetryAfter(b.tokens, limit) as real, Elapsed(b, later), limit);
  }
}
