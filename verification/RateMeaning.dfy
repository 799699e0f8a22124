/** What one identity gets from the token bucket, and which identity loses its bucket. */
module RateMeaning {
  import opened Basics
  import opened Lru
  import opened RateLimit

  // ---- one check ----

  /** A check is allowed exactly when there is credit for a whole token; then one is spent and the status counts the
      whole tokens left, and otherwise none is. */
  lemma CheckMeans(s: ShardState, capacity: nat, id: string, limit: int, now: real)
    requires capacity > 0 && limit > 0 && ShardOk(s, capacity)
    ensures var (t, status) := CheckShard(s, capacity, id, limit, now);
            var credit := if id in s.buckets then Refill(s.buckets[id], limit, now).tokens else limit as real;
      && (status.allowed <==> credit >= 1.0)
      && id in t.buckets && t.buckets[id].lastRefill == now
      && (status.allowed ==> t.buckets[id].tokens == credit - 1.0 && status.retryAfter.None?
                             && status.remaining as real <= credit - 1.0 < status.remaining as real + 1.0)
      && (!status.allowed ==> t.buckets[id].tokens == credit && status.retryAfter.Some? && status.remaining == 0)
      && (forall other :: other != id && other in t.buckets ==>
            other in s.buckets && t.buckets[other] == s.buckets[other])
  {
    AdmitKeeps(s, capacity, id, limit, now);
    GainOfNothing(limit);
    hide ShardOk, RetryAfter;
    FreshIsFull(limit, now);
  }

  lemma FreshIsFull(limit: int, now: real)
    requires limit > 0
    ensures Refill(Bucket(limit as real, now), limit, now) == Bucket(limit as real, now)
  {
    assert 0.0 * Rate(limit) == 0.0;
  }

  /** Refilling adds the limit per minute for the time since the last check, up to a full bucket; time never runs
      back. */
  lemma RefillMeans(b: Bucket, limit: int, now: real)
    requires limit > 0
    ensures var due := b.tokens + limit as real * (now - b.lastRefill) / 60.0;
      && (now >= b.lastRefill ==> Refill(b, limit, now).tokens == if due <= limit as real then due else limit as real)
      && (now <= b.lastRefill && b.tokens <= limit as real ==> Refill(b, limit, now).tokens == b.tokens)
  {
    GainIsRate(now - b.lastRefill, limit);
    GainOfNothing(limit);
  }

  /** A limit of zero or less lets everything through and keeps no bucket. */
  lemma NoLimit(s: ShardState, capacity: nat, id: string, limit: int, now: real)
    requires capacity > 0 && limit <= 0
    ensures CheckShard(s, capacity, id, limit, now) == (s, Status(true, limit, None))
  {
  }

  // ---- a fresh identity ----

  function AtOnce(id: string, now: real, n: nat): seq<Request> { seq(n, i => Request(id, now)) }

  lemma {:induction false} SpendsAtOnce(s: ShardState, capacity: nat, id: string, limit: int, now: real, n: nat,
                                        left: nat)
    requires capacity > 0 && limit > 0 && ShardOk(s, capacity) && left <= limit
    requires id in s.buckets && s.buckets[id] == Bucket(left as real, now)
    ensures Admitted(s, capacity, limit, AtOnce(id, now, n), id) == if n <= left then n else left
    decreases n
  {
    if n > 0 {
      assert AtOnce(id, now, n)[0] == Request(id, now) && AtOnce(id, now, n)[1..] == AtOnce(id, now, n - 1);
      CheckMeans(s, capacity, id, limit, now);
      CheckKeeps(s, capacity, id, limit, now);
      Unrefilled(left as real, limit, now);
      hide ShardOk, CheckShard;
      var t := CheckShard(s, capacity, id, limit, now).0;
      SpendsAtOnce(t, capacity, id, limit, now, n - 1, if left > 0 then left - 1 else 0);
    }
  }

  lemma Unrefilled(tokens: real, limit: int, now: real)
    requires limit > 0 && tokens <= limit as real
    ensures Refill(Bucket(tokens, now), limit, now).tokens == tokens
  {
    GainOfNothing(limit);
  }

  /** Of any number of requests an identity without a bucket makes at one instant, the first `limit` are admitted. */
  lemma FreshIdentityGetsItsLimit(s: ShardState, capacity: nat, id: string, limit: int, now: real, n: nat)
    requires capacity > 0 && limit > 0 && ShardOk(s, capacity) && id !in s.buckets
    ensures Admitted(s, capacity, limit, AtOnce(id, now, n), id) == if n <= limit then n else limit
  {
    if n > 0 {
      assert AtOnce(id, now, n)[0] == Request(id, now) && AtOnce(id, now, n)[1..] == AtOnce(id, now, n - 1);
      CheckMeans(s, capacity, id, limit, now);
      CheckKeeps(s, capacity, id, limit, now);
      hide ShardOk, CheckShard;
      SpendsAtOnce(CheckShard(s, capacity, id, limit, now).0, capacity, id, limit, now, n - 1, limit - 1);
    }
  }

  // ---- the retry hint ----

  /** The hint is the least: a second sooner, if it is more than one, the same identity is still denied. */
  lemma RetryHintIsLeast(s: ShardState, capacity: nat, id: string, limit: int, now: real)
    requires capacity > 0 && limit > 0 && ShardOk(s, capacity)
    requires var (t, status) := CheckShard(s, capacity, id, limit, now);
      !status.allowed && status.retryAfter.Some? && status.retryAfter.value > 1
    ensures var (t, status) := CheckShard(s, capacity, id, limit, now);
      !CheckShard(t, capacity, id, limit, now + (status.retryAfter.value - 1) as real).1.allowed
  {
    var (t, status) := CheckShard(s, capacity, id, limit, now);
    DeniedBucket(s, capacity, id, limit, now);
    CheckKeeps(s, capacity, id, limit, now);
    SoonerIsShort(t.buckets[id].tokens, limit);
    hide CheckShard, ShardOk, RetryAfter, Gain;
    TooSoon(t, capacity, id, limit, now, (status.retryAfter.value - 1) as real);
  }

  lemma TooSoon(s: ShardState, capacity: nat, id: string, limit: int, now: real, wait: real)
    requires capacity > 0 && limit > 0 && ShardOk(s, capacity) && wait >= 0.0
    requires id in s.buckets && s.buckets[id].lastRefill == now && s.buckets[id].tokens + Gain(wait, limit) < 1.0
    ensures !CheckShard(s, capacity, id, limit, now + wait).1.allowed
  {
    CheckMeans(s, capacity, id, limit, now + wait);
    hide CheckShard, ShardOk;
  }

  lemma SoonerIsShort(tokens: real, limit: int)
    requires limit > 0 && 0.0 <= tokens < 1.0 && RetryAfter(tokens, limit) > 1
    ensures tokens + Gain((RetryAfter(tokens, limit) - 1) as real, limit) < 1.0
  {
    var k, need := Rate(limit), 1.0 - tokens;
    var secs := need / k;
    WaitBounds(need, k);
    assert (Ceil(secs) - 1) as real < secs;
    StrictScale((Ceil(secs) - 1) as real, secs, k);
  }

  // ---- who is evicted ----

  /** The last request of an identity: its position plus one, or zero. */
  function LastSeen(rs: seq<Request>, id: string): nat {
    if rs == [] then 0 else if rs[|rs| - 1].identity == id then |rs| else LastSeen(rs[..|rs| - 1], id)
  }

  lemma {:induction false} LastSeenBound(rs: seq<Request>, id: string)
    ensures LastSeen(rs, id) <= |rs|
  {
    if rs != [] { LastSeenBound(rs[..|rs| - 1], id); }
  }

  lemma {:induction false} AfterSnoc(s: ShardState, capacity: nat, limit: int, rs: seq<Request>, r: Request)
    requires capacity > 0
    ensures After(s, capacity, limit, rs + [r])
            == CheckShard(After(s, capacity, limit, rs), capacity, r.identity, limit, r.now).0
    decreases |rs|
  {
    hide CheckShard;
    if rs == [] {
      assert [] + [r] == [r];
    } else {
      assert (rs + [r])[0] == rs[0] && (rs + [r])[1..] == rs[1..] + [r];
      AfterSnoc(CheckShard(s, capacity, rs[0].identity, limit, rs[0].now).0, capacity, limit, rs[1..], r);
    }
  }

  /** A check moves its identity to the front; a new one in a full shard pushes out the last of the others, and nothing
      else moves. */
  lemma CheckMoves(s: ShardState, capacity: nat, id: string, limit: int, now: real)
    requires capacity > 0 && limit > 0 && ShardOk(s, capacity)
    ensures CheckShard(s, capacity, id, limit, now).0.lru
            == [id] + Others(s.lru, capacity, id)
  {
    hide Refill, Spend;
    if id !in s.lru {
      var kept := Others(s.lru, capacity, id);
      assert Admit(s, capacity, id, limit, now).lru == [id] + kept;
      assert ([id] + kept)[0] == id && ([id] + kept)[1..] == kept;
    }
  }

  /** The other identities that stay, in the order they had. */
  function Others(lru: seq<string>, capacity: nat, id: string): seq<string> {
    if id in lru then Without(lru, id) else if lru != [] && |lru| >= capacity then lru[..|lru| - 1] else lru
  }

  lemma OthersByRank(lru: seq<string>, capacity: nat, id: string, rank: string -> nat)
    requires ByRank(lru, rank)
    ensures ByRank(Others(lru, capacity, id), rank) && id !in Others(lru, capacity, id)
  {
    WithoutByRank(lru, id, rank);
    if lru != [] { PrefixByRank(lru, |lru| - 1, rank); }
    hide Without, ByRank;
  }

  function Sight(rs: seq<Request>): string -> nat { (id: string) => LastSeen(rs, id) }

  lemma FrontIsLatest(kept: seq<string>, rs: seq<Request>, r: Request)
    requires ByRank(kept, Sight(rs)) && r.identity !in kept
    ensures ByRank([r.identity] + kept, Sight(rs + [r]))
  {
    var more := rs + [r];
    assert more[..|rs|] == rs;
    forall id | id in kept ensures LastSeen(more, id) == LastSeen(rs, id) <= |rs| { LastSeenBound(rs, id); }
    assert LastSeen(more, r.identity) == |more|;
    hide LastSeen;
    FrontByRank(kept, r.identity, Sight(rs), Sight(more));
  }

  /** Over any run from an empty shard, what is kept is kept in order of last sight; so an eviction takes the identity
      whose last request is the oldest. */
  lemma {:induction false} EvictionTakesTheOldest(capacity: nat, limit: int, rs: seq<Request>)
    requires capacity > 0 && limit > 0
    ensures var s := After(ShardState([], map[]), capacity, limit, rs);
      ShardOk(s, capacity) && ByRank(s.lru, Sight(rs))
    decreases |rs|
  {
    if rs != [] {
      var front, r := rs[..|rs| - 1], rs[|rs| - 1];
      assert rs == front + [r];
      EvictionTakesTheOldest(capacity, limit, front);
      var s := After(ShardState([], map[]), capacity, limit, front);
      AfterSnoc(ShardState([], map[]), capacity, limit, front, r);
      CheckMoves(s, capacity, r.identity, limit, r.now);
      CheckKeeps(s, capacity, r.identity, limit, r.now);
      hide ShardOk, CheckShard, After, Sight;
      OthersByRank(s.lru, capacity, r.identity, Sight(front));
      hide Others, ByRank;
      FrontIsLatest(Others(s.lru, capacity, r.identity), front, r);
    }
  }
}
