/** The order of an LRU map's keys, most recently used first. */
module Lru {
  function Without<K(==)>(xs: seq<K>, key: K): seq<K> {
    if xs == [] then [] else if xs[0] == key then xs[1..] else [xs[0]] + Without(xs[1..], key)
  }

  lemma {:induction false} WithoutKeeps<K(!new)>(xs: seq<K>, key: K)
    requires forall i, j :: 0 <= i < j < |xs| ==> xs[i] != xs[j]
    ensures |Without(xs, key)| == if key in xs then |xs| - 1 else |xs|
    ensures forall x :: x in Without(xs, key) <==> x in xs && x != key
    ensures forall i, j :: 0 <= i < j < |Without(xs, key)| ==> Without(xs, key)[i] != Without(xs, key)[j]
  {
    if xs != [] {
      WithoutKeeps(xs[1..], key);
      assert xs == [xs[0]] + xs[1..];
      forall x | x in xs[1..] ensures x != xs[0] {
        var i :| 0 <= i < |xs[1..]| && xs[1..][i] == x;
        assert xs[i + 1] == x;
      }
      var rest := Without(xs[1..], key);
      var all := Without(xs, key);
      if xs[0] != key {
        forall i, j | 0 <= i < j < |all| ensures all[i] != all[j] {
          assert all[j] == rest[j - 1];
          if i > 0 { assert all[i] == rest[i - 1]; } else { assert rest[j - 1] in rest; }
        }
      }
    }
  }

  // ---- recency ----

  /** Every key has a rank, and the keys come by falling rank. */
  ghost predicate ByRank<K>(xs: seq<K>, rank: K -> nat) {
    && (forall i :: 0 <= i < |xs| ==> rank(xs[i]) > 0)
    && (forall i, j :: 0 <= i < j < |xs| ==> rank(xs[i]) > rank(xs[j]))
  }

  lemma {:induction false} WithoutByRank<K(!new)>(xs: seq<K>, key: K, rank: K -> nat)
    requires ByRank(xs, rank)
    ensures ByRank(Without(xs, key), rank)
    ensures forall x :: x in Without(xs, key) <==> x in xs && x != key
  {
    forall i, j | 0 <= i < j < |xs| ensures xs[i] != xs[j] { assert rank(xs[i]) > rank(xs[j]); }
    WithoutKeeps(xs, key);
    if xs != [] {
      assert forall i :: 0 <= i < |xs[1..]| ==> xs[1..][i] == xs[i + 1];
      WithoutByRank(xs[1..], key, rank);
      var rest := Without(xs[1..], key);
      var all := [xs[0]] + rest;
      forall j | 0 < j < |all| ensures rank(all[0]) > rank(all[j]) && rank(all[j]) > 0 {
        assert all[j] in rest;
        var k :| 0 <= k < |xs[1..]| && xs[1..][k] == all[j];
        assert rank(xs[0]) > rank(xs[k + 1]);
      }
    }
  }

  /** A key ranked above all others goes in front. */
  lemma FrontByRank<K(!new)>(kept: seq<K>, key: K, rank: K -> nat, after: K -> nat)
    requires ByRank(kept, rank) && after(key) > 0
    requires forall x :: x in kept ==> after(x) == rank(x) < after(key)
    ensures ByRank([key] + kept, after)
  {
    var all := [key] + kept;
    forall j | 0 < j < |all| ensures all[j] in kept && after(all[j]) == rank(all[j]) < after(key) {
      assert all[j] == kept[j - 1];
    }
  }

  lemma SameByRank<K(!new)>(xs: seq<K>, rank: K -> nat, after: K -> nat)
    requires ByRank(xs, rank) && forall x :: x in xs ==> after(x) == rank(x)
    ensures ByRank(xs, after)
  {
    assert forall i :: 0 <= i < |xs| ==> xs[i] in xs;
  }

  lemma PrefixByRank<K(!new)>(xs: seq<K>, n: nat, rank: K -> nat)
    requires ByRank(xs, rank) && n <= |xs|
    ensures ByRank(xs[..n], rank) && forall x :: x in xs[..n] ==> x in xs
  {
  }
}
