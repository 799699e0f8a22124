/** A stable sort, and the facts that make its result canonical. */
module Sorting {
  /** A strict weak order: what `sort_by` needs of its comparison. */
  ghost predicate WeakOrder<T(!new)>(lt: (T, T) -> bool) {
    && (forall x, y :: lt(x, y) ==> !lt(y, x))
    && (forall x, y, z :: lt(x, z) ==> lt(x, y) || lt(y, z))
  }

  ghost predicate Sorted<T>(lt: (T, T) -> bool, s: seq<T>) {
    forall i, j :: 0 <= i < j < |s| ==> !lt(s[j], s[i])
  }

  ghost predicate StrictlySorted<T>(lt: (T, T) -> bool, s: seq<T>) {
    forall i, j :: 0 <= i < j < |s| ==> lt(s[i], s[j])
  }

  function Insert<T>(lt: (T, T) -> bool, x: T, s: seq<T>): (r: seq<T>)
    ensures multiset(r) == multiset(s) + multiset{x}
  {
    if s == [] || !lt(s[0], x) then [x] + s
    else
      var r := [s[0]] + Insert(lt, x, s[1..]);
      assert s == [s[0]] + s[1..];
      r
  }

  function Sort<T>(lt: (T, T) -> bool, s: seq<T>): (r: seq<T>)
    ensures multiset(r) == multiset(s)
  {
    if s == [] then []
    else
      assert s == [s[0]] + s[1..];
      Insert(lt, s[0], Sort(lt, s[1..]))
  }

  lemma SortLength<T>(lt: (T, T) -> bool, s: seq<T>)
    ensures |Sort(lt, s)| == |s|
  {
    assert |multiset(Sort(lt, s))| == |multiset(s)|;
  }

  lemma {:induction false} InsertSorted<T(!new)>(lt: (T, T) -> bool, x: T, s: seq<T>)
    requires WeakOrder(lt) && Sorted(lt, s)
    ensures Sorted(lt, Insert(lt, x, s))
  {
    if s == [] {
    } else if lt(s[0], x) {
      var rest := Insert(lt, x, s[1..]);
      InsertSorted(lt, x, s[1..]);
      forall j | 0 <= j < |rest| ensures !lt(rest[j], s[0]) {
        assert rest[j] in multiset(rest);
        assert rest[j] == x || rest[j] in s[1..];
      }
    } else {
      forall j | 0 <= j < |s| ensures !lt(s[j], x) {
        var head, y := s[0], s[j];
        assert lt(y, x) ==> lt(y, head) || lt(head, x);
      }
    }
  }

  lemma {:induction false} SortSorted<T(!new)>(lt: (T, T) -> bool, s: seq<T>)
    requires WeakOrder(lt)
    ensures Sorted(lt, Sort(lt, s))
  {
    if s != [] {
      SortSorted(lt, s[1..]);
      InsertSorted(lt, s[0], Sort(lt, s[1..]));
    }
  }

  /** A sorted sequence whose neighbours never tie is strictly sorted. */
  lemma {:induction false} NoTiesStrict<T(!new)>(lt: (T, T) -> bool, s: seq<T>)
    requires WeakOrder(lt)
    requires forall i :: 0 <= i < |s| - 1 ==> lt(s[i], s[i + 1])
    ensures StrictlySorted(lt, s)
  {
    if |s| > 1 {
      var t := s[1..];
      forall i | 0 <= i < |t| - 1 ensures lt(t[i], t[i + 1]) { assert lt(s[i + 1], s[i + 1 + 1]); }
      NoTiesStrict(lt, t);
      assert lt(s[0], s[0 + 1]);
      forall j | 1 <= j < |s| ensures lt(s[0], s[j]) {
        if j > 1 {
          assert lt(t[0], t[j - 1]);
          var y, z := s[1], t[j - 1];
          assert lt(s[0], y) ==> lt(s[0], z) || lt(z, y);
        }
      }
      forall i, j | 0 <= i < j < |s| ensures lt(s[i], s[j]) {
        if i > 0 { assert lt(t[i - 1], t[j - 1]); }
      }
    }
  }

  lemma {:induction false} SortStrict<T(!new)>(lt: (T, T) -> bool, s: seq<T>)
    requires WeakOrder(lt) && StrictlySorted(lt, s)
    ensures Sort(lt, s) == s
  {
    if s != [] {
      var rest := s[1..];
      StrictRest(lt, s);
      SortStrict(lt, rest);
      hide Sort;
      InsertsFirst(lt, s[0], rest);
      assert s == [s[0]] + rest;
      SortUnfolds(lt, s);
    }
  }

  lemma SortUnfolds<T>(lt: (T, T) -> bool, s: seq<T>)
    requires s != []
    ensures Sort(lt, s) == Insert(lt, s[0], Sort(lt, s[1..]))
  {
  }

  lemma InsertsFirst<T>(lt: (T, T) -> bool, x: T, s: seq<T>)
    requires s == [] || !lt(s[0], x)
    ensures Insert(lt, x, s) == [x] + s
  {
  }

  lemma StrictRest<T(!new)>(lt: (T, T) -> bool, s: seq<T>)
    requires WeakOrder(lt) && StrictlySorted(lt, s) && s != []
    ensures StrictlySorted(lt, s[1..]) && (s[1..] == [] || !lt(s[1..][0], s[0]))
  {
    assert forall i :: 0 <= i < |s[1..]| ==> s[1..][i] == s[i + 1];
    if |s| > 1 { assert lt(s[0], s[1]); }
  }

  /** A sequence that sorts without ties is the only sorted arrangement of its elements. */
  lemma {:induction false} StrictUnique<T(!new)>(lt: (T, T) -> bool, a: seq<T>, b: seq<T>)
    requires forall x :: !lt(x, x)
    requires StrictlySorted(lt, a) && Sorted(lt, b)
    requires multiset(a) == multiset(b)
    ensures a == b
  {
    assert |multiset(a)| == |a| && |multiset(b)| == |b|;
    if a != [] {
      HeadsAgree(lt, a, b);
      TailMultiset(a);
      TailMultiset(b);
      StrictUnique(lt, a[1..], b[1..]);
      assert a == [a[0]] + a[1..] && b == [b[0]] + b[1..];
    }
  }

  lemma TailMultiset<T>(s: seq<T>)
    requires s != []
    ensures multiset(s[1..]) == multiset(s) - multiset{s[0]}
  {
    assert s == [s[0]] + s[1..];
  }

  lemma HeadsAgree<T(!new)>(lt: (T, T) -> bool, a: seq<T>, b: seq<T>)
    requires forall x :: !lt(x, x)
    requires StrictlySorted(lt, a) && Sorted(lt, b)
    requires a != [] && b != [] && multiset(a) == multiset(b)
    ensures a[0] == b[0]
  {
    assert a[0] in multiset(b) && b[0] in multiset(a);
    var i :| 0 <= i < |b| && b[i] == a[0];
    var j :| 0 <= j < |a| && a[j] == b[0];
    assert j > 0 ==> lt(a[0], a[j]);
    assert i > 0 ==> !lt(b[i], b[0]);
  }

  /** Sorting a permutation of a tie-free sequence gives the same sequence. */
  lemma SortPermutation<T(!new)>(lt: (T, T) -> bool, a: seq<T>, b: seq<T>)
    requires WeakOrder(lt) && multiset(a) == multiset(b)
    requires StrictlySorted(lt, Sort(lt, a))
    ensures Sort(lt, a) == Sort(lt, b)
  {
    SortSorted(lt, b);
    StrictUnique(lt, Sort(lt, a), Sort(lt, b));
  }

  /** A duplicate-free sequence drawn from another of the same length is a permutation of it. */
  lemma {:induction false} DrawnIsPermutation<T>(a: seq<T>, b: seq<T>)
    requires |a| == |b|
    requires forall i, j :: 0 <= i < j < |a| ==> a[i] != a[j]
    requires forall i :: 0 <= i < |a| ==> a[i] in b
    ensures multiset(a) == multiset(b)
  {
    if a != [] {
      var k :| 0 <= k < |b| && b[k] == a[0];
      var rest := WithoutAt(b, k);
      WithoutAtMultiset(b, k);
      forall i | 0 <= i < |a[1..]| ensures a[1..][i] in rest {
        var m :| 0 <= m < |b| && b[m] == a[i + 1];
        WithoutAtKeeps(b, k, m);
      }
      hide WithoutAt;
      DrawnIsPermutation(a[1..], rest);
      TailMultiset(a);
    }
  }

  /** A sequence without its element at `k`. */
  function WithoutAt<T>(s: seq<T>, k: nat): (r: seq<T>)
    requires k < |s|
    ensures |r| == |s| - 1
  {
    s[..k] + s[k + 1..]
  }

  lemma WithoutAtMultiset<T>(s: seq<T>, k: nat)
    requires k < |s|
    ensures multiset(s) == multiset(WithoutAt(s, k)) + multiset{s[k]}
  {
    assert s == s[..k] + [s[k]] + s[k + 1..];
  }

  lemma WithoutAtKeeps<T>(s: seq<T>, k: nat, m: nat)
    requires k < |s| && m < |s| && m != k
    ensures s[m] in WithoutAt(s, k)
  {
    assert WithoutAt(s, k)[if m < k then m else m - 1] == s[m];
  }

  /** An element of the rest stands at another place of the whole. */
  lemma WithoutAtFrom<T>(s: seq<T>, k: nat, m: nat) returns (l: nat)
    requires k < |s| && m < |s| - 1
    ensures l < |s| && l != k && s[l] == WithoutAt(s, k)[m]
  {
    l := if m < k then m else m + 1;
  }

  /** Any two positions of a permutation are two positions of the original. */
  lemma PairInPermutation<T>(a: seq<T>, b: seq<T>, i: nat, j: nat) returns (k: nat, l: nat)
    requires multiset(a) == multiset(b) && i < j < |b|
    ensures k < |a| && l < |a| && k != l && a[k] == b[i] && a[l] == b[j]
  {
    PairCounted(b, i, j);
    k, l := PairFound(a, b[i], b[j]);
  }

  lemma PairCounted<T>(b: seq<T>, i: nat, j: nat)
    requires i < j < |b|
    ensures multiset{b[i], b[j]} <= multiset(b)
  {
    var head, tail := b[..j], b[j..];
    assert b == head + tail;
    assert head[i] in multiset(head) && tail[0] in multiset(tail);
  }

  lemma PairFound<T>(a: seq<T>, x: T, y: T) returns (k: nat, l: nat)
    requires multiset{x, y} <= multiset(a)
    ensures k < |a| && l < |a| && k != l && a[k] == x && a[l] == y
  {
    assert x in multiset(a);
    k :| 0 <= k < |a| && a[k] == x;
    var rest := WithoutAt(a, k);
    WithoutAtMultiset(a, k);
    hide WithoutAt;
    assert multiset{x, y} == multiset{x} + multiset{y};
    assert y in multiset(rest);
    var m :| 0 <= m < |rest| && rest[m] == y;
    l := WithoutAtFrom(a, k, m);
  }
}
