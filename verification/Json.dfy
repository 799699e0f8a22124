/** JSON values, as `serde_json::Value` holds them. */
module Json {
  import opened Basics

  /** `Int` is an integral number; `Float` keeps the text of any other number.
      An object lists its members in the order they were put in, with distinct keys in any value `serde_json` builds.
      `serde_json` itself keeps them by key and knows no such order: `SameJson` is its equality, `Get` its lookup. */
  datatype Json =
    | Null
    | Bool(flag: bool)
    | Int(n: int)
    | Float(digits: string)
    | Str(text: string)
    | Array(items: seq<Json>)
    | Object(members: seq<Member>)

  datatype Member = Member(key: string, value: Json)

  /** The termination measure of every walk below. A key rewrapped as a string weighs less than its object. */
  function Size(v: Json): (n: nat)
    ensures n >= 1
  {
    match v
    case Array(items) => 1 + SizeAll(items)
    case Object(members) => 1 + SizeMembers(members)
    case _ => 1
  }

  function SizeAll(vs: seq<Json>): nat {
    if vs == [] then 0 else 1 + Size(vs[0]) + SizeAll(vs[1..])
  }

  function SizeMembers(ms: seq<Member>): nat {
    if ms == [] then 0 else 2 + Size(ms[0].value) + SizeMembers(ms[1..])
  }

  /** `Map::get`. */
  function Get(ms: seq<Member>, key: string): (r: Option<Json>)
    ensures r.Some? ==> Size(r.value) < SizeMembers(ms)
    ensures r.Some? <==> key in Keys(ms)
  {
    if ms == [] then None
    else if ms[0].key == key then Some(ms[0].value)
    else Get(ms[1..], key)
  }

  function Keys(ms: seq<Member>): (ks: set<string>) {
    set i | 0 <= i < |ms| :: ms[i].key
  }

  ghost predicate DistinctKeys(ms: seq<Member>) {
    forall i, j :: 0 <= i < j < |ms| ==> ms[i].key != ms[j].key
  }

  /** `Map::insert`: overwrite in place, or append. */
  function Insert(ms: seq<Member>, key: string, value: Json): (r: seq<Member>) {
    if ms == [] then [Member(key, value)]
    else if ms[0].key == key then [Member(key, value)] + ms[1..]
    else [ms[0]] + Insert(ms[1..], key, value)
  }

  lemma {:induction false} KeysOfInsert(ms: seq<Member>, key: string, value: Json)
    ensures Keys(Insert(ms, key, value)) == Keys(ms) + {key}
    ensures |Insert(ms, key, value)| == if key in Keys(ms) then |ms| else |ms| + 1
  {
    var r := Insert(ms, key, value);
    if ms != [] && ms[0].key != key {
      KeysOfInsert(ms[1..], key, value);
      KeysOfCons(ms[0], ms[1..]);
      KeysOfCons(ms[0], Insert(ms[1..], key, value));
      assert ms == [ms[0]] + ms[1..];
    } else if ms != [] {
      KeysOfCons(ms[0], ms[1..]);
      KeysOfCons(r[0], ms[1..]);
      assert ms == [ms[0]] + ms[1..] && r == [r[0]] + ms[1..];
    } else {
      assert r[0].key == key;
    }
  }

  lemma KeysOfCons(m: Member, ms: seq<Member>)
    ensures Keys([m] + ms) == {m.key} + Keys(ms)
  {
    var all := [m] + ms;
    forall k | k in {m.key} + Keys(ms) ensures k in Keys(all) {
      if k == m.key {
        assert all[0].key == k;
      } else {
        var i :| 0 <= i < |ms| && ms[i].key == k;
        assert all[i + 1].key == k;
      }
    }
  }

  lemma {:induction false} InsertFresh(ms: seq<Member>, key: string, value: Json)
    requires key !in Keys(ms)
    ensures Insert(ms, key, value) == ms + [Member(key, value)]
  {
    if ms != [] {
      assert ms[0].key in Keys(ms);
      forall k | k in Keys(ms[1..]) ensures k in Keys(ms) {
        var i :| 0 <= i < |ms[1..]| && ms[1..][i].key == k;
        assert ms[i + 1].key == k;
      }
      InsertFresh(ms[1..], key, value);
    }
  }

  lemma {:induction false} GetAt(ms: seq<Member>, i: nat)
    requires i < |ms| && DistinctKeys(ms)
    ensures Get(ms, ms[i].key) == Some(ms[i].value)
  {
    if i > 0 { GetAt(ms[1..], i - 1); }
  }

  lemma {:induction false} SizeAllAt(vs: seq<Json>, i: nat)
    requires i < |vs|
    ensures Size(vs[i]) < SizeAll(vs)
  {
    if i > 0 { SizeAllAt(vs[1..], i - 1); }
  }

  // ---- equality: objects are maps ----

  /** Equality of JSON values when objects are maps: the same keys, with the same values. */
  ghost predicate SameJson(v: Json, w: Json)
    decreases v
  {
    match (v, w)
    case (Array(xs), Array(ys)) => |xs| == |ys| && forall i :: 0 <= i < |xs| ==> SameJson(xs[i], ys[i])
    case (Object(ms), Object(ns)) =>
      |ms| == |ns| && forall i :: 0 <= i < |ms| ==> Matched(ms[i], ns)
    case _ => v == w
  }

  ghost predicate Matched(m: Member, ns: seq<Member>)
    decreases m, 1
  {
    exists j :: 0 <= j < |ns| && SameMember(m, ns[j])
  }

  ghost predicate SameMember(m: Member, n: Member)
    decreases m, 0
  {
    m.key == n.key && SameJson(m.value, n.value)
  }

  lemma SamePlain(v: Json, w: Json)
    requires SameJson(v, w) && !v.Object? && !v.Array?
    ensures v == w
  {
  }

  lemma SameKind(v: Json, w: Json)
    requires SameJson(v, w)
    ensures v.Object? <==> w.Object?
    ensures v.Array? <==> w.Array?
    ensures v.Object? ==> |v.members| == |w.members|
    ensures v.Array? ==> |v.items| == |w.items|
  {
  }

  /** Where a member of one object stands in another that is the same as a map. */
  lemma FoundIn(ms: seq<Member>, ns: seq<Member>, i: nat) returns (j: nat)
    requires SameJson(Object(ms), Object(ns)) && i < |ms|
    ensures j < |ns| && ns[j].key == ms[i].key && SameJson(ms[i].value, ns[j].value)
  {
    assert Matched(ms[i], ns);
    j :| 0 <= j < |ns| && SameMember(ms[i], ns[j]);
  }

  /** Two `{key, val}` pairs are the same exactly when keys and values are. */
  lemma SamePair(x: Json, y: Json, x': Json, y': Json)
    ensures SameJson(Object([Member("key", x), Member("val", y)]), Object([Member("key", x'), Member("val", y')]))
            <==> SameJson(x, x') && SameJson(y, y')
  {
    assert "key"[0] != "val"[0];
    var ms, ns := [Member("key", x), Member("val", y)], [Member("key", x'), Member("val", y')];
    if SameJson(Object(ms), Object(ns)) {
      var i := FoundIn(ms, ns, 0);
      var k := FoundIn(ms, ns, 1);
    }
    if SameJson(x, x') && SameJson(y, y') { assert SameMember(ms[0], ns[0]) && SameMember(ms[1], ns[1]); }
  }

  lemma {:induction false} SameAsItself(v: Json)
    ensures SameJson(v, v)
    decreases v
  {
    match v
    case Array(items) => forall i | 0 <= i < |items| ensures SameJson(items[i], items[i]) { SameAsItself(items[i]); }
    case Object(ms) =>
      forall i | 0 <= i < |ms| ensures Matched(ms[i], ms) {
        SameAsItself(ms[i].value);
        assert SameMember(ms[i], ms[i]);
      }
    case _ =>
  }
}
