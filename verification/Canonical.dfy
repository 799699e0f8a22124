/** The order of JSON object members never matters, and every encoded map is in canonical order. */
module Canonical {
  import opened Basics
  import opened Json
  import opened ScVal
  import opened Spec
  import opened Encoder
  import opened TypedValues
  import opened TextOrder
  import Decimal
  import EncodeSound
  import Limbs256
  import RoundTrip
  import Sorting

  // ---- canonical JSON: members in key order, at every depth ----

  predicate MemberBefore(a: Member, b: Member) { StrBefore(a.key, b.key) }

  lemma MemberOrder()
    ensures Sorting.WeakOrder(MemberBefore)
  {
    forall x, y: Member | MemberBefore(x, y) ensures !MemberBefore(y, x) { StrAsymmetric(x.key, y.key); }
    forall x, y, z: Member | MemberBefore(x, z) ensures MemberBefore(x, y) || MemberBefore(y, z) {
      StrNegTransitive(x.key, y.key, z.key);
    }
  }

  function Canon(v: Json): Json
    decreases v
  {
    match v
    case Array(items) => Array(CanonAll(items))
    case Object(members) => Object(Sorting.Sort(MemberBefore, CanonMembers(members)))
    case _ => v
  }

  function CanonAll(vs: seq<Json>): (r: seq<Json>)
    ensures |r| == |vs|
    decreases vs
  {
    if vs == [] then [] else [Canon(vs[0])] + CanonAll(vs[1..])
  }

  function CanonMember(m: Member): Member
    decreases m
  {
    Member(m.key, Canon(m.value))
  }

  function CanonMembers(ms: seq<Member>): (r: seq<Member>)
    ensures |r| == |ms| && forall i :: 0 <= i < |r| ==> r[i].key == ms[i].key
    decreases ms
  {
    if ms == [] then [] else [CanonMember(ms[0])] + CanonMembers(ms[1..])
  }

  /** Keys are distinct in every object, as in any value `serde_json` holds. */
  ghost predicate DistinctDeep(v: Json)
    decreases v
  {
    match v
    case Array(items) => forall i :: 0 <= i < |items| ==> DistinctDeep(items[i])
    case Object(members) => DistinctKeys(members) && forall i :: 0 <= i < |members| ==> DistinctMember(members[i])
    case _ => true
  }

  ghost predicate DistinctMember(m: Member)
    decreases m
  {
    DistinctDeep(m.value)
  }

  // ---- encoding sees only the canonical form ----

  ghost predicate SameOutcome<T(!new)>(a: Result<T, ArgError>, b: Result<T, ArgError>) {
    a.Ok? == b.Ok? && (a.Ok? ==> a.value == b.value)
  }

  /** Entry sequences that agree up to order, or both failed. */
  ghost predicate SameEntries(a: Result<seq<Entry>, ArgError>, b: Result<seq<Entry>, ArgError>) {
    a.Ok? == b.Ok? && (a.Ok? ==> multiset(a.value) == multiset(b.value))
  }

  lemma {:induction false} EncodeCanon(v: Json, ty: TypeDef, spec: ContractSpec, keys: Strkey)
    requires DistinctDeep(v)
    ensures SameOutcome(Encode(Canon(v), ty, spec, keys), Encode(v, ty, spec, keys))
    decreases Size(v), 2, ty
  {
    hide UdtOf, EncodeScalar, EncodeEach, EncodeEntries, EncodeFields, EncodeUnion, EncodeEnum, MapOf, VecOf;
    hide DistinctDeep, Sorting.Sort;
    match ty
    case TOption(t) => EncodeCanon(v, t, spec, keys);
    case TVec(t) => if v.Array? { PositionalCanon(v, Repeat(t, |v.items|), spec, keys); }
    case TTuple(ts) => PositionalCanon(v, ts, spec, keys);
    case TMap(k, t) => if v.Object? { MapCanon(v, k, t, spec, keys); }
    case TUdt(name) =>
      match UdtOf(spec, name) {
        case Some(StructDef(s)) =>
          PositionalCanon(v, FieldTypes(s.fields), spec, keys);
          if v.Object? { StructCanon(v, s.fields, spec, keys); }
        case Some(EnumDef(e)) => EnumCanon(v, e);
        case Some(UnionDef(u)) => UnionCanon(v, u, spec, keys);
        case None =>
      }
    case _ => ScalarCanon(v, ty, keys);
  }

  lemma ScalarCanon(v: Json, ty: TypeDef, keys: Strkey)
    ensures SameOutcome(EncodeScalar(Canon(v), ty, keys), EncodeScalar(v, ty, keys))
  {
    hide EncodeScalar;
    if v.Array? || v.Object? {
      ScalarRefuses(v, ty, keys);
      ScalarRefuses(Canon(v), ty, keys);
    }
  }

  lemma ScalarRefuses(v: Json, ty: TypeDef, keys: Strkey)
    requires v.Array? || v.Object?
    ensures EncodeScalar(v, ty, keys).Err?
  {
    hide Limbs256.UnsignedOf, Limbs256.SignedOf, Limbs256.LimbsOf, Limbs256.SignedPartsOf, Decimal.ParseInt;
  }

  lemma EnumCanon(v: Json, e: UdtEnum)
    ensures SameOutcome(EncodeEnum(Canon(v), e), EncodeEnum(v, e))
  {
  }

  lemma PositionalCanon(v: Json, ts: seq<TypeDef>, spec: ContractSpec, keys: Strkey)
    requires DistinctDeep(v)
    ensures SameOutcome(EncodePositional(Canon(v), ts, spec, keys), EncodePositional(v, ts, spec, keys))
    decreases Size(v), 1
  {
    if v.Array? && |v.items| == |ts| { EachCanon(v.items, ts, spec, keys); }
  }

  lemma {:induction false} EachCanon(vs: seq<Json>, ts: seq<TypeDef>, spec: ContractSpec, keys: Strkey)
    requires |vs| == |ts| && forall i :: 0 <= i < |vs| ==> DistinctDeep(vs[i])
    ensures SameOutcome(EncodeEach(CanonAll(vs), ts, spec, keys), EncodeEach(vs, ts, spec, keys))
    decreases SizeAll(vs), 0
  {
    hide Encode, Canon, DistinctDeep;
    if vs != [] {
      EncodeCanon(vs[0], ts[0], spec, keys);
      EachCanon(vs[1..], ts[1..], spec, keys);
      assert CanonAll(vs)[1..] == CanonAll(vs[1..]);
    }
  }

  // ---- maps ----

  /** The entry one member encodes to. */
  function EntryOf(m: Member, k: TypeDef, t: TypeDef, spec: ContractSpec, keys: Strkey): Option<Entry> {
    match (Encode(Str(m.key), k, spec, keys), Encode(m.value, t, spec, keys))
    case (Ok(key), Ok(val)) => Some(Entry(key, val))
    case _ => None
  }

  /** Entries encode member by member. */
  ghost predicate ConsOf(all: Result<seq<Entry>, ArgError>, first: Option<Entry>, rest: Result<seq<Entry>, ArgError>) {
    && (all.Ok? <==> first.Some? && rest.Ok?)
    && (all.Ok? ==> all.value == [first.value] + rest.value)
  }

  lemma EntriesUnfold(all: seq<Member>, k: TypeDef, t: TypeDef, spec: ContractSpec, keys: Strkey)
    requires all != []
    ensures ConsOf(EncodeEntries(all, k, t, spec, keys), EntryOf(all[0], k, t, spec, keys),
                   EncodeEntries(all[1..], k, t, spec, keys))
  {
    hide Encode;
  }

  lemma EntriesCons(m: Member, ms: seq<Member>, k: TypeDef, t: TypeDef, spec: ContractSpec, keys: Strkey)
    ensures ConsOf(EncodeEntries([m] + ms, k, t, spec, keys), EntryOf(m, k, t, spec, keys),
                   EncodeEntries(ms, k, t, spec, keys))
  {
    hide EncodeEntries, EntryOf;
    var all := [m] + ms;
    assert all[0] == m && all[1..] == ms;
    EntriesUnfold(all, k, t, spec, keys);
  }

  lemma InsertUnfolds(m: Member, ms: seq<Member>)
    ensures Sorting.Insert(MemberBefore, m, ms)
         == if ms == [] || !MemberBefore(ms[0], m) then [m] + ms else [ms[0]] + Sorting.Insert(MemberBefore, m, ms[1..])
  {
  }

  lemma {:induction false} EntriesOfInsert(m: Member, ms: seq<Member>, k: TypeDef, t: TypeDef, spec: ContractSpec,
                                           keys: Strkey)
    ensures SameEntries(EncodeEntries(Sorting.Insert(MemberBefore, m, ms), k, t, spec, keys),
                        EncodeEntries([m] + ms, k, t, spec, keys))
  {
    hide EncodeEntries, EntryOf, MemberBefore, Sorting.Insert;
    InsertUnfolds(m, ms);
    if ms != [] && MemberBefore(ms[0], m) {
      var rest := ms[1..];
      EntriesOfInsert(m, rest, k, t, spec, keys);
      EntriesCons(ms[0], Sorting.Insert(MemberBefore, m, rest), k, t, spec, keys);
      EntriesCons(m, ms, k, t, spec, keys);
      EntriesCons(m, rest, k, t, spec, keys);
      assert ms == [ms[0]] + rest;
      EntriesCons(ms[0], rest, k, t, spec, keys);
    }
  }

  lemma {:induction false} EntriesOfSort(ms: seq<Member>, k: TypeDef, t: TypeDef, spec: ContractSpec, keys: Strkey)
    ensures SameEntries(EncodeEntries(Sorting.Sort(MemberBefore, ms), k, t, spec, keys),
                        EncodeEntries(ms, k, t, spec, keys))
  {
    hide EncodeEntries, EntryOf, MemberBefore, Sorting.Insert;
    if ms != [] {
      var sorted := Sorting.Sort(MemberBefore, ms[1..]);
      EntriesOfSort(ms[1..], k, t, spec, keys);
      EntriesOfInsert(ms[0], sorted, k, t, spec, keys);
      EntriesCons(ms[0], sorted, k, t, spec, keys);
      assert ms == [ms[0]] + ms[1..];
      EntriesCons(ms[0], ms[1..], k, t, spec, keys);
    }
  }

  lemma {:induction false} EntriesOfCanon(ms: seq<Member>, k: TypeDef, t: TypeDef, spec: ContractSpec, keys: Strkey)
    requires forall i :: 0 <= i < |ms| ==> DistinctMember(ms[i])
    ensures SameOutcome(EncodeEntries(CanonMembers(ms), k, t, spec, keys), EncodeEntries(ms, k, t, spec, keys))
    decreases SizeMembers(ms), 0
  {
    hide Encode, Canon, DistinctDeep;
    if ms != [] {
      EncodeCanon(ms[0].value, t, spec, keys);
      EntriesOfCanon(ms[1..], k, t, spec, keys);
      assert CanonMembers(ms)[1..] == CanonMembers(ms[1..]);
    }
  }

  /** Sorting and checking a map depends on its entries only up to order. */
  lemma MapOfSame(a: Result<seq<Entry>, ArgError>, b: Result<seq<Entry>, ArgError>)
    requires SameEntries(a, b)
    ensures SameOutcome(MapOf(a, true), MapOf(b, true))
  {
    if a.Ok? {
      EncodeSound.KeyOrder();
      Sorting.SortLength(KeyBefore, a.value);
      Sorting.SortLength(KeyBefore, b.value);
      assert |multiset(a.value)| == |multiset(b.value)|;
      if NoAdjacentDuplicate(Sorting.Sort(KeyBefore, a.value)) {
        EncodeSound.NoDuplicateStrict(a.value);
        Sorting.SortPermutation(KeyBefore, a.value, b.value);
      } else if NoAdjacentDuplicate(Sorting.Sort(KeyBefore, b.value)) {
        EncodeSound.NoDuplicateStrict(b.value);
        Sorting.SortPermutation(KeyBefore, b.value, a.value);
      }
    }
  }

  lemma MapCanon(v: Json, k: TypeDef, t: TypeDef, spec: ContractSpec, keys: Strkey)
    requires v.Object? && DistinctDeep(v)
    ensures SameOutcome(Encode(Canon(v), TMap(k, t), spec, keys), Encode(v, TMap(k, t), spec, keys))
    decreases Size(v), 1
  {
    hide EncodeEntries, MapOf, Sorting.Sort;
    EntriesOfCanon(v.members, k, t, spec, keys);
    EntriesOfSort(CanonMembers(v.members), k, t, spec, keys);
    MapOfSame(EncodeEntries(Canon(v).members, k, t, spec, keys), EncodeEntries(v.members, k, t, spec, keys));
  }

  // ---- structs and unions ----

  lemma KeysPermuted(ms: seq<Member>, ns: seq<Member>, key: string)
    requires multiset(ms) == multiset(ns) && key in Keys(ms)
    ensures exists i, j :: 0 <= i < |ms| && 0 <= j < |ns| && ms[i].key == key && ns[j] == ms[i]
  {
    var i :| 0 <= i < |ms| && ms[i].key == key;
    assert ms[i] in multiset(ns);
  }

  lemma GetPermuted(ms: seq<Member>, ns: seq<Member>, key: string)
    requires DistinctKeys(ms) && DistinctKeys(ns) && multiset(ms) == multiset(ns)
    ensures Get(ms, key) == Get(ns, key)
  {
    if key in Keys(ms) {
      KeysPermuted(ms, ns, key);
      var i, j :| 0 <= i < |ms| && 0 <= j < |ns| && ms[i].key == key && ns[j] == ms[i];
      GetAt(ms, i);
      GetAt(ns, j);
    } else {
      assert key !in Keys(ns) by {
        if key in Keys(ns) { KeysPermuted(ns, ms, key); }
      }
    }
  }

  lemma DistinctPermuted(ms: seq<Member>, ns: seq<Member>)
    requires DistinctKeys(ms) && multiset(ms) == multiset(ns)
    ensures DistinctKeys(ns)
  {
    forall i, j | 0 <= i < j < |ns| ensures ns[i].key != ns[j].key {
      var k, l := Sorting.PairInPermutation(ms, ns, i, j);
    }
  }

  lemma {:induction false} GetCanon(ms: seq<Member>, key: string)
    ensures Get(CanonMembers(ms), key)
            == match Get(ms, key) case Some(v) => Some(Canon(v)) case None => None
  {
    if ms != [] { GetCanon(ms[1..], key); }
  }

  lemma {:induction false} GetDistinct(ms: seq<Member>, key: string)
    requires forall i :: 0 <= i < |ms| ==> DistinctMember(ms[i])
    ensures Get(ms, key).Some? ==> DistinctDeep(Get(ms, key).value)
  {
    hide DistinctDeep;
    if ms != [] { assert DistinctMember(ms[0]); GetDistinct(ms[1..], key); }
  }

  lemma StructCanon(v: Json, fields: seq<Field>, spec: ContractSpec, keys: Strkey)
    requires v.Object? && DistinctDeep(v)
    ensures Canon(v).Object?
    ensures SameOutcome(MapOf(EncodeFields(Canon(v).members, fields, spec, keys), false),
                        MapOf(EncodeFields(v.members, fields, spec, keys), false))
    decreases Size(v), 1
  {
    hide EncodeFields, Sorting.Sort;
    var ms, ns := CanonMembers(v.members), Canon(v).members;
    DistinctPermuted(ms, ns);
    forall key: string ensures Get(ns, key) == Get(ms, key) { GetPermuted(ms, ns, key); }
    FieldsCanon(v.members, ns, fields, spec, keys);
  }

  lemma {:induction false} FieldsCanon(ms: seq<Member>, ns: seq<Member>, fields: seq<Field>, spec: ContractSpec,
                                       keys: Strkey)
    requires forall i :: 0 <= i < |ms| ==> DistinctMember(ms[i])
    requires forall key: string :: Get(ns, key) == Get(CanonMembers(ms), key)
    ensures SameOutcome(EncodeFields(ns, fields, spec, keys), EncodeFields(ms, fields, spec, keys))
    decreases SizeMembers(ms), 0, |fields|
  {
    hide Encode, Get, CanonMembers, Canon, DistinctDeep, DistinctMember;
    if fields != [] {
      var name := fields[0].name;
      GetCanon(ms, name);
      GetDistinct(ms, name);
      if Get(ms, name).Some? { EncodeCanon(Get(ms, name).value, fields[0].ty, spec, keys); }
      FieldsCanon(ms, ns, fields[1..], spec, keys);
    }
  }

  lemma UnionCanon(v: Json, u: UdtUnion, spec: ContractSpec, keys: Strkey)
    requires DistinctDeep(v)
    ensures SameOutcome(EncodeUnion(Canon(v), u, spec, keys), EncodeUnion(v, u, spec, keys))
    decreases Size(v), 1
  {
    if v.Object? {
      Sorting.SortLength(MemberBefore, CanonMembers(v.members));
      if |v.members| == 1 {
        SingleMember(v);
        assert DistinctMember(v.members[0]);
        hide DistinctDeep, Sorting.Sort, CanonMembers;
        TaggedCanon(v.members, u, spec, keys);
      }
    }
  }

  /** The case that the single member of an object names. */
  lemma TaggedCanon(ms: seq<Member>, u: UdtUnion, spec: ContractSpec, keys: Strkey)
    requires |ms| == 1 && DistinctDeep(ms[0].value)
    ensures SameOutcome(EncodeUnion(Object([CanonMember(ms[0])]), u, spec, keys),
                        EncodeUnion(Object(ms), u, spec, keys))
    decreases Size(Object(ms)), 0
  {
    hide Find, EncodeEach, DistinctDeep;
    var val := ms[0].value;
    CaseValuesSmaller(ms);
    match Find(UnionCaseName, u.cases, ms[0].key)
    case None =>
    case Some(c) =>
      CaseValuesCanon(val);
      if |CaseValues(val)| == |c.tys| { EachCanon(CaseValues(val), c.tys, spec, keys); }
  }

  lemma SingleMember(v: Json)
    requires v.Object? && |v.members| == 1
    ensures Canon(v).members == [CanonMember(v.members[0])]
  {
    var ms := CanonMembers(v.members);
    assert ms == [CanonMember(v.members[0])];
    assert Sorting.Sort(MemberBefore, ms[1..]) == [];
  }

  lemma CaseValuesCanon(val: Json)
    requires DistinctDeep(val)
    ensures CaseValues(Canon(val)) == CanonAll(CaseValues(val))
    ensures Canon(val).Null? == val.Null? && Canon(val).Array? == val.Array?
    ensures forall i :: 0 <= i < |CaseValues(val)| ==> DistinctDeep(CaseValues(val)[i])
  {
    assert !val.Array? ==> CanonAll([val]) == [Canon(val)] + CanonAll([val][1..]);
  }

  // ---- equality up to the order of members ----

  /** Canonical forms agree exactly when the values are the same up to the order of members. */
  lemma {:induction false} CanonIffSame(v: Json, w: Json)
    requires DistinctDeep(v) && DistinctDeep(w)
    ensures Canon(v) == Canon(w) <==> SameJson(v, w)
    decreases v, 2
  {
    if v.Array? && w.Array? {
      ArraysSame(v, w);
    } else if v.Object? && w.Object? {
      ObjectsSame(v, w);
    }
  }

  lemma ArraysSame(v: Json, w: Json)
    requires DistinctDeep(v) && DistinctDeep(w) && v.Array? && w.Array?
    ensures Canon(v) == Canon(w) <==> SameJson(v, w)
    decreases v, 0
  {
    var xs, ys := v.items, w.items;
    CanonAllAt(xs);
    CanonAllAt(ys);
    if |xs| == |ys| {
      forall i | 0 <= i < |xs| ensures Canon(xs[i]) == Canon(ys[i]) <==> SameJson(xs[i], ys[i]) {
        CanonIffSame(xs[i], ys[i]);
      }
      hide Canon, SameJson;
      assert CanonAll(xs) == CanonAll(ys) <==> forall i :: 0 <= i < |xs| ==> SameJson(xs[i], ys[i]);
    }
  }

  lemma ObjectsSame(v: Json, w: Json)
    requires DistinctDeep(v) && DistinctDeep(w) && v.Object? && w.Object?
    ensures Canon(v) == Canon(w) <==> SameJson(v, w)
    decreases v, 1
  {
    var ms, ns := v.members, w.members;
    MembersSame(v, w);
    hide DistinctMember, CanonMember, CanonMembers, SameMember, Sorting.Sort;
    SortedIffSame(CanonMembers(ms), CanonMembers(ns));
  }

  lemma MembersSame(v: Json, w: Json)
    requires DistinctDeep(v) && DistinctDeep(w) && v.Object? && w.Object?
    ensures Drawn(CanonMembers(v.members), CanonMembers(w.members))
      <==> forall i :: 0 <= i < |v.members| ==> Matched(v.members[i], w.members)
    decreases v, 0
  {
    var ms, ns := v.members, w.members;
    forall i, j | 0 <= i < |ms| && 0 <= j < |ns|
      ensures CanonMember(ms[i]) == CanonMember(ns[j]) <==> SameMember(ms[i], ns[j])
    {
      assert DistinctMember(ms[i]) && DistinctMember(ns[j]);
      CanonIffSame(ms[i].value, ns[j].value);
    }
    hide DistinctDeep, DistinctMember, CanonMember, CanonMembers, SameMember;
    MembersFound(ms, ns);
  }

  lemma MembersFound(ms: seq<Member>, ns: seq<Member>)
    requires forall i, j :: 0 <= i < |ms| && 0 <= j < |ns| ==>
             (CanonMember(ms[i]) == CanonMember(ns[j]) <==> SameMember(ms[i], ns[j]))
    ensures Drawn(CanonMembers(ms), CanonMembers(ns)) <==> forall i :: 0 <= i < |ms| ==> Matched(ms[i], ns)
  {
    CanonMembersAt(ms);
    CanonMembersAt(ns);
    hide CanonMember, CanonMembers, SameMember;
    var cs, ds := CanonMembers(ms), CanonMembers(ns);
    forall i | 0 <= i < |ms| ensures cs[i] in ds <==> Matched(ms[i], ns) {
      if Matched(ms[i], ns) {
        var j :| 0 <= j < |ns| && SameMember(ms[i], ns[j]);
        assert ds[j] == cs[i];
      }
      if cs[i] in ds {
        var j :| 0 <= j < |ds| && ds[j] == cs[i];
        assert SameMember(ms[i], ns[j]);
      }
    }
    hide Matched;
    if forall i :: 0 <= i < |ms| ==> Matched(ms[i], ns) {
      forall i | 0 <= i < |cs| ensures cs[i] in ds { assert Matched(ms[i], ns); }
    }
    if Drawn(cs, ds) {
      forall i | 0 <= i < |ms| ensures Matched(ms[i], ns) { assert cs[i] in ds; }
    }
  }

  ghost predicate Drawn(ms: seq<Member>, ns: seq<Member>) { forall i :: 0 <= i < |ms| ==> ms[i] in ns }

  lemma {:induction false} CanonAllAt(vs: seq<Json>)
    ensures forall i :: 0 <= i < |vs| ==> CanonAll(vs)[i] == Canon(vs[i])
  {
    if vs != [] { CanonAllAt(vs[1..]); }
  }

  lemma {:induction false} CanonMembersAt(ms: seq<Member>)
    ensures forall i :: 0 <= i < |ms| ==> CanonMembers(ms)[i] == CanonMember(ms[i])
  {
    if ms != [] { CanonMembersAt(ms[1..]); }
  }

  /** Members with distinct keys sort to the same sequence exactly when one holds the other's members. */
  lemma SortedIffSame(ms: seq<Member>, ns: seq<Member>)
    requires DistinctKeys(ms) && DistinctKeys(ns)
    ensures Sorting.Sort(MemberBefore, ms) == Sorting.Sort(MemberBefore, ns)
      <==> |ms| == |ns| && Drawn(ms, ns)
  {
    hide Sorting.Sort;
    MemberOrder();
    if Sorting.Sort(MemberBefore, ms) == Sorting.Sort(MemberBefore, ns) {
      assert |multiset(ms)| == |ms| && |multiset(ns)| == |ns|;
      forall i | 0 <= i < |ms| ensures ms[i] in ns { assert ms[i] in multiset(ns); }
    }
    if |ms| == |ns| && Drawn(ms, ns) {
      Sorting.DrawnIsPermutation(ms, ns);
      SortedByKey(ms);
      Sorting.SortPermutation(MemberBefore, ms, ns);
    }
  }

  lemma SortedByKey(ms: seq<Member>)
    requires DistinctKeys(ms)
    ensures Sorting.StrictlySorted(MemberBefore, Sorting.Sort(MemberBefore, ms))
  {
    hide Sorting.Sort;
    var s := Sorting.Sort(MemberBefore, ms);
    MemberOrder();
    Sorting.SortSorted(MemberBefore, ms);
    DistinctPermuted(ms, s);
    forall i, j | 0 <= i < j < |s| ensures MemberBefore(s[i], s[j]) { StrConnected(s[i].key, s[j].key); }
  }

  /** JSON values equal up to the order of object members encode alike: same value, or both rejected. */
  lemma EncodingIgnoresMemberOrder(v: Json, w: Json, ty: TypeDef, spec: ContractSpec, keys: Strkey)
    requires DistinctDeep(v) && DistinctDeep(w) && SameJson(v, w)
    ensures SameOutcome(Encode(v, ty, spec, keys), Encode(w, ty, spec, keys))
  {
    hide Encode;
    CanonIffSame(v, w);
    EncodeCanon(v, ty, spec, keys);
    EncodeCanon(w, ty, spec, keys);
  }

  // ---- every map of an encoded argument is strictly sorted ----

  ghost predicate MapsSorted(sv: ScVal)
    decreases sv
  {
    match sv
    case ScvVec(items) => forall i :: 0 <= i < |items| ==> MapsSorted(items[i])
    case ScvMap(entries) =>
      Sorting.StrictlySorted(KeyBefore, entries) && forall i :: 0 <= i < |entries| ==> EntrySorted(entries[i])
    case _ => true
  }

  ghost predicate EntrySorted(e: Entry)
    decreases e
  {
    MapsSorted(e.key) && MapsSorted(e.val)
  }

  lemma {:induction false} TypedMapsSorted(sv: ScVal, ty: TypeDef, spec: ContractSpec)
    requires WellFormedTypes(spec) && WellTyped(sv, ty, spec)
    ensures MapsSorted(sv)
    decreases sv, 1, ty
  {
    match ty
    case TOption(t) => if !sv.ScvVoid? { TypedMapsSorted(sv, t, spec); }
    case TVec(t) => ItemsSorted(sv, Repeat(t, |sv.items|), spec);
    case TTuple(ts) => ItemsSorted(sv, ts, spec);
    case TMap(k, t) =>
      forall i | 0 <= i < |sv.entries| ensures EntrySorted(sv.entries[i]) {
        assert EntryTyped(sv.entries[i], k, t, spec);
        EntryIsSorted(sv.entries[i], k, t, spec);
      }
    case TUdt(name) =>
      match UdtOf(spec, name) {
        case Some(StructDef(s)) =>
          if IsTupleStruct(s) {
            ItemsSorted(sv, FieldTypes(s.fields), spec);
          } else {
            StructSorted(sv, s, spec);
          }
        case Some(EnumDef(e)) =>
        case Some(UnionDef(u)) => UnionSorted(sv, u, spec);
      }
    case _ =>
  }

  lemma ItemsSorted(sv: ScVal, ts: seq<TypeDef>, spec: ContractSpec)
    requires WellFormedTypes(spec) && TypedPositional(sv, ts, spec)
    ensures MapsSorted(sv)
    decreases sv, 0
  {
    forall i | 0 <= i < |sv.items| ensures MapsSorted(sv.items[i]) { TypedMapsSorted(sv.items[i], ts[i], spec); }
  }

  lemma EntryIsSorted(e: Entry, k: TypeDef, t: TypeDef, spec: ContractSpec)
    requires WellFormedTypes(spec) && EntryTyped(e, k, t, spec)
    ensures EntrySorted(e)
    decreases e
  {
    TypedMapsSorted(e.key, k, spec);
    TypedMapsSorted(e.val, t, spec);
  }

  lemma UnionSorted(sv: ScVal, u: UdtUnion, spec: ContractSpec)
    requires WellFormedTypes(spec) && UnionTyped(sv, u, spec)
    ensures MapsSorted(sv)
    decreases sv, 0
  {
    var c :| c in u.cases && Find(UnionCaseName, u.cases, c.name) == Some(c) && SymbolNamed(sv.items[0], c.name)
      && |sv.items| == 1 + |c.tys|
      && forall i :: 0 <= i < |c.tys| ==> WellTyped(sv.items[i + 1], c.tys[i], spec);
    forall i | 0 <= i < |sv.items| ensures MapsSorted(sv.items[i]) {
      if i > 0 { TypedMapsSorted(sv.items[i - 1 + 1], c.tys[i - 1], spec); }
    }
  }

  lemma StructSorted(sv: ScVal, s: UdtStruct, spec: ContractSpec)
    requires WellFormedTypes(spec) && DistinctNames(FieldName, s.fields)
    requires sv.ScvMap? && CanonicalEntries(sv.entries) && |sv.entries| == |s.fields| && FieldsTyped(sv, s.fields, spec)
    ensures MapsSorted(sv)
    decreases sv, 0
  {
    var d := RoundTrip.DeclarationOrder(sv, s.fields, spec);
    RoundTrip.DeclarationOrderPermutes(d, sv, s.fields, spec);
    forall j | 0 <= j < |sv.entries| ensures EntrySorted(sv.entries[j]) {
      assert sv.entries[j] in multiset(d);
      var i :| 0 <= i < |d| && d[i] == sv.entries[j];
      assert EncodeSound.DeclaredEntry(d[i], s.fields[i], spec);
      TypedMapsSorted(sv.entries[j].val, s.fields[i].ty, spec);
    }
  }

  /** Whatever order the JSON keys and the declared fields came in. */
  lemma EncodedMapsAreSorted(v: Json, ty: TypeDef, spec: ContractSpec, keys: Strkey)
    requires Sane(spec, keys) && Encode(v, ty, spec, keys).Ok?
    ensures MapsSorted(Encode(v, ty, spec, keys).value)
  {
    EncodeSound.EncodeSound(v, ty, spec, keys);
    TypedMapsSorted(Encode(v, ty, spec, keys).value, ty, spec);
  }
}
