/** Which contract value a JSON argument stands for, said without an encoder; and that the encoder finds exactly it. */
module Denotation {
  import opened Basics
  import opened Json
  import opened ScVal
  import opened Spec
  import opened Encoder
  import opened TypedValues
  import opened ScalarDenotation
  import EncodeSound
  import Sorting
  import Utf8

  // ---- containers ----

  /** `sv` is what `v` stands for at the type. */
  ghost predicate Denotes(v: Json, ty: TypeDef, sv: ScVal, spec: ContractSpec, keys: Strkey)
    decreases Size(v), 2, ty
  {
    match ty
    case TOption(t) => if v.Null? then sv.ScvVoid? else Denotes(v, t, sv, spec, keys)
    case TVec(t) => DenotesItems(v, if v.Array? then Repeat(t, |v.items|) else [], sv, spec, keys)
    case TTuple(ts) => DenotesItems(v, ts, sv, spec, keys)
    case TMap(k, t) => DenotesMap(v, k, t, sv, spec, keys)
    case TUdt(name) =>
      (match UdtOf(spec, name)
       case Some(StructDef(s)) =>
         if IsTupleStruct(s) then DenotesItems(v, FieldTypes(s.fields), sv, spec, keys)
         else DenotesStruct(v, s, sv, spec, keys)
       case Some(EnumDef(e)) => DenotesEnum(v, e, sv)
       case Some(UnionDef(u)) => exists c :: Declares(u, c) && DenotesCase(v, c, sv, spec, keys)
       case None => false)
    case _ => DenotesScalar(v, ty, sv, keys)
  }

  /** The first case declared under its name. */
  predicate Declares(u: UdtUnion, c: UnionCase) { Find(UnionCaseName, u.cases, c.name) == Some(c) }

  /** An array for a vector, item by item. */
  ghost predicate DenotesItems(v: Json, ts: seq<TypeDef>, sv: ScVal, spec: ContractSpec, keys: Strkey)
    decreases Size(v), 1
  {
    v.Array? && sv.ScvVec? && |sv.items| < TWO_32 && DenotesEach(v.items, ts, sv.items, spec, keys)
  }

  ghost predicate DenotesEach(vs: seq<Json>, ts: seq<TypeDef>, svs: seq<ScVal>, spec: ContractSpec, keys: Strkey)
    decreases SizeAll(vs), 3
  {
    && |vs| == |ts| == |svs|
    && forall i :: 0 <= i < |vs| ==> (SizeAllAt(vs, i); Denotes(vs[i], ts[i], svs[i], spec, keys))
  }

  /** An object for a map: as many entries as members, each the other's, in ascending order of keys. */
  ghost predicate DenotesMap(v: Json, k: TypeDef, t: TypeDef, sv: ScVal, spec: ContractSpec, keys: Strkey)
    decreases Size(v), 1
  {
    && v.Object? && sv.ScvMap? && |sv.entries| == |v.members| < TWO_32
    && Sorting.StrictlySorted(KeyBefore, sv.entries)
    && (forall i :: 0 <= i < |v.members| ==>
          (MemberWeighs(v.members, i); HasEntry(v.members[i], k, t, sv.entries, spec, keys)))
    && (forall j :: 0 <= j < |sv.entries| ==> HasMember(v.members, k, t, sv.entries[j], spec, keys))
  }

  ghost predicate HasEntry(m: Member, k: TypeDef, t: TypeDef, entries: seq<Entry>, spec: ContractSpec, keys: Strkey)
    decreases 1 + Size(m.value), 1
  {
    exists j :: 0 <= j < |entries| && DenotesMember(m, k, t, entries[j], spec, keys)
  }

  ghost predicate HasMember(ms: seq<Member>, k: TypeDef, t: TypeDef, e: Entry, spec: ContractSpec, keys: Strkey)
    decreases SizeMembers(ms), 2
  {
    exists i :: 0 <= i < |ms| && (MemberWeighs(ms, i); DenotesMember(ms[i], k, t, e, spec, keys))
  }

  ghost predicate DenotesMember(m: Member, k: TypeDef, t: TypeDef, e: Entry, spec: ContractSpec, keys: Strkey)
    decreases 1 + Size(m.value), 0
  {
    Denotes(Str(m.key), k, e.key, spec, keys) && Denotes(m.value, t, e.val, spec, keys)
  }

  lemma {:induction false} MemberWeighs(ms: seq<Member>, i: nat)
    requires i < |ms|
    ensures Size(ms[i].value) < SizeMembers(ms) && Size(Str(ms[i].key)) < SizeMembers(ms)
  {
    if i > 0 { MemberWeighs(ms[1..], i - 1); }
  }

  /** An object for a struct: one entry a field, under the field's symbol, in ascending order of symbols. */
  ghost predicate DenotesStruct(v: Json, s: UdtStruct, sv: ScVal, spec: ContractSpec, keys: Strkey)
    decreases Size(v), 1
  {
    && v.Object? && sv.ScvMap? && |sv.entries| == |s.fields| < TWO_32
    && Sorting.StrictlySorted(KeyBefore, sv.entries)
    && forall i :: 0 <= i < |s.fields| ==> HasField(v.members, s.fields[i], sv.entries, spec, keys)
  }

  ghost predicate HasField(ms: seq<Member>, f: Field, entries: seq<Entry>, spec: ContractSpec, keys: Strkey)
    decreases SizeMembers(ms), 2
  {
    exists j :: 0 <= j < |entries| && DenotesField(ms, f, entries[j], spec, keys)
  }

  ghost predicate DenotesField(ms: seq<Member>, f: Field, e: Entry, spec: ContractSpec, keys: Strkey)
    decreases SizeMembers(ms), 1
  {
    && SymbolNamed(e.key, f.name) && Get(ms, f.name).Some?
    && Denotes(Get(ms, f.name).value, f.ty, e.val, spec, keys)
  }

  /** A declared case's name, or a declared discriminant. */
  ghost predicate DenotesEnum(v: Json, e: UdtEnum, sv: ScVal) {
    && sv.ScvU32? && 0 <= sv.n < TWO_32
    && exists c :: c in e.cases && c.value == sv.n && (v == Str(c.name) || v == Int(c.value))
  }

  /** The case's symbol, alone for a void case, which is written as its name or over null; otherwise before the
      payload, which may drop its brackets when it is one value and no array. */
  ghost predicate DenotesCase(v: Json, c: UnionCase, sv: ScVal, spec: ContractSpec, keys: Strkey)
    decreases Size(v), 1
  {
    && sv.ScvVec? && 0 < |sv.items| < TWO_32 && SymbolNamed(sv.items[0], c.name)
    && if c.tys == [] then |sv.items| == 1 && (v == Str(c.name) || v == Object([Member(c.name, Null)]))
       else
         && v.Object? && |v.members| == 1 && v.members[0].key == c.name
         && var val := v.members[0].value;
         MemberWeighs(v.members, 0);
         if val.Array? then DenotesEach(val.items, c.tys, sv.items[1..], spec, keys)
         else |c.tys| == 1 && |sv.items| == 2 && Denotes(val, c.tys[0], sv.items[1], spec, keys)
  }

  // ---- the encoder finds it ----

  /** An argument encodes to a value if and only if it stands for it. */
  lemma {:induction false} EncodeIff(v: Json, ty: TypeDef, sv: ScVal, spec: ContractSpec, keys: Strkey)
    requires Sane(spec, keys)
    ensures Encode(v, ty, spec, keys) == Ok(sv) <==> Denotes(v, ty, sv, spec, keys)
    decreases Size(v), 3, ty
  {
    hide Sane, Encode, Denotes;
    match ty
    case TOption(t) => OptionIff(v, t, sv, spec, keys);
    case TVec(t) => VecIff(v, t, sv, spec, keys);
    case TTuple(ts) => TupleIff(v, ts, sv, spec, keys);
    case TMap(k, t) => MapIff(v, k, t, sv, spec, keys);
    case TUdt(name) => UdtIff(v, name, sv, spec, keys);
    case _ => PlainIff(v, ty, sv, spec, keys);
  }

  lemma {:induction false} OptionIff(v: Json, t: TypeDef, sv: ScVal, spec: ContractSpec, keys: Strkey)
    requires Sane(spec, keys)
    ensures Encode(v, TOption(t), spec, keys) == Ok(sv) <==> Denotes(v, TOption(t), sv, spec, keys)
    decreases Size(v), 3, TOption(t), 0
  {
    OptionMeans(v, t, sv, spec, keys);
    hide Sane, Encode, Denotes;
    if !v.Null? { EncodeIff(v, t, sv, spec, keys); }
  }

  lemma OptionMeans(v: Json, t: TypeDef, sv: ScVal, spec: ContractSpec, keys: Strkey)
    ensures Encode(v, TOption(t), spec, keys) == if v.Null? then Ok(ScvVoid) else Encode(v, t, spec, keys)
    ensures Denotes(v, TOption(t), sv, spec, keys) <==> if v.Null? then sv.ScvVoid? else Denotes(v, t, sv, spec, keys)
  {
    hide EncodeScalar, EncodePositional, EncodeEach, EncodeEntries, EncodeFields, EncodeEnum, EncodeUnion, MapOf, VecOf;
    hide UdtOf, DenotesScalar, DenotesItems, DenotesMap, DenotesStruct, DenotesEnum, DenotesCase, Declares;
  }

  lemma {:induction false} TupleIff(v: Json, ts: seq<TypeDef>, sv: ScVal, spec: ContractSpec, keys: Strkey)
    requires Sane(spec, keys)
    ensures Encode(v, TTuple(ts), spec, keys) == Ok(sv) <==> Denotes(v, TTuple(ts), sv, spec, keys)
    decreases Size(v), 2
  {
    hide Sane, EncodePositional, DenotesItems;
    PositionalIff(v, ts, sv, spec, keys);
  }

  lemma {:induction false} PlainIff(v: Json, ty: TypeDef, sv: ScVal, spec: ContractSpec, keys: Strkey)
    requires Sane(spec, keys) && !(ty.TOption? || ty.TVec? || ty.TTuple? || ty.TMap? || ty.TUdt?)
    ensures Encode(v, ty, spec, keys) == Ok(sv) <==> Denotes(v, ty, sv, spec, keys)
  {
    FaithfulKeys(spec, keys);
    hide Sane, Faithful, EncodeScalar, DenotesScalar;
    ScalarIff(v, ty, sv, keys);
  }

  lemma {:induction false} FaithfulKeys(spec: ContractSpec, keys: Strkey)
    requires Sane(spec, keys)
    ensures Faithful(keys)
  {
    hide Faithful;
  }

  lemma {:induction false} VecIff(v: Json, t: TypeDef, sv: ScVal, spec: ContractSpec, keys: Strkey)
    requires Sane(spec, keys)
    ensures Encode(v, TVec(t), spec, keys) == Ok(sv) <==> Denotes(v, TVec(t), sv, spec, keys)
    decreases Size(v), 2
  {
    hide Sane, EncodeEach, DenotesEach;
    if v.Array? && sv.ScvVec? { EachIff(v.items, Repeat(t, |v.items|), sv.items, spec, keys); }
  }

  lemma {:induction false} PositionalIff(v: Json, ts: seq<TypeDef>, sv: ScVal, spec: ContractSpec, keys: Strkey)
    requires Sane(spec, keys)
    ensures EncodePositional(v, ts, spec, keys) == Ok(sv) <==> DenotesItems(v, ts, sv, spec, keys)
    decreases Size(v), 1
  {
    hide Sane, EncodeEach;
    if v.Array? && sv.ScvVec? && |v.items| == |ts| {
      EachIff(v.items, ts, sv.items, spec, keys);
      hide DenotesEach;
    }
  }

  lemma {:induction false} EachIff(vs: seq<Json>, ts: seq<TypeDef>, svs: seq<ScVal>, spec: ContractSpec, keys: Strkey)
    requires Sane(spec, keys) && |vs| == |ts|
    ensures EncodeEach(vs, ts, spec, keys) == Ok(svs) <==> DenotesEach(vs, ts, svs, spec, keys)
    decreases SizeAll(vs), 4
  {
    hide Sane, Encode, Denotes;
    if vs != [] && svs != [] {
      EncodeIff(vs[0], ts[0], svs[0], spec, keys);
      EachIff(vs[1..], ts[1..], svs[1..], spec, keys);
      DenotesCons(vs, ts, svs, spec, keys);
      assert svs == [svs[0]] + svs[1..];
      hide DenotesEach;
    }
  }

  lemma {:induction false} DenotesCons(vs: seq<Json>, ts: seq<TypeDef>, svs: seq<ScVal>, spec: ContractSpec,
                                       keys: Strkey)
    requires |vs| == |ts| && vs != [] && svs != []
    ensures DenotesEach(vs, ts, svs, spec, keys) <==>
            Denotes(vs[0], ts[0], svs[0], spec, keys) && DenotesEach(vs[1..], ts[1..], svs[1..], spec, keys)
  {
    hide Denotes;
    if Denotes(vs[0], ts[0], svs[0], spec, keys) && DenotesEach(vs[1..], ts[1..], svs[1..], spec, keys) {
      forall i | 0 <= i < |vs| ensures Denotes(vs[i], ts[i], svs[i], spec, keys) {
        if i > 0 { assert vs[1..][i - 1] == vs[i] && ts[1..][i - 1] == ts[i] && svs[1..][i - 1] == svs[i]; }
      }
    }
    if DenotesEach(vs, ts, svs, spec, keys) {
      forall i | 0 <= i < |vs[1..]| ensures Denotes(vs[1..][i], ts[1..][i], svs[1..][i], spec, keys) {
        assert vs[1..][i] == vs[i + 1] && ts[1..][i] == ts[i + 1] && svs[1..][i] == svs[i + 1];
      }
    }
  }

  // ---- maps ----

  /** Item by item. */
  ghost predicate Pairwise<A, B>(p: (A, B) -> bool, xs: seq<A>, ys: seq<B>) {
    |xs| == |ys| && forall i :: 0 <= i < |xs| ==> p(xs[i], ys[i])
  }

  lemma PairwiseCons<A, B>(p: (A, B) -> bool, xs: seq<A>, ys: seq<B>)
    requires xs != [] && ys != []
    ensures Pairwise(p, xs, ys) <==> p(xs[0], ys[0]) && Pairwise(p, xs[1..], ys[1..])
  {
    if p(xs[0], ys[0]) && Pairwise(p, xs[1..], ys[1..]) {
      forall i | 0 <= i < |xs| ensures p(xs[i], ys[i]) {
        if i > 0 { assert xs[1..][i - 1] == xs[i] && ys[1..][i - 1] == ys[i]; }
      }
    }
  }

  ghost predicate Meets<A, B>(p: (A, B) -> bool, x: A, ys: seq<B>) { exists j :: 0 <= j < |ys| && p(x, ys[j]) }

  ghost predicate Met<A, B>(p: (A, B) -> bool, xs: seq<A>, y: B) { exists i :: 0 <= i < |xs| && p(xs[i], y) }

  /** Each left item has a partner among these, taken in the left order. */
  lemma Partners<A, B>(p: (A, B) -> bool, xs: seq<A>, pool: seq<B>) returns (ys: seq<B>)
    requires forall i :: 0 <= i < |xs| ==> Meets(p, xs[i], pool)
    ensures Pairwise(p, xs, ys) && forall i :: 0 <= i < |ys| ==> ys[i] in pool
  {
    ys := [];
    while |ys| < |xs|
      invariant |ys| <= |xs|
      invariant forall i :: 0 <= i < |ys| ==> p(xs[i], ys[i]) && ys[i] in pool
    {
      assert Meets(p, xs[|ys|], pool);
      var j :| 0 <= j < |pool| && p(xs[|ys|], pool[j]);
      ys := ys + [pool[j]];
    }
  }

  ghost function Pairs(k: TypeDef, t: TypeDef, spec: ContractSpec, keys: Strkey): (Member, Entry) -> bool {
    (m: Member, e: Entry) => DenotesMember(m, k, t, e, spec, keys)
  }

  ghost predicate EachEntry(ms: seq<Member>, k: TypeDef, t: TypeDef, es: seq<Entry>, spec: ContractSpec, keys: Strkey) {
    Pairwise(Pairs(k, t, spec, keys), ms, es)
  }

  lemma {:induction false} EntriesIff(ms: seq<Member>, k: TypeDef, t: TypeDef, es: seq<Entry>, spec: ContractSpec,
                                      keys: Strkey)
    requires Sane(spec, keys)
    ensures EncodeEntries(ms, k, t, spec, keys) == Ok(es) <==> EachEntry(ms, k, t, es, spec, keys)
    decreases SizeMembers(ms), 4
  {
    hide Sane, Encode, DenotesMember, Pairs;
    if ms != [] && es != [] {
      EntriesStep(ms, k, t, es, spec, keys);
      PairsMean(k, t, spec, keys, ms[0], es[0]);
      MemberIff(ms[0], k, t, es[0], spec, keys);
      EntriesIff(ms[1..], k, t, es[1..], spec, keys);
      PairwiseCons(Pairs(k, t, spec, keys), ms, es);
      hide Pairwise, EncodeEntries;
    }
  }

  lemma {:induction false} EntriesStep(ms: seq<Member>, k: TypeDef, t: TypeDef, es: seq<Entry>, spec: ContractSpec,
                                       keys: Strkey)
    requires ms != [] && es != []
    ensures EncodeEntries(ms, k, t, spec, keys) == Ok(es) <==>
            && Encode(Str(ms[0].key), k, spec, keys) == Ok(es[0].key)
            && Encode(ms[0].value, t, spec, keys) == Ok(es[0].val)
            && EncodeEntries(ms[1..], k, t, spec, keys) == Ok(es[1..])
  {
    hide Encode;
    assert es == [Entry(es[0].key, es[0].val)] + es[1..];
  }

  lemma {:induction false} MemberIff(m: Member, k: TypeDef, t: TypeDef, e: Entry, spec: ContractSpec, keys: Strkey)
    requires Sane(spec, keys)
    ensures DenotesMember(m, k, t, e, spec, keys) <==>
            Encode(Str(m.key), k, spec, keys) == Ok(e.key) && Encode(m.value, t, spec, keys) == Ok(e.val)
    decreases 1 + Size(m.value), 0
  {
    hide Sane, Encode, Denotes;
    EncodeIff(Str(m.key), k, e.key, spec, keys);
    EncodeIff(m.value, t, e.val, spec, keys);
  }

  lemma {:induction false} MapIff(v: Json, k: TypeDef, t: TypeDef, sv: ScVal, spec: ContractSpec, keys: Strkey)
    requires Sane(spec, keys)
    ensures Encode(v, TMap(k, t), spec, keys) == Ok(sv) <==> Denotes(v, TMap(k, t), sv, spec, keys)
    decreases Size(v), 2
  {
    hide Sane, EncodeEntries, DenotesMap, MapOf;
    assert Denotes(v, TMap(k, t), sv, spec, keys) == DenotesMap(v, k, t, sv, spec, keys);
    if v.Object? {
      ObjectIff(v, k, t, sv, spec, keys);
    } else {
      NoObject(v, k, t, sv, spec, keys);
    }
  }

  lemma {:induction false} ObjectIff(v: Json, k: TypeDef, t: TypeDef, sv: ScVal, spec: ContractSpec, keys: Strkey)
    requires Sane(spec, keys) && v.Object?
    ensures MapOf(EncodeEntries(v.members, k, t, spec, keys), true) == Ok(sv) <==> DenotesMap(v, k, t, sv, spec, keys)
    decreases Size(v), 1, 1
  {
    hide Sane, EncodeEntries, DenotesMap, MapOf, Encode, Denotes;
    if MapOf(EncodeEntries(v.members, k, t, spec, keys), true) == Ok(sv) { ObjectDenotes(v, k, t, sv, spec, keys); }
    if DenotesMap(v, k, t, sv, spec, keys) { ObjectEncodes(v, k, t, sv, spec, keys); }
  }

  lemma {:induction false} ObjectDenotes(v: Json, k: TypeDef, t: TypeDef, sv: ScVal, spec: ContractSpec, keys: Strkey)
    requires Sane(spec, keys) && v.Object? && MapOf(EncodeEntries(v.members, k, t, spec, keys), true) == Ok(sv)
    ensures DenotesMap(v, k, t, sv, spec, keys)
    decreases Size(v), 1, 0
  {
    hide Sane, EncodeEntries, DenotesMap, MapOf, EachEntry;
    EncodedNotRefused(EncodeEntries(v.members, k, t, spec, keys), true);
    var es := EncodeEntries(v.members, k, t, spec, keys).value;
    EntriesIff(v.members, k, t, es, spec, keys);
    EncodedMapDenotes(v, k, t, es, sv, spec, keys);
  }

  lemma {:induction false} ObjectEncodes(v: Json, k: TypeDef, t: TypeDef, sv: ScVal, spec: ContractSpec, keys: Strkey)
    requires Sane(spec, keys) && v.Object? && DenotesMap(v, k, t, sv, spec, keys)
    ensures MapOf(EncodeEntries(v.members, k, t, spec, keys), true) == Ok(sv)
    decreases Size(v), 1, 0, 1
  {
    hide Sane, EncodeEntries, DenotesMap, MapOf, EachEntry;
    var es := EntriesOf(v, k, t, sv, spec, keys);
    EntriesIff(v.members, k, t, es, spec, keys);
    DenotedMapEncodes(v, k, t, es, sv, spec, keys);
  }

  lemma {:induction false} NoObject(v: Json, k: TypeDef, t: TypeDef, sv: ScVal, spec: ContractSpec, keys: Strkey)
    requires !v.Object?
    ensures !DenotesMap(v, k, t, sv, spec, keys)
  {
  }

  lemma {:induction false} EncodedNotRefused(r: Result<seq<Entry>, ArgError>, reject: bool)
    ensures MapOf(r, reject).Ok? ==> r.Ok?
  {
  }

  lemma {:induction false} EncodedMapDenotes(v: Json, k: TypeDef, t: TypeDef, es: seq<Entry>, sv: ScVal,
                                             spec: ContractSpec, keys: Strkey)
    requires v.Object? && EachEntry(v.members, k, t, es, spec, keys) && MapOf(Ok(es), true) == Ok(sv)
    ensures DenotesMap(v, k, t, sv, spec, keys)
  {
    hide DenotesMember, MapOf, KeyBefore, HasEntry, HasMember, Meets, Met, Pairs;
    MapOfMeans(es, sv);
    EachLength(v.members, k, t, es, spec, keys);
    Permuted(Pairs(k, t, spec, keys), v.members, es, sv.entries);
    hide Pairwise;
    BothWays(v.members, k, t, sv.entries, spec, keys);
  }

  lemma MapOfMeans(es: seq<Entry>, sv: ScVal)
    requires MapOf(Ok(es), true) == Ok(sv)
    ensures sv.ScvMap? && |sv.entries| == |es| < TWO_32 && Sorting.StrictlySorted(KeyBefore, sv.entries)
    ensures forall e :: e in es <==> e in sv.entries
  {
    hide Sorting.Sort;
    Sorting.SortLength(KeyBefore, es);
    EncodeSound.NoDuplicateStrict(es);
    SameElements(es, Sorting.Sort(KeyBefore, es));
    hide KeyBefore, Sorting.StrictlySorted, NoAdjacentDuplicate;
  }

  /** Partners in one order are partners in another. */
  lemma Permuted<A, B>(p: (A, B) -> bool, xs: seq<A>, ys: seq<B>, zs: seq<B>)
    requires Pairwise(p, xs, ys) && forall y :: y in ys <==> y in zs
    ensures forall i :: 0 <= i < |xs| ==> Meets(p, xs[i], zs)
    ensures forall j :: 0 <= j < |zs| ==> Met(p, xs, zs[j])
  {
    forall i | 0 <= i < |xs| ensures Meets(p, xs[i], zs) {
      assert ys[i] in zs;
      var j :| 0 <= j < |zs| && zs[j] == ys[i];
      assert p(xs[i], zs[j]);
    }
    forall j | 0 <= j < |zs| ensures Met(p, xs, zs[j]) {
      assert zs[j] in ys;
      var i :| 0 <= i < |ys| && ys[i] == zs[j];
      assert p(xs[i], zs[j]);
    }
  }

  lemma PairsMean(k: TypeDef, t: TypeDef, spec: ContractSpec, keys: Strkey, m: Member, e: Entry)
    ensures Pairs(k, t, spec, keys)(m, e) == DenotesMember(m, k, t, e, spec, keys)
  {
    hide DenotesMember, Denotes;
  }

  lemma {:induction false} EntryMeets(m: Member, k: TypeDef, t: TypeDef, entries: seq<Entry>, spec: ContractSpec,
                                      keys: Strkey)
    ensures HasEntry(m, k, t, entries, spec, keys) <==> Meets(Pairs(k, t, spec, keys), m, entries)
  {
    forall j | 0 <= j < |entries|
      ensures Pairs(k, t, spec, keys)(m, entries[j]) == DenotesMember(m, k, t, entries[j], spec, keys)
    {
      PairsMean(k, t, spec, keys, m, entries[j]);
    }
    hide DenotesMember, Denotes, Pairs;
  }

  lemma {:induction false} MemberMet(ms: seq<Member>, k: TypeDef, t: TypeDef, e: Entry, spec: ContractSpec,
                                     keys: Strkey)
    ensures HasMember(ms, k, t, e, spec, keys) <==> Met(Pairs(k, t, spec, keys), ms, e)
  {
    forall i | 0 <= i < |ms| ensures Pairs(k, t, spec, keys)(ms[i], e) == DenotesMember(ms[i], k, t, e, spec, keys) {
      PairsMean(k, t, spec, keys, ms[i], e);
    }
    hide DenotesMember, Denotes, Pairs;
  }

  lemma {:induction false} BothWays(ms: seq<Member>, k: TypeDef, t: TypeDef, entries: seq<Entry>, spec: ContractSpec,
                                    keys: Strkey)
    ensures forall i :: 0 <= i < |ms| ==>
              (HasEntry(ms[i], k, t, entries, spec, keys) <==> Meets(Pairs(k, t, spec, keys), ms[i], entries))
    ensures forall j :: 0 <= j < |entries| ==>
              (HasMember(ms, k, t, entries[j], spec, keys) <==> Met(Pairs(k, t, spec, keys), ms, entries[j]))
  {
    hide DenotesMember, HasEntry, HasMember, Meets, Met, Pairs;
    forall i | 0 <= i < |ms|
      ensures HasEntry(ms[i], k, t, entries, spec, keys) <==> Meets(Pairs(k, t, spec, keys), ms[i], entries)
    {
      EntryMeets(ms[i], k, t, entries, spec, keys);
    }
    forall j | 0 <= j < |entries|
      ensures HasMember(ms, k, t, entries[j], spec, keys) <==> Met(Pairs(k, t, spec, keys), ms, entries[j])
    {
      MemberMet(ms, k, t, entries[j], spec, keys);
    }
  }

  lemma {:induction false} SameElements(a: seq<Entry>, b: seq<Entry>)
    requires multiset(a) == multiset(b)
    ensures forall e :: e in a <==> e in b
  {
    assert forall e :: e in a <==> e in multiset(a);
    assert forall e :: e in b <==> e in multiset(b);
  }

  /** The entry of each member, in the members' order. */
  lemma {:induction false} EntriesOf(v: Json, k: TypeDef, t: TypeDef, sv: ScVal, spec: ContractSpec, keys: Strkey)
    returns (es: seq<Entry>)
    requires DenotesMap(v, k, t, sv, spec, keys)
    ensures EachEntry(v.members, k, t, es, spec, keys)
  {
    hide DenotesMember, HasEntry, HasMember, Pairwise, KeyBefore, Pairs, Meets, Met;
    BothWays(v.members, k, t, sv.entries, spec, keys);
    es := Partners(Pairs(k, t, spec, keys), v.members, sv.entries);
  }

  lemma {:induction false} DenotedMapEncodes(v: Json, k: TypeDef, t: TypeDef, es: seq<Entry>, sv: ScVal,
                                             spec: ContractSpec, keys: Strkey)
    requires Sane(spec, keys) && DenotesMap(v, k, t, sv, spec, keys)
    requires EachEntry(v.members, k, t, es, spec, keys)
    ensures MapOf(Ok(es), true) == Ok(sv)
    decreases Size(v), 1, 0, 0
  {
    hide Sane, DenotesMember, KeyBefore, HasMember, HasEntry, EachEntry;
    forall j | 0 <= j < |sv.entries| ensures sv.entries[j] in es {
      DrawnFrom(v.members, k, t, es, sv.entries[j], spec, keys);
    }
    EachLength(v.members, k, t, es, spec, keys);
    SortsToStrict(sv.entries, es);
  }

  lemma {:induction false} EachLength(ms: seq<Member>, k: TypeDef, t: TypeDef, es: seq<Entry>, spec: ContractSpec,
                                      keys: Strkey)
    requires EachEntry(ms, k, t, es, spec, keys)
    ensures |es| == |ms|
  {
    hide DenotesMember;
  }

  lemma {:induction false} EachAt(ms: seq<Member>, k: TypeDef, t: TypeDef, es: seq<Entry>, i: nat, spec: ContractSpec,
                                  keys: Strkey)
    requires EachEntry(ms, k, t, es, spec, keys) && i < |ms|
    ensures |es| == |ms| && DenotesMember(ms[i], k, t, es[i], spec, keys)
  {
    hide DenotesMember, Pairs;
    PairsMean(k, t, spec, keys, ms[i], es[i]);
  }

  lemma {:induction false} MemberFor(ms: seq<Member>, k: TypeDef, t: TypeDef, e: Entry, spec: ContractSpec,
                                     keys: Strkey)
    returns (i: nat)
    requires HasMember(ms, k, t, e, spec, keys)
    ensures i < |ms| && DenotesMember(ms[i], k, t, e, spec, keys)
  {
    hide DenotesMember;
    i :| 0 <= i < |ms| && DenotesMember(ms[i], k, t, e, spec, keys);
  }

  /** An entry some member stands for is that member's. */
  lemma {:induction false} DrawnFrom(ms: seq<Member>, k: TypeDef, t: TypeDef, es: seq<Entry>, e: Entry,
                                     spec: ContractSpec, keys: Strkey)
    requires Sane(spec, keys) && EachEntry(ms, k, t, es, spec, keys) && HasMember(ms, k, t, e, spec, keys)
    ensures e in es
    decreases SizeMembers(ms), 3
  {
    hide Sane, DenotesMember, EachEntry, Encode, Denotes, HasMember;
    var i := MemberFor(ms, k, t, e, spec, keys);
    EachAt(ms, k, t, es, i, spec, keys);
    MemberWeighs(ms, i);
    MemberIff(ms[i], k, t, e, spec, keys);
    MemberIff(ms[i], k, t, es[i], spec, keys);
  }

  lemma {:induction false} SortsToStrict(strict: seq<Entry>, es: seq<Entry>)
    requires Sorting.StrictlySorted(KeyBefore, strict) && |strict| == |es|
    requires forall j :: 0 <= j < |strict| ==> strict[j] in es
    ensures Sorting.Sort(KeyBefore, es) == strict && NoAdjacentDuplicate(strict)
  {
    EncodeSound.KeyOrder();
    forall i, j | 0 <= i < j < |strict| ensures strict[i].key != strict[j].key {
      assert KeyBefore(strict[i], strict[j]);
      CompareEqual(strict[i].key, strict[j].key);
    }
    hide KeyBefore;
    Sorting.DrawnIsPermutation(strict, es);
    Sorting.SortSorted(KeyBefore, es);
    Sorting.StrictUnique(KeyBefore, strict, Sorting.Sort(KeyBefore, es));
  }

  // ---- user-defined types ----

  lemma {:induction false} UdtIff(v: Json, name: string, sv: ScVal, spec: ContractSpec, keys: Strkey)
    requires Sane(spec, keys)
    ensures Encode(v, TUdt(name), spec, keys) == Ok(sv) <==> Denotes(v, TUdt(name), sv, spec, keys)
    decreases Size(v), 2
  {
    hide Sane, EncodePositional, EncodeEnum, EncodeUnion, DenotesItems, DenotesStruct, DenotesEnum, DenotesCase;
    hide EncodeFields, MapOf, UdtOf, Declares;
    match UdtOf(spec, name)
    case Some(EnumDef(e)) => EnumIff(v, name, e, sv, spec, keys);
    case Some(UnionDef(u)) => UnionIff(v, u, sv, spec, keys);
    case Some(StructDef(s)) =>
      if IsTupleStruct(s) {
        PositionalIff(v, FieldTypes(s.fields), sv, spec, keys);
      } else {
        StructIff(v, name, s, sv, spec, keys);
      }
    case None =>
  }

  lemma {:induction false} EnumIff(v: Json, name: string, e: UdtEnum, sv: ScVal, spec: ContractSpec, keys: Strkey)
    requires Sane(spec, keys) && UdtOf(spec, name) == Some(EnumDef(e))
    ensures EncodeEnum(v, e) == Ok(sv) <==> DenotesEnum(v, e, sv)
  {
    UdtDeclared(spec, name);
    assert DistinctNames(EnumCaseName, e.cases) && forall c :: c in e.cases ==> c.value < TWO_32;
    hide Sane, UdtOf;
    if DenotesEnum(v, e, sv) && v.Str? {
      var c :| c in e.cases && c.value == sv.n && v == Str(c.name);
      var i :| 0 <= i < |e.cases| && e.cases[i] == c;
      FindDistinct(EnumCaseName, e.cases, i);
    }
  }

  ghost predicate EachField(ms: seq<Member>, fields: seq<Field>, es: seq<Entry>, spec: ContractSpec, keys: Strkey) {
    |es| == |fields| && forall i :: 0 <= i < |fields| ==> DenotesField(ms, fields[i], es[i], spec, keys)
  }

  lemma {:induction false} FieldsIff(ms: seq<Member>, fields: seq<Field>, es: seq<Entry>, spec: ContractSpec,
                                     keys: Strkey)
    requires Sane(spec, keys)
    ensures EncodeFields(ms, fields, spec, keys) == Ok(es) <==> EachField(ms, fields, es, spec, keys)
    decreases SizeMembers(ms), 4, |fields|
  {
    hide Sane, Encode, Denotes, Utf8.Encode;
    if fields != [] && es != [] {
      if Get(ms, fields[0].name).Some? {
        EncodeIff(Get(ms, fields[0].name).value, fields[0].ty, es[0].val, spec, keys);
      }
      FieldsIff(ms, fields[1..], es[1..], spec, keys);
      FieldsCons(ms, fields, es, spec, keys);
      assert es == [Entry(es[0].key, es[0].val)] + es[1..];
      hide EachField;
    }
  }

  lemma {:induction false} FieldsCons(ms: seq<Member>, fields: seq<Field>, es: seq<Entry>, spec: ContractSpec,
                                      keys: Strkey)
    requires fields != [] && es != []
    ensures EachField(ms, fields, es, spec, keys) <==>
            DenotesField(ms, fields[0], es[0], spec, keys) && EachField(ms, fields[1..], es[1..], spec, keys)
  {
    hide DenotesField;
    if EachField(ms, fields, es, spec, keys) {
      forall i | 0 <= i < |fields[1..]| ensures DenotesField(ms, fields[1..][i], es[1..][i], spec, keys) {
        assert fields[1..][i] == fields[i + 1] && es[1..][i] == es[i + 1];
      }
    }
    if DenotesField(ms, fields[0], es[0], spec, keys) && EachField(ms, fields[1..], es[1..], spec, keys) {
      forall i | 0 <= i < |fields| ensures DenotesField(ms, fields[i], es[i], spec, keys) {
        if i > 0 { assert fields[1..][i - 1] == fields[i] && es[1..][i - 1] == es[i]; }
      }
    }
  }

  lemma {:induction false} StructIff(v: Json, name: string, s: UdtStruct, sv: ScVal, spec: ContractSpec, keys: Strkey)
    requires Sane(spec, keys) && UdtOf(spec, name) == Some(StructDef(s)) && !IsTupleStruct(s)
    ensures Encode(v, TUdt(name), spec, keys) == Ok(sv) <==> DenotesStruct(v, s, sv, spec, keys)
    decreases Size(v), 1
  {
    assert DistinctNames(FieldName, s.fields) by { UdtDeclared(spec, name); }
    hide Sane, EncodeFields, DenotesStruct, MapOf, UdtOf;
    if v.Object? {
      if MapOf(EncodeFields(v.members, s.fields, spec, keys), false) == Ok(sv) {
        StructDenotes(v, s, sv, spec, keys);
      }
      if DenotesStruct(v, s, sv, spec, keys) { StructEncodes(v, s, sv, spec, keys); }
    } else {
      NoStruct(v, s, sv, spec, keys);
    }
  }

  lemma {:induction false} StructDenotes(v: Json, s: UdtStruct, sv: ScVal, spec: ContractSpec, keys: Strkey)
    requires Sane(spec, keys) && v.Object? && DistinctNames(FieldName, s.fields)
    requires MapOf(EncodeFields(v.members, s.fields, spec, keys), false) == Ok(sv)
    ensures DenotesStruct(v, s, sv, spec, keys)
    decreases Size(v), 0
  {
    hide Sane, EncodeFields, DenotesStruct, MapOf, EachField;
    EncodedNotRefused(EncodeFields(v.members, s.fields, spec, keys), false);
    var es := EncodeFields(v.members, s.fields, spec, keys).value;
    FieldsIff(v.members, s.fields, es, spec, keys);
    EncodedStructDenotes(v, s, es, sv, spec, keys);
  }

  lemma {:induction false} StructEncodes(v: Json, s: UdtStruct, sv: ScVal, spec: ContractSpec, keys: Strkey)
    requires Sane(spec, keys) && v.Object? && DistinctNames(FieldName, s.fields)
    requires DenotesStruct(v, s, sv, spec, keys)
    ensures MapOf(EncodeFields(v.members, s.fields, spec, keys), false) == Ok(sv)
    decreases Size(v), 0
  {
    hide Sane, EncodeFields, DenotesStruct, MapOf, EachField;
    var es := FieldsOf(v, s, sv, spec, keys);
    FieldsIff(v.members, s.fields, es, spec, keys);
    DenotedStructEncodes(v, s, es, sv, spec, keys);
  }

  lemma {:induction false} NoStruct(v: Json, s: UdtStruct, sv: ScVal, spec: ContractSpec, keys: Strkey)
    requires !v.Object?
    ensures !DenotesStruct(v, s, sv, spec, keys)
  {
  }

  /** Entries under the symbols of distinct fields have distinct keys. */
  lemma {:induction false} FieldKeysDistinct(ms: seq<Member>, s: UdtStruct, es: seq<Entry>, spec: ContractSpec,
                                             keys: Strkey)
    requires DistinctNames(FieldName, s.fields) && EachField(ms, s.fields, es, spec, keys)
    ensures forall i, j :: 0 <= i < |es| && 0 <= j < |es| && i != j ==> es[i].key != es[j].key
  {
    hide Denotes;
    forall i, j | 0 <= i < j < |es| ensures es[i].key != es[j].key {
      assert DenotesField(ms, s.fields[i], es[i], spec, keys) && DenotesField(ms, s.fields[j], es[j], spec, keys);
      if es[i].key == es[j].key { Utf8.EncodeInjective(s.fields[i].name, s.fields[j].name); }
    }
  }

  lemma {:induction false} EncodedStructDenotes(v: Json, s: UdtStruct, es: seq<Entry>, sv: ScVal, spec: ContractSpec,
                                                keys: Strkey)
    requires v.Object? && DistinctNames(FieldName, s.fields) && EachField(v.members, s.fields, es, spec, keys)
    requires MapOf(Ok(es), false) == Ok(sv)
    ensures DenotesStruct(v, s, sv, spec, keys)
  {
    FieldKeysDistinct(v.members, s, es, spec, keys);
    var sorted := Sorting.Sort(KeyBefore, es);
    hide DenotesField, Sorting.Sort, KeyBefore, Sorting.StrictlySorted;
    EncodeSound.PermutationKeysDistinct(es, sorted);
    EncodeSound.NoDuplicateStrict(es);
    Sorting.SortLength(KeyBefore, es);
    SameElements(es, sorted);
    hide NoAdjacentDuplicate;
    hide HasField;
    forall i | 0 <= i < |s.fields| ensures HasField(v.members, s.fields[i], sorted, spec, keys) {
      FieldFound(v.members, s.fields[i], es[i], sorted, spec, keys);
    }
  }

  lemma {:induction false} FieldFound(ms: seq<Member>, f: Field, e: Entry, entries: seq<Entry>, spec: ContractSpec,
                                      keys: Strkey)
    requires DenotesField(ms, f, e, spec, keys) && e in entries
    ensures HasField(ms, f, entries, spec, keys)
  {
    hide DenotesField;
    var j :| 0 <= j < |entries| && entries[j] == e;
  }

  /** The entry of each field, in declaration order. */
  lemma {:induction false} FieldsOf(v: Json, s: UdtStruct, sv: ScVal, spec: ContractSpec,
                                    keys: Strkey) returns (es: seq<Entry>)
    requires DenotesStruct(v, s, sv, spec, keys)
    ensures EachField(v.members, s.fields, es, spec, keys) && forall i :: 0 <= i < |es| ==> es[i] in sv.entries
  {
    hide DenotesField;
    es := [];
    while |es| < |s.fields|
      invariant |es| <= |s.fields|
      invariant forall i :: 0 <= i < |es| ==>
        DenotesField(v.members, s.fields[i], es[i], spec, keys) && es[i] in sv.entries
    {
      assert HasField(v.members, s.fields[|es|], sv.entries, spec, keys);
      var j :| 0 <= j < |sv.entries| && DenotesField(v.members, s.fields[|es|], sv.entries[j], spec, keys);
      es := es + [sv.entries[j]];
    }
  }

  lemma {:induction false} DenotedStructEncodes(v: Json, s: UdtStruct, es: seq<Entry>, sv: ScVal, spec: ContractSpec,
                                                keys: Strkey)
    requires DistinctNames(FieldName, s.fields) && DenotesStruct(v, s, sv, spec, keys)
    requires EachField(v.members, s.fields, es, spec, keys) && forall i :: 0 <= i < |es| ==> es[i] in sv.entries
    ensures MapOf(Ok(es), false) == Ok(sv)
  {
    FieldKeysDistinct(v.members, s, es, spec, keys);
    EncodeSound.KeyOrder();
    hide KeyBefore, DenotesField, HasField;
    Sorting.DrawnIsPermutation(es, sv.entries);
    Sorting.SortSorted(KeyBefore, es);
    Sorting.StrictUnique(KeyBefore, sv.entries, Sorting.Sort(KeyBefore, es));
  }

  lemma {:induction false} UnionIff(v: Json, u: UdtUnion, sv: ScVal, spec: ContractSpec, keys: Strkey)
    requires Sane(spec, keys)
    ensures EncodeUnion(v, u, spec, keys) == Ok(sv) <==>
            exists c :: Declares(u, c) && DenotesCase(v, c, sv, spec, keys)
    decreases Size(v), 1, 1
  {
    hide Sane, DenotesCase;
    if v.Str? || (v.Object? && |v.members| == 1) {
      var name := if v.Str? then v.text else v.members[0].key;
      match Find(UnionCaseName, u.cases, name) {
        case Some(c) =>
          CaseIff(v, u, c, sv, spec, keys);
          OnlyItsCase(v, name, sv, spec, keys);
          hide EncodeUnion, Find;
        case None =>
          OnlyItsCase(v, name, sv, spec, keys);
      }
    } else {
      forall c ensures !DenotesCase(v, c, sv, spec, keys) { NeitherForm(v, c, sv, spec, keys); }
    }
  }

  lemma {:induction false} NeitherForm(v: Json, c: UnionCase, sv: ScVal, spec: ContractSpec, keys: Strkey)
    requires !v.Str? && !(v.Object? && |v.members| == 1)
    ensures !DenotesCase(v, c, sv, spec, keys)
  {
  }

  lemma {:induction false} OnlyItsCase(v: Json, name: string, sv: ScVal, spec: ContractSpec, keys: Strkey)
    requires (v.Str? && name == v.text) || (v.Object? && |v.members| == 1 && name == v.members[0].key)
    ensures forall c :: DenotesCase(v, c, sv, spec, keys) ==> c.name == name
  {
    hide Denotes, DenotesEach, SymbolNamed;
  }

  /** How a value names a case. */
  lemma {:induction false} CaseIff(v: Json, u: UdtUnion, c: UnionCase, sv: ScVal, spec: ContractSpec, keys: Strkey)
    requires Sane(spec, keys) && Find(UnionCaseName, u.cases, c.name) == Some(c)
    requires v == Str(c.name) || (v.Object? && |v.members| == 1 && v.members[0].key == c.name)
    ensures EncodeUnion(v, u, spec, keys) == Ok(sv) <==> DenotesCase(v, c, sv, spec, keys)
    decreases Size(v), 1, 0
  {
    hide Sane;
    if c.tys == [] {
      VoidCaseIff(v, u, c, sv, spec, keys);
    } else if v.Object? {
      PayloadIff(v, u, c, sv, spec, keys);
    }
  }

  lemma {:induction false} CaseOfIff(name: string, items: seq<ScVal>, sv: ScVal)
    ensures CaseOf(name, Ok(items)) == Ok(sv) <==>
            && sv.ScvVec? && sv.items != [] && |sv.items| < TWO_32
            && SymbolNamed(sv.items[0], name) && sv.items[1..] == items
  {
    hide Utf8.Encode;
    if sv.ScvVec? && sv.items != [] { assert sv.items == [sv.items[0]] + sv.items[1..]; }
  }

  lemma {:induction false} VoidCaseIff(v: Json, u: UdtUnion, c: UnionCase, sv: ScVal, spec: ContractSpec, keys: Strkey)
    requires Find(UnionCaseName, u.cases, c.name) == Some(c) && c.tys == []
    requires v == Str(c.name) || (v.Object? && |v.members| == 1 && v.members[0].key == c.name)
    ensures EncodeUnion(v, u, spec, keys) == Ok(sv) <==> DenotesCase(v, c, sv, spec, keys)
  {
    CaseOfIff(c.name, [], sv);
    hide CaseOf, SymbolNamed, Find, Denotes, DenotesEach;
    if v.Object? { assert v.members == [v.members[0]]; }
  }

  lemma {:induction false} PayloadIff(v: Json, u: UdtUnion, c: UnionCase, sv: ScVal, spec: ContractSpec, keys: Strkey)
    requires Sane(spec, keys) && Find(UnionCaseName, u.cases, c.name) == Some(c) && c.tys != []
    requires v.Object? && |v.members| == 1 && v.members[0].key == c.name
    ensures EncodeUnion(v, u, spec, keys) == Ok(sv) <==> DenotesCase(v, c, sv, spec, keys)
    decreases Size(v), 0
  {
    hide Sane, Find, CaseOf, SymbolNamed, EncodeEach, Denotes, DenotesEach;
    var val := v.members[0].value;
    var vals := CaseValues(val);
    CaseValuesSmaller(v.members);
    if val.Array? && sv.ScvVec? && sv.items != [] { SameLengths(vals, c.tys, sv.items[1..], spec, keys); }
    if (val.Array? || |c.tys| == 1) && |vals| == |c.tys| {
      var r := EncodeEach(vals, c.tys, spec, keys);
      if r.Ok? {
        CaseOfIff(c.name, r.value, sv);
        EachIff(vals, c.tys, r.value, spec, keys);
      }
      if sv.ScvVec? && sv.items != [] {
        EachIff(vals, c.tys, sv.items[1..], spec, keys);
        if !val.Array? { LoneIff(val, c.tys, sv, spec, keys); }
      }
      RefusedCase(c.name, r);
    }
  }

  lemma {:induction false} SameLengths(vs: seq<Json>, ts: seq<TypeDef>, svs: seq<ScVal>, spec: ContractSpec,
                                       keys: Strkey)
    ensures DenotesEach(vs, ts, svs, spec, keys) ==> |vs| == |ts| == |svs|
  {
    hide Denotes;
  }

  lemma {:induction false} RefusedCase(name: string, r: Result<seq<ScVal>, ArgError>)
    ensures r.Err? ==> CaseOf(name, r).Err?
  {
  }

  lemma {:induction false} LoneIff(val: Json, ts: seq<TypeDef>, sv: ScVal, spec: ContractSpec, keys: Strkey)
    requires |ts| == 1 && sv.ScvVec? && sv.items != []
    ensures DenotesEach([val], ts, sv.items[1..], spec, keys) <==>
            |sv.items| == 2 && Denotes(val, ts[0], sv.items[1], spec, keys)
  {
    hide Denotes;
    if DenotesEach([val], ts, sv.items[1..], spec, keys) {
      assert [val][0] == val && sv.items[1..][0] == sv.items[1];
    }
    if |sv.items| == 2 && Denotes(val, ts[0], sv.items[1], spec, keys) {
      assert [val][0] == val && sv.items[1..][0] == sv.items[1];
    }
  }

  /** `Val`, `Error` and `Result` parameters are refused as such, whatever they are given. */
  lemma UntypedRefused(v: Json, ty: TypeDef, spec: ContractSpec, keys: Strkey)
    requires ty.TVal? || ty.TError? || ty.TResult?
    ensures Encode(v, ty, spec, keys) == Err(UnsupportedType)
  {
  }
}
