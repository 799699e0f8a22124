/** What decoding and naming keep: everything of a value of a declared type, not everything of any other. */
module Naming {
  import opened Basics
  import opened Json
  import opened ScVal
  import opened Spec
  import opened Encoder
  import opened Decoder
  import opened Relabeller
  import opened TypedValues
  import opened RoundTrip
  import DecodedMaps
  import Decimal
  import EncodeSound
  import Hex
  import Limbs256
  import NamedParts
  import Sorting
  import Utf8

  /** What a caller is shown of a contract value. */
  ghost function Shown(sv: ScVal, ty: TypeDef, spec: ContractSpec, keys: Strkey): Json {
    Relabel(Decode(sv, keys), ty, spec)
  }

  /** Two values of a declared type whose shown forms are equal, objects being maps. */
  ghost predicate ShownAlike(a: ScVal, b: ScVal, ty: TypeDef, spec: ContractSpec, keys: Strkey) {
    WellTyped(a, ty, spec) && WellTyped(b, ty, spec) && SameJson(Shown(a, ty, spec, keys), Shown(b, ty, spec, keys))
  }

  /** No two values of one declared type are shown alike, even up to the order of object members. */
  lemma {:induction false} NamingLosesNothing(a: ScVal, b: ScVal, ty: TypeDef, spec: ContractSpec, keys: Strkey)
    requires Sane(spec, keys) && WellTyped(a, ty, spec) && WellTyped(b, ty, spec)
    requires SameJson(Shown(a, ty, spec, keys), Shown(b, ty, spec, keys))
    ensures a == b
    decreases a, 2, ty
  {
    hide Sane, WellTyped, Shown, SameJson, ShownAlike;
    Alike(a, b, ty, spec, keys);
    match ty
    case TOption(t) => OptionApart(a, b, t, spec, keys);
    case TVec(t) => VecApart(a, b, t, spec, keys);
    case TTuple(ts) => TupleApart(a, b, ts, spec, keys);
    case TMap(k, t) => MapApart(a, b, k, t, spec, keys);
    case TUdt(name) => UdtApart(a, b, name, spec, keys);
    case _ => PlainApart(a, b, ty, spec, keys);
  }

  lemma Alike(a: ScVal, b: ScVal, ty: TypeDef, spec: ContractSpec, keys: Strkey)
    requires WellTyped(a, ty, spec) && WellTyped(b, ty, spec)
    requires SameJson(Shown(a, ty, spec, keys), Shown(b, ty, spec, keys))
    ensures ShownAlike(a, b, ty, spec, keys)
  {
    hide WellTyped, Shown, SameJson;
  }

  lemma PlainApart(a: ScVal, b: ScVal, ty: TypeDef, spec: ContractSpec, keys: Strkey)
    requires Sane(spec, keys) && ShownAlike(a, b, ty, spec, keys)
    requires !(ty.TOption? || ty.TVec? || ty.TTuple? || ty.TMap? || ty.TUdt?)
    ensures a == b
  {
    hide Shown, Decode, ScalarTyped, WellTyped, Faithful, WellFormedTypes, SameJson;
    PlainShown(a, ty, spec, keys);
    PlainShown(b, ty, spec, keys);
    SamePlain(Shown(a, ty, spec, keys), Shown(b, ty, spec, keys));
    ScalarsApart(a, b, ty, keys);
  }

  lemma ScalarsApart(a: ScVal, b: ScVal, ty: TypeDef, keys: Strkey)
    requires Faithful(keys) && ScalarTyped(a, ty) && ScalarTyped(b, ty) && Decode(a, keys) == Decode(b, keys)
    ensures a == b
  {
    hide EncodeScalar, Decode, ScalarTyped, Faithful;
    ScalarRoundTrip(a, ty, keys);
    ScalarRoundTrip(b, ty, keys);
  }

  lemma PlainShown(sv: ScVal, ty: TypeDef, spec: ContractSpec, keys: Strkey)
    requires WellTyped(sv, ty, spec) && !(ty.TOption? || ty.TVec? || ty.TTuple? || ty.TMap? || ty.TUdt?)
    ensures ScalarTyped(sv, ty) && Shown(sv, ty, spec, keys) == Decode(sv, keys)
    ensures !Decode(sv, keys).Object? && !Decode(sv, keys).Array?
  {
    ScalarDecodes(sv, ty, keys);
    hide Decode, ScalarTyped;
  }

  lemma ScalarDecodes(sv: ScVal, ty: TypeDef, keys: Strkey)
    requires ScalarTyped(sv, ty)
    ensures !Decode(sv, keys).Object? && !Decode(sv, keys).Array?
  {
    hide Limbs256.Value, Decimal.IntText, Hex.Encode, WellFormedAddress;
  }

  lemma OptionApart(a: ScVal, b: ScVal, t: TypeDef, spec: ContractSpec, keys: Strkey)
    requires Sane(spec, keys) && ShownAlike(a, b, TOption(t), spec, keys)
    ensures a == b
    decreases a, 2, TOption(t), 0
  {
    hide Sane, WellTyped, Shown;
    OptionShown(a, t, spec, keys);
    OptionShown(b, t, spec, keys);
    if !a.ScvVoid? && !b.ScvVoid? { NamingLosesNothing(a, b, t, spec, keys); }
  }

  lemma OptionShown(sv: ScVal, t: TypeDef, spec: ContractSpec, keys: Strkey)
    requires WellTyped(sv, TOption(t), spec)
    ensures sv.ScvVoid? <==> Shown(sv, TOption(t), spec, keys).Null?
    ensures !sv.ScvVoid? ==> WellTyped(sv, t, spec) && Shown(sv, TOption(t), spec, keys) == Shown(sv, t, spec, keys)
  {
    hide Decode;
    if !sv.ScvVoid? { RelabelKeepsNonNull(Decode(sv, keys), t, spec); }
  }

  // ---- arrays ----

  lemma VecApart(a: ScVal, b: ScVal, t: TypeDef, spec: ContractSpec, keys: Strkey)
    requires Sane(spec, keys) && ShownAlike(a, b, TVec(t), spec, keys)
    ensures a == b
    decreases a, 1
  {
    hide Sane, Shown;
    assert ReadsPositionally(TVec(t), Repeat(t, |a.items|), spec);
    assert ReadsPositionally(TVec(t), Repeat(t, |b.items|), spec);
    ShownPositionally(a, TVec(t), Repeat(t, |a.items|), spec, keys);
    ShownPositionally(b, TVec(t), Repeat(t, |b.items|), spec, keys);
    assert TypedPositional(a, Repeat(t, |a.items|), spec) && TypedPositional(b, Repeat(t, |a.items|), spec);
    PositionalApart(a, b, TVec(t), Repeat(t, |a.items|), spec, keys);
  }

  lemma TupleApart(a: ScVal, b: ScVal, ts: seq<TypeDef>, spec: ContractSpec, keys: Strkey)
    requires Sane(spec, keys) && ShownAlike(a, b, TTuple(ts), spec, keys)
    ensures a == b
    decreases a, 1
  {
    hide Sane;
    assert TypedPositional(a, ts, spec) && TypedPositional(b, ts, spec);
    PositionalApart(a, b, TTuple(ts), ts, spec, keys);
  }

  lemma PositionalApart(a: ScVal, b: ScVal, ty: TypeDef, ts: seq<TypeDef>, spec: ContractSpec, keys: Strkey)
    requires Sane(spec, keys) && ReadsPositionally(ty, ts, spec)
    requires TypedPositional(a, ts, spec) && TypedPositional(b, ts, spec)
    requires SameJson(Shown(a, ty, spec, keys), Shown(b, ty, spec, keys))
    ensures a == b
    decreases a, 0
  {
    hide Sane, WellTyped, Shown, ReadsPositionally, SameJson;
    ShownPositionally(a, ty, ts, spec, keys);
    ShownPositionally(b, ty, ts, spec, keys);
    EachApart(a.items, b.items, ts, spec, keys);
  }

  lemma ShownPositionally(sv: ScVal, ty: TypeDef, ts: seq<TypeDef>, spec: ContractSpec, keys: Strkey)
    requires sv.ScvVec? && |sv.items| == |ts| && ReadsPositionally(ty, ts, spec)
    ensures Shown(sv, ty, spec, keys) == Array(ShownAll(sv.items, ts, spec, keys))
  {
    var vs := DecodeAll(sv.items, keys);
    assert Decode(sv, keys) == Array(vs);
    NamesPositionally(vs, ty, ts, spec);
  }

  ghost function ShownAll(xs: seq<ScVal>, ts: seq<TypeDef>, spec: ContractSpec, keys: Strkey): (vs: seq<Json>)
    requires |xs| == |ts|
    ensures |vs| == |xs|
  {
    RelabelEach(DecodeAll(xs, keys), ts, spec)
  }

  lemma {:induction false} ShownAllAt(xs: seq<ScVal>, ts: seq<TypeDef>, spec: ContractSpec, keys: Strkey, i: nat)
    requires i < |xs| == |ts|
    ensures ShownAll(xs, ts, spec, keys)[i] == Shown(xs[i], ts[i], spec, keys)
  {
    hide Relabel, Decode;
    assert DecodeAll(xs, keys)[1..] == DecodeAll(xs[1..], keys);
    if i > 0 { ShownAllAt(xs[1..], ts[1..], spec, keys, i - 1); }
  }

  lemma EachApart(xs: seq<ScVal>, ys: seq<ScVal>, ts: seq<TypeDef>, spec: ContractSpec, keys: Strkey)
    requires Sane(spec, keys) && |xs| == |ys| == |ts|
    requires forall i :: 0 <= i < |xs| ==> WellTyped(xs[i], ts[i], spec)
    requires forall i :: 0 <= i < |ys| ==> WellTyped(ys[i], ts[i], spec)
    requires SameJson(Array(ShownAll(xs, ts, spec, keys)), Array(ShownAll(ys, ts, spec, keys)))
    ensures xs == ys
    decreases xs
  {
    hide Sane, WellTyped, Shown, ShownAll;
    forall i | 0 <= i < |xs| ensures xs[i] == ys[i] {
      ShownAllAt(xs, ts, spec, keys, i);
      ShownAllAt(ys, ts, spec, keys, i);
      NamingLosesNothing(xs[i], ys[i], ts[i], spec, keys);
    }
  }

  // ---- maps ----

  lemma MapApart(a: ScVal, b: ScVal, k: TypeDef, t: TypeDef, spec: ContractSpec, keys: Strkey)
    requires Sane(spec, keys) && ShownAlike(a, b, TMap(k, t), spec, keys)
    ensures a == b
    decreases a, 1
  {
    MapsAreMaps(a, b, k, t, spec, keys);
    SameKind(Shown(a, TMap(k, t), spec, keys), Shown(b, TMap(k, t), spec, keys));
    hide Sane, Shown, StringKeys, WellTyped, KeysEncode, SameJson, RelabelValues, Sorting.StrictlySorted;
    if StringKeys(a.entries) { ObjectShown(a, k, t, spec, keys); } else { PairsShown(a, k, t, spec, keys); }
    if StringKeys(b.entries) { ObjectShown(b, k, t, spec, keys); } else { PairsShown(b, k, t, spec, keys); }
    if StringKeys(a.entries) { ObjectsApart(a, b, k, t, spec, keys); } else { PairsApart(a, b, k, t, spec, keys); }
  }

  lemma ObjectsApart(a: ScVal, b: ScVal, k: TypeDef, t: TypeDef, spec: ContractSpec, keys: Strkey)
    requires Sane(spec, keys) && ShownAlike(a, b, TMap(k, t), spec, keys)
    requires StringKeys(a.entries) && StringKeys(b.entries) && |a.entries| == |b.entries|
    ensures a == b
    decreases a, 0
  {
    MapsAreMaps(a, b, k, t, spec, keys);
    hide Sane, Shown, StringKeys, WellTyped, Encode, KeysEncode, RelabelValues, Sorting.StrictlySorted;
    ObjectShown(a, k, t, spec, keys);
    ObjectShown(b, k, t, spec, keys);
    var ms, ns := Shown(a, TMap(k, t), spec, keys).members, Shown(b, TMap(k, t), spec, keys).members;
    forall i | 0 <= i < |a.entries| ensures a.entries[i] in b.entries {
      ObjectShownAt(a, k, t, spec, keys, i);
      var j := FoundIn(ms, ns, i);
      ObjectShownAt(b, k, t, spec, keys, j);
      TypedAt(a, k, t, spec, i);
      TypedAt(b, k, t, spec, j);
      NamingLosesNothing(a.entries[i].val, b.entries[j].val, t, spec, keys);
    }
    SortedDrawn(a.entries, b.entries);
  }

  /** Strictly sorted entries drawn from as many strictly sorted entries are the same. */
  lemma SortedDrawn(xs: seq<Entry>, ys: seq<Entry>)
    requires Sorting.StrictlySorted(KeyBefore, xs) && Sorting.StrictlySorted(KeyBefore, ys) && |xs| == |ys|
    requires forall i :: 0 <= i < |xs| ==> xs[i] in ys
    ensures xs == ys
  {
    EncodeSound.KeyOrder();
    hide KeyBefore;
    Sorting.DrawnIsPermutation(xs, ys);
    Sorting.StrictUnique(KeyBefore, xs, ys);
  }

  lemma MapsAreMaps(a: ScVal, b: ScVal, k: TypeDef, t: TypeDef, spec: ContractSpec, keys: Strkey)
    requires ShownAlike(a, b, TMap(k, t), spec, keys)
    ensures a.ScvMap? && b.ScvMap?
    ensures Sorting.StrictlySorted(KeyBefore, a.entries) && Sorting.StrictlySorted(KeyBefore, b.entries)
  {
    hide Shown;
  }

  lemma PairsApart(a: ScVal, b: ScVal, k: TypeDef, t: TypeDef, spec: ContractSpec, keys: Strkey)
    requires Sane(spec, keys) && ShownAlike(a, b, TMap(k, t), spec, keys)
    requires !StringKeys(a.entries) && !StringKeys(b.entries) && |a.entries| == |b.entries|
    ensures a == b
    decreases a, 0
  {
    MapsAreMaps(a, b, k, t, spec, keys);
    hide Sane, Shown, StringKeys, WellTyped, Sorting.StrictlySorted;
    forall i | 0 <= i < |a.entries| ensures a.entries[i] == b.entries[i] {
      TypedAt(a, k, t, spec, i);
      TypedAt(b, k, t, spec, i);
      PairsShownAt(a, k, t, spec, keys, i);
      PairsShownAt(b, k, t, spec, keys, i);
      var x, y := a.entries[i], b.entries[i];
      SamePair(Shown(x.key, k, spec, keys), Shown(x.val, t, spec, keys),
               Shown(y.key, k, spec, keys), Shown(y.val, t, spec, keys));
      NamingLosesNothing(x.key, y.key, k, spec, keys);
      NamingLosesNothing(x.val, y.val, t, spec, keys);
    }
  }

  lemma TypedAt(sv: ScVal, k: TypeDef, t: TypeDef, spec: ContractSpec, i: nat)
    requires WellTyped(sv, TMap(k, t), spec) && i < |sv.entries|
    ensures sv.ScvMap? && WellTyped(sv.entries[i].key, k, spec) && WellTyped(sv.entries[i].val, t, spec)
  {
    hide CanonicalEntries;
    assert EntryTyped(sv.entries[i], k, t, spec);
  }

  /** A map whose keys all render as strings is shown as an object of its entries, in order. */
  lemma ObjectShown(sv: ScVal, k: TypeDef, t: TypeDef, spec: ContractSpec, keys: Strkey)
    requires Sane(spec, keys) && WellTyped(sv, TMap(k, t), spec) && StringKeys(sv.entries)
    ensures Shown(sv, TMap(k, t), spec, keys) == Object(RelabelValues(Decoded(sv.entries, keys), t, spec))
    ensures KeysEncode(sv.entries, k, spec, keys)
  {
    hide Sane, StringKeys, EntriesTyped, RelabelValues, KeysEncode, DistinctKeys, Encode, DecodeEntries;
    KeysFeedBack(sv.entries, k, t, spec, keys);
    CanonicalIsSorted(sv.entries);
    DistinctTexts(sv.entries, k, spec, keys);
    assert [] + Decoded(sv.entries, keys) == Decoded(sv.entries, keys);
    DecodesToObject(sv.entries, [], [], keys);
    assert Decode(sv, keys) == Object(Decoded(sv.entries, keys));
  }

  lemma ObjectShownAt(sv: ScVal, k: TypeDef, t: TypeDef, spec: ContractSpec, keys: Strkey, i: nat)
    requires Sane(spec, keys) && WellTyped(sv, TMap(k, t), spec) && StringKeys(sv.entries) && i < |sv.entries|
    ensures Shown(sv, TMap(k, t), spec, keys).Object? && i < |Shown(sv, TMap(k, t), spec, keys).members|
    ensures var m, e := Shown(sv, TMap(k, t), spec, keys).members[i], sv.entries[i];
      m.value == Shown(e.val, t, spec, keys) && Encode(Str(m.key), k, spec, keys) == Ok(e.key)
  {
    hide Sane, WellTyped, Relabel, Decode, Encode, RelabelValues;
    ObjectShown(sv, k, t, spec, keys);
    TypedAt(sv, k, t, spec, i);
    NamedParts.ValuesNamed(Decoded(sv.entries, keys), t, spec, i);
  }

  /** Any other map is shown as its pairs, in order. */
  lemma PairsShown(sv: ScVal, k: TypeDef, t: TypeDef, spec: ContractSpec, keys: Strkey)
    requires sv.ScvMap? && !StringKeys(sv.entries)
    ensures Shown(sv, TMap(k, t), spec, keys).Array? && |Shown(sv, TMap(k, t), spec, keys).items| == |sv.entries|
  {
    hide DecodedMaps.DistinctTexts, DecodedMaps.MemberOf, DecodedMaps.PairOf, DecodeEntries, Decode, RelabelPair;
    hide Decode;
    DecodedMaps.MapKeepsEveryEntry(sv.entries, keys);
    if sv.entries != [] { NamedParts.PairsNamed(Decode(sv, keys).items, k, t, spec, 0); }
  }

  lemma PairsShownAt(sv: ScVal, k: TypeDef, t: TypeDef, spec: ContractSpec, keys: Strkey, i: nat)
    requires sv.ScvMap? && !StringKeys(sv.entries) && i < |sv.entries|
    ensures Shown(sv, TMap(k, t), spec, keys).Array? && i < |Shown(sv, TMap(k, t), spec, keys).items|
    ensures Shown(sv, TMap(k, t), spec, keys).items[i]
            == Object([Member("key", Shown(sv.entries[i].key, k, spec, keys)),
                       Member("val", Shown(sv.entries[i].val, t, spec, keys))])
  {
    hide StringKeys, DecodedMaps.DistinctTexts, DecodedMaps.MemberOf, DecodeEntries;
    hide Decode;
    DecodedMaps.MapKeepsEveryEntry(sv.entries, keys);
    NamedParts.PairsNamed(Decode(sv, keys).items, k, t, spec, i);
    PairNamed(Decode(sv.entries[i].key, keys), Decode(sv.entries[i].val, keys), k, t, spec);
  }

  lemma PairNamed(x: Json, y: Json, k: TypeDef, t: TypeDef, spec: ContractSpec)
    ensures RelabelPair(Object([Member("key", x), Member("val", y)]), k, t, spec)
            == Object([Member("key", Relabel(x, k, spec)), Member("val", Relabel(y, t, spec))])
  {
    hide Relabel;
    var v := Object([Member("key", x), Member("val", y)]);
    assert "key"[0] != "val"[0] && v.members[1..] == [Member("val", y)];
    assert Get(v.members, "val") == Get(v.members[1..], "val") == Some(y);
  }

  // ---- user-defined types ----

  lemma UdtApart(a: ScVal, b: ScVal, name: string, spec: ContractSpec, keys: Strkey)
    requires Sane(spec, keys) && ShownAlike(a, b, TUdt(name), spec, keys)
    ensures a == b
    decreases a, 1
  {
    hide Sane, ShownAlike, UdtOf;
    Resolves(a, b, name, spec, keys);
    match UdtOf(spec, name).value
    case EnumDef(e) => EnumApart(a, b, name, e, spec, keys);
    case UnionDef(u) => UnionApart(a, b, name, u, spec, keys);
    case StructDef(s) =>
      if IsTupleStruct(s) {
        TupleStructApart(a, b, name, s, spec, keys);
      } else {
        StructApart(a, b, name, s, spec, keys);
      }
  }

  lemma Resolves(a: ScVal, b: ScVal, name: string, spec: ContractSpec, keys: Strkey)
    requires ShownAlike(a, b, TUdt(name), spec, keys)
    ensures UdtOf(spec, name).Some?
  {
    hide Shown, UdtOf;
  }

  lemma TupleStructApart(a: ScVal, b: ScVal, name: string, s: UdtStruct, spec: ContractSpec, keys: Strkey)
    requires Sane(spec, keys) && UdtOf(spec, name) == Some(StructDef(s)) && IsTupleStruct(s)
    requires ShownAlike(a, b, TUdt(name), spec, keys)
    ensures a == b
    decreases a, 1, 0
  {
    hide Sane, Shown, SameJson, UdtOf;
    PositionalApart(a, b, TUdt(name), FieldTypes(s.fields), spec, keys);
  }

  lemma EnumApart(a: ScVal, b: ScVal, name: string, e: UdtEnum, spec: ContractSpec, keys: Strkey)
    requires Sane(spec, keys) && UdtOf(spec, name) == Some(EnumDef(e)) && ShownAlike(a, b, TUdt(name), spec, keys)
    ensures a == b
  {
    hide Sane, WellTyped, Shown, EncodeEnum;
    EnumShown(a, name, e, spec, keys);
    EnumShown(b, name, e, spec, keys);
    OnlyNamesAndNumbers(Shown(a, TUdt(name), spec, keys), e);
  }

  lemma OnlyNamesAndNumbers(v: Json, e: UdtEnum)
    requires EncodeEnum(v, e).Ok?
    ensures v.Str? || v.Int?
  {
  }

  lemma EnumShown(sv: ScVal, name: string, e: UdtEnum, spec: ContractSpec, keys: Strkey)
    requires Sane(spec, keys) && UdtOf(spec, name) == Some(EnumDef(e)) && WellTyped(sv, TUdt(name), spec)
    ensures EncodeEnum(Shown(sv, TUdt(name), spec, keys), e) == Ok(sv)
  {
    UdtDeclared(spec, name);
    UdtNamed(Decode(sv, keys), name, EnumDef(e), spec);
    assert DistinctNames(EnumCaseName, e.cases);
    hide Sane, Relabel, RelabelEnum, EncodeEnum, Decode;
    EnumFeedsBack(sv, e, keys);
  }

  ghost predicate StructTyped(sv: ScVal, s: UdtStruct, spec: ContractSpec) {
    sv.ScvMap? && CanonicalEntries(sv.entries) && |sv.entries| == |s.fields| && FieldsTyped(sv, s.fields, spec)
  }

  lemma StructApart(a: ScVal, b: ScVal, name: string, s: UdtStruct, spec: ContractSpec, keys: Strkey)
    requires Sane(spec, keys) && UdtOf(spec, name) == Some(StructDef(s)) && !IsTupleStruct(s)
    requires ShownAlike(a, b, TUdt(name), spec, keys)
    ensures a == b
    decreases a, 0
  {
    StructIsTyped(a, name, s, spec);
    StructIsTyped(b, name, s, spec);
    hide Sane, Shown, StructShown, WellTyped, FieldsTyped, Sorting.StrictlySorted;
    StructIsShown(a, name, s, spec, keys);
    StructIsShown(b, name, s, spec, keys);
    StructShownLength(a, name, s, spec, keys);
    StructShownLength(b, name, s, spec, keys);
    var ms, ns := Shown(a, TUdt(name), spec, keys).members, Shown(b, TUdt(name), spec, keys).members;
    forall i | 0 <= i < |a.entries| ensures a.entries[i] in b.entries {
      var j := FoundIn(ms, ns, i);
      var f := StructShownAt(a, name, s, spec, keys, i);
      var g := StructShownAt(b, name, s, spec, keys, j);
      NamingLosesNothing(a.entries[i].val, b.entries[j].val, f.ty, spec, keys);
    }
    SortedDrawn(a.entries, b.entries);
  }

  lemma StructIsTyped(sv: ScVal, name: string, s: UdtStruct, spec: ContractSpec)
    requires WellTyped(sv, TUdt(name), spec) && UdtOf(spec, name) == Some(StructDef(s)) && !IsTupleStruct(s)
    ensures StructTyped(sv, s, spec)
  {
    hide UdtOf, CanonicalEntries, FieldsTyped;
  }

  /** A typed struct is shown as its entries, each named by the field whose declaration-order entry it is. */
  ghost predicate StructShown(sv: ScVal, name: string, s: UdtStruct, spec: ContractSpec, keys: Strkey) {
    && sv.ScvMap? && StringKeys(sv.entries) && DistinctNames(FieldName, s.fields)
    && Shown(sv, TUdt(name), spec, keys) == Object(RelabelFields(Decoded(sv.entries, keys), s.fields, spec))
    && exists d :: EncodeSound.Declared(d, s.fields, spec) && multiset(d) == multiset(sv.entries)
  }

  lemma StructIsShown(sv: ScVal, name: string, s: UdtStruct, spec: ContractSpec, keys: Strkey)
    requires Sane(spec, keys) && UdtOf(spec, name) == Some(StructDef(s)) && !IsTupleStruct(s)
    requires StructTyped(sv, s, spec)
    ensures StructShown(sv, name, s, spec, keys)
  {
    hide Decode, WellTyped, RelabelFields, Sane, Decoded, StringKeys, CanonicalEntries, FieldsRead, FieldsTyped;
    DistinctFields(name, s, spec, keys);
    var d := DeclarationOrder(sv, s.fields, spec);
    DeclarationOrderPermutes(d, sv, s.fields, spec);
    var ms := StructObject(d, sv, s.fields, spec, keys);
    UdtNamed(Object(ms), name, StructDef(s), spec);
  }

  lemma DistinctFields(name: string, s: UdtStruct, spec: ContractSpec, keys: Strkey)
    requires Sane(spec, keys) && UdtOf(spec, name) == Some(StructDef(s))
    ensures DistinctNames(FieldName, s.fields)
  {
    UdtDeclared(spec, name);
    hide Faithful, UdtOf;
  }

  lemma StructShownLength(sv: ScVal, name: string, s: UdtStruct, spec: ContractSpec, keys: Strkey)
    requires StructShown(sv, name, s, spec, keys)
    ensures Shown(sv, TUdt(name), spec, keys).Object?
            && |Shown(sv, TUdt(name), spec, keys).members| == |sv.entries|
  {
    hide Shown, StringKeys, EncodeSound.Declared;
  }

  lemma StructShownAt(sv: ScVal, name: string, s: UdtStruct, spec: ContractSpec, keys: Strkey, i: nat)
    returns (f: Spec.Field)
    requires StructShown(sv, name, s, spec, keys) && i < |sv.entries|
    requires Shown(sv, TUdt(name), spec, keys).Object? && i < |Shown(sv, TUdt(name), spec, keys).members|
    ensures Find(FieldName, s.fields, f.name) == Some(f)
    ensures SymbolNamed(sv.entries[i].key, f.name) && WellTyped(sv.entries[i].val, f.ty, spec)
    ensures Shown(sv, TUdt(name), spec, keys).members[i] == Member(f.name, Shown(sv.entries[i].val, f.ty, spec, keys))
  {
    hide Decode, WellTyped, Relabel, RelabelFields;
    var d :| EncodeSound.Declared(d, s.fields, spec) && multiset(d) == multiset(sv.entries);
    var j := EntryIsField(d, sv, s.fields, spec, keys, i);
    f := s.fields[j];
    assert EncodeSound.DeclaredEntry(d[j], f, spec);
    FindDistinct(FieldName, s.fields, j);
    RelabelFieldsAt(Decoded(sv.entries, keys), s.fields, spec, i);
  }

  lemma UnionApart(a: ScVal, b: ScVal, name: string, u: UdtUnion, spec: ContractSpec, keys: Strkey)
    requires Sane(spec, keys) && UdtOf(spec, name) == Some(UnionDef(u)) && ShownAlike(a, b, TUdt(name), spec, keys)
    ensures a == b
    decreases a, 0
  {
    var c := CaseShown(a, name, u, spec, keys);
    var d := CaseShown(b, name, u, spec, keys);
    hide Sane, Shown, WellTyped, ShownAll, Find, UdtOf, SameJson, CaseJson, PayloadTyped, Utf8.Encode;
    SameCase(c, d, ShownAll(a.items[1..], c.tys, spec, keys), ShownAll(b.items[1..], d.tys, spec, keys));
    assert Some(c) == Some(d);
    CasesApart(a, b, c, spec, keys);
  }

  lemma CasesApart(a: ScVal, b: ScVal, c: UnionCase, spec: ContractSpec, keys: Strkey)
    requires Sane(spec, keys) && PayloadTyped(a, c, spec) && PayloadTyped(b, c, spec) && a.items[0] == b.items[0]
    requires c.tys != [] ==> SameJson(Array(ShownAll(a.items[1..], c.tys, spec, keys)),
                                      Array(ShownAll(b.items[1..], c.tys, spec, keys)))
    ensures a == b
    decreases a, 0, 0
  {
    hide Sane, WellTyped, ShownAll, SameJson;
    if c.tys != [] { EachApart(a.items[1..], b.items[1..], c.tys, spec, keys); }
    assert a.items == [a.items[0]] + a.items[1..] && b.items == [b.items[0]] + b.items[1..];
  }

  ghost predicate PayloadTyped(sv: ScVal, c: UnionCase, spec: ContractSpec) {
    && sv.ScvVec? && sv.items != [] && |sv.items[1..]| == |c.tys|
    && forall i :: 0 <= i < |c.tys| ==> WellTyped(sv.items[1..][i], c.tys[i], spec)
  }

  /** A void case is its name, any other its name over its payload. */
  function CaseJson(c: UnionCase, payload: seq<Json>): Json {
    if c.tys == [] then Str(c.name) else Object([Member(c.name, Array(payload))])
  }

  lemma SameCase(c: UnionCase, d: UnionCase, xs: seq<Json>, ys: seq<Json>)
    requires SameJson(CaseJson(c, xs), CaseJson(d, ys))
    ensures c.name == d.name && (c.tys == [] <==> d.tys == [])
    ensures c.tys != [] ==> SameJson(Array(xs), Array(ys))
  {
    if c.tys != [] && d.tys != [] {
      var j := FoundIn([Member(c.name, Array(xs))], [Member(d.name, Array(ys))], 0);
    }
  }

  /** The case a union value is of, and how it is shown. */
  lemma CaseShown(sv: ScVal, name: string, u: UdtUnion, spec: ContractSpec, keys: Strkey) returns (c: UnionCase)
    requires UdtOf(spec, name) == Some(UnionDef(u)) && WellTyped(sv, TUdt(name), spec)
    ensures PayloadTyped(sv, c, spec) && sv.ScvVec? && sv.items != [] && |sv.items[1..]| == |c.tys|
    ensures Find(UnionCaseName, u.cases, c.name) == Some(c) && SymbolNamed(sv.items[0], c.name)
    ensures Shown(sv, TUdt(name), spec, keys)
            == CaseJson(c, ShownAll(sv.items[1..], c.tys, spec, keys))
  {
    hide UdtOf, Find, Shown, ShownAll;
    assert UnionTyped(sv, u, spec);
    hide WellTyped;
    c :| CaseTyped(sv, c, u, spec);
    UnionShown(sv, c, name, u, spec, keys);
  }

  lemma UnionShown(sv: ScVal, c: UnionCase, name: string, u: UdtUnion, spec: ContractSpec, keys: Strkey)
    requires UdtOf(spec, name) == Some(UnionDef(u)) && UnionTyped(sv, u, spec) && CaseTyped(sv, c, u, spec)
    ensures |sv.items[1..]| == |c.tys|
    ensures Shown(sv, TUdt(name), spec, keys)
            == CaseJson(c, ShownAll(sv.items[1..], c.tys, spec, keys))
  {
    hide Decode, WellTyped, RelabelEach, Find, UdtOf;
    UnionDecodes(sv, c.name, keys);
    assert Shown(sv, TUdt(name), spec, keys) == RelabelUnion(Decode(sv, keys), u, spec);
  }

  // ---- outside declared types ----

  /** A void case drops whatever payload came with it, so vectors that differ are named alike. */
  lemma VoidCaseDropsPayload(payload: seq<Json>, text: string, u: UdtUnion, name: string, spec: ContractSpec)
    requires UdtOf(spec, name) == Some(UnionDef(u))
    requires Find(UnionCaseName, u.cases, text).Some? && Find(UnionCaseName, u.cases, text).value.tys == []
    ensures Relabel(Array([Str(text)] + payload), TUdt(name), spec) == Str(text)
  {
    hide UdtOf, Find;
  }
}
