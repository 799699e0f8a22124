/** The generic decoder: contract values out as untyped JSON. */
module Decoder {
  import opened Basics
  import opened Json
  import opened ScVal
  import opened Encoder
  import Decimal
  import Hex
  import Limbs256
  import Utf8

  /** UTF-8 text, or hex when the bytes are not UTF-8. */
  ghost function TextOf(b: seq<byte>): string {
    match Utf8.Decode(b) case Some(s) => s case None => "0x" + Hex.Encode(b)
  }

  function Marker(name: string): Member { Member("_type", Str(name)) }

  /** `decode_scval`. */
  ghost function Decode(sv: ScVal, keys: Strkey): (v: Json)
    ensures v.Null? <==> sv.ScvVoid?
    ensures RendersAsString(sv) <==> v.Str?
    decreases sv
  {
    match sv
    case ScvBool(b) => Bool(b)
    case ScvVoid => Null
    case ScvError(_, _) => Object([Member("_error", Bool(true))])
    case ScvU32(n) => Int(n)
    case ScvI32(n) => Int(n)
    case ScvU64(n) => Str(Decimal.IntText(n))
    case ScvI64(n) => Str(Decimal.IntText(n))
    case ScvTimepoint(n) => Str(Decimal.IntText(n))
    case ScvDuration(n) => Str(Decimal.IntText(n))
    case ScvU128(hi, lo) => Str(Decimal.IntText(hi * TWO_64 + lo))
    case ScvI128(hi, lo) => Str(Decimal.IntText(hi * TWO_64 + lo))
    case ScvU256(a, b, c, d) => Str(Decimal.IntText(Limbs256.Value([a, b, c, d])))
    case ScvI256(a, b, c, d) => Str(Decimal.IntText(Limbs256.Value([a, b, c, d])))
    case ScvBytes(b) => Str("0x" + Hex.Encode(b))
    case ScvString(b) => Str(TextOf(b))
    case ScvSymbol(b) => Str(TextOf(b))
    case ScvVecAbsent => Array([])
    case ScvVec(items) => Array(DecodeAll(items, keys))
    case ScvMapAbsent => Object([])
    case ScvMap(entries) => DecodeEntries(entries, [], [], true, keys)
    case ScvAddress(a) => Str(keys.show(a))
    case ScvContractInstance(Wasm(hash), _, _) =>
      Object([Marker("ContractInstance"), Member("wasm_hash", Str(Hex.Encode(hash)))])
    case ScvContractInstance(StellarAsset, _, _) =>
      Object([Marker("ContractInstance"), Member("stellar_asset", Bool(true))])
    case ScvLedgerKeyContractInstance => Object([Marker("LedgerKeyContractInstance")])
    case ScvLedgerKeyNonce(nonce) => Object([Marker("LedgerKeyNonce"), Member("nonce", Int(nonce))])
  }

  ghost function DecodeAll(items: seq<ScVal>, keys: Strkey): (vs: seq<Json>)
    ensures |vs| == |items|
    decreases items
  {
    if items == [] then [] else [Decode(items[0], keys)] + DecodeAll(items[1..], keys)
  }

  /** A plain object while every key renders as a string, `[{key, val}]` pairs otherwise. */
  ghost function DecodeEntries(entries: seq<Entry>, obj: seq<Member>, pairs: seq<Json>, allStringy: bool, keys: Strkey)
    : (v: Json)
    ensures v.Object? || v.Array?
    decreases entries
  {
    if entries == [] then (if allStringy then Object(obj) else Array(pairs))
    else
      var (k, v) := DecodeEntry(entries[0], keys);
      DecodeEntries(entries[1..], if k.Str? then Insert(obj, k.text, v) else obj,
                    pairs + [Object([Member("key", k), Member("val", v)])], allStringy && k.Str?, keys)
  }

  ghost function DecodeEntry(e: Entry, keys: Strkey): (r: (Json, Json))
    ensures r == (Decode(e.key, keys), Decode(e.val, keys))
    decreases e
  {
    (Decode(e.key, keys), Decode(e.val, keys))
  }

  /** The variants whose JSON form is a string, and so can be an object key. */
  predicate RendersAsString(sv: ScVal) {
    sv.ScvU64? || sv.ScvI64? || sv.ScvTimepoint? || sv.ScvDuration? || sv.ScvU128? || sv.ScvI128?
    || sv.ScvU256? || sv.ScvI256? || sv.ScvBytes? || sv.ScvString? || sv.ScvSymbol? || sv.ScvAddress?
  }

  ghost predicate StringKeys(entries: seq<Entry>) {
    forall i :: 0 <= i < |entries| ==> RendersAsString(entries[i].key)
  }
}

/** Naming decoded values with the contract's interface. */
module Relabeller {
  import opened Basics
  import opened Json
  import opened Spec

  /** `Value::get` with a string key. */
  function Field(v: Json, key: string): (r: Option<Json>)
    ensures r.Some? ==> Size(r.value) < Size(v)
  {
    if v.Object? then Get(v.members, key) else None
  }

  /** The name the discriminant index keeps: the last case declared with that value. */
  function CaseNamed(cases: seq<EnumCase>, n: int): (r: Option<string>)
    ensures r.Some? ==> exists i :: 0 <= i < |cases| && cases[i].value == n && cases[i].name == r.value
    ensures r.None? ==> forall i :: 0 <= i < |cases| ==> cases[i].value != n
  {
    if cases == [] then None
    else
      var last := cases[|cases| - 1];
      if last.value == n then Some(last.name) else CaseNamed(cases[..|cases| - 1], n)
  }

  /** `relabel`. */
  function Relabel(v: Json, ty: TypeDef, spec: ContractSpec): Json
    decreases Size(v), 1, ty
  {
    match ty
    case TOption(t) => if v.Null? then v else Relabel(v, t, spec)
    case TVec(t) => if v.Array? then Array(RelabelEach(v.items, Repeat(t, |v.items|), spec)) else v
    case TTuple(ts) => RelabelPositional(v, ts, spec)
    case TMap(k, t) =>
      (match v
       case Object(ms) => Object(RelabelValues(ms, t, spec))
       case Array(items) => Array(RelabelPairs(items, k, t, spec))
       case _ => v)
    case TResult(ok, err) =>
      (match (Field(v, "Ok"), Field(v, "Err"))
       case (Some(x), _) => Object([Member("Ok", Relabel(x, ok, spec))])
       case (None, Some(x)) => Object([Member("Err", Relabel(x, err, spec))])
       case _ => v)
    case TUdt(name) =>
      (match UdtOf(spec, name)
       case Some(EnumDef(e)) => RelabelEnum(v, e)
       case Some(UnionDef(u)) => RelabelUnion(v, u, spec)
       case Some(StructDef(s)) =>
         if v.Object? then Object(RelabelFields(v.members, s.fields, spec))
         else RelabelPositional(v, FieldTypes(s.fields), spec)
       case None => v)
    case _ => v
  }

  /** Relabel an array that lines up with the types element for element. */
  function RelabelPositional(v: Json, ts: seq<TypeDef>, spec: ContractSpec): Json
    decreases Size(v), 0
  {
    if v.Array? && |v.items| == |ts| then Array(RelabelEach(v.items, ts, spec)) else v
  }

  function RelabelEach(vs: seq<Json>, ts: seq<TypeDef>, spec: ContractSpec): (r: seq<Json>)
    requires |vs| == |ts|
    ensures |r| == |vs|
    decreases SizeAll(vs), 0
  {
    if vs == [] then [] else [Relabel(vs[0], ts[0], spec)] + RelabelEach(vs[1..], ts[1..], spec)
  }

  function RelabelValues(ms: seq<Member>, t: TypeDef, spec: ContractSpec): (r: seq<Member>)
    ensures |r| == |ms| && forall i :: 0 <= i < |r| ==> r[i].key == ms[i].key
    decreases SizeMembers(ms), 0
  {
    if ms == [] then []
    else [Member(ms[0].key, Relabel(ms[0].value, t, spec))] + RelabelValues(ms[1..], t, spec)
  }

  function RelabelPairs(vs: seq<Json>, k: TypeDef, t: TypeDef, spec: ContractSpec): seq<Json>
    decreases SizeAll(vs), 0
  {
    if vs == [] then []
    else [RelabelPair(vs[0], k, t, spec)] + RelabelPairs(vs[1..], k, t, spec)
  }

  /** One `{key, val}` pair of a map that did not decode to an object. */
  function RelabelPair(v: Json, k: TypeDef, t: TypeDef, spec: ContractSpec): Json
    decreases Size(v), 0
  {
    match (Field(v, "key"), Field(v, "val"))
    case (Some(x), Some(y)) => Object([Member("key", Relabel(x, k, spec)), Member("val", Relabel(y, t, spec))])
    case _ => v
  }

  function RelabelFields(ms: seq<Member>, fields: seq<Spec.Field>, spec: ContractSpec): (r: seq<Member>)
    ensures |r| == |ms| && forall i :: 0 <= i < |r| ==> r[i].key == ms[i].key
    decreases SizeMembers(ms), 0
  {
    if ms == [] then []
    else
      var value := match Find(FieldName, fields, ms[0].key)
                   case Some(f) => Relabel(ms[0].value, f.ty, spec)
                   case None => ms[0].value;
      [Member(ms[0].key, value)] + RelabelFields(ms[1..], fields, spec)
  }

  function RelabelEnum(v: Json, e: UdtEnum): Json {
    if v.Int? && 0 <= v.n < TWO_32 then
      match CaseNamed(e.cases, v.n) case Some(name) => Str(name) case None => v
    else v
  }

  function RelabelUnion(v: Json, u: UdtUnion, spec: ContractSpec): Json
    decreases Size(v), 0
  {
    if v.Array? && v.items != [] && v.items[0].Str? then
      match Find(UnionCaseName, u.cases, v.items[0].text)
      case None => v
      case Some(c) =>
        if c.tys == [] then Str(c.name)
        else if |v.items| - 1 != |c.tys| then v
        else
          assert SizeAll(v.items) > SizeAll(v.items[1..]);
          Object([Member(c.name, Array(RelabelEach(v.items[1..], c.tys, spec)))])
    else v
  }

  /** How a value of a resolved type is named. */
  lemma UdtNamed(v: Json, name: string, def: UdtDef, spec: ContractSpec)
    requires UdtOf(spec, name) == Some(def)
    ensures def.EnumDef? ==> Relabel(v, TUdt(name), spec) == RelabelEnum(v, def.e)
    ensures def.UnionDef? ==> Relabel(v, TUdt(name), spec) == RelabelUnion(v, def.u, spec)
    ensures def.StructDef? && v.Object? ==>
              Relabel(v, TUdt(name), spec) == Object(RelabelFields(v.members, def.s.fields, spec))
    ensures def.StructDef? && !v.Object? ==>
              Relabel(v, TUdt(name), spec) == RelabelPositional(v, FieldTypes(def.s.fields), spec)
  {
    hide UdtOf, RelabelFields, RelabelUnion, RelabelEnum, RelabelPositional;
  }
}
