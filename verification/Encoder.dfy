/** The read layer's argument encoder: typed JSON in, contract values out. */
module Encoder {
  import opened Basics
  import opened Json
  import opened ScVal
  import opened Spec
  import Decimal
  import Hex
  import Limbs256
  import Sorting
  import Utf8

  datatype ArgError = BadArgument | UnsupportedType

  /** The strkey library: a parser and a printer of addresses, and a parser of `M...` account keys. */
  datatype Strkey = Strkey(
    parse: string -> Option<ScAddress>,
    show: ScAddress -> string,
    muxedKey: string -> Option<seq<byte>>)

  const SYMBOL_LIMIT: nat := 32

  // ---- scalars ----

  function IntArg(v: Json, signed: bool, lo: int, hi: int): (r: Option<int>)
    ensures r.Some? ==> lo <= r.value <= hi
  {
    match v
    case Str(s) => Decimal.ParseInt(s, signed, lo, hi)
    case Int(n) => if -TWO_63 <= n < TWO_64 then Decimal.ParseInt(Decimal.IntText(n), signed, lo, hi) else None
    case _ => None
  }

  predicate IsSpace(c: char) {
    '\U{9}' <= c <= '\U{D}' || c == ' ' || c == '\U{85}' || c == '\U{A0}' || c == '\U{1680}'
    || '\U{2000}' <= c <= '\U{200A}' || c == '\U{2028}' || c == '\U{2029}' || c == '\U{202F}'
    || c == '\U{205F}' || c == '\U{3000}'
  }

  function TrimStart(s: string): string {
    if s != [] && IsSpace(s[0]) then TrimStart(s[1..]) else s
  }

  function TrimEnd(s: string): string {
    if s != [] && IsSpace(s[|s| - 1]) then TrimEnd(s[..|s| - 1]) else s
  }

  function WideText(v: Json): Option<string> {
    match v
    case Str(s) => Some(TrimEnd(TrimStart(s)))
    case Int(n) => if -TWO_63 <= n < TWO_64 then Some(Decimal.IntText(n)) else None
    case _ => None
  }

  function HexArg(v: Json): Option<seq<byte>> {
    match v
    case Str(s) => Hex.Decode(if "0x" <= s then s[2..] else s)
    case _ => None
  }

  function SymbolOf(text: string): (r: Option<ScVal>)
    ensures r.Some? ==> r.value == ScvSymbol(Utf8.Encode(text)) && |Utf8.Encode(text)| <= SYMBOL_LIMIT
  {
    var b := Utf8.Encode(text);
    if |b| <= SYMBOL_LIMIT then Some(ScvSymbol(b)) else None
  }

  function MuxedArg(s: string, keys: Strkey): Option<ScAddress> {
    if s != [] && s[0] == 'M' then
      match keys.muxedKey(s)
      case Some(key) => keys.parse(keys.show(Account(key)))
      case None => None
    else keys.parse(s)
  }

  function ToResult(r: Option<ScVal>): Result<ScVal, ArgError> {
    match r case Some(sv) => Ok(sv) case None => Err(BadArgument)
  }

  function NumericArg(v: Json, ty: TypeDef): (r: Option<ScVal>) {
    match ty
    case TU32 => (match IntArg(v, false, 0, TWO_32 - 1) case Some(n) => Some(ScvU32(n)) case None => None)
    case TI32 => (match IntArg(v, true, -0x8000_0000, 0x7FFF_FFFF) case Some(n) => Some(ScvI32(n)) case None => None)
    case TU64 => (match IntArg(v, false, 0, TWO_64 - 1) case Some(n) => Some(ScvU64(n)) case None => None)
    case TI64 => (match IntArg(v, true, -TWO_63, TWO_63 - 1) case Some(n) => Some(ScvI64(n)) case None => None)
    case TTimepoint => (match IntArg(v, false, 0, TWO_64 - 1) case Some(n) => Some(ScvTimepoint(n)) case None => None)
    case TDuration => (match IntArg(v, false, 0, TWO_64 - 1) case Some(n) => Some(ScvDuration(n)) case None => None)
    case TU128 =>
      (match IntArg(v, false, 0, TWO_128 - 1)
       case Some(n) => Some(ScvU128(n / TWO_64, n % TWO_64)) case None => None)
    case TI128 =>
      (match IntArg(v, true, -TWO_127, TWO_127 - 1)
       case Some(n) => Some(ScvI128(n / TWO_64, n % TWO_64)) case None => None)
    case _ => None
  }

  function WideArg(v: Json, ty: TypeDef): (r: Option<ScVal>) {
    match (WideText(v), ty)
    case (Some(s), TU256) =>
      (match Limbs256.UnsignedOf(s)
       case Some(n) => var l := Limbs256.LimbsOf(n); Some(ScvU256(l[0], l[1], l[2], l[3]))
       case None => None)
    case (Some(s), TI256) =>
      (match Limbs256.SignedOf(s)
       case Some(n) => var p := Limbs256.SignedPartsOf(n); Some(ScvI256(p[0], p[1], p[2], p[3]))
       case None => None)
    case _ => None
  }

  function TextArg(v: Json, ty: TypeDef, keys: Strkey): (r: Option<ScVal>) {
    if !v.Str? then None
    else
      match ty
      case TSymbol => SymbolOf(v.text)
      case TString =>
        var b := Utf8.Encode(v.text);
        if |b| < TWO_32 then Some(ScvString(b)) else None
      case TAddress => (match keys.parse(v.text) case Some(a) => Some(ScvAddress(a)) case None => None)
      case TMuxedAddress => (match MuxedArg(v.text, keys) case Some(a) => Some(ScvAddress(a)) case None => None)
      case TBytes =>
        (match HexArg(v) case Some(b) => if |b| < TWO_32 then Some(ScvBytes(b)) else None case None => None)
      case TBytesN(n) =>
        (match HexArg(v)
         case Some(b) => if |b| == n && n < TWO_32 then Some(ScvBytes(b)) else None
         case None => None)
      case _ => None
  }

  /** The types whose encoding looks at the JSON value alone. */
  function EncodeScalar(v: Json, ty: TypeDef, keys: Strkey): Result<ScVal, ArgError> {
    match ty
    case TBool => if v.Bool? then Ok(ScvBool(v.flag)) else Err(BadArgument)
    case TVoid => if v.Null? then Ok(ScvVoid) else Err(BadArgument)
    case TU256 => ToResult(WideArg(v, ty))
    case TI256 => ToResult(WideArg(v, ty))
    case TBytes => ToResult(TextArg(v, ty, keys))
    case TBytesN(_) => ToResult(TextArg(v, ty, keys))
    case TString => ToResult(TextArg(v, ty, keys))
    case TSymbol => ToResult(TextArg(v, ty, keys))
    case TAddress => ToResult(TextArg(v, ty, keys))
    case TMuxedAddress => ToResult(TextArg(v, ty, keys))
    case TVal => Err(UnsupportedType)
    case TError => Err(UnsupportedType)
    case TResult(_, _) => Err(UnsupportedType)
    case _ => ToResult(NumericArg(v, ty))
  }

  // ---- containers ----

  function VecOf(r: Result<seq<ScVal>, ArgError>): Result<ScVal, ArgError> {
    match r
    case Ok(items) => if |items| < TWO_32 then Ok(ScvVec(items)) else Err(BadArgument)
    case Err(e) => Err(e)
  }

  /** Soroban's order on map entries. */
  predicate KeyBefore(a: Entry, b: Entry) { Compare(a.key, b.key) == Less }

  predicate NoAdjacentDuplicate(entries: seq<Entry>) {
    forall i :: 0 <= i < |entries| - 1 ==> entries[i].key != entries[i + 1].key
  }

  /** Sort by key; a map argument also rejects keys that became equal after conversion. */
  function MapOf(r: Result<seq<Entry>, ArgError>, rejectDuplicates: bool): Result<ScVal, ArgError> {
    match r
    case Err(e) => Err(e)
    case Ok(entries) =>
      var sorted := Sorting.Sort(KeyBefore, entries);
      if rejectDuplicates && !NoAdjacentDuplicate(sorted) then Err(BadArgument)
      else if |sorted| < TWO_32 then Ok(ScvMap(sorted)) else Err(BadArgument)
  }

  /** `json_to_scval`. */
  function Encode(v: Json, ty: TypeDef, spec: ContractSpec, keys: Strkey): (r: Result<ScVal, ArgError>)
    decreases Size(v), 1, ty
  {
    match ty
    case TOption(t) => if v.Null? then Ok(ScvVoid) else Encode(v, t, spec, keys)
    case TVec(t) =>
      if v.Array? then VecOf(EncodeEach(v.items, Repeat(t, |v.items|), spec, keys)) else Err(BadArgument)
    case TTuple(ts) => EncodePositional(v, ts, spec, keys)
    case TMap(k, t) =>
      if v.Object? then MapOf(EncodeEntries(v.members, k, t, spec, keys), true) else Err(BadArgument)
    case TUdt(name) =>
      (match UdtOf(spec, name)
       case Some(StructDef(s)) =>
         if IsTupleStruct(s) then EncodePositional(v, FieldTypes(s.fields), spec, keys)
         else if v.Object? then MapOf(EncodeFields(v.members, s.fields, spec, keys), false)
         else Err(BadArgument)
       case Some(EnumDef(e)) => EncodeEnum(v, e)
       case Some(UnionDef(u)) => EncodeUnion(v, u, spec, keys)
       case None => Err(BadArgument))
    case _ => EncodeScalar(v, ty, keys)
  }

  function EncodePositional(v: Json, ts: seq<TypeDef>, spec: ContractSpec, keys: Strkey): Result<ScVal, ArgError>
    decreases Size(v), 0
  {
    if v.Array? && |v.items| == |ts| then VecOf(EncodeEach(v.items, ts, spec, keys)) else Err(BadArgument)
  }

  /** Element by element, stopping at the first error. */
  function EncodeEach(vs: seq<Json>, ts: seq<TypeDef>, spec: ContractSpec, keys: Strkey)
    : (r: Result<seq<ScVal>, ArgError>)
    requires |vs| == |ts|
    ensures r.Ok? ==> |r.value| == |vs|
    decreases SizeAll(vs), 0
  {
    if vs == [] then Ok([])
    else
      match Encode(vs[0], ts[0], spec, keys)
      case Err(e) => Err(e)
      case Ok(sv) =>
        match EncodeEach(vs[1..], ts[1..], spec, keys)
        case Err(e) => Err(e)
        case Ok(rest) => Ok([sv] + rest)
  }

  /** The entries of a map argument, keys encoded from their JSON text. */
  function EncodeEntries(ms: seq<Member>, k: TypeDef, t: TypeDef, spec: ContractSpec, keys: Strkey)
    : (r: Result<seq<Entry>, ArgError>)
    ensures r.Ok? ==> |r.value| == |ms|
    decreases SizeMembers(ms), 0
  {
    if ms == [] then Ok([])
    else
      match Encode(Str(ms[0].key), k, spec, keys)
      case Err(e) => Err(e)
      case Ok(key) =>
        match Encode(ms[0].value, t, spec, keys)
        case Err(e) => Err(e)
        case Ok(val) =>
          match EncodeEntries(ms[1..], k, t, spec, keys)
          case Err(e) => Err(e)
          case Ok(rest) => Ok([Entry(key, val)] + rest)
  }

  /** The entries of a named-field struct, in declaration order. */
  function EncodeFields(ms: seq<Member>, fields: seq<Field>, spec: ContractSpec, keys: Strkey)
    : (r: Result<seq<Entry>, ArgError>)
    ensures r.Ok? ==> |r.value| == |fields|
    decreases SizeMembers(ms), 0, |fields|
  {
    if fields == [] then Ok([])
    else
      match (Get(ms, fields[0].name), SymbolOf(fields[0].name))
      case (Some(fv), Some(key)) =>
        (match Encode(fv, fields[0].ty, spec, keys)
         case Err(e) => Err(e)
         case Ok(val) =>
           match EncodeFields(ms, fields[1..], spec, keys)
           case Err(e) => Err(e)
           case Ok(rest) => Ok([Entry(key, val)] + rest))
      case _ => Err(BadArgument)
  }

  /** A case name, or a declared discriminant. */
  function EncodeEnum(v: Json, e: UdtEnum): Result<ScVal, ArgError> {
    match v
    case Str(s) =>
      (match Find(EnumCaseName, e.cases, s)
       case Some(c) => Ok(ScvU32(c.value))
       case None => Err(BadArgument))
    case Int(n) =>
      if 0 <= n < TWO_32 && exists i :: 0 <= i < |e.cases| && e.cases[i].value == n then Ok(ScvU32(n))
      else Err(BadArgument)
    case _ => Err(BadArgument)
  }

  /** The values of a union case; a lone value may be written without its brackets. */
  function CaseValues(val: Json): seq<Json> {
    if val.Array? then val.items else [val]
  }

  lemma CaseValuesSmaller(ms: seq<Member>)
    requires |ms| == 1
    ensures SizeAll(CaseValues(ms[0].value)) < Size(Object(ms))
  {
    assert SizeMembers(ms) >= 2 + Size(ms[0].value);
    assert SizeAll([ms[0].value]) == 1 + Size(ms[0].value) + SizeAll([]);
  }

  /** `"Case"` for a void case, `{"Case": [..]}` otherwise; a one-value case may drop the brackets. */
  function EncodeUnion(v: Json, u: UdtUnion, spec: ContractSpec, keys: Strkey): Result<ScVal, ArgError>
    decreases Size(v), 0
  {
    match v
    case Str(s) =>
      (match Find(UnionCaseName, u.cases, s)
       case Some(c) => if c.tys == [] then CaseOf(c.name, Ok([])) else Err(BadArgument)
       case None => Err(BadArgument))
    case Object(ms) =>
      if |ms| != 1 then Err(BadArgument)
      else
        (match Find(UnionCaseName, u.cases, ms[0].key)
         case None => Err(BadArgument)
         case Some(c) =>
           var val := ms[0].value;
           if c.tys == [] then (if val.Null? then CaseOf(c.name, Ok([])) else Err(BadArgument))
           else
             var vals := CaseValues(val);
             CaseValuesSmaller(ms);
             if (val.Array? || |c.tys| == 1) && |vals| == |c.tys| then
               CaseOf(c.name, EncodeEach(vals, c.tys, spec, keys))
             else Err(BadArgument))
    case _ => Err(BadArgument)
  }

  /** A union value: its case symbol, then the values it carries. */
  function CaseOf(name: string, vals: Result<seq<ScVal>, ArgError>): Result<ScVal, ArgError> {
    match (SymbolOf(name), vals)
    case (None, _) => Err(BadArgument)
    case (Some(tag), Ok(items)) => VecOf(Ok([tag] + items))
    case (Some(_), Err(e)) => Err(e)
  }
}
