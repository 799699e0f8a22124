/** Which contract values belong to a declared type, stated without reference to the encoder. */
module TypedValues {
  import opened Basics
  import opened ScVal
  import opened Spec
  import opened Encoder
  import Sorting
  import Utf8

  predicate IsU64(n: int) { 0 <= n < TWO_64 }
  predicate IsI64(n: int) { -TWO_63 <= n < TWO_63 }

  ghost predicate IsText(b: seq<byte>) { exists s: string :: Utf8.Encode(s) == b }

  predicate WellFormedAddress(a: ScAddress) {
    match a
    case Account(key) => |key| == 32
    case Contract(hash) => |hash| == 32
    case MuxedAccount(id, key) => IsU64(id) && |key| == 32
    case ClaimableBalance(hash) => |hash| == 32
    case LiquidityPool(hash) => |hash| == 32
  }

  /** What the strkey library promises: parsing and printing are inverse, and only `M...` texts are muxed. */
  ghost predicate Faithful(keys: Strkey) {
    && (forall a: ScAddress :: WellFormedAddress(a) ==> keys.parse(keys.show(a)) == Some(a))
    && (forall s: string :: keys.parse(s).Some? ==>
          WellFormedAddress(keys.parse(s).value) && keys.show(keys.parse(s).value) == s)
    && (forall s: string :: keys.muxedKey(s).Some? ==> |keys.muxedKey(s).value| == 32)
    && (forall a: ScAddress :: WellFormedAddress(a) ==>
          keys.show(a) != [] && (keys.show(a)[0] == 'M' <==> a.MuxedAccount?))
    && (forall a: ScAddress :: WellFormedAddress(a) && a.MuxedAccount? ==> keys.muxedKey(keys.show(a)) == Some(a.key))
  }

  /** The standing assumptions: a faithful strkey library and a spec whose inner names are unique. */
  ghost predicate Sane(spec: ContractSpec, keys: Strkey) { Faithful(keys) && WellFormedTypes(spec) }

  ghost predicate ScalarTyped(sv: ScVal, ty: TypeDef) {
    match ty
    case TBool => sv.ScvBool?
    case TVoid => sv.ScvVoid?
    case TU32 => sv.ScvU32? && 0 <= sv.n < TWO_32
    case TI32 => sv.ScvI32? && -0x8000_0000 <= sv.n <= 0x7FFF_FFFF
    case TU64 => sv.ScvU64? && IsU64(sv.n)
    case TI64 => sv.ScvI64? && IsI64(sv.n)
    case TTimepoint => sv.ScvTimepoint? && IsU64(sv.n)
    case TDuration => sv.ScvDuration? && IsU64(sv.n)
    case TU128 => sv.ScvU128? && IsU64(sv.hi) && IsU64(sv.lo)
    case TI128 => sv.ScvI128? && IsI64(sv.hi) && IsU64(sv.lo)
    case TU256 => sv.ScvU256? && IsU64(sv.hiHi) && IsU64(sv.hiLo) && IsU64(sv.loHi) && IsU64(sv.loLo)
    case TI256 => sv.ScvI256? && IsI64(sv.hiHi) && IsU64(sv.hiLo) && IsU64(sv.loHi) && IsU64(sv.loLo)
    case TBytes => sv.ScvBytes? && |sv.bytes| < TWO_32
    case TBytesN(n) => sv.ScvBytes? && |sv.bytes| == n && n < TWO_32
    case TString => sv.ScvString? && IsText(sv.bytes) && |sv.bytes| < TWO_32
    case TSymbol => sv.ScvSymbol? && IsText(sv.bytes) && |sv.bytes| <= SYMBOL_LIMIT
    case TAddress => sv.ScvAddress? && WellFormedAddress(sv.address)
    case TMuxedAddress => sv.ScvAddress? && WellFormedAddress(sv.address) && !sv.address.MuxedAccount?
    case _ => false
  }

  ghost predicate SymbolNamed(sv: ScVal, name: string) {
    sv == ScvSymbol(Utf8.Encode(name)) && |Utf8.Encode(name)| <= SYMBOL_LIMIT
  }

  /** Every map strictly sorted by key, every integer in range, every user-defined value shaped as declared. */
  ghost predicate WellTyped(sv: ScVal, ty: TypeDef, spec: ContractSpec)
    decreases sv, 1, ty
  {
    match ty
    case TOption(t) => sv.ScvVoid? || WellTyped(sv, t, spec)
    case TVec(t) => sv.ScvVec? && AllTyped(sv.items, Repeat(t, |sv.items|), spec)
    case TTuple(ts) => TypedPositional(sv, ts, spec)
    case TMap(k, t) => sv.ScvMap? && CanonicalEntries(sv.entries) && EntriesTyped(sv.entries, k, t, spec)
    case TUdt(name) =>
      (match UdtOf(spec, name)
       case Some(StructDef(s)) =>
         if IsTupleStruct(s) then TypedPositional(sv, FieldTypes(s.fields), spec)
         else && sv.ScvMap? && CanonicalEntries(sv.entries) && |sv.entries| == |s.fields|
              && FieldsTyped(sv, s.fields, spec)
       case Some(EnumDef(e)) => sv.ScvU32? && exists i :: 0 <= i < |e.cases| && e.cases[i].value == sv.n < TWO_32
       case Some(UnionDef(u)) => UnionTyped(sv, u, spec)
       case None => false)
    case _ => ScalarTyped(sv, ty)
  }

  ghost predicate CanonicalEntries(entries: seq<Entry>) {
    |entries| < TWO_32 && Sorting.StrictlySorted(KeyBefore, entries)
  }

  ghost predicate TypedPositional(sv: ScVal, ts: seq<TypeDef>, spec: ContractSpec)
    decreases sv, 0
  {
    sv.ScvVec? && |sv.items| == |ts| && AllTyped(sv.items, ts, spec)
  }

  ghost predicate AllTyped(items: seq<ScVal>, ts: seq<TypeDef>, spec: ContractSpec)
    requires |items| == |ts|
    decreases items
  {
    |items| < TWO_32 && forall i :: 0 <= i < |items| ==> WellTyped(items[i], ts[i], spec)
  }

  ghost predicate EntriesTyped(entries: seq<Entry>, k: TypeDef, t: TypeDef, spec: ContractSpec)
    decreases entries
  {
    forall i :: 0 <= i < |entries| ==> EntryTyped(entries[i], k, t, spec)
  }

  ghost predicate EntryTyped(e: Entry, k: TypeDef, t: TypeDef, spec: ContractSpec)
    decreases e
  {
    WellTyped(e.key, k, spec) && WellTyped(e.val, t, spec)
  }

  ghost predicate FieldsTyped(sv: ScVal, fields: seq<Field>, spec: ContractSpec)
    requires sv.ScvMap?
    decreases sv, 0
  {
    forall i :: 0 <= i < |fields| ==> FieldTyped(sv, fields[i], spec)
  }

  ghost predicate FieldTyped(sv: ScVal, f: Field, spec: ContractSpec)
    requires sv.ScvMap?
    decreases sv, 0, 0
  {
    |Utf8.Encode(f.name)| <= SYMBOL_LIMIT
    && exists i :: 0 <= i < |sv.entries| && sv.entries[i].key == ScvSymbol(Utf8.Encode(f.name))
                   && EntryHolds(sv.entries[i], f.ty, spec)
  }

  ghost predicate EntryHolds(e: Entry, ty: TypeDef, spec: ContractSpec)
    decreases e
  {
    WellTyped(e.val, ty, spec)
  }

  ghost predicate UnionTyped(sv: ScVal, u: UdtUnion, spec: ContractSpec)
    decreases sv, 0
  {
    sv.ScvVec? && 1 <= |sv.items| < TWO_32 && exists c :: CaseTyped(sv, c, u, spec)
  }

  /** The value is the symbol of declared case `c` followed by values of its types. */
  ghost predicate CaseTyped(sv: ScVal, c: UnionCase, u: UdtUnion, spec: ContractSpec)
    requires sv.ScvVec? && 1 <= |sv.items| < TWO_32
    decreases sv, 0, 0
  {
    && c in u.cases && Find(UnionCaseName, u.cases, c.name) == Some(c) && SymbolNamed(sv.items[0], c.name)
    && |sv.items| == 1 + |c.tys|
    && forall i :: 0 <= i < |c.tys| ==> WellTyped(sv.items[i + 1], c.tys[i], spec)
  }
}
