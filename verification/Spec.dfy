/** A contract's parsed interface. */
module Spec {
  import opened Basics

  datatype TypeDef =
    | TVal | TBool | TVoid | TError
    | TU32 | TI32 | TU64 | TI64 | TTimepoint | TDuration
    | TU128 | TI128 | TU256 | TI256
    | TBytes | TString | TSymbol | TAddress | TMuxedAddress
    | TOption(value: TypeDef)
    | TResult(ok: TypeDef, err: TypeDef)
    | TVec(elem: TypeDef)
    | TMap(key: TypeDef, val: TypeDef)
    | TTuple(types: seq<TypeDef>)
    | TBytesN(n: nat)
    | TUdt(name: string)

  datatype Field = Field(name: string, ty: TypeDef)
  datatype FunctionSpec = FunctionSpec(name: string, inputs: seq<Field>, outputs: seq<TypeDef>)
  datatype UdtStruct = UdtStruct(name: string, fields: seq<Field>)
  datatype UnionCase = UnionCase(name: string, tys: seq<TypeDef>)
  datatype UdtUnion = UdtUnion(name: string, cases: seq<UnionCase>)
  datatype EnumCase = EnumCase(name: string, value: nat)
  datatype UdtEnum = UdtEnum(name: string, cases: seq<EnumCase>)

  datatype DataFormat = SingleValue | VecData | MapData
  datatype EventParam = EventParam(name: string, ty: TypeDef, inTopics: bool)
  datatype EventSpec = EventSpec(name: string, prefixTopics: seq<string>, params: seq<EventParam>, format: DataFormat)

  /** Error enums share the shape of unit enums but are not resolvable as value types. */
  datatype ContractSpec = ContractSpec(
    functions: seq<FunctionSpec>,
    events: seq<EventSpec>,
    structs: seq<UdtStruct>,
    unions: seq<UdtUnion>,
    enums: seq<UdtEnum>,
    errors: seq<UdtEnum>)

  datatype UdtDef = StructDef(s: UdtStruct) | UnionDef(u: UdtUnion) | EnumDef(e: UdtEnum)

  // ---- name lookup: the first declaration wins ----

  /** The first position whose item has the wanted name, or the length. */
  function Position<T>(nameOf: T -> string, xs: seq<T>, want: string): (i: nat)
    ensures i <= |xs|
    ensures i < |xs| ==> nameOf(xs[i]) == want
    ensures forall k :: 0 <= k < i ==> nameOf(xs[k]) != want
  {
    if xs == [] || nameOf(xs[0]) == want then 0 else 1 + Position(nameOf, xs[1..], want)
  }

  function Find<T>(nameOf: T -> string, xs: seq<T>, want: string): (r: Option<T>)
    ensures r.Some? ==> r.value in xs && nameOf(r.value) == want
    ensures r.None? ==> forall x :: x in xs ==> nameOf(x) != want
  {
    var i := Position(nameOf, xs, want);
    if i < |xs| then Some(xs[i]) else None
  }

  ghost predicate DistinctNames<T>(nameOf: T -> string, xs: seq<T>) {
    forall i, j :: 0 <= i < j < |xs| ==> nameOf(xs[i]) != nameOf(xs[j])
  }

  /** With distinct names, a name finds exactly its own item. */
  lemma FindDistinct<T>(nameOf: T -> string, xs: seq<T>, i: nat)
    requires i < |xs| && DistinctNames(nameOf, xs)
    ensures Find(nameOf, xs, nameOf(xs[i])) == Some(xs[i])
  {
    var k := Position(nameOf, xs, nameOf(xs[i]));
    assert k <= i;
  }

  /** Appending items never changes what an already resolvable name finds. */
  lemma FindExtended<T>(nameOf: T -> string, xs: seq<T>, more: seq<T>, want: string)
    requires xs <= more
    requires Find(nameOf, xs, want).Some?
    ensures Find(nameOf, more, want) == Find(nameOf, xs, want)
  {
    var i, k := Position(nameOf, xs, want), Position(nameOf, more, want);
    assert more[i] == xs[i];
    assert k <= i;
    assert more[k] == xs[k];
  }

  function FunctionName(f: FunctionSpec): string { f.name }
  function FieldName(f: Field): string { f.name }
  function StructName(s: UdtStruct): string { s.name }
  function UnionName(u: UdtUnion): string { u.name }
  function EnumName(e: UdtEnum): string { e.name }
  function UnionCaseName(c: UnionCase): string { c.name }
  function EnumCaseName(c: EnumCase): string { c.name }
  function EventName(e: EventSpec): string { e.name }

  /** `udt_def`: enums are probed first, then unions, then structs. */
  function UdtOf(spec: ContractSpec, name: string): (r: Option<UdtDef>) {
    match Find(EnumName, spec.enums, name)
    case Some(e) => Some(EnumDef(e))
    case None =>
      match Find(UnionName, spec.unions, name)
      case Some(u) => Some(UnionDef(u))
      case None =>
        match Find(StructName, spec.structs, name)
        case Some(s) => Some(StructDef(s))
        case None => None
  }

  /** soroban-sdk names tuple-struct fields "0", "1", ...; such a struct is encoded positionally. */
  predicate IsTupleStruct(s: UdtStruct) {
    s.fields != [] && forall i :: 0 <= i < |s.fields| ==> AllNameDigits(s.fields[i].name)
  }

  predicate AllNameDigits(name: string) { forall i :: 0 <= i < |name| ==> '0' <= name[i] <= '9' }

  /** The field types of a struct, in declaration order. */
  function FieldTypes(fields: seq<Field>): (ts: seq<TypeDef>)
    ensures |ts| == |fields| && forall i :: 0 <= i < |ts| ==> ts[i] == fields[i].ty
  {
    if fields == [] then [] else [fields[0].ty] + FieldTypes(fields[1..])
  }

  function Repeat(t: TypeDef, n: nat): (ts: seq<TypeDef>)
    ensures |ts| == n && forall i :: 0 <= i < n ==> ts[i] == t
  {
    if n == 0 then [] else [t] + Repeat(t, n - 1)
  }

  /** Names are unique wherever a lookup goes by name inside one type, and discriminants are 32-bit. */
  ghost predicate WellFormedTypes(spec: ContractSpec) {
    && (forall e :: e in spec.enums ==> DistinctNames(EnumCaseName, e.cases))
    && (forall e :: e in spec.enums ==> forall c :: c in e.cases ==> c.value < TWO_32)
    && (forall s :: s in spec.structs ==> DistinctNames(FieldName, s.fields))
  }

  /** A resolved type is a declared one. */
  lemma UdtDeclared(spec: ContractSpec, name: string)
    requires UdtOf(spec, name).Some?
    ensures var def := UdtOf(spec, name).value;
            && (def.EnumDef? ==> def.e in spec.enums)
            && (def.UnionDef? ==> def.u in spec.unions)
            && (def.StructDef? ==> def.s in spec.structs)
  {
  }
}
