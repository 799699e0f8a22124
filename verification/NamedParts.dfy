/** What naming makes of a value, part by part, and what it leaves as it is. */
module NamedParts {
  import opened Basics
  import opened Json
  import opened Spec
  import opened Relabeller

  /** Vectors, tuples and positional structs that line up with their types are named item by item. */
  lemma VecNamed(vs: seq<Json>, t: TypeDef, spec: ContractSpec, i: nat)
    requires i < |vs|
    ensures NamedAt(Relabel(Array(vs), TVec(t), spec), vs, t, spec, i)
  {
    EachNamed(vs, Repeat(t, |vs|), spec, i);
    hide RelabelEach;
  }

  lemma TupleNamed(vs: seq<Json>, ts: seq<TypeDef>, spec: ContractSpec, i: nat)
    requires i < |vs| == |ts|
    ensures NamedAt(Relabel(Array(vs), TTuple(ts), spec), vs, ts[i], spec, i)
  {
    EachNamed(vs, ts, spec, i);
    hide RelabelEach;
    assert Relabel(Array(vs), TTuple(ts), spec) == RelabelPositional(Array(vs), ts, spec);
  }

  lemma PositionalNamed(vs: seq<Json>, name: string, s: UdtStruct, spec: ContractSpec, i: nat)
    requires i < |vs| == |s.fields| && UdtOf(spec, name) == Some(StructDef(s))
    ensures NamedAt(Relabel(Array(vs), TUdt(name), spec), vs, s.fields[i].ty, spec, i)
  {
    EachNamed(vs, FieldTypes(s.fields), spec, i);
    UdtNamed(Array(vs), name, StructDef(s), spec);
    hide RelabelEach, UdtOf, Relabel;
  }

  predicate NamedAt(w: Json, vs: seq<Json>, t: TypeDef, spec: ContractSpec, i: nat)
    requires i < |vs|
  {
    w.Array? && |w.items| == |vs| && w.items[i] == Relabel(vs[i], t, spec)
  }

  lemma {:induction false} EachNamed(vs: seq<Json>, ts: seq<TypeDef>, spec: ContractSpec, i: nat)
    requires i < |vs| == |ts|
    ensures RelabelEach(vs, ts, spec)[i] == Relabel(vs[i], ts[i], spec)
  {
    hide Relabel;
    if i > 0 { EachNamed(vs[1..], ts[1..], spec, i - 1); }
  }

  /** Members of a map keep their keys; their values are named at the value type. Pairs are named on both sides. */
  lemma EntriesNamed(v: Json, k: TypeDef, t: TypeDef, spec: ContractSpec, i: nat)
    ensures v.Object? && i < |v.members| ==>
      var w := Relabel(v, TMap(k, t), spec);
      w.Object? && |w.members| == |v.members|
      && w.members[i] == Member(v.members[i].key, Relabel(v.members[i].value, t, spec))
    ensures v.Array? && i < |v.items| ==>
      var w := Relabel(v, TMap(k, t), spec);
      w.Array? && |w.items| == |v.items| && w.items[i] == RelabelPair(v.items[i], k, t, spec)
  {
    hide RelabelValues, RelabelPairs, RelabelPair;
    if v.Object? && i < |v.members| { ValuesNamed(v.members, t, spec, i); }
    if v.Array? && i < |v.items| { PairsNamed(v.items, k, t, spec, i); }
  }

  lemma {:induction false} ValuesNamed(ms: seq<Member>, t: TypeDef, spec: ContractSpec, i: nat)
    requires i < |ms|
    ensures RelabelValues(ms, t, spec)[i] == Member(ms[i].key, Relabel(ms[i].value, t, spec))
  {
    hide Relabel;
    if i > 0 { ValuesNamed(ms[1..], t, spec, i - 1); }
  }

  lemma {:induction false} PairsNamed(vs: seq<Json>, k: TypeDef, t: TypeDef, spec: ContractSpec, i: nat)
    requires i < |vs|
    ensures |RelabelPairs(vs, k, t, spec)| == |vs| && RelabelPairs(vs, k, t, spec)[i] == RelabelPair(vs[i], k, t, spec)
    decreases |vs|
  {
    hide RelabelPair;
    if |vs| > 1 { PairsNamed(vs[1..], k, t, spec, if i > 0 then i - 1 else 0); }
  }

  lemma PairNamed(v: Json, x: Json, y: Json, k: TypeDef, t: TypeDef, spec: ContractSpec)
    ensures v.Object? && Get(v.members, "key") == Some(x) && Get(v.members, "val") == Some(y) ==>
              RelabelPair(v, k, t, spec)
              == Object([Member("key", Relabel(x, k, spec)), Member("val", Relabel(y, t, spec))])
    ensures !v.Object? || "key" !in Keys(v.members) || "val" !in Keys(v.members) ==> RelabelPair(v, k, t, spec) == v
  {
    hide Relabel;
  }

  /** A result is named under the label it has, at that label's type; a value with neither label is left alone. */
  lemma ResultNamed(v: Json, x: Json, ok: TypeDef, err: TypeDef, spec: ContractSpec)
    ensures v.Object? && Get(v.members, "Ok") == Some(x) ==>
              Relabel(v, TResult(ok, err), spec) == Object([Member("Ok", Relabel(x, ok, spec))])
    ensures v.Object? && "Ok" !in Keys(v.members) && Get(v.members, "Err") == Some(x) ==>
              Relabel(v, TResult(ok, err), spec) == Object([Member("Err", Relabel(x, err, spec))])
    ensures !v.Object? || ("Ok" !in Keys(v.members) && "Err" !in Keys(v.members)) ==>
              Relabel(v, TResult(ok, err), spec) == v
  {
  }

  /** A struct's declared fields are named at their types; members that are no field stay as they are. */
  lemma {:induction false} FieldsNamed(ms: seq<Member>, fields: seq<Spec.Field>, spec: ContractSpec, i: nat)
    requires i < |ms|
    ensures RelabelFields(ms, fields, spec)[i].key == ms[i].key
    ensures match Find(FieldName, fields, ms[i].key)
      case Some(f) => RelabelFields(ms, fields, spec)[i].value == Relabel(ms[i].value, f.ty, spec)
      case None => RelabelFields(ms, fields, spec)[i].value == ms[i].value
  {
    hide Relabel, Find;
    if i > 0 { FieldsNamed(ms[1..], fields, spec, i - 1); }
  }

  /** A declared discriminant becomes the name of the last case that has it; anything else at an enum stays. */
  lemma DiscriminantNamed(v: Json, e: UdtEnum, i: nat)
    requires forall c :: c in e.cases ==> c.value < TWO_32
    ensures i < |e.cases| && v == Int(e.cases[i].value)
            && (forall j :: i < j < |e.cases| ==> e.cases[j].value != e.cases[i].value) ==>
              RelabelEnum(v, e) == Str(e.cases[i].name)
    ensures (forall j :: 0 <= j < |e.cases| ==> v != Int(e.cases[j].value)) ==> RelabelEnum(v, e) == v
  {
    if i < |e.cases| && v == Int(e.cases[i].value) {
      assert e.cases[i] in e.cases;
      if forall j :: i < j < |e.cases| ==> e.cases[j].value != e.cases[i].value { LastCase(e.cases, i); }
    }
  }

  lemma {:induction false} LastCase(cases: seq<EnumCase>, i: nat)
    requires i < |cases| && forall j :: i < j < |cases| ==> cases[j].value != cases[i].value
    ensures CaseNamed(cases, cases[i].value) == Some(cases[i].name)
  {
    if i < |cases| - 1 { LastCase(cases[..|cases| - 1], i); }
  }

  /** Null at an option, a scalar type, an undeclared name, and a value of another shape than its type: unchanged. */
  lemma LeftAlone(v: Json, ty: TypeDef, spec: ContractSpec)
    ensures ty.TOption? && v.Null? ==> Relabel(v, ty, spec) == v
    ensures ty.TOption? && !v.Null? ==> Relabel(v, ty, spec) == Relabel(v, ty.value, spec)
    ensures !(ty.TOption? || ty.TVec? || ty.TTuple? || ty.TMap? || ty.TResult? || ty.TUdt?) ==>
              Relabel(v, ty, spec) == v
    ensures ty.TUdt? && UdtOf(spec, ty.name).None? ==> Relabel(v, ty, spec) == v
    ensures ty.TVec? && !v.Array? ==> Relabel(v, ty, spec) == v
    ensures ty.TTuple? && !(v.Array? && |v.items| == |ty.types|) ==> Relabel(v, ty, spec) == v
    ensures ty.TMap? && !v.Object? && !v.Array? ==> Relabel(v, ty, spec) == v
  {
    hide RelabelEach, RelabelValues, RelabelPairs, RelabelFields, RelabelUnion, RelabelEnum;
  }

  /** A struct is named by its members if it is an object, by position if it lines up, and otherwise not at all. */
  lemma StructNamed(v: Json, name: string, s: UdtStruct, spec: ContractSpec)
    requires UdtOf(spec, name) == Some(StructDef(s))
    ensures v.Object? ==> Relabel(v, TUdt(name), spec) == Object(RelabelFields(v.members, s.fields, spec))
    ensures !v.Object? && !(v.Array? && |v.items| == |s.fields|) ==> Relabel(v, TUdt(name), spec) == v
  {
    UdtNamed(v, name, StructDef(s), spec);
    hide Relabel, RelabelFields, RelabelEach, UdtOf;
  }
}
