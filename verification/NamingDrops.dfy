/** What naming leaves out of a JSON value, whatever the value and whatever the type. */
module NamingDrops {
  import opened Basics
  import opened Json
  import opened Spec
  import opened Relabeller
  import opened Naming

  // ---- how much a value holds ----

  /** Leaves and object keys; an empty array or object is a leaf. */
  function Weight(v: Json): (n: nat)
    ensures n >= 1
  {
    match v
    case Array(items) => if items == [] then 1 else WeightAll(items)
    case Object(members) => if members == [] then 1 else WeightMembers(members)
    case _ => 1
  }

  function WeightAll(vs: seq<Json>): (n: nat)
    ensures n >= |vs|
  {
    if vs == [] then 0 else Weight(vs[0]) + WeightAll(vs[1..])
  }

  function WeightMembers(ms: seq<Member>): (n: nat)
    ensures n >= 2 * |ms|
  {
    if ms == [] then 0 else 1 + Weight(ms[0].value) + WeightMembers(ms[1..])
  }

  // ---- where nothing is left out ----

  /** No union array that naming reads carries anything after a void case, no result object anything beside its `Ok` or
      `Err`, no map pair anything beside its key and value. */
  predicate Keeps(v: Json, ty: TypeDef, spec: ContractSpec)
    decreases Size(v), 1, ty
  {
    match ty
    case TOption(t) => v.Null? || Keeps(v, t, spec)
    case TVec(t) => v.Array? ==> KeepsEach(v.items, Repeat(t, |v.items|), spec)
    case TTuple(ts) => KeepsPositional(v, ts, spec)
    case TMap(k, t) =>
      (match v
       case Object(ms) => KeepsValues(ms, t, spec)
       case Array(items) => KeepsPairs(items, k, t, spec)
       case _ => true)
    case TResult(ok, err) =>
      (match (Relabeller.Field(v, "Ok"), Relabeller.Field(v, "Err"))
       case (Some(x), _) => |v.members| == 1 && Keeps(x, ok, spec)
       case (None, Some(x)) => |v.members| == 1 && Keeps(x, err, spec)
       case _ => true)
    case TUdt(name) =>
      (match UdtOf(spec, name)
       case Some(UnionDef(u)) => KeepsUnion(v, u, spec)
       case Some(StructDef(s)) =>
         if v.Object? then KeepsFields(v.members, s.fields, spec) else KeepsPositional(v, FieldTypes(s.fields), spec)
       case _ => true)
    case _ => true
  }

  predicate KeepsPositional(v: Json, ts: seq<TypeDef>, spec: ContractSpec)
    decreases Size(v), 0
  {
    v.Array? && |v.items| == |ts| ==> KeepsEach(v.items, ts, spec)
  }

  predicate KeepsEach(vs: seq<Json>, ts: seq<TypeDef>, spec: ContractSpec)
    requires |vs| == |ts|
    decreases SizeAll(vs), 0
  {
    vs == [] || (Keeps(vs[0], ts[0], spec) && KeepsEach(vs[1..], ts[1..], spec))
  }

  predicate KeepsValues(ms: seq<Member>, t: TypeDef, spec: ContractSpec)
    decreases SizeMembers(ms), 0
  {
    ms == [] || (Keeps(ms[0].value, t, spec) && KeepsValues(ms[1..], t, spec))
  }

  predicate KeepsPairs(vs: seq<Json>, k: TypeDef, t: TypeDef, spec: ContractSpec)
    decreases SizeAll(vs), 0
  {
    vs == [] || (KeepsPair(vs[0], k, t, spec) && KeepsPairs(vs[1..], k, t, spec))
  }

  predicate KeepsPair(v: Json, k: TypeDef, t: TypeDef, spec: ContractSpec)
    decreases Size(v), 0
  {
    match (Relabeller.Field(v, "key"), Relabeller.Field(v, "val"))
    case (Some(x), Some(y)) => |v.members| == 2 && Keeps(x, k, spec) && Keeps(y, t, spec)
    case _ => true
  }

  predicate KeepsFields(ms: seq<Member>, fields: seq<Spec.Field>, spec: ContractSpec)
    decreases SizeMembers(ms), 0
  {
    ms == []
    || ((match Find(FieldName, fields, ms[0].key)
         case Some(f) => Keeps(ms[0].value, f.ty, spec)
         case None => true)
        && KeepsFields(ms[1..], fields, spec))
  }

  predicate KeepsUnion(v: Json, u: UdtUnion, spec: ContractSpec)
    decreases Size(v), 0
  {
    match CaseOfArray(v, u)
    case None => true
    case Some(c) =>
      if c.tys == [] then |v.items| == 1
      else if |v.items| - 1 != |c.tys| then true
      else
        assert SizeAll(v.items) > SizeAll(v.items[1..]);
        KeepsEach(v.items[1..], c.tys, spec)
  }

  /** The declared case an array's first item names. */
  function CaseOfArray(v: Json, u: UdtUnion): (r: Option<UnionCase>)
    ensures r.Some? ==> v.Array? && v.items != [] && v.items[0] == Str(r.value.name)
  {
    if v.Array? && v.items != [] && v.items[0].Str? then Find(UnionCaseName, u.cases, v.items[0].text) else None
  }

  // ---- the theorem ----

  /** Naming never adds to a value, and leaves something out exactly where `Keeps` fails. */
  ghost predicate Balanced(named: nat, given: nat, keeps: bool) { named <= given && (named == given <==> keeps) }

  lemma {:induction false} NamingDropsIff(v: Json, ty: TypeDef, spec: ContractSpec)
    ensures Balanced(Weight(Relabel(v, ty, spec)), Weight(v), Keeps(v, ty, spec))
    decreases Size(v), 2, ty
  {
    hide RelabelPositional, KeepsPositional, WeightAll, WeightMembers;
    match ty
    case TOption(t) => if !v.Null? { NamingDropsIff(v, t, spec); }
    case TVec(t) => if v.Array? { EachDropsIff(v.items, Repeat(t, |v.items|), spec); }
    case TTuple(ts) => PositionalDropsIff(v, ts, spec);
    case TMap(k, t) =>
      if v.Object? { ValuesDropIff(v.members, t, spec); }
      if v.Array? { PairsDropIff(v.items, k, t, spec); }
    case TResult(ok, err) => ResultDropsIff(v, ok, err, spec);
    case TUdt(name) => UdtDropsIff(v, name, spec);
    case _ =>
  }

  lemma PositionalDropsIff(v: Json, ts: seq<TypeDef>, spec: ContractSpec)
    ensures Balanced(Weight(RelabelPositional(v, ts, spec)), Weight(v), KeepsPositional(v, ts, spec))
    decreases Size(v), 0
  {
    hide RelabelEach, KeepsEach;
    if v.Array? && |v.items| == |ts| { EachDropsIff(v.items, ts, spec); }
  }

  lemma {:induction false} EachDropsIff(vs: seq<Json>, ts: seq<TypeDef>, spec: ContractSpec)
    requires |vs| == |ts|
    ensures Balanced(WeightAll(RelabelEach(vs, ts, spec)), WeightAll(vs), KeepsEach(vs, ts, spec))
    decreases SizeAll(vs), 0
  {
    hide Relabel, Keeps, Weight;
    if vs != [] {
      NamingDropsIff(vs[0], ts[0], spec);
      EachDropsIff(vs[1..], ts[1..], spec);
      assert RelabelEach(vs, ts, spec)[1..] == RelabelEach(vs[1..], ts[1..], spec);
    }
  }

  lemma {:induction false} ValuesDropIff(ms: seq<Member>, t: TypeDef, spec: ContractSpec)
    ensures Balanced(WeightMembers(RelabelValues(ms, t, spec)), WeightMembers(ms), KeepsValues(ms, t, spec))
    decreases SizeMembers(ms), 0
  {
    hide Relabel, Keeps, Weight;
    if ms != [] {
      NamingDropsIff(ms[0].value, t, spec);
      ValuesDropIff(ms[1..], t, spec);
      assert RelabelValues(ms, t, spec)[1..] == RelabelValues(ms[1..], t, spec);
    }
  }

  lemma {:induction false} FieldsDropIff(ms: seq<Member>, fields: seq<Spec.Field>, spec: ContractSpec)
    ensures Balanced(WeightMembers(RelabelFields(ms, fields, spec)), WeightMembers(ms), KeepsFields(ms, fields, spec))
    decreases SizeMembers(ms), 0
  {
    hide Relabel, Keeps, Weight, Find;
    if ms != [] {
      var f := Find(FieldName, fields, ms[0].key);
      if f.Some? { NamingDropsIff(ms[0].value, f.value.ty, spec); }
      FieldsDropIff(ms[1..], fields, spec);
      assert RelabelFields(ms, fields, spec)[1..] == RelabelFields(ms[1..], fields, spec);
    }
  }

  lemma {:induction false} PairsDropIff(vs: seq<Json>, k: TypeDef, t: TypeDef, spec: ContractSpec)
    ensures |RelabelPairs(vs, k, t, spec)| == |vs|
    ensures Balanced(WeightAll(RelabelPairs(vs, k, t, spec)), WeightAll(vs), KeepsPairs(vs, k, t, spec))
    decreases SizeAll(vs), 0
  {
    hide RelabelPair, KeepsPair, Weight;
    if vs != [] {
      PairDropsIff(vs[0], k, t, spec);
      PairsDropIff(vs[1..], k, t, spec);
      assert RelabelPairs(vs, k, t, spec)[1..] == RelabelPairs(vs[1..], k, t, spec);
    }
  }

  lemma PairDropsIff(v: Json, k: TypeDef, t: TypeDef, spec: ContractSpec)
    ensures Balanced(Weight(RelabelPair(v, k, t, spec)), Weight(v), KeepsPair(v, k, t, spec))
    decreases Size(v), 0
  {
    hide Relabel, Keeps;
    var x, y := Relabeller.Field(v, "key"), Relabeller.Field(v, "val");
    if x.Some? && y.Some? {
      NamingDropsIff(x.value, k, spec);
      NamingDropsIff(y.value, t, spec);
      WeighsBoth(v.members, "key", "val");
      WeighTwo(Member("key", Relabel(x.value, k, spec)), Member("val", Relabel(y.value, t, spec)));
    }
  }

  lemma WeighOne(m: Member)
    ensures Weight(Object([m])) == 1 + Weight(m.value)
  {
    assert [m][1..] == [];
    assert WeightMembers([m]) == 1 + Weight(m.value);
  }

  lemma WeighTwo(m: Member, n: Member)
    ensures Weight(Object([m, n])) == 2 + Weight(m.value) + Weight(n.value)
  {
    assert [m, n][1..] == [n] && [n][1..] == [];
    assert WeightMembers([n]) == 1 + Weight(n.value);
  }

  /** One member weighs less than all, unless it is all. */
  lemma {:induction false} WeighsOne(ms: seq<Member>, key: string)
    requires Get(ms, key).Some?
    ensures var one := 1 + Weight(Get(ms, key).value);
      one <= WeightMembers(ms) && (one == WeightMembers(ms) <==> |ms| == 1)
  {
    hide Weight;
    if ms[0].key != key { WeighsOne(ms[1..], key); }
  }

  lemma {:induction false} WeighsBoth(ms: seq<Member>, key: string, other: string)
    requires key != other && Get(ms, key).Some? && Get(ms, other).Some?
    ensures var two := 2 + Weight(Get(ms, key).value) + Weight(Get(ms, other).value);
      two <= WeightMembers(ms) && (two == WeightMembers(ms) <==> |ms| == 2)
  {
    hide Weight;
    if ms[0].key == key {
      WeighsOne(ms[1..], other);
    } else if ms[0].key == other {
      WeighsOne(ms[1..], key);
    } else {
      WeighsBoth(ms[1..], key, other);
    }
  }

  lemma ResultDropsIff(v: Json, ok: TypeDef, err: TypeDef, spec: ContractSpec)
    ensures Balanced(Weight(Relabel(v, TResult(ok, err), spec)), Weight(v), Keeps(v, TResult(ok, err), spec))
    decreases Size(v), 0
  {
    hide WeightMembers;
    var x, y := Relabeller.Field(v, "Ok"), Relabeller.Field(v, "Err");
    if x.Some? {
      NamingDropsIff(x.value, ok, spec);
      WeighsOne(v.members, "Ok");
      WeighOne(Member("Ok", Relabel(x.value, ok, spec)));
    } else if y.Some? {
      NamingDropsIff(y.value, err, spec);
      WeighsOne(v.members, "Err");
      WeighOne(Member("Err", Relabel(y.value, err, spec)));
    }
  }

  lemma UdtDropsIff(v: Json, name: string, spec: ContractSpec)
    ensures Balanced(Weight(Relabel(v, TUdt(name), spec)), Weight(v), Keeps(v, TUdt(name), spec))
    decreases Size(v), 1
  {
    hide UdtOf, RelabelEnum, RelabelUnion, RelabelFields, RelabelPositional, KeepsUnion, KeepsFields, KeepsPositional;
    match UdtOf(spec, name)
    case Some(EnumDef(e)) => EnumKeeps(v, e);
    case Some(UnionDef(u)) => UnionDropsIff(v, u, spec);
    case Some(StructDef(s)) =>
      if v.Object? {
        FieldsDropIff(v.members, s.fields, spec);
      } else {
        PositionalDropsIff(v, FieldTypes(s.fields), spec);
      }
    case None =>
  }

  lemma EnumKeeps(v: Json, e: UdtEnum)
    ensures Weight(RelabelEnum(v, e)) == Weight(v)
  {
  }

  lemma UnionDropsIff(v: Json, u: UdtUnion, spec: ContractSpec)
    ensures Balanced(Weight(RelabelUnion(v, u, spec)), Weight(v), KeepsUnion(v, u, spec))
    decreases Size(v), 0
  {
    hide Find, RelabelEach, KeepsEach;
    match CaseOfArray(v, u)
    case None =>
    case Some(c) =>
      var rest := v.items[1..];
      assert WeightAll(v.items) == 1 + WeightAll(rest);
      if c.tys != [] && |rest| == |c.tys| {
        assert SizeAll(v.items) > SizeAll(rest);
        EachDropsIff(rest, c.tys, spec);
        WeighOne(Member(c.name, Array(RelabelEach(rest, c.tys, spec))));
      }
  }

  // ---- one union ----

  /** The array is named: it is of a void case, or of a case whose payload it carries. */
  predicate IsNamed(v: Json, u: UdtUnion) {
    var c := CaseOfArray(v, u);
    c.Some? && (c.value.tys == [] || |v.items| - 1 == |c.value.tys|)
  }

  /** Two arrays are named alike exactly when both are of one void case, whatever follows, or of one case with payloads
      named alike, or naming reads neither and they are the same. */
  lemma UnionsNamedAlikeIff(v: Json, w: Json, u: UdtUnion, spec: ContractSpec)
    requires v.Array? && w.Array?
    ensures SameJson(RelabelUnion(v, u, spec), RelabelUnion(w, u, spec)) <==>
            if IsNamed(v, u) && IsNamed(w, u) then SameCaseNamed(v, w, u, spec)
            else !IsNamed(v, u) && !IsNamed(w, u) && SameJson(v, w)
  {
    NamedArray(v, u, spec);
    NamedArray(w, u, spec);
    if IsNamed(v, u) && IsNamed(w, u) {
      var c, d := CaseOfArray(v, u).value, CaseOfArray(w, u).value;
      SameCaseIff(c, d, Payload(v, u, spec), Payload(w, u, spec));
    }
  }

  predicate IsVoid(c: UnionCase) { c.tys == [] }

  function Payload(v: Json, u: UdtUnion, spec: ContractSpec): seq<Json>
    requires IsNamed(v, u)
  {
    var c := CaseOfArray(v, u).value;
    if IsVoid(c) then [] else RelabelEach(v.items[1..], c.tys, spec)
  }

  ghost predicate SameCaseNamed(v: Json, w: Json, u: UdtUnion, spec: ContractSpec)
    requires IsNamed(v, u) && IsNamed(w, u)
  {
    && CaseOfArray(v, u) == CaseOfArray(w, u)
    && (IsVoid(CaseOfArray(v, u).value) || SameJson(Array(Payload(v, u, spec)), Array(Payload(w, u, spec))))
  }

  /** A value that names no case, or a case whose payload it does not carry, stays as it is. */
  lemma NamedArray(v: Json, u: UdtUnion, spec: ContractSpec)
    ensures RelabelUnion(v, u, spec)
            == if IsNamed(v, u) then CaseJson(CaseOfArray(v, u).value, Payload(v, u, spec)) else v
  {
    hide Find, RelabelEach;
  }

  lemma SameCaseIff(c: UnionCase, d: UnionCase, xs: seq<Json>, ys: seq<Json>)
    requires c.name == d.name ==> c == d
    ensures SameJson(CaseJson(c, xs), CaseJson(d, ys)) <==> c == d && (IsVoid(c) || SameJson(Array(xs), Array(ys)))
  {
    if SameJson(CaseJson(c, xs), CaseJson(d, ys)) { SameCase(c, d, xs, ys); }
    if c == d && !IsVoid(c) && SameJson(Array(xs), Array(ys)) {
      var m, n := Member(c.name, Array(xs)), Member(c.name, Array(ys));
      assert SameMember(m, n) && [n][0] == n;
      assert Matched(m, [n]);
    }
  }
}
