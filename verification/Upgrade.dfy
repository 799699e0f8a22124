/** What the diff's verdict promises about calls and results across an upgrade. */
module Upgrade {
  import opened Basics
  import opened Json
  import opened ScVal
  import opened Spec
  import opened Encoder
  import opened Relabeller
  import opened Call
  import opened Render
  import opened Signatures
  import opened Diff
  import opened DiffPartition
  import Decimal

  // ---- interfaces whose rendering can be read back ----

  ghost predicate DistinctTypeNames(spec: ContractSpec) {
    && DistinctNames(StructName, spec.structs) && DistinctNames(UnionName, spec.unions)
    && DistinctNames(EnumName, spec.enums) && DistinctNames(EnumName, spec.errors)
    && (forall s, u :: s in spec.structs && u in spec.unions ==> s.name != u.name)
    && (forall s, e :: s in spec.structs && e in spec.enums ==> s.name != e.name)
    && (forall s, r :: s in spec.structs && r in spec.errors ==> s.name != r.name)
    && (forall u, e :: u in spec.unions && e in spec.enums ==> u.name != e.name)
    && (forall u, r :: u in spec.unions && r in spec.errors ==> u.name != r.name)
    && (forall e, r :: e in spec.enums && r in spec.errors ==> e.name != r.name)
  }

  ghost predicate ReadableTypes(spec: ContractSpec) {
    && DistinctTypeNames(spec)
    && (forall s :: s in spec.structs ==> ReadableStruct(s))
    && (forall u :: u in spec.unions ==> ReadableUnion(u))
    && (forall e :: e in spec.enums ==> ReadableEnum(e))
    && (forall r :: r in spec.errors ==> ReadableEnum(r))
  }

  ghost predicate ReadableFunctions(spec: ContractSpec) {
    && DistinctNames(FunctionName, spec.functions)
    && (forall f :: f in spec.functions ==> ReadableFunction(f))
  }

  // ---- signature maps hold what was declared ----

  lemma {:induction false} AddAllFinds<T, V>(m: map<string, V>, nameOf: T -> string, valueOf: T -> V, xs: seq<T>,
                                             i: nat)
    requires i < |xs| && DistinctNames(nameOf, xs)
    ensures nameOf(xs[i]) in AddAll(m, nameOf, valueOf, xs)
    ensures AddAll(m, nameOf, valueOf, xs)[nameOf(xs[i])] == valueOf(xs[i])
  {
    if i < |xs| - 1 { AddAllFinds(m, nameOf, valueOf, xs[..|xs| - 1], i); }
  }

  lemma {:induction false} AddAllKeeps<T, V>(m: map<string, V>, nameOf: T -> string, valueOf: T -> V, xs: seq<T>,
                                             name: string)
    requires forall x :: x in xs ==> nameOf(x) != name
    ensures name in AddAll(m, nameOf, valueOf, xs) <==> name in m
    ensures name in m ==> AddAll(m, nameOf, valueOf, xs)[name] == m[name]
  {
    if xs != [] {
      assert xs[|xs| - 1] in xs;
      AddAllKeeps(m, nameOf, valueOf, xs[..|xs| - 1], name);
    }
  }

  /** With distinct names, a lookup in the map is a lookup in the list. */
  lemma AddAllIsFind<T, V>(m: map<string, V>, nameOf: T -> string, valueOf: T -> V, xs: seq<T>, name: string)
    requires DistinctNames(nameOf, xs)
    ensures var all := AddAll(m, nameOf, valueOf, xs);
            match Find(nameOf, xs, name)
            case Some(x) => name in all && all[name] == valueOf(x)
            case None => (name in all <==> name in m) && (name in m ==> all[name] == m[name])
  {
    hide AddAll;
    var i := Position(nameOf, xs, name);
    if i < |xs| {
      AddAllFinds(m, nameOf, valueOf, xs, i);
    } else {
      AddAllKeeps(m, nameOf, valueOf, xs, name);
    }
  }

  /** The signature of whichever type has this name. */
  function TypeSigOf(spec: ContractSpec, name: string): Option<string> {
    match UdtOf(spec, name)
    case Some(StructDef(s)) => Some(StructSig(s))
    case Some(UnionDef(u)) => Some(UnionSig(u))
    case Some(EnumDef(e)) => Some(EnumSig(e))
    case None =>
      match Find(EnumName, spec.errors, name)
      case Some(r) => Some(ErrorSig(r))
      case None => None
  }

  lemma TypeMapLookup(spec: ContractSpec, name: string)
    requires DistinctTypeNames(spec)
    ensures name in TypeSigMap(spec) <==> TypeSigOf(spec, name).Some?
    ensures name in TypeSigMap(spec) ==> TypeSigMap(spec)[name] == TypeSigOf(spec, name).value
  {
    hide AddAll, StructSig, UnionSig, EnumSig, ErrorSig, Find;
    var s := AddAll(map[], StructName, StructSig, spec.structs);
    var u := AddAll(s, UnionName, UnionSig, spec.unions);
    var e := AddAll(u, EnumName, EnumSig, spec.enums);
    AddAllIsFind(map[], StructName, StructSig, spec.structs, name);
    AddAllIsFind(s, UnionName, UnionSig, spec.unions, name);
    AddAllIsFind(u, EnumName, EnumSig, spec.enums, name);
    AddAllIsFind(e, EnumName, ErrorSig, spec.errors, name);
  }

  // ---- what a non-breaking type section leaves in place ----

  /** The new definition still means what the old one did: equal, or the old with cases appended. */
  ghost predicate Continues(a: UdtDef, b: UdtDef) {
    match (a, b)
    case (StructDef(s), StructDef(t)) => s == t
    case (UnionDef(u), UnionDef(w)) => u.name == w.name && u.cases <= w.cases
    case (EnumDef(e), EnumDef(f)) => e.name == f.name && e.cases <= f.cases
    case _ => false
  }

  ghost predicate ContinuesAt(old_: ContractSpec, new_: ContractSpec, name: string) {
    UdtOf(old_, name).Some? ==>
      UdtOf(new_, name).Some? && Continues(UdtOf(old_, name).value, UdtOf(new_, name).value)
  }

  ghost predicate Extends(old_: ContractSpec, new_: ContractSpec) {
    forall name :: ContinuesAt(old_, new_, name)
  }

  /** Equal type signatures come from equal definitions. */
  lemma SameSigSameType(old_: ContractSpec, new_: ContractSpec, name: string)
    requires ReadableTypes(old_) && ReadableTypes(new_) && UdtOf(old_, name).Some?
    requires TypeSigOf(new_, name) == TypeSigOf(old_, name)
    ensures UdtOf(new_, name) == UdtOf(old_, name)
  {
    hide StructSig, UnionSig, EnumSig, ErrorSig, DistinctTypeNames, ReadableStruct, ReadableUnion, ReadableEnum;
    var d := UdtOf(old_, name).value;
    var dummyS, dummyU, dummyE := UdtStruct("", []), UdtUnion("", []), UdtEnum("", []);
    var er := Find(EnumName, new_.errors, name);
    var r := if er.Some? then er.value else dummyE;
    match (d, UdtOf(new_, name)) {
      case (StructDef(s), Some(StructDef(t))) => StructSigUnambiguous(s, t);
      case (UnionDef(u), Some(UnionDef(w))) => UnionSigUnambiguous(u, w);
      case (EnumDef(e), Some(EnumDef(f))) => EnumSigUnambiguous(e, f);
      case (StructDef(s), Some(UnionDef(w))) => KindsDiffer(s, w, dummyE, dummyE);
      case (StructDef(s), Some(EnumDef(f))) => KindsDiffer(s, dummyU, f, dummyE);
      case (StructDef(s), None) => KindsDiffer(s, dummyU, dummyE, r);
      case (UnionDef(u), Some(StructDef(t))) => KindsDiffer(t, u, dummyE, dummyE);
      case (UnionDef(u), Some(EnumDef(f))) => KindsDiffer(dummyS, u, f, dummyE);
      case (UnionDef(u), None) => KindsDiffer(dummyS, u, dummyE, r);
      case (EnumDef(e), Some(StructDef(t))) => KindsDiffer(t, dummyU, e, dummyE);
      case (EnumDef(e), Some(UnionDef(w))) => KindsDiffer(dummyS, w, e, dummyE);
      case (EnumDef(e), None) => KindsDiffer(dummyS, dummyU, e, r);
    }
  }

  lemma {:induction false} SameNamesSameTypes(xs: seq<TypeDef>, ys: seq<TypeDef>)
    requires AllReadable(xs) && AllReadable(ys) && Map(TypeName, xs) == Map(TypeName, ys)
    ensures xs == ys
  {
    assert |xs| == |Map(TypeName, xs)| && |ys| == |Map(TypeName, ys)|;
    forall i | 0 <= i < |xs| ensures xs[i] == ys[i] {
      assert Map(TypeName, xs)[i] == Map(TypeName, ys)[i];
      assert TypeName(xs[i]) + "" == TypeName(ys[i]) + "";
      TypeNameUnambiguous(xs[i], ys[i], "", "");
    }
  }

  lemma AppendedCasesArePrefix(o: UdtUnion, n: UdtUnion)
    requires ReadableUnion(o) && ReadableUnion(n) && CasesAppended(o.cases, n.cases)
    ensures o.cases <= n.cases
  {
    hide Map;
    forall i | 0 <= i < |o.cases| ensures o.cases[i] == n.cases[i] {
      assert ReadableCase(o.cases[i]) && ReadableCase(n.cases[i]);
      SameNamesSameTypes(o.cases[i].tys, n.cases[i].tys);
    }
  }

  /** A type moved aside as potentially breaking kept every old case. */
  lemma SoftenedContinues(old_: ContractSpec, new_: ContractSpec, name: string)
    requires ReadableTypes(old_) && ReadableTypes(new_) && AddedCasesOnly(old_, new_, name)
    ensures UdtOf(old_, name).Some? && ContinuesAt(old_, new_, name)
  {
    match (Find(UnionName, old_.unions, name), Find(UnionName, new_.unions, name))
    case (Some(o), Some(n)) =>
      AppendedCasesArePrefix(o, n);
      assert Find(EnumName, old_.enums, name).None? && Find(EnumName, new_.enums, name).None?;
    case _ =>
  }

  lemma NonBreakingTypesExtend(old_: ContractSpec, new_: ContractSpec)
    requires ReadableTypes(old_) && ReadableTypes(new_) && !Between(old_, new_).types.HasBreaking()
    ensures Extends(old_, new_)
  {
    forall name ensures ContinuesAt(old_, new_, name) { NonBreakingTypeContinues(old_, new_, name); }
  }

  lemma ReadableTypesDistinct(spec: ContractSpec)
    requires ReadableTypes(spec)
    ensures DistinctTypeNames(spec)
  {
  }

  lemma NonBreakingTypeContinues(old_: ContractSpec, new_: ContractSpec, name: string)
    requires ReadableTypes(old_) && ReadableTypes(new_) && !Between(old_, new_).types.HasBreaking()
    ensures ContinuesAt(old_, new_, name)
  {
    hide Between, TypeSigMap, AddedCasesOnly, UdtOf, ReadableTypes;
    ReadableTypesDistinct(old_);
    ReadableTypesDistinct(new_);
    TypeMapLookup(old_, name);
    TypeMapLookup(new_, name);
    if UdtOf(old_, name).Some? {
      QuietType(old_, new_, name);
      if !AddedCasesOnly(old_, new_, name) {
        SameSigSameType(old_, new_, name);
      } else {
        SoftenedContinues(old_, new_, name);
      }
    }
  }

  /** Where no type breaks, each old name keeps its text or is softened. */
  lemma QuietType(old_: ContractSpec, new_: ContractSpec, name: string)
    requires !Between(old_, new_).types.HasBreaking() && name in TypeSigMap(old_)
    ensures AddedCasesOnly(old_, new_, name)
            || (name in TypeSigMap(new_) && TypeSigMap(new_)[name] == TypeSigMap(old_)[name])
  {
    hide Section, TypeSigMap, AddedCasesOnly;
    var m, soft := TypeSides(old_, new_), SoftTypes(old_, new_);
    TypeSection(old_, new_);
    hide Between, SectionDiff.HasBreaking, SectionDiff.MaxSeverity, Occurs, VerdictAt, AllNames;
    BreakingMeans(m, soft);
    NamesHaveVerdicts(m, soft);
    HasVerdict(m, soft, name);
    QuietVerdict(m, soft, name);
  }

  lemma TypeSection(old_: ContractSpec, new_: ContractSpec)
    ensures Between(old_, new_).types == Section(TypeSides(old_, new_), SoftTypes(old_, new_))
  {
    hide Section;
  }

  /** An old name of a section where nothing breaks has kept its text or is softened. */
  lemma QuietVerdict(m: Sides, soft: Soft, name: string)
    requires name in AllNames(m) && name in m.old_
    requires !Occurs(Removed, m, soft) && !Occurs(Changed, m, soft) && !Occurs(Reordered, m, soft)
    ensures (name in m.new_ && m.new_[name] == m.old_[name]) || Softens(soft, name)
  {
    NotOccurring(m, soft, name);
  }

  // ---- what encoded before still encodes, to the same value ----

  lemma {:induction false} EncodeContinues(v: Json, ty: TypeDef, old_: ContractSpec, new_: ContractSpec, keys: Strkey)
    requires Extends(old_, new_) && Encode(v, ty, old_, keys).Ok?
    ensures Encode(v, ty, new_, keys) == Encode(v, ty, old_, keys)
    decreases Size(v), 2, ty
  {
    hide Extends, EncodeScalar, EncodeEach, EncodeEntries, EncodeFields, EncodeUnion, EncodeEnum, MapOf, VecOf, UdtOf;
    match ty
    case TOption(t) => if !v.Null? { EncodeContinues(v, t, old_, new_, keys); }
    case TVec(t) => VecContinues(v, t, old_, new_, keys);
    case TTuple(ts) => PositionalContinues(v, ts, old_, new_, keys);
    case TMap(k, t) => MapContinues(v, k, t, old_, new_, keys);
    case TUdt(name) => UdtContinues(v, name, old_, new_, keys);
    case _ =>
  }

  lemma VecContinues(v: Json, t: TypeDef, old_: ContractSpec, new_: ContractSpec, keys: Strkey)
    requires Extends(old_, new_) && Encode(v, TVec(t), old_, keys).Ok?
    ensures Encode(v, TVec(t), new_, keys) == Encode(v, TVec(t), old_, keys)
    decreases Size(v), 1
  {
    hide Extends, EncodeEach;
    EachContinues(v.items, Repeat(t, |v.items|), old_, new_, keys);
  }

  lemma PositionalContinues(v: Json, ts: seq<TypeDef>, old_: ContractSpec, new_: ContractSpec, keys: Strkey)
    requires Extends(old_, new_) && EncodePositional(v, ts, old_, keys).Ok?
    ensures EncodePositional(v, ts, new_, keys) == EncodePositional(v, ts, old_, keys)
    decreases Size(v), 0
  {
    hide Extends, EncodeEach;
    EachContinues(v.items, ts, old_, new_, keys);
  }

  lemma {:induction false} EachContinues(vs: seq<Json>, ts: seq<TypeDef>, old_: ContractSpec, new_: ContractSpec,
                                         keys: Strkey)
    requires |vs| == |ts| && Extends(old_, new_) && EncodeEach(vs, ts, old_, keys).Ok?
    ensures EncodeEach(vs, ts, new_, keys) == EncodeEach(vs, ts, old_, keys)
    decreases SizeAll(vs), 0
  {
    hide Extends, Encode;
    if vs != [] {
      EncodeContinues(vs[0], ts[0], old_, new_, keys);
      EachContinues(vs[1..], ts[1..], old_, new_, keys);
    }
  }

  lemma MapContinues(v: Json, k: TypeDef, t: TypeDef, old_: ContractSpec, new_: ContractSpec, keys: Strkey)
    requires Extends(old_, new_) && Encode(v, TMap(k, t), old_, keys).Ok?
    ensures Encode(v, TMap(k, t), new_, keys) == Encode(v, TMap(k, t), old_, keys)
    decreases Size(v), 1
  {
    hide Extends, EncodeEntries;
    EntriesContinue(v.members, k, t, old_, new_, keys);
  }

  lemma {:induction false} EntriesContinue(ms: seq<Member>, k: TypeDef, t: TypeDef, old_: ContractSpec,
                                           new_: ContractSpec, keys: Strkey)
    requires Extends(old_, new_) && EncodeEntries(ms, k, t, old_, keys).Ok?
    ensures EncodeEntries(ms, k, t, new_, keys) == EncodeEntries(ms, k, t, old_, keys)
    decreases SizeMembers(ms), 0
  {
    hide Extends, Encode;
    if ms != [] {
      EncodeContinues(Str(ms[0].key), k, old_, new_, keys);
      EncodeContinues(ms[0].value, t, old_, new_, keys);
      EntriesContinue(ms[1..], k, t, old_, new_, keys);
    }
  }

  lemma {:induction false} FieldsContinue(ms: seq<Member>, fields: seq<Field>, old_: ContractSpec, new_: ContractSpec,
                                          keys: Strkey)
    requires Extends(old_, new_) && EncodeFields(ms, fields, old_, keys).Ok?
    ensures EncodeFields(ms, fields, new_, keys) == EncodeFields(ms, fields, old_, keys)
    decreases SizeMembers(ms), 0, |fields|
  {
    hide Extends, Encode;
    if fields != [] {
      EncodeContinues(Get(ms, fields[0].name).value, fields[0].ty, old_, new_, keys);
      FieldsContinue(ms, fields[1..], old_, new_, keys);
    }
  }

  lemma UdtContinues(v: Json, name: string, old_: ContractSpec, new_: ContractSpec, keys: Strkey)
    requires Extends(old_, new_) && Encode(v, TUdt(name), old_, keys).Ok?
    ensures Encode(v, TUdt(name), new_, keys) == Encode(v, TUdt(name), old_, keys)
    decreases Size(v), 1
  {
    assert ContinuesAt(old_, new_, name);
    hide Extends, EncodePositional, EncodeFields, EncodeUnion, EncodeEnum, MapOf, UdtOf;
    match (UdtOf(old_, name).value, UdtOf(new_, name).value)
    case (StructDef(s), StructDef(t)) =>
      if IsTupleStruct(s) {
        PositionalContinues(v, FieldTypes(s.fields), old_, new_, keys);
      } else {
        FieldsContinue(v.members, s.fields, old_, new_, keys);
      }
    case (EnumDef(e), EnumDef(f)) => EnumContinues(v, e, f);
    case (UnionDef(u), UnionDef(w)) => UnionContinues(v, u, w, old_, new_, keys);
  }

  lemma EnumContinues(v: Json, e: UdtEnum, f: UdtEnum)
    requires e.cases <= f.cases && EncodeEnum(v, e).Ok?
    ensures EncodeEnum(v, f) == EncodeEnum(v, e)
  {
    if v.Str? {
      FindExtended(EnumCaseName, e.cases, f.cases, v.text);
    } else {
      var i :| 0 <= i < |e.cases| && e.cases[i].value == v.n;
      assert f.cases[i] == e.cases[i];
    }
  }

  lemma UnionContinues(v: Json, u: UdtUnion, w: UdtUnion, old_: ContractSpec, new_: ContractSpec, keys: Strkey)
    requires Extends(old_, new_) && u.cases <= w.cases && EncodeUnion(v, u, old_, keys).Ok?
    ensures EncodeUnion(v, w, new_, keys) == EncodeUnion(v, u, old_, keys)
    decreases Size(v), 0
  {
    hide Extends, EncodeEach, Find;
    var name := if v.Str? then v.text else v.members[0].key;
    FindExtended(UnionCaseName, u.cases, w.cases, name);
    var c := Find(UnionCaseName, u.cases, name).value;
    if c.tys != [] {
      CaseValuesSmaller(v.members);
      EachContinues(CaseValues(v.members[0].value), c.tys, old_, new_, keys);
    }
  }

  // ---- whole calls ----

  lemma {:induction false} InputsContinue(args: Json, inputs: seq<Field>, i: nat, old_: ContractSpec,
                                          new_: ContractSpec, keys: Strkey)
    requires i <= |inputs| && Extends(old_, new_) && EncodeInputs(args, inputs, i, old_, keys).Ok?
    ensures EncodeInputs(args, inputs, i, new_, keys) == EncodeInputs(args, inputs, i, old_, keys)
    decreases |inputs| - i
  {
    hide Extends, Encode;
    if i < |inputs| {
      EncodeContinues(ArgumentFor(args, inputs[i].name, i).value, inputs[i].ty, old_, new_, keys);
      InputsContinue(args, inputs, i + 1, old_, new_, keys);
    }
  }

  /** A function of the old interface survives a non-breaking diff with its parameters and output. */
  lemma NonBreakingFunctionStays(old_: ContractSpec, new_: ContractSpec, name: string)
    requires ReadableFunctions(old_) && ReadableFunctions(new_) && !Between(old_, new_).functions.HasBreaking()
    requires Find(FunctionName, old_.functions, name).Some?
    ensures Find(FunctionName, new_.functions, name).Some?
    ensures Find(FunctionName, new_.functions, name).value.inputs
            == Find(FunctionName, old_.functions, name).value.inputs
    ensures SameOutputs(Find(FunctionName, old_.functions, name).value.outputs,
                        Find(FunctionName, new_.functions, name).value.outputs)
  {
    hide Section, AddAll, FunctionSig, Find, ReadableFunction, Occurs;
    var m := FunctionSides(old_, new_);
    FunctionSection(old_, new_);
    BreakingMeans(m, Nothing);
    NamesHaveVerdicts(m, Nothing);
    AddAllIsFind(map[], FunctionName, FunctionSig, old_.functions, name);
    AddAllIsFind(map[], FunctionName, FunctionSig, new_.functions, name);
    NotOccurring(m, Nothing, name);
    FunctionSigUnambiguous(Find(FunctionName, old_.functions, name).value,
                           Find(FunctionName, new_.functions, name).value);
  }

  lemma NotOccurring(m: Sides, soft: Soft, name: string)
    requires name in AllNames(m) && !Occurs(Removed, m, soft) && !Occurs(Changed, m, soft)
             && !Occurs(Reordered, m, soft)
    ensures VerdictAt(m, soft, name) != Removed && VerdictAt(m, soft, name) != Changed
            && VerdictAt(m, soft, name) != Reordered
  {
  }

  lemma NothingBreaks(old_: ContractSpec, new_: ContractSpec)
    requires !Between(old_, new_).breaking
    ensures !Between(old_, new_).functions.HasBreaking() && !Between(old_, new_).types.HasBreaking()
  {
  }

  /** The promise behind `breaking: false`: every call that encoded still encodes, to the same arguments and return
      type. */
  lemma NonBreakingUpgradeKeepsCalls(old_: ContractSpec, new_: ContractSpec, name: string, args: Json, keys: Strkey)
    requires ReadableFunctions(old_) && ReadableFunctions(new_) && ReadableTypes(old_) && ReadableTypes(new_)
    requires !Between(old_, new_).breaking && EncodeCall(old_, name, args, keys).Ok?
    ensures EncodeCall(new_, name, args, keys).Ok?
    ensures EncodeCall(new_, name, args, keys).value.args == EncodeCall(old_, name, args, keys).value.args
    ensures EncodeCall(new_, name, args, keys).value.outputType == EncodeCall(old_, name, args, keys).value.outputType
  {
    hide EncodeCall, Between, ReadableFunctions, ReadableTypes, Extends, Find, SameOutputs;
    NothingBreaks(old_, new_);
    CallNames(old_, name, args, keys);
    NonBreakingFunctionStays(old_, new_, name);
    NonBreakingTypesExtend(old_, new_);
    CallContinues(old_, new_, name, args, keys);
  }

  lemma CallNames(spec: ContractSpec, name: string, args: Json, keys: Strkey)
    requires EncodeCall(spec, name, args, keys).Ok?
    ensures Find(FunctionName, spec.functions, name).Some?
  {
    hide Find, EncodeInputs, ShapeError, OutputType;
  }

  lemma SameOutputType(a: seq<TypeDef>, b: seq<TypeDef>)
    requires SameOutputs(a, b)
    ensures OutputType(a) == OutputType(b)
  {
  }

  lemma CallContinues(old_: ContractSpec, new_: ContractSpec, name: string, args: Json, keys: Strkey)
    requires Extends(old_, new_) && EncodeCall(old_, name, args, keys).Ok?
    requires Find(FunctionName, old_.functions, name).Some? && Find(FunctionName, new_.functions, name).Some?
    requires Find(FunctionName, new_.functions, name).value.inputs
             == Find(FunctionName, old_.functions, name).value.inputs
    requires SameOutputs(Find(FunctionName, old_.functions, name).value.outputs,
                         Find(FunctionName, new_.functions, name).value.outputs)
    ensures EncodeCall(new_, name, args, keys).Ok?
    ensures EncodeCall(new_, name, args, keys).value.args == EncodeCall(old_, name, args, keys).value.args
    ensures EncodeCall(new_, name, args, keys).value.outputType == EncodeCall(old_, name, args, keys).value.outputType
  {
    hide Extends, EncodeInputs, ShapeError, Find, OutputType, SameOutputs;
    var f, g := Find(FunctionName, old_.functions, name).value, Find(FunctionName, new_.functions, name).value;
    InputsContinue(args, f.inputs, 0, old_, new_, keys);
    SameOutputType(f.outputs, g.outputs);
  }

  // ---- additive upgrades keep the meaning of results ----

  /** Every user-defined type mentioned is declared. */
  ghost predicate Closed(t: TypeDef, spec: ContractSpec)
    decreases t
  {
    match t
    case TOption(v) => Closed(v, spec)
    case TResult(ok, err) => Closed(ok, spec) && Closed(err, spec)
    case TVec(e) => Closed(e, spec)
    case TMap(k, v) => Closed(k, spec) && Closed(v, spec)
    case TTuple(ts) => forall i :: 0 <= i < |ts| ==> Closed(ts[i], spec)
    case TUdt(name) => UdtOf(spec, name).Some?
    case _ => true
  }

  ghost predicate AllClosed(ts: seq<TypeDef>, spec: ContractSpec) { forall i :: 0 <= i < |ts| ==> Closed(ts[i], spec) }

  ghost predicate ClosedTypes(spec: ContractSpec) {
    && (forall s :: s in spec.structs ==> AllClosed(FieldTypes(s.fields), spec))
    && (forall u, c :: u in spec.unions && c in u.cases ==> AllClosed(c.tys, spec))
  }

  /** Every old definition resolves to the same definition. */
  ghost predicate SameTypes(old_: ContractSpec, new_: ContractSpec) {
    forall name :: UdtOf(old_, name).Some? ==> UdtOf(new_, name) == UdtOf(old_, name)
  }

  lemma AdditiveKeepsTypes(old_: ContractSpec, new_: ContractSpec)
    requires ReadableTypes(old_) && ReadableTypes(new_) && Between(old_, new_).types.MaxSeverity() == Additive
    ensures SameTypes(old_, new_)
  {
    hide Section, TypeSigMap, AddedCasesOnly, UdtOf, Occurs, ReadableTypes;
    var m, soft := TypeSides(old_, new_), SoftTypes(old_, new_);
    BreakingMeans(m, soft);
    NamesHaveVerdicts(m, soft);
    forall name | UdtOf(old_, name).Some? ensures UdtOf(new_, name) == UdtOf(old_, name) {
      AdditiveKeepsType(m, old_, new_, name);
    }
  }

  lemma AdditiveKeepsType(m: Sides, old_: ContractSpec, new_: ContractSpec, name: string)
    requires ReadableTypes(old_) && ReadableTypes(new_) && m == TypeSides(old_, new_) && UdtOf(old_, name).Some?
    requires forall n :: n in AllNames(m) <==> VerdictAt(m, SoftTypes(old_, new_), n) != Absent
    requires !Occurs(Removed, m, SoftTypes(old_, new_)) && !Occurs(Changed, m, SoftTypes(old_, new_))
    requires !Occurs(Reordered, m, SoftTypes(old_, new_)) && !Occurs(Potential, m, SoftTypes(old_, new_))
    ensures UdtOf(new_, name) == UdtOf(old_, name)
  {
    hide TypeSigMap, AddedCasesOnly, UdtOf, Reorders;
    TypeMapLookup(old_, name);
    TypeMapLookup(new_, name);
    assert name in m.old_ && name in AllNames(m);
    assert VerdictAt(m, SoftTypes(old_, new_), name) == Unchanged;
    SameSigSameType(old_, new_, name);
  }

  lemma {:induction false} RelabelSame(v: Json, ty: TypeDef, old_: ContractSpec, new_: ContractSpec)
    requires SameTypes(old_, new_) && ClosedTypes(old_) && Closed(ty, old_)
    ensures Relabel(v, ty, new_) == Relabel(v, ty, old_)
    decreases Size(v), 2, ty
  {
    hide SameTypes, ClosedTypes, UdtOf, RelabelEach, RelabelValues, RelabelPairs, RelabelFields, RelabelUnion;
    hide RelabelEnum;
    match ty
    case TOption(t) => if !v.Null? { RelabelSame(v, t, old_, new_); }
    case TVec(t) => if v.Array? { EachSame(v.items, Repeat(t, |v.items|), old_, new_); }
    case TTuple(ts) => PositionalSame(v, ts, old_, new_);
    case TMap(k, t) =>
      if v.Object? { ValuesSame(v.members, t, old_, new_); }
      if v.Array? { PairsSame(v.items, k, t, old_, new_); }
    case TResult(ok, err) =>
      if Relabeller.Field(v, "Ok").Some? { RelabelSame(Relabeller.Field(v, "Ok").value, ok, old_, new_); }
      if Relabeller.Field(v, "Err").Some? { RelabelSame(Relabeller.Field(v, "Err").value, err, old_, new_); }
    case TUdt(name) => UdtSame(v, name, old_, new_);
    case _ =>
  }

  lemma PositionalSame(v: Json, ts: seq<TypeDef>, old_: ContractSpec, new_: ContractSpec)
    requires SameTypes(old_, new_) && ClosedTypes(old_) && AllClosed(ts, old_)
    ensures RelabelPositional(v, ts, new_) == RelabelPositional(v, ts, old_)
    decreases Size(v), 0
  {
    hide SameTypes, ClosedTypes, RelabelEach;
    if v.Array? && |v.items| == |ts| { EachSame(v.items, ts, old_, new_); }
  }

  lemma {:induction false} EachSame(vs: seq<Json>, ts: seq<TypeDef>, old_: ContractSpec, new_: ContractSpec)
    requires |vs| == |ts| && SameTypes(old_, new_) && ClosedTypes(old_) && AllClosed(ts, old_)
    ensures RelabelEach(vs, ts, new_) == RelabelEach(vs, ts, old_)
    decreases SizeAll(vs), 0
  {
    hide SameTypes, ClosedTypes, Relabel, Closed;
    if vs != [] {
      RelabelSame(vs[0], ts[0], old_, new_);
      EachSame(vs[1..], ts[1..], old_, new_);
    }
  }

  lemma {:induction false} ValuesSame(ms: seq<Member>, t: TypeDef, old_: ContractSpec, new_: ContractSpec)
    requires SameTypes(old_, new_) && ClosedTypes(old_) && Closed(t, old_)
    ensures RelabelValues(ms, t, new_) == RelabelValues(ms, t, old_)
    decreases SizeMembers(ms), 0
  {
    hide SameTypes, ClosedTypes, Relabel;
    if ms != [] {
      RelabelSame(ms[0].value, t, old_, new_);
      ValuesSame(ms[1..], t, old_, new_);
    }
  }

  lemma {:induction false} PairsSame(vs: seq<Json>, k: TypeDef, t: TypeDef, old_: ContractSpec, new_: ContractSpec)
    requires SameTypes(old_, new_) && ClosedTypes(old_) && Closed(k, old_) && Closed(t, old_)
    ensures RelabelPairs(vs, k, t, new_) == RelabelPairs(vs, k, t, old_)
    decreases SizeAll(vs), 0
  {
    hide SameTypes, ClosedTypes, Relabel, RelabelPair, Closed;
    if vs != [] {
      PairSame(vs[0], k, t, old_, new_);
      PairsSame(vs[1..], k, t, old_, new_);
    }
  }

  lemma PairSame(v: Json, k: TypeDef, t: TypeDef, old_: ContractSpec, new_: ContractSpec)
    requires SameTypes(old_, new_) && ClosedTypes(old_) && Closed(k, old_) && Closed(t, old_)
    ensures RelabelPair(v, k, t, new_) == RelabelPair(v, k, t, old_)
    decreases Size(v), 0
  {
    hide SameTypes, ClosedTypes, Relabel, Closed, Relabeller.Field;
    var x, y := Relabeller.Field(v, "key"), Relabeller.Field(v, "val");
    if x.Some? && y.Some? {
      RelabelSame(x.value, k, old_, new_);
      RelabelSame(y.value, t, old_, new_);
    }
  }

  lemma {:induction false} FieldsSame(ms: seq<Member>, fields: seq<Field>, old_: ContractSpec, new_: ContractSpec)
    requires SameTypes(old_, new_) && ClosedTypes(old_) && AllClosed(FieldTypes(fields), old_)
    ensures RelabelFields(ms, fields, new_) == RelabelFields(ms, fields, old_)
    decreases SizeMembers(ms), 0
  {
    hide SameTypes, ClosedTypes, Relabel, Closed;
    if ms != [] {
      var i := Position(FieldName, fields, ms[0].key);
      if i < |fields| {
        assert FieldTypes(fields)[i] == fields[i].ty;
        RelabelSame(ms[0].value, fields[i].ty, old_, new_);
      }
      FieldsSame(ms[1..], fields, old_, new_);
    }
  }

  lemma UdtSame(v: Json, name: string, old_: ContractSpec, new_: ContractSpec)
    requires SameTypes(old_, new_) && ClosedTypes(old_) && UdtOf(old_, name).Some?
    ensures Relabel(v, TUdt(name), new_) == Relabel(v, TUdt(name), old_)
    decreases Size(v), 1
  {
    assert UdtOf(new_, name) == UdtOf(old_, name);
    var def := UdtOf(old_, name).value;
    UdtDeclared(old_, name);
    UdtNamed(v, name, def, old_);
    UdtNamed(v, name, def, new_);
    hide Relabel, RelabelFields, RelabelUnion, RelabelEnum, RelabelPositional, Closed, UdtOf, SameTypes;
    match def
    case EnumDef(e) =>
    case UnionDef(u) => UnionSame(v, u, old_, new_);
    case StructDef(s) => StructSame(v, s, old_, new_);
  }

  lemma StructSame(v: Json, s: UdtStruct, old_: ContractSpec, new_: ContractSpec)
    requires SameTypes(old_, new_) && ClosedTypes(old_) && s in old_.structs
    ensures v.Object? ==> RelabelFields(v.members, s.fields, new_) == RelabelFields(v.members, s.fields, old_)
    ensures RelabelPositional(v, FieldTypes(s.fields), new_) == RelabelPositional(v, FieldTypes(s.fields), old_)
    decreases Size(v), 1, s
  {
    hide SameTypes, Closed, RelabelFields, RelabelPositional;
    if v.Object? { FieldsSame(v.members, s.fields, old_, new_); }
    PositionalSame(v, FieldTypes(s.fields), old_, new_);
  }

  lemma UnionSame(v: Json, u: UdtUnion, old_: ContractSpec, new_: ContractSpec)
    requires SameTypes(old_, new_) && ClosedTypes(old_) && u in old_.unions
    ensures RelabelUnion(v, u, new_) == RelabelUnion(v, u, old_)
    decreases Size(v), 0
  {
    hide SameTypes, RelabelEach, Closed;
    if v.Array? && v.items != [] && v.items[0].Str? {
      match Find(UnionCaseName, u.cases, v.items[0].text)
      case None =>
      case Some(c) =>
        assert SizeAll(v.items) > SizeAll(v.items[1..]);
        if |v.items| - 1 == |c.tys| { EachSame(v.items[1..], c.tys, old_, new_); }
    }
  }

  /** After a purely additive upgrade, every value of every old type is named exactly as before. */
  lemma AdditiveUpgradeKeepsMeanings(v: Json, ty: TypeDef, old_: ContractSpec, new_: ContractSpec)
    requires ReadableTypes(old_) && ReadableTypes(new_) && ClosedTypes(old_) && Closed(ty, old_)
    requires Between(old_, new_).maxSeverity == Additive
    ensures Relabel(v, ty, new_) == Relabel(v, ty, old_)
  {
    hide ReadableTypes, ClosedTypes, SameTypes, Relabel, Closed;
    AdditiveKeepsTypes(old_, new_);
    RelabelSame(v, ty, old_, new_);
  }

  // ---- without identifier names the verdict is not sound ----

  function OneFunction(inputs: seq<Field>): ContractSpec {
    ContractSpec([FunctionSpec("f", inputs, [])], [], [], [], [], [])
  }

  /** A parameter name holding punctuation renders like two parameters: the diff is empty, yet a call stops encoding. */
  lemma PunctuatedNameHidesABreak(keys: Strkey)
    ensures var old_ := OneFunction([Field("a", TU32), Field("b", TU32)]);
            var new_ := OneFunction([Field("a: u32, b", TU32)]);
            var args := Array([Int(1), Int(2)]);
            && Between(old_, new_).IsEmpty() && !Between(old_, new_).breaking
            && EncodeCall(old_, "f", args, keys).Ok?
            && EncodeCall(new_, "f", args, keys) == Err(WrongArity(1, 2))
  {
    var old_, new_ := OneFunction([Field("a", TU32), Field("b", TU32)]), OneFunction([Field("a: u32, b", TU32)]);
    SameText(old_.functions[0], new_.functions[0]);
    NoDiffMeansSameSignatures(old_, new_);
    OneSignature(old_.functions[0]);
    OneSignature(new_.functions[0]);
    TwoNumbersEncode(old_, keys);
  }

  lemma SameText(f: FunctionSpec, g: FunctionSpec)
    requires f == FunctionSpec("f", [Field("a", TU32), Field("b", TU32)], [])
             && g == FunctionSpec("f", [Field("a: u32, b", TU32)], [])
    ensures FunctionSig(f) == FunctionSig(g)
  {
    var a, b, ab := Field("a", TU32), Field("b", TU32), Field("a: u32, b", TU32);
    TokenOfU32(a, "a: u32");
    TokenOfU32(b, "b: u32");
    TokenOfU32(ab, "a: u32, b: u32");
    TwoTokens(a, b);
    OneToken(ab);
  }

  lemma TokenOfU32(f: Field, text: string)
    requires f.ty == TU32 && f.name + ": u32" == text
    ensures FieldToken(f) == text
  {
    assert TypeName(TU32) == "u32";
    assert f.name + ": " + "u32" == f.name + ": u32";
  }

  lemma OneToken(f: Field)
    ensures Join(Map(FieldToken, [f])) == FieldToken(f)
  {
    hide FieldToken;
  }

  lemma TwoTokens(f: Field, g: Field)
    ensures Join(Map(FieldToken, [f, g])) == FieldToken(f) + ", " + FieldToken(g)
  {
    hide FieldToken;
    assert [f, g][1..] == [g];
    assert Map(FieldToken, [g]) == [FieldToken(g)];
    var parts := Map(FieldToken, [f, g]);
    assert parts == [FieldToken(f), FieldToken(g)];
    assert parts[1..] == [FieldToken(g)];
    assert Join(parts[1..]) == FieldToken(g);
  }

  lemma OneSignature(f: FunctionSpec)
    ensures AddAll(map[], FunctionName, FunctionSig, [f]) == map[f.name := FunctionSig(f)]
  {
    assert AddAll<FunctionSpec, string>(map[], FunctionName, FunctionSig, [f][..0]) == map[];
  }

  lemma TwoNumbersEncode(spec: ContractSpec, keys: Strkey)
    requires spec == OneFunction([Field("a", TU32), Field("b", TU32)])
    ensures EncodeCall(spec, "f", Array([Int(1), Int(2)]), keys).Ok?
  {
    Decimal.ParseIntText(1, false, 0, TWO_32 - 1);
    Decimal.ParseIntText(2, false, 0, TWO_32 - 1);
    var args := Array([Int(1), Int(2)]);
    var inputs := spec.functions[0].inputs;
    assert Encode(Int(1), TU32, spec, keys) == Ok(ScvU32(1)) && Encode(Int(2), TU32, spec, keys) == Ok(ScvU32(2));
    assert EncodeInputs(args, inputs, 2, spec, keys) == Ok([]);
    assert EncodeInputs(args, inputs, 1, spec, keys).Ok?;
    assert EncodeInputs(args, inputs, 0, spec, keys).Ok?;
  }
}
