/** What each verdict of the diff says about the two interfaces themselves, for interfaces that can be read back. */
module DiffMeaning {
  import opened Basics
  import opened Spec
  import opened Render
  import opened Signatures
  import opened Diff
  import opened DiffPartition
  import opened Upgrade
  import Decimal

  // ---- one section ----

  /** An old name keeps its text, or is softened. */
  ghost predicate KeepsText(m: Sides, name: string)
    requires name in m.old_
  {
    name in m.new_ && m.new_[name] == m.old_[name]
  }

  ghost predicate Moved(m: Sides, soft: Soft, name: string) {
    name in m.new_ && Softens(soft, name) && !Reorders(name, m.oldParams, m.newParams)
  }

  lemma QuietIff(m: Sides, soft: Soft)
    ensures !Section(m, soft).HasBreaking() <==>
            forall name :: name in m.old_ ==> KeepsText(m, name) || Moved(m, soft, name)
    ensures Section(m, soft).MaxSeverity() == Additive <==> forall name :: name in m.old_ ==> KeepsText(m, name)
  {
    hide Section, SectionDiff.HasBreaking, SectionDiff.MaxSeverity, Softens, Reorders, VerdictAt;
    BreakingMeans(m, soft);
    forall name | name in m.old_
      ensures name in AllNames(m)
      ensures KeepsText(m, name) <==> VerdictAt(m, soft, name) == Unchanged
      ensures KeepsText(m, name) || Moved(m, soft, name)
              <==> VerdictAt(m, soft, name) == Unchanged || VerdictAt(m, soft, name) == Potential
    {
      OldVerdict(m, soft, name);
    }
    forall name | name !in m.old_
      ensures name in AllNames(m) ==> VerdictAt(m, soft, name) == Added
    {
      NewVerdict(m, soft, name);
    }
    hide KeepsText, Moved, AllNames;
    OnlyQuiet(m, soft);
  }

  lemma OldVerdict(m: Sides, soft: Soft, name: string)
    requires name in m.old_
    ensures name in AllNames(m)
    ensures KeepsText(m, name) <==> VerdictAt(m, soft, name) == Unchanged
    ensures KeepsText(m, name) || Moved(m, soft, name)
            <==> VerdictAt(m, soft, name) == Unchanged || VerdictAt(m, soft, name) == Potential
    ensures VerdictAt(m, soft, name) != Absent && VerdictAt(m, soft, name) != Added
  {
    hide Softens, Reorders;
    NamesHaveVerdicts(m, soft);
  }

  lemma NewVerdict(m: Sides, soft: Soft, name: string)
    requires name !in m.old_
    ensures name in AllNames(m) ==> VerdictAt(m, soft, name) == Added
  {
    hide Softens, Reorders;
    NamesHaveVerdicts(m, soft);
  }

  lemma OnlyQuiet(m: Sides, soft: Soft)
    requires forall name :: name !in m.old_ && name in AllNames(m) ==> VerdictAt(m, soft, name) == Added
    requires forall name :: name in m.old_ ==> name in AllNames(m)
    ensures !Occurs(Removed, m, soft) && !Occurs(Changed, m, soft) && !Occurs(Reordered, m, soft) <==>
            forall name :: name in m.old_ ==>
              VerdictAt(m, soft, name) == Unchanged || VerdictAt(m, soft, name) == Potential
    ensures !Occurs(Removed, m, soft) && !Occurs(Changed, m, soft) && !Occurs(Reordered, m, soft)
            && !Occurs(Potential, m, soft)
            <==> forall name :: name in m.old_ ==> VerdictAt(m, soft, name) == Unchanged
  {
    forall name | name in m.old_ ensures VerdictAt(m, soft, name) != Absent && VerdictAt(m, soft, name) != Added {
      OldVerdict(m, soft, name);
    }
    hide VerdictAt;
  }

  // ---- functions ----

  ghost predicate FunctionHeld(f: FunctionSpec, g: FunctionSpec) {
    g.inputs == f.inputs && SameOutputs(f.outputs, g.outputs)
  }

  /** No function breaks exactly when every old one is still there with its parameters and its output. */
  lemma FunctionsHeldIff(old_: ContractSpec, new_: ContractSpec)
    requires ReadableFunctions(old_) && ReadableFunctions(new_)
    ensures !Between(old_, new_).functions.HasBreaking() <==>
            forall name :: Find(FunctionName, old_.functions, name).Some? ==>
              Find(FunctionName, new_.functions, name).Some?
              && FunctionHeld(Find(FunctionName, old_.functions, name).value,
                              Find(FunctionName, new_.functions, name).value)
  {
    hide Between, SectionDiff.HasBreaking, Section, AddAll, FunctionSig, Find, ReadableFunction;
    var m := FunctionSides(old_, new_);
    FunctionSection(old_, new_);
    QuietIff(m, Nothing);
    forall name ensures name in m.old_ <==> Find(FunctionName, old_.functions, name).Some? {
      AddAllIsFind(map[], FunctionName, FunctionSig, old_.functions, name);
    }
    forall name | name in m.old_
      ensures KeepsText(m, name) <==>
              Find(FunctionName, new_.functions, name).Some?
              && FunctionHeld(Find(FunctionName, old_.functions, name).value,
                              Find(FunctionName, new_.functions, name).value)
    {
      AddAllIsFind(map[], FunctionName, FunctionSig, old_.functions, name);
      AddAllIsFind(map[], FunctionName, FunctionSig, new_.functions, name);
      if Find(FunctionName, new_.functions, name).Some? {
        FunctionSigUnambiguous(Find(FunctionName, old_.functions, name).value,
                               Find(FunctionName, new_.functions, name).value);
      }
    }
    hide KeepsText, FunctionHeld;
  }

  // ---- events ----

  ghost predicate ReadableEvents(spec: ContractSpec) {
    DistinctNames(EventName, spec.events) && forall e :: e in spec.events ==> ReadableEvent(e)
  }

  ghost predicate EventKept(d: EventSpec, e: EventSpec) { e.format == d.format && e.params == d.params }

  /** A map event that only gained named data fields, after the parameters it had. */
  ghost predicate EventGrew(d: EventSpec, e: EventSpec) {
    && e.format == d.format == MapData && d.params < e.params
    && forall i :: |d.params| <= i < |e.params| ==> !e.params[i].inTopics && e.params[i].name != ""
  }

  lemma GrewIffAddedFields(old_: ContractSpec, new_: ContractSpec, name: string)
    requires ReadableEvents(old_) && ReadableEvents(new_)
    ensures AddedFieldsOnly(old_, new_, name) <==>
            && Find(EventName, old_.events, name).Some? && Find(EventName, new_.events, name).Some?
            && EventGrew(Find(EventName, old_.events, name).value, Find(EventName, new_.events, name).value)
  {
    hide Find, TypeName;
    var d, e := Find(EventName, old_.events, name), Find(EventName, new_.events, name);
    if d.Some? && e.Some? && |d.value.params| <= |e.value.params| {
      SameParamsIff(d.value, e.value);
    }
  }

  lemma SameParamsIff(d: EventSpec, e: EventSpec)
    requires ReadableEvent(d) && ReadableEvent(e) && |d.params| <= |e.params|
    ensures d.params <= e.params <==>
            forall i :: 0 <= i < |d.params| ==>
              d.params[i].name == e.params[i].name && TypeName(d.params[i].ty) == TypeName(e.params[i].ty)
              && d.params[i].inTopics == e.params[i].inTopics
  {
    hide TypeName, Readable;
    forall i | 0 <= i < |d.params|
      ensures TypeName(d.params[i].ty) == TypeName(e.params[i].ty) <==> d.params[i].ty == e.params[i].ty
    {
      assert ReadableParam(d.params[i]) && ReadableParam(e.params[i]);
      assert TypeName(d.params[i].ty) + "" == TypeName(d.params[i].ty);
      assert TypeName(e.params[i].ty) + "" == TypeName(e.params[i].ty);
      if TypeName(d.params[i].ty) == TypeName(e.params[i].ty) {
        TypeNameUnambiguous(d.params[i].ty, e.params[i].ty, "", "");
      }
    }
  }

  lemma EventSection(old_: ContractSpec, new_: ContractSpec)
    ensures Between(old_, new_).events == Section(EventSides(old_, new_), SoftEvents(old_, new_))
  {
    hide Section;
  }

  ghost predicate EventHeld(old_: ContractSpec, new_: ContractSpec, name: string) {
    var d, e := Find(EventName, old_.events, name), Find(EventName, new_.events, name);
    d.Some? ==> e.Some? && (EventKept(d.value, e.value) || EventGrew(d.value, e.value))
  }

  ghost predicate EventSame(old_: ContractSpec, new_: ContractSpec, name: string) {
    var d, e := Find(EventName, old_.events, name), Find(EventName, new_.events, name);
    d.Some? ==> e.Some? && EventKept(d.value, e.value)
  }

  /** No event breaks exactly when every old one is still there, with its format and its parameters, and with more only
      if it is a map event and the new ones are named data fields. Nothing is even potentially breaking exactly when
      none gained any. */
  lemma EventsHeldIff(old_: ContractSpec, new_: ContractSpec)
    requires ReadableEvents(old_) && ReadableEvents(new_)
    ensures !Between(old_, new_).events.HasBreaking() <==> forall name :: EventHeld(old_, new_, name)
    ensures Between(old_, new_).events.MaxSeverity() == Additive <==> forall name :: EventSame(old_, new_, name)
  {
    hide Between, SectionDiff.HasBreaking, SectionDiff.MaxSeverity, Section, AddedFieldsOnly, EventSigMap;
    hide EventKept, EventGrew;
    var m, soft := EventSides(old_, new_), SoftEvents(old_, new_);
    EventSection(old_, new_);
    QuietIff(m, soft);
    forall name
      ensures EventHeld(old_, new_, name) <==> name in m.old_ ==> KeepsText(m, name) || Moved(m, soft, name)
      ensures EventSame(old_, new_, name) <==> name in m.old_ ==> KeepsText(m, name)
    {
      EventAt(old_, new_, name);
      GrewIffAddedFields(old_, new_, name);
    }
    hide KeepsText, Moved, EventHeld, EventSame;
  }

  lemma EventAt(old_: ContractSpec, new_: ContractSpec, name: string)
    requires ReadableEvents(old_) && ReadableEvents(new_)
    ensures var m := EventSides(old_, new_);
            var d, e := Find(EventName, old_.events, name), Find(EventName, new_.events, name);
            && (name in m.old_ <==> d.Some?) && (name in m.new_ <==> e.Some?)
            && (d.Some? ==> (KeepsText(m, name) <==> e.Some? && EventKept(d.value, e.value)))
  {
    hide AddAll, EventSig, Find, ReadableEvent;
    AddAllIsFind(map[], EventName, EventSig, old_.events, name);
    AddAllIsFind(map[], EventName, EventSig, new_.events, name);
    var d, e := Find(EventName, old_.events, name), Find(EventName, new_.events, name);
    if d.Some? && e.Some? { EventSigUnambiguous(d.value, e.value); }
  }

  // ---- types ----

  /** Structs, unions, enums and error enums share one space of names. */
  datatype Def = Udt(def: UdtDef) | Error(e: UdtEnum)

  function DefAt(spec: ContractSpec, name: string): Option<Def> {
    match UdtOf(spec, name)
    case Some(d) => Some(Udt(d))
    case None => match Find(EnumName, spec.errors, name) case Some(r) => Some(Error(r)) case None => None
  }

  /** A union or an enum that only gained cases, after those it had. */
  ghost predicate Grew(d: Def, e: Def) {
    match (d, e)
    case (Udt(UnionDef(u)), Udt(UnionDef(w))) => u.cases < w.cases
    case (Udt(EnumDef(x)), Udt(EnumDef(y))) => x.cases < y.cases
    case _ => false
  }

  ghost predicate TypeHeld(old_: ContractSpec, new_: ContractSpec, name: string) {
    var d, e := DefAt(old_, name), DefAt(new_, name);
    d.Some? ==> e == d || (e.Some? && Grew(d.value, e.value))
  }

  ghost predicate TypeSame(old_: ContractSpec, new_: ContractSpec, name: string) {
    DefAt(old_, name).Some? ==> DefAt(new_, name) == DefAt(old_, name)
  }

  lemma ErrorSigUnambiguous(a: UdtEnum, b: UdtEnum)
    requires ReadableEnum(a) && ReadableEnum(b) && a.name == b.name
    ensures ErrorSig(a) == ErrorSig(b) <==> a == b
  {
    if ErrorSig(a) == ErrorSig(b) {
      BracedBodies("error enum ", a.name, Join(Map(ValueToken, a.cases)), Join(Map(ValueToken, b.cases)));
      ValuesSeparable(a.cases, b.cases);
      JoinUnambiguous(ValueToken, a.cases, b.cases, " }", " }");
    }
  }

  /** Equal texts come from equal definitions. */
  lemma SameTextIff(old_: ContractSpec, new_: ContractSpec, name: string)
    requires ReadableTypes(old_) && ReadableTypes(new_) && DefAt(old_, name).Some?
    ensures TypeSigOf(new_, name) == TypeSigOf(old_, name) <==> DefAt(new_, name) == DefAt(old_, name)
  {
    hide StructSig, UnionSig, EnumSig, ErrorSig, DistinctTypeNames, ReadableStruct, ReadableUnion, ReadableEnum;
    if TypeSigOf(new_, name) == TypeSigOf(old_, name) {
      if UdtOf(old_, name).Some? {
        SameSigSameType(old_, new_, name);
      } else if UdtOf(new_, name).Some? {
        SameSigSameType(new_, old_, name);
      } else {
        ErrorSigUnambiguous(Find(EnumName, old_.errors, name).value, Find(EnumName, new_.errors, name).value);
      }
    }
  }

  lemma GrewIffAddedCases(old_: ContractSpec, new_: ContractSpec, name: string)
    requires ReadableTypes(old_) && ReadableTypes(new_)
    ensures AddedCasesOnly(old_, new_, name) <==>
            DefAt(old_, name).Some? && DefAt(new_, name).Some? && Grew(DefAt(old_, name).value, DefAt(new_, name).value)
  {
    UnionOrEnum(old_, name);
    UnionOrEnum(new_, name);
    var u, w := Find(UnionName, old_.unions, name), Find(UnionName, new_.unions, name);
    if u.Some? && w.Some? { CasesAppendedIff(u.value, w.value); }
    var x, y := Find(EnumName, old_.enums, name), Find(EnumName, new_.enums, name);
    if x.Some? && y.Some? { ValuesAppendedIff(x.value, y.value); }
    hide Find, ReadableTypes, CasesAppended, ValuesAppended, UdtOf;
  }

  lemma UnionOrEnum(spec: ContractSpec, name: string)
    requires ReadableTypes(spec)
    ensures forall u :: DefAt(spec, name) == Some(Udt(UnionDef(u))) <==> Find(UnionName, spec.unions, name) == Some(u)
    ensures forall e :: DefAt(spec, name) == Some(Udt(EnumDef(e))) <==> Find(EnumName, spec.enums, name) == Some(e)
    ensures Find(UnionName, spec.unions, name).Some? ==> ReadableUnion(Find(UnionName, spec.unions, name).value)
    ensures Find(UnionName, spec.unions, name).Some? ==> Find(EnumName, spec.enums, name).None?
  {
    hide ReadableStruct, ReadableUnion, ReadableEnum;
  }

  lemma CasesAppendedIff(u: UdtUnion, w: UdtUnion)
    requires ReadableUnion(u) && ReadableUnion(w)
    ensures CasesAppended(u.cases, w.cases) <==> u.cases < w.cases
  {
    if CasesAppended(u.cases, w.cases) { AppendedCasesArePrefix(u, w); }
    if u.cases < w.cases {
      forall i | 0 <= i < |u.cases| ensures u.cases[i] == w.cases[i] {}
    }
  }

  lemma ValuesAppendedIff(x: UdtEnum, y: UdtEnum)
    ensures ValuesAppended(x.cases, y.cases) <==> x.cases < y.cases
  {
  }

  /** No type breaks exactly when every old one is still there, unchanged or, if a union or an enum, with cases after
      those it had. Nothing is even potentially breaking exactly when none gained any. */
  lemma TypesHeldIff(old_: ContractSpec, new_: ContractSpec)
    requires ReadableTypes(old_) && ReadableTypes(new_)
    ensures !Between(old_, new_).types.HasBreaking() <==> forall name :: TypeHeld(old_, new_, name)
    ensures Between(old_, new_).types.MaxSeverity() == Additive <==> forall name :: TypeSame(old_, new_, name)
  {
    hide Between, SectionDiff.HasBreaking, SectionDiff.MaxSeverity, Section, AddedCasesOnly, TypeSigMap, Grew;
    var m, soft := TypeSides(old_, new_), SoftTypes(old_, new_);
    TypeSection(old_, new_);
    QuietIff(m, soft);
    forall name
      ensures TypeHeld(old_, new_, name) <==> name in m.old_ ==> KeepsText(m, name) || Moved(m, soft, name)
      ensures TypeSame(old_, new_, name) <==> name in m.old_ ==> KeepsText(m, name)
    {
      TypeAt(old_, new_, name);
      GrewIffAddedCases(old_, new_, name);
    }
    hide KeepsText, Moved, TypeHeld, TypeSame;
  }

  lemma TypeAt(old_: ContractSpec, new_: ContractSpec, name: string)
    requires ReadableTypes(old_) && ReadableTypes(new_)
    ensures var m := TypeSides(old_, new_);
            && (name in m.old_ <==> DefAt(old_, name).Some?) && (name in m.new_ <==> DefAt(new_, name).Some?)
            && (name in m.old_ ==> (KeepsText(m, name) <==> DefAt(new_, name) == DefAt(old_, name)))
  {
    hide TypeSigMap, Find, StructSig, UnionSig, EnumSig, ErrorSig;
    ReadableTypesDistinct(old_);
    ReadableTypesDistinct(new_);
    hide ReadableTypes, DistinctTypeNames;
    TypeMapLookup(old_, name);
    TypeMapLookup(new_, name);
    if DefAt(old_, name).Some? { SameTextIff(old_, new_, name); }
  }

  // ---- the whole diff ----

  /** The verdict `breaking`, in terms of the interfaces alone. */
  lemma BreakingIff(old_: ContractSpec, new_: ContractSpec)
    requires ReadableFunctions(old_) && ReadableEvents(old_) && ReadableTypes(old_)
    requires ReadableFunctions(new_) && ReadableEvents(new_) && ReadableTypes(new_)
    ensures !Between(old_, new_).breaking <==>
            && (forall name :: Find(FunctionName, old_.functions, name).Some? ==>
                  Find(FunctionName, new_.functions, name).Some?
                  && FunctionHeld(Find(FunctionName, old_.functions, name).value,
                                  Find(FunctionName, new_.functions, name).value))
            && (forall name :: EventHeld(old_, new_, name))
            && (forall name :: TypeHeld(old_, new_, name))
  {
    FunctionsHeldIff(old_, new_);
    EventsHeldIff(old_, new_);
    TypesHeldIff(old_, new_);
    BreakingBySection(old_, new_);
    hide Between, FunctionHeld, EventHeld, TypeHeld, Find;
  }

  lemma BreakingBySection(old_: ContractSpec, new_: ContractSpec)
    ensures var d := Between(old_, new_);
      d.breaking <==> d.functions.HasBreaking() || d.events.HasBreaking() || d.types.HasBreaking()
  {
    hide Section, SectionDiff.HasBreaking;
  }

  /** The severity: additive when nothing old changed at all, potentially breaking when some event or type only gained,
      breaking otherwise. */
  lemma SeverityIff(old_: ContractSpec, new_: ContractSpec)
    requires ReadableFunctions(old_) && ReadableEvents(old_) && ReadableTypes(old_)
    requires ReadableFunctions(new_) && ReadableEvents(new_) && ReadableTypes(new_)
    ensures Between(old_, new_).maxSeverity == Breaking <==> Between(old_, new_).breaking
    ensures Between(old_, new_).maxSeverity == Additive <==>
            && !Between(old_, new_).breaking
            && (forall name :: EventSame(old_, new_, name)) && (forall name :: TypeSame(old_, new_, name))
  {
    BreakingIsTopSeverity(old_, new_);
    EventsHeldIff(old_, new_);
    TypesHeldIff(old_, new_);
    BreakingBySection(old_, new_);
    SeverityBySection(old_, new_);
    hide Between, EventSame, TypeSame, EventHeld, TypeHeld, ReadableEvents, ReadableTypes, ReadableFunctions;
  }

  lemma SeverityBySection(old_: ContractSpec, new_: ContractSpec)
    ensures var d := Between(old_, new_);
      d.maxSeverity == Additive <==>
        d.functions.MaxSeverity() == Additive && d.events.MaxSeverity() == Additive && d.types.MaxSeverity() == Additive
    ensures Between(old_, new_).functions.MaxSeverity() == Additive <==> !Between(old_, new_).functions.HasBreaking()
    ensures Between(old_, new_).events.MaxSeverity() == Additive ==> !Between(old_, new_).events.HasBreaking()
    ensures Between(old_, new_).types.MaxSeverity() == Additive ==> !Between(old_, new_).types.HasBreaking()
  {
    FunctionSection(old_, new_);
    BreakingMeans(FunctionSides(old_, new_), Nothing);
    NothingPotential(FunctionSides(old_, new_));
    hide Section, FunctionSides, Occurs;
  }

  lemma NothingPotential(m: Sides)
    ensures !Occurs(Potential, m, Nothing)
  {
    hide Reorders;
  }

  // ---- the texts ----

  /** The texts the documentation and the tests show. */
  lemma DocumentedTexts()
    ensures TypeName(TOption(TU64)) == "Option<u64>" && TypeName(TVec(TAddress)) == "Vec<Address>"
    ensures TypeName(TMap(TSymbol, TI128)) == "Map<Symbol, i128>" && TypeName(TBytesN(32)) == "BytesN<32>"
    ensures FunctionSig(FunctionSpec("pause", [], [])) == "pause() -> void"
    ensures FunctionSig(FunctionSpec("decimals", [], [TU64])) == "decimals() -> u64"
    ensures FunctionSig(FunctionSpec("withdraw", [Field("amount", TI128)], [])) == "withdraw(amount: i128) -> void"
  {
    hide TypeName, FunctionSig;
    ElementNames();
    PairName();
    SizeName();
    WithoutInputs();
    WithInput();
  }

  lemma ElementNames()
    ensures TypeName(TOption(TU64)) == "Option<u64>" && TypeName(TVec(TAddress)) == "Vec<Address>"
  {
    assert TypeName(TU64) == "u64" && TypeName(TAddress) == "Address";
  }

  lemma PairName()
    ensures TypeName(TMap(TSymbol, TI128)) == "Map<Symbol, i128>"
  {
    assert TypeName(TSymbol) == "Symbol" && TypeName(TI128) == "i128";
  }

  lemma SizeName()
    ensures TypeName(TBytesN(32)) == "BytesN<32>"
  {
    assert Decimal.NatText(3) == "3" && Decimal.NatText(32) == "32";
  }

  lemma WithoutInputs()
    ensures FunctionSig(FunctionSpec("pause", [], [])) == "pause() -> void"
    ensures FunctionSig(FunctionSpec("decimals", [], [TU64])) == "decimals() -> u64"
  {
    NoInputs("pause", [], "pause() -> void");
    NoInputs("decimals", [TU64], "decimals() -> u64");
    hide FunctionSig;
  }

  lemma WithInput()
    ensures FunctionSig(FunctionSpec("withdraw", [Field("amount", TI128)], [])) == "withdraw(amount: i128) -> void"
  {
    OneInput("withdraw", "amount", "withdraw(amount: i128) -> void");
    hide FunctionSig;
  }

  lemma NoInputs(name: string, outputs: seq<TypeDef>, text: string)
    requires outputs == [] || outputs == [TU64]
    requires text == name + "() -> " + if outputs == [] then "void" else "u64"
    ensures FunctionSig(FunctionSpec(name, [], outputs)) == text
  {
    assert Join(Map(FieldToken, [])) == "";
    assert name + "(" + "" + ") -> " == name + "() -> ";
  }

  lemma OneInput(name: string, param: string, text: string)
    requires text == name + "(" + param + ": i128) -> void"
    ensures FunctionSig(FunctionSpec(name, [Field(param, TI128)], [])) == text
  {
    var f := Field(param, TI128);
    assert Map(FieldToken, [f]) == [FieldToken(f)];
    assert FieldToken(f) == param + ": i128";
    assert Join([FieldToken(f)]) == FieldToken(f);
  }
}
