/** The semantic diff of two interfaces, computed over rendered signatures. */
module Diff {
  import opened Basics
  import opened Spec
  import opened Render
  import opened TextOrder
  import Sorting

  datatype Severity = Additive | PotentiallyBreaking | Breaking

  /** An item present on both sides, with its two signatures. */
  datatype Item = Item(name: string, before: string, after: string)

  datatype SectionDiff = SectionDiff(
    added: seq<string>,
    removed: seq<string>,
    changed: seq<Item>,
    reordered: seq<Item>,
    potentially: seq<Item>)
  {
    predicate IsEmpty() { added == [] && removed == [] && changed == [] && reordered == [] && potentially == [] }

    predicate HasBreaking() { removed != [] || changed != [] || reordered != [] }

    function MaxSeverity(): Severity {
      if removed != [] || changed != [] || reordered != [] then Breaking
      else if potentially != [] then PotentiallyBreaking
      else Additive
    }
  }

  datatype SpecDiff = SpecDiff(
    breaking: bool,
    maxSeverity: Severity,
    functions: SectionDiff,
    events: SectionDiff,
    types: SectionDiff)
  {
    predicate IsEmpty() { functions.IsEmpty() && events.IsEmpty() && types.IsEmpty() }
  }

  const EMPTY: SectionDiff := SectionDiff([], [], [], [], [])

  function Rank(s: Severity): nat { match s case Additive => 0 case PotentiallyBreaking => 1 case Breaking => 2 }

  function Max(a: Severity, b: Severity): Severity { if Rank(a) < Rank(b) then b else a }

  // ---- signature maps: a later declaration of a name overwrites an earlier one ----

  function AddAll<T, V>(m: map<string, V>, nameOf: T -> string, valueOf: T -> V, xs: seq<T>): map<string, V> {
    if xs == [] then m
    else AddAll(m, nameOf, valueOf, xs[..|xs| - 1])[nameOf(xs[|xs| - 1]) := valueOf(xs[|xs| - 1])]
  }

  function Tokens(f: FunctionSpec): seq<string> { Map(FieldToken, f.inputs) }

  function FunctionSigMap(spec: ContractSpec): map<string, string> {
    AddAll(map[], FunctionName, FunctionSig, spec.functions)
  }

  function FunctionParamMap(spec: ContractSpec): map<string, seq<string>> {
    AddAll(map[], FunctionName, Tokens, spec.functions)
  }

  function EventSigMap(spec: ContractSpec): map<string, string> { AddAll(map[], EventName, EventSig, spec.events) }

  function TypeSigMap(spec: ContractSpec): map<string, string> {
    var s := AddAll(map[], StructName, StructSig, spec.structs);
    var u := AddAll(s, UnionName, UnionSig, spec.unions);
    var e := AddAll(u, EnumName, EnumSig, spec.enums);
    AddAll(e, EnumName, ErrorSig, spec.errors)
  }

  lemma AddAllNext<T, V>(m: map<string, V>, nameOf: T -> string, valueOf: T -> V, xs: seq<T>, i: nat)
    requires i < |xs|
    ensures AddAll(m, nameOf, valueOf, xs[..i + 1])
            == AddAll(m, nameOf, valueOf, xs[..i])[nameOf(xs[i]) := valueOf(xs[i])]
  {
    assert xs[..i + 1][..i] == xs[..i];
  }

  method FunctionSigs(spec: ContractSpec) returns (sigs: map<string, string>, params: map<string, seq<string>>)
    ensures sigs == FunctionSigMap(spec) && params == FunctionParamMap(spec)
  {
    sigs, params := map[], map[];
    var fs := spec.functions;
    hide FunctionSig, Tokens;
    for i := 0 to |fs|
      invariant sigs == AddAll(map[], FunctionName, FunctionSig, fs[..i])
      invariant params == AddAll(map[], FunctionName, Tokens, fs[..i])
    {
      AddAllNext(map[], FunctionName, FunctionSig, fs, i);
      AddAllNext(map[], FunctionName, Tokens, fs, i);
      hide AddAll;
      var inputs := Tokens(fs[i]);
      sigs := sigs[fs[i].name := FunctionSig(fs[i])];
      params := params[fs[i].name := inputs];
    }
    assert fs[..|fs|] == fs;
  }

  method TypeSigs(spec: ContractSpec) returns (out: map<string, string>)
    ensures out == TypeSigMap(spec)
  {
    out := map[];
    out := InsertAll(out, StructName, StructSig, spec.structs);
    out := InsertAll(out, UnionName, UnionSig, spec.unions);
    out := InsertAll(out, EnumName, EnumSig, spec.enums);
    out := InsertAll(out, EnumName, ErrorSig, spec.errors);
  }

  method InsertAll<T>(m: map<string, string>, nameOf: T -> string, sigOf: T -> string, xs: seq<T>)
    returns (out: map<string, string>)
    ensures out == AddAll(m, nameOf, sigOf, xs)
  {
    out := m;
    for i := 0 to |xs|
      invariant out == AddAll(m, nameOf, sigOf, xs[..i])
    {
      assert xs[..i + 1][..i] == xs[..i];
      out := out[nameOf(xs[i]) := sigOf(xs[i])];
    }
    assert xs[..|xs|] == xs;
  }

  // ---- comparing two maps ----

  /** Same tokens, different order. */
  function IsParamReorder(before: seq<string>, after: seq<string>): bool {
    |before| == |after| && before != after && Sorting.Sort(StrBefore, before) == Sorting.Sort(StrBefore, after)
  }

  /** The reordering test at a name; a section without parameter lists never reorders. */
  function Reorders(name: string, before: map<string, seq<string>>, after: map<string, seq<string>>): bool {
    name in before && name in after && IsParamReorder(before[name], after[name])
  }

  /** The names of a set in increasing order. */
  ghost predicate InOrder(names: seq<string>, s: set<string>) {
    && Sorting.StrictlySorted(StrBefore, names)
    && (forall n :: n in names <==> n in s)
  }

  datatype Sides = Sides(
    old_: map<string, string>,
    new_: map<string, string>,
    oldParams: map<string, seq<string>>,
    newParams: map<string, seq<string>>)

  /** What one name adds to a section. */
  function Classify(d: SectionDiff, name: string, m: Sides): SectionDiff {
    if name in m.old_ && name in m.new_ then
      var before, after := m.old_[name], m.new_[name];
      if before == after then d
      else if Reorders(name, m.oldParams, m.newParams) then d.(reordered := d.reordered + [Item(name, before, after)])
      else d.(changed := d.changed + [Item(name, before, after)])
    else if name in m.old_ then d.(removed := d.removed + [m.old_[name]])
    else if name in m.new_ then d.(added := d.added + [m.new_[name]])
    else d
  }

  function DiffNames(names: seq<string>, m: Sides): SectionDiff {
    if names == [] then EMPTY else Classify(DiffNames(names[..|names| - 1], m), names[|names| - 1], m)
  }

  method OrderedNames(s: set<string>) returns (names: seq<string>)
    ensures InOrder(names, s)
  {
    names := [];
    var rest := s;
    while rest != {}
      invariant rest <= s
      invariant InOrder(names, s - rest)
      decreases rest
    {
      var n :| n in rest;
      names := InsertName(names, n, s - rest);
      rest := rest - {n};
      assert s - rest == (s - (rest + {n})) + {n};
    }
    assert s - rest == s;
  }

  lemma NameOrder()
    ensures Sorting.WeakOrder(StrBefore)
  {
    forall x, y: string | StrBefore(x, y) ensures !StrBefore(y, x) { StrAsymmetric(x, y); }
    forall x, y, z: string | StrBefore(x, z) ensures StrBefore(x, y) || StrBefore(y, z) { StrNegTransitive(x, y, z); }
  }

  method InsertName(names: seq<string>, n: string, ghost s: set<string>) returns (out: seq<string>)
    requires InOrder(names, s) && n !in s
    ensures InOrder(out, s + {n})
  {
    var i := 0;
    while i < |names| && StrBefore(names[i], n)
      invariant 0 <= i <= |names|
      invariant forall k :: 0 <= k < i ==> StrBefore(names[k], n)
    {
      i := i + 1;
    }
    InsertedInOrder(names, n, i);
    InsertedMembers(names, n, i);
    hide StrBefore, Sorting.StrictlySorted;
    out := names[..i] + [n] + names[i..];
  }

  lemma InsertedMembers(names: seq<string>, n: string, i: nat)
    requires i <= |names|
    ensures forall x :: x in names[..i] + [n] + names[i..] <==> x in names || x == n
  {
    assert names == names[..i] + names[i..];
  }

  lemma InsertedInOrder(names: seq<string>, n: string, i: nat)
    requires Sorting.StrictlySorted(StrBefore, names) && n !in names && i <= |names|
    requires forall k :: 0 <= k < i ==> StrBefore(names[k], n)
    requires i < |names| ==> !StrBefore(names[i], n)
    ensures Sorting.StrictlySorted(StrBefore, names[..i] + [n] + names[i..])
  {
    forall k | i <= k < |names| ensures StrBefore(n, names[k]) {
      StrConnected(n, names[i]);
      if k > i {
        assert StrBefore(names[i], names[k]);
        StrNegTransitive(names[i], n, names[k]);
      }
    }
  }

  lemma {:induction false} NamesExist(s: set<string>)
    ensures exists names :: InOrder(names, s)
  {
    if s == {} {
      assert InOrder([], s);
    } else {
      var n :| n in s;
      NamesExist(s - {n});
      var rest :| InOrder(rest, s - {n});
      var i := Before(rest, n);
      InsertedInOrder(rest, n, i);
      var names := rest[..i] + [n] + rest[i..];
      assert forall x :: x in names <==> x in rest || x == n;
      assert InOrder(names, s);
    }
  }

  /** How many leading names come before `n`. */
  function Before(names: seq<string>, n: string): (i: nat)
    ensures i <= |names| && (forall k :: 0 <= k < i ==> StrBefore(names[k], n))
    ensures i < |names| ==> !StrBefore(names[i], n)
  {
    if names == [] || !StrBefore(names[0], n) then 0 else 1 + Before(names[1..], n)
  }

  /** The keys of both maps, in order: what iterating the ordered set of names visits. */
  ghost function AllNames(m: Sides): (names: seq<string>)
    ensures InOrder(names, m.old_.Keys + m.new_.Keys)
  {
    NamesExist(m.old_.Keys + m.new_.Keys);
    var names :| InOrder(names, m.old_.Keys + m.new_.Keys);
    names
  }

  lemma OrderUnique(a: seq<string>, b: seq<string>, s: set<string>)
    requires InOrder(a, s) && InOrder(b, s)
    ensures a == b
  {
    NameOrder();
    NoRepeats(a);
    NoRepeats(b);
    SameMultiset(a, b);
    Sorting.StrictUnique(StrBefore, a, b);
  }

  lemma NoRepeats(a: seq<string>)
    requires Sorting.StrictlySorted(StrBefore, a)
    ensures forall i, j :: 0 <= i < j < |a| ==> a[i] != a[j]
    ensures Sorting.Sorted(StrBefore, a)
  {
    forall i, j | 0 <= i < j < |a| ensures a[i] != a[j] && !StrBefore(a[j], a[i]) { StrAsymmetric(a[i], a[j]); }
  }

  lemma SameMultiset(a: seq<string>, b: seq<string>)
    requires forall i, j :: 0 <= i < j < |a| ==> a[i] != a[j]
    requires forall i, j :: 0 <= i < j < |b| ==> b[i] != b[j]
    requires forall x :: x in a <==> x in b
    ensures multiset(a) == multiset(b)
  {
    forall x ensures multiset(a)[x] == multiset(b)[x] {
      CountOnce(a, x);
      CountOnce(b, x);
    }
  }

  lemma {:induction false} CountOnce(a: seq<string>, x: string)
    requires forall i, j :: 0 <= i < j < |a| ==> a[i] != a[j]
    ensures multiset(a)[x] == if x in a then 1 else 0
  {
    if a != [] {
      CountOnce(a[1..], x);
      assert a == [a[0]] + a[1..];
    }
  }

  method DiffSection(m: Sides) returns (diff: SectionDiff)
    ensures diff == DiffNames(AllNames(m), m)
  {
    var names := OrderedNames(m.old_.Keys + m.new_.Keys);
    OrderUnique(names, AllNames(m), m.old_.Keys + m.new_.Keys);
    diff := EMPTY;
    for i := 0 to |names|
      invariant diff == DiffNames(names[..i], m)
    {
      assert names[..i + 1][..i] == names[..i];
      diff := Classify(diff, names[i], m);
    }
    assert names[..|names|] == names;
  }

  // ---- softening: changes that only add cases or map fields ----

  /** The old cases open the new list unchanged, and the new list is longer. */
  predicate CasesAppended(before: seq<UnionCase>, after: seq<UnionCase>) {
    |after| > |before| && forall i :: 0 <= i < |before| ==>
      before[i].name == after[i].name && Map(TypeName, before[i].tys) == Map(TypeName, after[i].tys)
  }

  predicate ValuesAppended(before: seq<EnumCase>, after: seq<EnumCase>) {
    |after| > |before| && forall i :: 0 <= i < |before| ==> before[i] == after[i]
  }

  function AddedCasesOnly(old_: ContractSpec, new_: ContractSpec, name: string): bool {
    match (Find(UnionName, old_.unions, name), Find(UnionName, new_.unions, name))
    case (Some(o), Some(n)) => CasesAppended(o.cases, n.cases)
    case _ =>
      match (Find(EnumName, old_.enums, name), Find(EnumName, new_.enums, name))
      case (Some(o), Some(n)) => ValuesAppended(o.cases, n.cases)
      case _ => false
  }

  function AddedFieldsOnly(old_: ContractSpec, new_: ContractSpec, name: string): bool {
    match (Find(EventName, old_.events, name), Find(EventName, new_.events, name))
    case (Some(o), Some(n)) =>
      && o.format == n.format == MapData
      && |n.params| > |o.params|
      && (forall i :: 0 <= i < |o.params| ==>
            o.params[i].name == n.params[i].name && TypeName(o.params[i].ty) == TypeName(n.params[i].ty)
            && o.params[i].inTopics == n.params[i].inTopics)
      && (forall i :: |o.params| <= i < |n.params| ==> !n.params[i].inTopics && n.params[i].name != "")
    case _ => false
  }

  /** Which changed names a section moves aside as only potentially breaking. */
  datatype Soft =
    | Nothing
    | SoftEvents(old_: ContractSpec, new_: ContractSpec)
    | SoftTypes(old_: ContractSpec, new_: ContractSpec)

  function Softens(soft: Soft, name: string): bool {
    match soft
    case Nothing => false
    case SoftEvents(o, n) => AddedFieldsOnly(o, n, name)
    case SoftTypes(o, n) => AddedCasesOnly(o, n, name)
  }

  function Kept(items: seq<Item>, soft: Soft): seq<Item> {
    if items == [] then []
    else
      var rest := Kept(items[..|items| - 1], soft);
      if Softens(soft, items[|items| - 1].name) then rest else rest + [items[|items| - 1]]
  }

  function Softened(items: seq<Item>, soft: Soft): seq<Item> {
    if items == [] then []
    else
      var rest := Softened(items[..|items| - 1], soft);
      if Softens(soft, items[|items| - 1].name) then rest + [items[|items| - 1]] else rest
  }

  function Reclassify(d: SectionDiff, soft: Soft): SectionDiff {
    d.(changed := Kept(d.changed, soft), potentially := d.potentially + Softened(d.changed, soft))
  }

  lemma KeptNext(items: seq<Item>, soft: Soft, i: nat)
    requires i < |items|
    ensures var soften := Softens(soft, items[i].name);
      && Kept(items[..i + 1], soft) == Kept(items[..i], soft) + (if soften then [] else [items[i]])
      && Softened(items[..i + 1], soft) == Softened(items[..i], soft) + (if soften then [items[i]] else [])
  {
    hide Softens;
    assert items[..i + 1][..i] == items[..i];
  }

  /** Drain the changed items, moving the soft ones aside. */
  method ReclassifyChanged(d: SectionDiff, soft: Soft) returns (out: SectionDiff)
    ensures out == Reclassify(d, soft)
  {
    var still, aside := [], [];
    for i := 0 to |d.changed|
      invariant still == Kept(d.changed[..i], soft)
      invariant aside == Softened(d.changed[..i], soft)
    {
      KeptNext(d.changed, soft, i);
      hide Kept, Softened, Softens;
      if Softens(soft, d.changed[i].name) {
        aside := aside + [d.changed[i]];
      } else {
        still := still + [d.changed[i]];
      }
    }
    assert d.changed[..|d.changed|] == d.changed;
    out := d.(changed := still, potentially := d.potentially + aside);
  }

  // ---- the whole diff ----

  function FunctionSides(old_: ContractSpec, new_: ContractSpec): Sides {
    Sides(FunctionSigMap(old_), FunctionSigMap(new_), FunctionParamMap(old_), FunctionParamMap(new_))
  }

  function EventSides(old_: ContractSpec, new_: ContractSpec): Sides {
    Sides(EventSigMap(old_), EventSigMap(new_), map[], map[])
  }

  function TypeSides(old_: ContractSpec, new_: ContractSpec): Sides {
    Sides(TypeSigMap(old_), TypeSigMap(new_), map[], map[])
  }

  ghost function Section(m: Sides, soft: Soft): SectionDiff {
    Reclassify(DiffNames(AllNames(m), m), soft)
  }

  /** `SpecDiff::between`. */
  ghost function Between(old_: ContractSpec, new_: ContractSpec): SpecDiff {
    var f := DiffNames(AllNames(FunctionSides(old_, new_)), FunctionSides(old_, new_));
    var e := Section(EventSides(old_, new_), SoftEvents(old_, new_));
    var t := Section(TypeSides(old_, new_), SoftTypes(old_, new_));
    SpecDiff(f.HasBreaking() || e.HasBreaking() || t.HasBreaking(),
             Max(Max(f.MaxSeverity(), e.MaxSeverity()), t.MaxSeverity()), f, e, t)
  }

  method DiffSpecs(old_: ContractSpec, new_: ContractSpec) returns (d: SpecDiff)
    ensures d == Between(old_, new_)
  {
    var oldSigs, oldParams := FunctionSigs(old_);
    var newSigs, newParams := FunctionSigs(new_);
    var functions := DiffSection(Sides(oldSigs, newSigs, oldParams, newParams));
    var oldEvents := InsertAll(map[], EventName, EventSig, old_.events);
    var newEvents := InsertAll(map[], EventName, EventSig, new_.events);
    var events := DiffSection(Sides(oldEvents, newEvents, map[], map[]));
    events := ReclassifyChanged(events, SoftEvents(old_, new_));
    var oldTypes := TypeSigs(old_);
    var newTypes := TypeSigs(new_);
    var types := DiffSection(Sides(oldTypes, newTypes, map[], map[]));
    types := ReclassifyChanged(types, SoftTypes(old_, new_));
    d := SpecDiff(functions.HasBreaking() || events.HasBreaking() || types.HasBreaking(),
                  Max(Max(functions.MaxSeverity(), events.MaxSeverity()), types.MaxSeverity()),
                  functions, events, types);
  }
}
