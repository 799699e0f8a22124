/** A section diff sorts every name of either interface under exactly one verdict. */
module DiffPartition {
  import opened Spec
  import opened TextOrder
  import opened Diff
  import Sorting

  datatype Verdict = Absent | Unchanged | Added | Removed | Changed | Reordered | Potential

  /** What happened to a name, read off the two sides alone. */
  function VerdictAt(m: Sides, soft: Soft, name: string): Verdict {
    if name in m.old_ && name in m.new_ then
      if m.old_[name] == m.new_[name] then Unchanged
      else if Reorders(name, m.oldParams, m.newParams) then Reordered
      else if Softens(soft, name) then Potential
      else Changed
    else if name in m.old_ then Removed
    else if name in m.new_ then Added
    else Absent
  }

  /** The names with a verdict, in the order given. */
  function Picked(names: seq<string>, v: Verdict, m: Sides, soft: Soft): seq<string> {
    if names == [] then []
    else
      var rest, n := Picked(names[..|names| - 1], v, m, soft), names[|names| - 1];
      if VerdictAt(m, soft, n) == v then rest + [n] else rest
  }

  function Text(side: map<string, string>, n: string): string { if n in side then side[n] else "" }

  function Texts(names: seq<string>, side: map<string, string>): seq<string> {
    if names == [] then [] else Texts(names[..|names| - 1], side) + [Text(side, names[|names| - 1])]
  }

  function Items(names: seq<string>, m: Sides): seq<Item> {
    if names == [] then []
    else
      var n := names[|names| - 1];
      Items(names[..|names| - 1], m) + [Item(n, Text(m.old_, n), Text(m.new_, n))]
  }

  lemma TextsSnoc(names: seq<string>, n: string, side: map<string, string>)
    ensures Texts(names + [n], side) == Texts(names, side) + [Text(side, n)]
  {
    assert (names + [n])[..|names|] == names;
  }

  lemma ItemsSnoc(names: seq<string>, n: string, m: Sides)
    ensures Items(names + [n], m) == Items(names, m) + [Item(n, Text(m.old_, n), Text(m.new_, n))]
  {
    assert (names + [n])[..|names|] == names;
  }

  lemma KeptSnoc(items: seq<Item>, x: Item, soft: Soft)
    ensures Kept(items + [x], soft) == if Softens(soft, x.name) then Kept(items, soft) else Kept(items, soft) + [x]
    ensures Softened(items + [x], soft) == if Softens(soft, x.name) then Softened(items, soft) + [x]
                                           else Softened(items, soft)
  {
    assert (items + [x])[..|items|] == items;
  }

  ghost predicate Exact(d: SectionDiff, names: seq<string>, m: Sides, soft: Soft) {
    && d.added == Texts(Picked(names, Added, m, soft), m.new_)
    && d.removed == Texts(Picked(names, Removed, m, soft), m.old_)
    && d.changed == Items(Picked(names, Changed, m, soft), m)
    && d.reordered == Items(Picked(names, Reordered, m, soft), m)
    && d.potentially == Items(Picked(names, Potential, m, soft), m)
  }

  lemma PickedSnoc(names: seq<string>, n: string, v: Verdict, m: Sides, soft: Soft)
    ensures Picked(names + [n], v, m, soft)
            == if VerdictAt(m, soft, n) == v then Picked(names, v, m, soft) + [n] else Picked(names, v, m, soft)
  {
    hide VerdictAt;
    assert (names + [n])[..|names|] == names;
  }

  lemma PickedTextsSnoc(names: seq<string>, n: string, v: Verdict, m: Sides, soft: Soft, side: map<string, string>)
    ensures var was := Texts(Picked(names, v, m, soft), side);
            Texts(Picked(names + [n], v, m, soft), side)
            == if VerdictAt(m, soft, n) == v then was + [Text(side, n)] else was
  {
    hide VerdictAt, Picked, Texts;
    PickedSnoc(names, n, v, m, soft);
    TextsSnoc(Picked(names, v, m, soft), n, side);
  }

  lemma PickedItemsSnoc(names: seq<string>, n: string, v: Verdict, m: Sides, soft: Soft)
    ensures var was := Items(Picked(names, v, m, soft), m);
            Items(Picked(names + [n], v, m, soft), m)
            == if VerdictAt(m, soft, n) == v then was + [Item(n, Text(m.old_, n), Text(m.new_, n))] else was
  {
    hide VerdictAt, Picked, Items;
    PickedSnoc(names, n, v, m, soft);
    ItemsSnoc(Picked(names, v, m, soft), n, m);
  }

  /** One more name lands in the list of its verdict and nowhere else. */
  lemma StepIsExact(d: SectionDiff, names: seq<string>, n: string, m: Sides, soft: Soft)
    requires Exact(Reclassify(d, soft), names, m, soft) && d.potentially == [] && VerdictAt(m, soft, n) != Absent
    ensures Exact(Reclassify(Classify(d, n, m), soft), names + [n], m, soft) && Classify(d, n, m).potentially == []
  {
    ClassifyByVerdict(d, n, m, soft);
    hide Softens, Reorders, VerdictAt, Picked, Items, Texts, Text, Reclassify, Classify;
    PickedTextsSnoc(names, n, Added, m, soft, m.new_);
    PickedTextsSnoc(names, n, Removed, m, soft, m.old_);
    PickedItemsSnoc(names, n, Changed, m, soft);
    PickedItemsSnoc(names, n, Reordered, m, soft);
    PickedItemsSnoc(names, n, Potential, m, soft);
  }

  lemma ClassifyByVerdict(d: SectionDiff, n: string, m: Sides, soft: Soft)
    requires d.potentially == []
    ensures var out, was := Reclassify(Classify(d, n, m), soft), Reclassify(d, soft);
            var item := Item(n, Text(m.old_, n), Text(m.new_, n));
            && Classify(d, n, m).potentially == []
            && out == match VerdictAt(m, soft, n)
                      case Added => was.(added := was.added + [Text(m.new_, n)])
                      case Removed => was.(removed := was.removed + [Text(m.old_, n)])
                      case Changed => was.(changed := was.changed + [item])
                      case Reordered => was.(reordered := was.reordered + [item])
                      case Potential => was.(potentially := was.potentially + [item])
                      case _ => was
  {
    hide Softens, Reorders;
    KeptSnoc(d.changed, Item(n, Text(m.old_, n), Text(m.new_, n)), soft);
  }

  lemma NoNamesExact(m: Sides, soft: Soft)
    ensures Exact(Reclassify(DiffNames([], m), soft), [], m, soft) && DiffNames([], m).potentially == []
  {
  }

  lemma HasVerdict(m: Sides, soft: Soft, n: string)
    ensures VerdictAt(m, soft, n) != Absent <==> n in m.old_ || n in m.new_
  {
    hide Softens, Reorders;
  }

  lemma {:induction false} ListsAreExact(names: seq<string>, m: Sides, soft: Soft)
    requires forall n :: n in names ==> n in m.old_ || n in m.new_
    ensures Exact(Reclassify(DiffNames(names, m), soft), names, m, soft)
    ensures DiffNames(names, m).potentially == []
  {
    hide Exact, Reclassify, Classify, VerdictAt;
    if names == [] {
      NoNamesExact(m, soft);
    } else {
      var front, n := names[..|names| - 1], names[|names| - 1];
      assert names == front + [n];
      HasVerdict(m, soft, n);
      ListsAreExact(front, m, soft);
      StepIsExact(DiffNames(front, m), front, n, m, soft);
    }
  }

  /** The visited names are exactly those with a verdict, each once. */
  lemma NamesHaveVerdicts(m: Sides, soft: Soft)
    ensures Sorting.StrictlySorted(StrBefore, AllNames(m))
    ensures forall n :: n in AllNames(m) <==> VerdictAt(m, soft, n) != Absent
  {
    hide Softens, Reorders, Sorting.StrictlySorted;
  }

  /** Every list of a section is exactly the names with its verdict, in name order. */
  lemma SectionIsExact(m: Sides, soft: Soft)
    ensures Exact(Section(m, soft), AllNames(m), m, soft)
  {
    hide Exact, Reclassify, DiffNames, Sorting.StrictlySorted;
    ListsAreExact(AllNames(m), m, soft);
  }

  lemma {:induction false} PickedMembers(names: seq<string>, v: Verdict, m: Sides, soft: Soft)
    ensures forall n :: n in Picked(names, v, m, soft) <==> n in names && VerdictAt(m, soft, n) == v
  {
    hide VerdictAt;
    if names != [] {
      PickedMembers(names[..|names| - 1], v, m, soft);
      assert names == names[..|names| - 1] + [names[|names| - 1]];
    }
  }

  lemma {:induction false} ListLengths(names: seq<string>, m: Sides)
    ensures |Items(names, m)| == |names| && |Texts(names, m.old_)| == |names| && |Texts(names, m.new_)| == |names|
  {
    if names != [] { ListLengths(names[..|names| - 1], m); }
  }

  ghost predicate Occurs(v: Verdict, m: Sides, soft: Soft) {
    exists n :: n in AllNames(m) && VerdictAt(m, soft, n) == v
  }

  lemma OccursIffPicked(v: Verdict, m: Sides, soft: Soft)
    ensures Occurs(v, m, soft) <==> Picked(AllNames(m), v, m, soft) != []
    ensures Picked(AllNames(m), v, m, soft) == [] <==> Items(Picked(AllNames(m), v, m, soft), m) == []
    ensures Picked(AllNames(m), v, m, soft) == [] <==> Texts(Picked(AllNames(m), v, m, soft), m.old_) == []
    ensures Picked(AllNames(m), v, m, soft) == [] <==> Texts(Picked(AllNames(m), v, m, soft), m.new_) == []
  {
    hide VerdictAt;
    var ps := Picked(AllNames(m), v, m, soft);
    PickedMembers(AllNames(m), v, m, soft);
    ListLengths(ps, m);
    if ps != [] { assert ps[0] in ps; }
  }

  /** A section breaks exactly when some name was removed, changed or reordered. */
  lemma BreakingMeans(m: Sides, soft: Soft)
    ensures Section(m, soft).HasBreaking()
            <==> Occurs(Removed, m, soft) || Occurs(Changed, m, soft) || Occurs(Reordered, m, soft)
    ensures Section(m, soft).MaxSeverity() == Additive
            <==> !Section(m, soft).HasBreaking() && !Occurs(Potential, m, soft)
    ensures Section(m, soft).HasBreaking() <==> Section(m, soft).MaxSeverity() == Breaking
  {
    hide VerdictAt, Section, Occurs, Picked;
    SectionIsExact(m, soft);
    OccursIffPicked(Removed, m, soft);
    OccursIffPicked(Changed, m, soft);
    OccursIffPicked(Reordered, m, soft);
    OccursIffPicked(Potential, m, soft);
  }

  /** A section is empty exactly when the two signature maps are equal. */
  lemma EmptyMeansEqual(m: Sides, soft: Soft)
    ensures Section(m, soft).IsEmpty() <==> m.old_ == m.new_
  {
    hide Section, Occurs, Picked, Softens, Reorders;
    SectionIsExact(m, soft);
    OccursIffPicked(Added, m, soft);
    OccursIffPicked(Removed, m, soft);
    OccursIffPicked(Changed, m, soft);
    OccursIffPicked(Reordered, m, soft);
    OccursIffPicked(Potential, m, soft);
    AllUnchanged(m, soft);
  }

  lemma AllUnchanged(m: Sides, soft: Soft)
    ensures m.old_ == m.new_ <==> !Occurs(Added, m, soft) && !Occurs(Removed, m, soft) && !Occurs(Changed, m, soft)
                                  && !Occurs(Reordered, m, soft) && !Occurs(Potential, m, soft)
  {
    hide Softens, Reorders;
    if !Occurs(Added, m, soft) && !Occurs(Removed, m, soft) && !Occurs(Changed, m, soft)
       && !Occurs(Reordered, m, soft) && !Occurs(Potential, m, soft)
    {
      forall n | n in m.old_.Keys + m.new_.Keys ensures n in m.old_ && n in m.new_ && m.old_[n] == m.new_[n] {
        assert n in AllNames(m);
        assert VerdictAt(m, soft, n) == Unchanged;
      }
      EqualMaps(m.old_, m.new_);
    }
  }

  lemma EqualMaps(a: map<string, string>, b: map<string, string>)
    requires forall n :: n in a.Keys + b.Keys ==> n in a && n in b && a[n] == b[n]
    ensures a == b
  {
    assert forall n :: n in a ==> n in a.Keys + b.Keys;
    assert forall n :: n in b ==> n in a.Keys + b.Keys;
    assert a.Keys == b.Keys;
  }

  /** A reordering is exactly a non-identical permutation of the parameter tokens. */
  lemma ReorderMeans(before: seq<string>, after: seq<string>)
    ensures IsParamReorder(before, after) <==> before != after && multiset(before) == multiset(after)
  {
    NameOrder();
    if multiset(before) == multiset(after) {
      assert |multiset(before)| == |multiset(after)|;
      SortedUnique(Sorting.Sort(StrBefore, before), Sorting.Sort(StrBefore, after), before, after);
    }
  }

  /** Strings tie only when equal, so a multiset of them has one sorted arrangement. */
  lemma SortedUnique(a: seq<string>, b: seq<string>, before: seq<string>, after: seq<string>)
    requires a == Sorting.Sort(StrBefore, before) && b == Sorting.Sort(StrBefore, after)
    requires multiset(before) == multiset(after)
    ensures a == b
  {
    NameOrder();
    Sorting.SortSorted(StrBefore, before);
    Sorting.SortSorted(StrBefore, after);
    SameSorted(a, b);
  }

  lemma {:induction false} SameSorted(a: seq<string>, b: seq<string>)
    requires Sorting.Sorted(StrBefore, a) && Sorting.Sorted(StrBefore, b) && multiset(a) == multiset(b)
    ensures a == b
  {
    assert |multiset(a)| == |a| && |multiset(b)| == |b|;
    if a != [] {
      SameLeast(a, b);
      Sorting.TailMultiset(a);
      Sorting.TailMultiset(b);
      SameSorted(a[1..], b[1..]);
      assert a == [a[0]] + a[1..] && b == [b[0]] + b[1..];
    }
  }

  lemma SameLeast(a: seq<string>, b: seq<string>)
    requires Sorting.Sorted(StrBefore, a) && Sorting.Sorted(StrBefore, b) && multiset(a) == multiset(b)
    requires a != [] && b != []
    ensures a[0] == b[0]
  {
    assert a[0] in multiset(b) && b[0] in multiset(a);
    var i :| 0 <= i < |b| && b[i] == a[0];
    var j :| 0 <= j < |a| && a[j] == b[0];
    if a[0] != b[0] { StrConnected(a[0], b[0]); }
  }

  // ---- reading the diff the other way ----

  function Swap(m: Sides): Sides { Sides(m.new_, m.old_, m.newParams, m.oldParams) }

  function Mirror(v: Verdict): Verdict { match v case Added => Removed case Removed => Added case _ => v }

  lemma SwapVerdict(m: Sides, n: string)
    ensures VerdictAt(Swap(m), Nothing, n) == Mirror(VerdictAt(m, Nothing, n))
  {
  }

  lemma {:induction false} SwapPicked(names: seq<string>, v: Verdict, m: Sides)
    ensures Picked(names, Mirror(v), Swap(m), Nothing) == Picked(names, v, m, Nothing)
  {
    hide VerdictAt;
    if names != [] {
      SwapPicked(names[..|names| - 1], v, m);
      SwapVerdict(m, names[|names| - 1]);
    }
  }

  /** Swapping two signature maps swaps what was added with what was removed. */
  lemma SwapSection(m: Sides)
    ensures Section(Swap(m), Nothing).added == Section(m, Nothing).removed
    ensures Section(Swap(m), Nothing).removed == Section(m, Nothing).added
  {
    var names := AllNames(m);
    assert m.old_.Keys + m.new_.Keys == Swap(m).old_.Keys + Swap(m).new_.Keys;
    OrderUnique(names, AllNames(Swap(m)), m.old_.Keys + m.new_.Keys);
    SectionIsExact(m, Nothing);
    SectionIsExact(Swap(m), Nothing);
    SwapPicked(names, Added, m);
    SwapPicked(names, Removed, m);
  }

  /** Softening moves no addition and no removal. */
  lemma SoftSwap(m: Sides, soft: Soft, back: Soft)
    ensures Section(Swap(m), back).added == Section(m, soft).removed
    ensures Section(Swap(m), back).removed == Section(m, soft).added
  {
    hide DiffNames, AllNames;
    SwapSection(m);
  }

  /** Swapping the two interfaces swaps what was added with what was removed, in every section. */
  lemma SwapDiff(old_: ContractSpec, new_: ContractSpec)
    ensures var there, back := Between(old_, new_), Between(new_, old_);
      && back.functions.added == there.functions.removed && back.functions.removed == there.functions.added
      && back.events.added == there.events.removed && back.events.removed == there.events.added
      && back.types.added == there.types.removed && back.types.removed == there.types.added
  {
    hide Section, DiffNames, AllNames, FunctionSigMap, FunctionParamMap, EventSigMap, TypeSigMap;
    FunctionSection(old_, new_);
    FunctionSection(new_, old_);
    SoftSwap(FunctionSides(old_, new_), Nothing, Nothing);
    SoftSwap(EventSides(old_, new_), SoftEvents(old_, new_), SoftEvents(new_, old_));
    SoftSwap(TypeSides(old_, new_), SoftTypes(old_, new_), SoftTypes(new_, old_));
  }

  /** The compatibility flag and the severity never disagree. */
  lemma BreakingIsTopSeverity(old_: ContractSpec, new_: ContractSpec)
    ensures Between(old_, new_).breaking <==> Between(old_, new_).maxSeverity == Breaking
  {
    FunctionSection(old_, new_);
    BreakingMeans(FunctionSides(old_, new_), Nothing);
    BreakingMeans(EventSides(old_, new_), SoftEvents(old_, new_));
    BreakingMeans(TypeSides(old_, new_), SoftTypes(old_, new_));
  }

  /** The function section has nothing to soften. */
  lemma FunctionSection(old_: ContractSpec, new_: ContractSpec)
    ensures Between(old_, new_).functions == Section(FunctionSides(old_, new_), Nothing)
  {
    var m := FunctionSides(old_, new_);
    ListsAreExact(AllNames(m), m, Nothing);
    NothingSoftens(DiffNames(AllNames(m), m).changed);
  }

  lemma {:induction false} NothingSoftens(items: seq<Item>)
    ensures Kept(items, Nothing) == items && Softened(items, Nothing) == []
  {
    if items != [] {
      NothingSoftens(items[..|items| - 1]);
      assert items == items[..|items| - 1] + [items[|items| - 1]];
    }
  }

  /** The whole diff is empty exactly when no section's signatures moved. */
  lemma NoDiffMeansSameSignatures(old_: ContractSpec, new_: ContractSpec)
    ensures Between(old_, new_).IsEmpty()
            <==> FunctionSigMap(old_) == FunctionSigMap(new_) && EventSigMap(old_) == EventSigMap(new_)
                 && TypeSigMap(old_) == TypeSigMap(new_)
  {
    FunctionSection(old_, new_);
    EmptyMeansEqual(FunctionSides(old_, new_), Nothing);
    EmptyMeansEqual(EventSides(old_, new_), SoftEvents(old_, new_));
    EmptyMeansEqual(TypeSides(old_, new_), SoftTypes(old_, new_));
  }
}
