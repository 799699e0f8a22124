/** Whatever the encoder produces belongs to the declared type. */
module EncodeSound {
  import opened Basics
  import opened Json
  import opened ScVal
  import opened Spec
  import opened Encoder
  import opened TypedValues
  import Sorting
  import Utf8

  lemma NumericSound(v: Json, ty: TypeDef)
    requires NumericArg(v, ty).Some?
    ensures ScalarTyped(NumericArg(v, ty).value, ty)
  {
    if ty == TU128 || ty == TI128 {
      var signed := ty == TI128;
      var lo, hi := if signed then -TWO_127 else 0, if signed then TWO_127 - 1 else TWO_128 - 1;
      var n := IntArg(v, signed, lo, hi).value;
      assert n == n / TWO_64 * TWO_64 + n % TWO_64;
    }
  }

  lemma TextSound(v: Json, ty: TypeDef, keys: Strkey)
    requires Faithful(keys) && TextArg(v, ty, keys).Some?
    ensures ScalarTyped(TextArg(v, ty, keys).value, ty)
  {
    assert IsText(Utf8.Encode(v.text));
    if ty == TMuxedAddress { MuxedSound(v.text, keys); }
  }

  lemma MuxedSound(s: string, keys: Strkey)
    requires Faithful(keys) && MuxedArg(s, keys).Some?
    ensures WellFormedAddress(MuxedArg(s, keys).value) && !MuxedArg(s, keys).value.MuxedAccount?
  {
    var a := MuxedArg(s, keys).value;
    if s != [] && s[0] == 'M' {
      var key := keys.muxedKey(s).value;
      assert WellFormedAddress(Account(key));
      assert keys.parse(keys.show(Account(key))) == Some(Account(key));
    } else {
      assert keys.show(a) == s;
    }
  }

  lemma ScalarSound(v: Json, ty: TypeDef, keys: Strkey)
    requires Faithful(keys) && EncodeScalar(v, ty, keys).Ok?
    ensures ScalarTyped(EncodeScalar(v, ty, keys).value, ty)
  {
    if TextArg(v, ty, keys).Some? { TextSound(v, ty, keys); }
    if NumericArg(v, ty).Some? { NumericSound(v, ty); }
  }

  /** A tie-free sort by key is strictly sorted by key. */
  lemma NoDuplicateStrict(entries: seq<Entry>)
    requires NoAdjacentDuplicate(Sorting.Sort(KeyBefore, entries))
    ensures Sorting.StrictlySorted(KeyBefore, Sorting.Sort(KeyBefore, entries))
  {
    KeyOrder();
    var sorted := Sorting.Sort(KeyBefore, entries);
    Sorting.SortSorted(KeyBefore, entries);
    forall i | 0 <= i < |sorted| - 1 ensures KeyBefore(sorted[i], sorted[i + 1]) {
      assert !KeyBefore(sorted[i + 1], sorted[i]);
      CompareFlip(sorted[i + 1].key, sorted[i].key);
      CompareEqual(sorted[i].key, sorted[i + 1].key);
    }
    Sorting.NoTiesStrict(KeyBefore, sorted);
  }

  lemma KeyOrder()
    ensures Sorting.WeakOrder(KeyBefore)
  {
    forall x, y: Entry | KeyBefore(x, y) ensures !KeyBefore(y, x) {
      CompareFlip(x.key, y.key);
    }
    forall x, y, z: Entry | KeyBefore(x, z) ensures KeyBefore(x, y) || KeyBefore(y, z) {
      CompareChains(y.key, x.key, z.key);
      CompareFlip(x.key, y.key);
    }
  }

  lemma {:induction false} EncodeSound(v: Json, ty: TypeDef, spec: ContractSpec, keys: Strkey)
    requires Sane(spec, keys) && Encode(v, ty, spec, keys).Ok?
    ensures WellTyped(Encode(v, ty, spec, keys).value, ty, spec)
    decreases Size(v), 3, ty
  {
    hide Encode, WellTyped, Sane, Faithful;
    match ty
    case TOption(t) => OptionSound(v, t, spec, keys);
    case TVec(t) => VecSound(v, t, spec, keys);
    case TTuple(ts) => TupleSound(v, ts, spec, keys);
    case TMap(k, t) => MapSound(v, k, t, spec, keys);
    case TUdt(name) => UdtSound(v, name, spec, keys);
    case _ => PlainSound(v, ty, spec, keys);
  }

  lemma OptionSound(v: Json, t: TypeDef, spec: ContractSpec, keys: Strkey)
    requires Sane(spec, keys)
    ensures Sound(v, TOption(t), spec, keys)
    decreases Size(v), 3, TOption(t), 0
  {
    hide Sane;
    if !v.Null? && Encode(v, t, spec, keys).Ok? { EncodeSound(v, t, spec, keys); }
  }

  lemma VecSound(v: Json, t: TypeDef, spec: ContractSpec, keys: Strkey)
    requires Sane(spec, keys)
    ensures Sound(v, TVec(t), spec, keys)
    decreases Size(v), 0
  {
    hide Sane, EncodeEach;
    if Encode(v, TVec(t), spec, keys).Ok? {
      EachSound(v.items, Repeat(t, |v.items|), spec, keys);
      var sv := Encode(v, TVec(t), spec, keys).value;
      assert AllTyped(sv.items, Repeat(t, |sv.items|), spec);
    }
  }

  lemma TupleSound(v: Json, ts: seq<TypeDef>, spec: ContractSpec, keys: Strkey)
    requires Sane(spec, keys)
    ensures Sound(v, TTuple(ts), spec, keys)
    decreases Size(v), 1
  {
    hide Sane, EncodePositional, TypedPositional;
    assert Encode(v, TTuple(ts), spec, keys) == EncodePositional(v, ts, spec, keys);
    if EncodePositional(v, ts, spec, keys).Ok? { PositionalSound(v, ts, spec, keys); }
  }

  lemma PositionalSound(v: Json, ts: seq<TypeDef>, spec: ContractSpec, keys: Strkey)
    requires Sane(spec, keys) && EncodePositional(v, ts, spec, keys).Ok?
    ensures TypedPositional(EncodePositional(v, ts, spec, keys).value, ts, spec)
    decreases Size(v), 0
  {
    hide Sane, WellTyped, EncodeEach;
    EachSound(v.items, ts, spec, keys);
  }

  lemma PlainSound(v: Json, ty: TypeDef, spec: ContractSpec, keys: Strkey)
    requires Sane(spec, keys) && !(ty.TOption? || ty.TVec? || ty.TTuple? || ty.TMap? || ty.TUdt?)
    ensures Sound(v, ty, spec, keys)
  {
    if Encode(v, ty, spec, keys).Ok? { ScalarSound(v, ty, keys); }
    hide EncodeScalar, ScalarTyped, Faithful;
  }

  /** If the value encodes at all, the result belongs to the type. */
  ghost predicate Sound(v: Json, ty: TypeDef, spec: ContractSpec, keys: Strkey) {
    var r := Encode(v, ty, spec, keys);
    r.Ok? ==> WellTyped(r.value, ty, spec)
  }

  lemma MapSound(v: Json, k: TypeDef, t: TypeDef, spec: ContractSpec, keys: Strkey)
    requires Sane(spec, keys)
    ensures Sound(v, TMap(k, t), spec, keys)
    decreases Size(v), 0
  {
    if Encode(v, TMap(k, t), spec, keys).Ok? {
      EntriesSound(v.members, k, t, spec, keys);
      var entries := EncodeEntries(v.members, k, t, spec, keys).value;
      NoDuplicateStrict(entries);
      SortKeepsEntries(entries, k, t, spec);
    }
  }

  lemma UdtSound(v: Json, name: string, spec: ContractSpec, keys: Strkey)
    requires Sane(spec, keys)
    ensures Sound(v, TUdt(name), spec, keys)
    decreases Size(v), 2
  {
    if Encode(v, TUdt(name), spec, keys).Ok? {
      match UdtOf(spec, name)
      case Some(StructDef(s)) => StructUdtSound(v, name, s, spec, keys);
      case Some(EnumDef(e)) => EnumSound(v, e);
      case Some(UnionDef(u)) => UnionSound(v, u, spec, keys);
    }
  }

  lemma StructUdtSound(v: Json, name: string, s: UdtStruct, spec: ContractSpec, keys: Strkey)
    requires Sane(spec, keys) && UdtOf(spec, name) == Some(StructDef(s)) && Encode(v, TUdt(name), spec, keys).Ok?
    ensures WellTyped(Encode(v, TUdt(name), spec, keys).value, TUdt(name), spec)
    decreases Size(v), 1
  {
    hide EncodePositional, TypedPositional, EncodeFields, FieldsTyped, CanonicalEntries, Faithful;
    if IsTupleStruct(s) {
      PositionalSound(v, FieldTypes(s.fields), spec, keys);
    } else {
      StructSound(v.members, s, spec, keys);
    }
  }

  lemma {:induction false} EachSound(vs: seq<Json>, ts: seq<TypeDef>, spec: ContractSpec, keys: Strkey)
    requires Sane(spec, keys)
    requires |vs| == |ts| && EncodeEach(vs, ts, spec, keys).Ok?
    ensures forall i :: 0 <= i < |vs| ==> WellTyped(EncodeEach(vs, ts, spec, keys).value[i], ts[i], spec)
    decreases SizeAll(vs), 0
  {
    hide Encode, WellTyped, Sane;
    if vs != [] {
      EncodeSound(vs[0], ts[0], spec, keys);
      EachSound(vs[1..], ts[1..], spec, keys);
    }
  }

  lemma TypedEntriesCons(e: Entry, rest: seq<Entry>, k: TypeDef, t: TypeDef, spec: ContractSpec)
    requires WellTyped(e.key, k, spec) && WellTyped(e.val, t, spec) && EntriesTyped(rest, k, t, spec)
    ensures EntriesTyped([e] + rest, k, t, spec)
  {
    hide WellTyped;
  }

  lemma {:induction false} EntriesSound(ms: seq<Member>, k: TypeDef, t: TypeDef, spec: ContractSpec, keys: Strkey)
    requires Sane(spec, keys)
    requires EncodeEntries(ms, k, t, spec, keys).Ok?
    ensures EntriesTyped(EncodeEntries(ms, k, t, spec, keys).value, k, t, spec)
    decreases SizeMembers(ms), 0
  {
    hide Encode, WellTyped, Sane;
    if ms != [] {
      EncodeSound(Str(ms[0].key), k, spec, keys);
      EncodeSound(ms[0].value, t, spec, keys);
      EntriesSound(ms[1..], k, t, spec, keys);
      var e := Entry(Encode(Str(ms[0].key), k, spec, keys).value, Encode(ms[0].value, t, spec, keys).value);
      TypedEntriesCons(e, EncodeEntries(ms[1..], k, t, spec, keys).value, k, t, spec);
      hide EntriesTyped;
    }
  }

  lemma SortKeepsEntries(entries: seq<Entry>, k: TypeDef, t: TypeDef, spec: ContractSpec)
    requires EntriesTyped(entries, k, t, spec)
    ensures EntriesTyped(Sorting.Sort(KeyBefore, entries), k, t, spec)
  {
    var sorted := Sorting.Sort(KeyBefore, entries);
    forall i | 0 <= i < |sorted| ensures EntryTyped(sorted[i], k, t, spec) {
      assert sorted[i] in multiset(sorted);
      assert sorted[i] in entries;
    }
  }

  /** Declaration-order entries: one per field, under the field's symbol, holding a value of its type. */
  ghost predicate Declared(entries: seq<Entry>, fields: seq<Field>, spec: ContractSpec) {
    && |entries| == |fields|
    && forall i :: 0 <= i < |fields| ==> DeclaredEntry(entries[i], fields[i], spec)
  }

  ghost predicate DeclaredEntry(e: Entry, f: Field, spec: ContractSpec) {
    SymbolNamed(e.key, f.name) && EntryHolds(e, f.ty, spec)
  }

  lemma DeclaredCons(d: seq<Entry>, fields: seq<Field>, spec: ContractSpec)
    requires fields != [] && Declared(d, fields, spec)
    ensures DeclaredEntry(d[0], fields[0], spec) && Declared(d[1..], fields[1..], spec)
  {
    hide DeclaredEntry;
    assert DeclaredEntry(d[0], fields[0], spec);
    forall j | 0 <= j < |fields[1..]| ensures DeclaredEntry(d[1..][j], fields[1..][j], spec) {
      assert DeclaredEntry(d[j + 1], fields[j + 1], spec);
    }
  }

  lemma {:induction false} FieldsSound(ms: seq<Member>, fields: seq<Field>, spec: ContractSpec, keys: Strkey)
    requires Sane(spec, keys)
    requires EncodeFields(ms, fields, spec, keys).Ok?
    ensures Declared(EncodeFields(ms, fields, spec, keys).value, fields, spec)
    decreases SizeMembers(ms), 0, |fields|
  {
    if fields != [] {
      var r := EncodeFields(ms, fields, spec, keys).value;
      EncodeSound(Get(ms, fields[0].name).value, fields[0].ty, spec, keys);
      FieldsSound(ms, fields[1..], spec, keys);
      assert DeclaredEntry(r[0], fields[0], spec);
      assert r[1..] == EncodeFields(ms, fields[1..], spec, keys).value;
      forall i | 1 <= i < |fields| ensures DeclaredEntry(r[i], fields[i], spec) {
        assert DeclaredEntry(r[1..][i - 1], fields[1..][i - 1], spec);
      }
    }
  }

  /** Distinct field names make declaration-order keys distinct, so the sorted map is canonical. */
  lemma DeclaredSortsStrictly(entries: seq<Entry>, fields: seq<Field>, spec: ContractSpec)
    requires Declared(entries, fields, spec) && DistinctNames(FieldName, fields)
    ensures Sorting.StrictlySorted(KeyBefore, Sorting.Sort(KeyBefore, entries))
  {
    DeclaredKeysDistinct(entries, fields, spec);
    hide Declared, KeyBefore;
    PermutationKeysDistinct(entries, Sorting.Sort(KeyBefore, entries));
    NoDuplicateStrict(entries);
  }

  lemma PermutationKeysDistinct(a: seq<Entry>, b: seq<Entry>)
    requires multiset(a) == multiset(b)
    requires forall i, j :: 0 <= i < |a| && 0 <= j < |a| && i != j ==> a[i].key != a[j].key
    ensures NoAdjacentDuplicate(b)
  {
    forall i | 0 <= i < |b| - 1 ensures b[i].key != b[i + 1].key {
      var k, l := Sorting.PairInPermutation(a, b, i, i + 1);
    }
  }

  lemma DeclaredKeysDistinct(entries: seq<Entry>, fields: seq<Field>, spec: ContractSpec)
    requires Declared(entries, fields, spec) && DistinctNames(FieldName, fields)
    ensures forall i, j :: 0 <= i < |entries| && 0 <= j < |entries| && i != j ==> entries[i].key != entries[j].key
  {
    forall i, j | 0 <= i < j < |entries| ensures entries[i].key != entries[j].key {
      assert DeclaredEntry(entries[i], fields[i], spec) && DeclaredEntry(entries[j], fields[j], spec);
      if entries[i].key == entries[j].key { Utf8.EncodeInjective(fields[i].name, fields[j].name); }
    }
  }

  lemma StructSound(ms: seq<Member>, s: UdtStruct, spec: ContractSpec, keys: Strkey)
    requires Sane(spec, keys) && DistinctNames(FieldName, s.fields)
    requires MapOf(EncodeFields(ms, s.fields, spec, keys), false).Ok?
    ensures var sv := MapOf(EncodeFields(ms, s.fields, spec, keys), false).value;
            CanonicalEntries(sv.entries) && |sv.entries| == |s.fields| && FieldsTyped(sv, s.fields, spec)
    decreases SizeMembers(ms), 1
  {
    var entries := EncodeFields(ms, s.fields, spec, keys).value;
    FieldsSound(ms, s.fields, spec, keys);
    DeclaredSortsStrictly(entries, s.fields, spec);
    Sorting.SortLength(KeyBefore, entries);
    SortedFieldsTyped(entries, s.fields, spec);
  }

  /** Sorting declaration-order entries loses no field. */
  lemma SortedFieldsTyped(entries: seq<Entry>, fields: seq<Field>, spec: ContractSpec)
    requires Declared(entries, fields, spec)
    ensures FieldsTyped(ScvMap(Sorting.Sort(KeyBefore, entries)), fields, spec)
  {
    hide WellTyped, Sorting.Sort;
    var sv := ScvMap(Sorting.Sort(KeyBefore, entries));
    forall i | 0 <= i < |fields| ensures FieldTyped(sv, fields[i], spec) {
      assert DeclaredEntry(entries[i], fields[i], spec);
      assert entries[i] in multiset(sv.entries);
      var j :| 0 <= j < |sv.entries| && sv.entries[j] == entries[i];
    }
  }

  lemma EnumSound(v: Json, e: UdtEnum)
    requires EncodeEnum(v, e).Ok? && forall c :: c in e.cases ==> c.value < TWO_32
    ensures var sv := EncodeEnum(v, e).value;
            sv.ScvU32? && exists i :: 0 <= i < |e.cases| && e.cases[i].value == sv.n < TWO_32
  {
    if v.Str? {
      var i := Position(EnumCaseName, e.cases, v.text);
      assert e.cases[i] in e.cases;
    }
  }

  lemma UnionSound(v: Json, u: UdtUnion, spec: ContractSpec, keys: Strkey)
    requires Sane(spec, keys) && EncodeUnion(v, u, spec, keys).Ok?
    ensures UnionTyped(EncodeUnion(v, u, spec, keys).value, u, spec)
    decreases Size(v), 0
  {
    hide Sane, WellTyped, EncodeEach;
    var name := if v.Str? then v.text else v.members[0].key;
    var c := Find(UnionCaseName, u.cases, name).value;
    var tag := SymbolOf(c.name).value;
    if c.tys == [] {
      TaggedTyped(tag, [], c, u, spec);
      assert [tag] + [] == [tag];
    } else {
      var vals := CaseValues(v.members[0].value);
      CaseValuesSmaller(v.members);
      EachSound(vals, c.tys, spec, keys);
      TaggedTyped(tag, EncodeEach(vals, c.tys, spec, keys).value, c, u, spec);
    }
  }

  /** A declared case's symbol before values of its types is a value of the union. */
  lemma TaggedTyped(tag: ScVal, items: seq<ScVal>, c: UnionCase, u: UdtUnion, spec: ContractSpec)
    requires c in u.cases && Find(UnionCaseName, u.cases, c.name) == Some(c) && SymbolNamed(tag, c.name)
    requires |items| == |c.tys| < TWO_32 - 1 && forall i :: 0 <= i < |items| ==> WellTyped(items[i], c.tys[i], spec)
    ensures UnionTyped(ScvVec([tag] + items), u, spec)
  {
    hide WellTyped, Find;
    var all := [tag] + items;
    forall i | 0 <= i < |c.tys| ensures WellTyped(all[i + 1], c.tys[i], spec) { assert all[i + 1] == items[i]; }
    assert CaseTyped(ScvVec(all), c, u, spec);
  }
}
