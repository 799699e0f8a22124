/** The order of contract values, read variant by variant: what it means for one value to come before another. */
module DerivedOrder {
  import opened Basics
  import opened Json
  import opened ScVal
  import opened Spec
  import opened Encoder
  import opened TypedValues
  import EncodeSound
  import Sorting
  import XdrWire

  // ---- left to right ----

  /** After `k` equal parts, one sequence ends or holds the smaller part. */
  ghost predicate PartAt<T(!new)>(less: (T, T) -> bool, x: seq<T>, y: seq<T>, k: nat) {
    && k <= |x| && k < |y| && x[..k] == y[..k]
    && (k == |x| || less(x[k], y[k]))
  }

  ghost predicate Precedes<T(!new)>(less: (T, T) -> bool, x: seq<T>, y: seq<T>) {
    exists k: nat :: PartAt(less, x, y, k)
  }

  lemma PrecedesStep<T(!new)>(less: (T, T) -> bool, x: seq<T>, y: seq<T>)
    requires x != [] && y != []
    ensures Precedes(less, x, y) <==> less(x[0], y[0]) || (x[0] == y[0] && Precedes(less, x[1..], y[1..]))
  {
    var s, t := x[1..], y[1..];
    if k: nat :| PartAt(less, x, y, k) {
      if k > 0 {
        assert x[..k][0] == y[..k][0] && x[..k][1..] == s[..k - 1] && y[..k][1..] == t[..k - 1];
        assert PartAt(less, s, t, k - 1);
      }
    }
    if less(x[0], y[0]) { assert PartAt(less, x, y, 0); }
    if x[0] == y[0] {
      if k: nat :| PartAt(less, s, t, k) {
        assert x[..k + 1] == [x[0]] + s[..k] && y[..k + 1] == [y[0]] + t[..k];
        assert PartAt(less, x, y, k + 1);
      }
    }
  }

  lemma PrecedesEnds<T(!new)>(less: (T, T) -> bool, x: seq<T>)
    ensures Precedes(less, [], x) <==> x != []
    ensures !Precedes(less, x, [])
  {
    if x != [] { assert PartAt(less, [], x, 0); }
  }

  // ---- bytes ----

  predicate SmallerByte(a: byte, b: byte) { a < b }

  /** A prefix first, and otherwise by the first byte that differs. */
  ghost predicate BytesBefore(x: seq<byte>, y: seq<byte>) { Precedes(SmallerByte, x, y) }

  lemma {:induction false} IntsBefore(x: seq<byte>, y: seq<byte>)
    ensures CompareInts(x, y) == Less <==> BytesBefore(x, y)
  {
    hide Precedes;
    PrecedesEnds(SmallerByte, x);
    PrecedesEnds(SmallerByte, y);
    if x != [] && y != [] {
      PrecedesStep(SmallerByte, x, y);
      IntsBefore(x[1..], y[1..]);
    }
  }

  /** Byte strings, strings and symbols come in the order of their bytes, a prefix first. */
  lemma TextsCompare(x: seq<byte>, y: seq<byte>)
    ensures Compare(ScvSymbol(x), ScvSymbol(y)) == Less <==> BytesBefore(x, y)
    ensures Compare(ScvString(x), ScvString(y)) == Less <==> BytesBefore(x, y)
    ensures Compare(ScvBytes(x), ScvBytes(y)) == Less <==> BytesBefore(x, y)
  {
    IntsBefore(x, y);
    hide BytesBefore;
  }

  // ---- variants ----

  /** A variant declared earlier comes first; of the optional ones, an absent value before a present one. */
  lemma VariantsCompare(a: ScVal, b: ScVal)
    ensures XdrWire.Tag(a) < XdrWire.Tag(b) ==> Compare(a, b) == Less
    ensures Compare(ScvVecAbsent, ScvVec([])) == Compare(ScvMapAbsent, ScvMap([])) == Less
    ensures a.ScvVec? ==> Compare(ScvVecAbsent, a) == Less
    ensures a.ScvMap? ==> Compare(ScvMapAbsent, a) == Less
  {
    hide Scalars, CompareInts, CompareChildren;
  }

  lemma FlagsAndErrorsCompare(kind: nat, code: nat, other: nat, code': nat)
    ensures Compare(ScvBool(false), ScvBool(true)) == Less
    ensures Compare(ScvError(kind, code), ScvError(other, code')) == Less
            <==> kind < other || (kind == other && code < code')
  {
    PairCompare(kind, code, other, code');
  }

  lemma PairCompare(a: int, b: int, c: int, d: int)
    ensures CompareInts([a, b], [c, d]) == Less <==> a < c || (a == c && b < d)
  {
    assert [a, b][1..] == [b] && [c, d][1..] == [d];
    assert CompareInts([b], [d]) == CompareInt(b, d);
  }

  lemma NoncesCompare(x: int, y: int)
    ensures Compare(ScvLedgerKeyNonce(x), ScvLedgerKeyNonce(y)) == Less <==> x < y
  {
    assert CompareInts([x], [y]) == CompareInt(x, y);
  }

  // ---- addresses ----

  lemma HeadsCompare(a: int, x: seq<int>, b: int, y: seq<int>)
    ensures CompareInts([a] + x, [b] + y) == CompareInt(a, b).Then(CompareInts(x, y))
  {
    assert ([a] + x)[1..] == x && ([b] + y)[1..] == y;
  }

  /** Accounts, contracts, muxed accounts, claimable balances, pools: in this order, whatever they hold. */
  lemma AddressKindsCompare(k: seq<byte>, c: seq<byte>, id: nat, m: seq<byte>, b: seq<byte>, p: seq<byte>)
    ensures Compare(ScvAddress(Account(k)), ScvAddress(Contract(c))) == Less
    ensures Compare(ScvAddress(Contract(c)), ScvAddress(MuxedAccount(id, m))) == Less
    ensures Compare(ScvAddress(MuxedAccount(id, m)), ScvAddress(ClaimableBalance(b))) == Less
    ensures Compare(ScvAddress(ClaimableBalance(b)), ScvAddress(LiquidityPool(p))) == Less
  {
    HeadsCompare(0, k, 1, c);
    HeadsCompare(1, c, 2, [id] + m);
    assert [2, id] + m == [2] + ([id] + m);
    HeadsCompare(2, [id] + m, 3, b);
    HeadsCompare(3, b, 4, p);
    AddressesByScalars();
    hide Compare, CompareInts;
  }

  lemma AddressesByScalars()
    ensures forall a, b :: Compare(ScvAddress(a), ScvAddress(b)) == CompareInts(AddressScalars(a), AddressScalars(b))
  {
    hide CompareInts, AddressScalars;
  }

  /** Addresses of one kind come in the order of their bytes; muxed accounts by id first. */
  lemma AddressesCompare(x: seq<byte>, y: seq<byte>, i: nat, j: nat)
    ensures Compare(ScvAddress(Account(x)), ScvAddress(Account(y))) == Less <==> BytesBefore(x, y)
    ensures Compare(ScvAddress(Contract(x)), ScvAddress(Contract(y))) == Less <==> BytesBefore(x, y)
    ensures Compare(ScvAddress(ClaimableBalance(x)), ScvAddress(ClaimableBalance(y))) == Less <==> BytesBefore(x, y)
    ensures Compare(ScvAddress(LiquidityPool(x)), ScvAddress(LiquidityPool(y))) == Less <==> BytesBefore(x, y)
    ensures Compare(ScvAddress(MuxedAccount(i, x)), ScvAddress(MuxedAccount(j, y))) == Less
            <==> i < j || (i == j && BytesBefore(x, y))
  {
    hide BytesBefore, Compare, CompareInts;
    OneKindCompares(0, x, y);
    OneKindCompares(1, x, y);
    OneKindCompares(3, x, y);
    OneKindCompares(4, x, y);
    MuxedCompare(x, y, i, j);
    AddressesByScalars();
  }

  lemma OneKindCompares(kind: int, x: seq<byte>, y: seq<byte>)
    ensures CompareInts([kind] + x, [kind] + y) == Less <==> BytesBefore(x, y)
  {
    hide BytesBefore;
    HeadsCompare(kind, x, kind, y);
    IntsBefore(x, y);
  }

  lemma MuxedCompare(x: seq<byte>, y: seq<byte>, i: nat, j: nat)
    ensures CompareInts([2, i] + x, [2, j] + y) == Less <==> i < j || (i == j && BytesBefore(x, y))
  {
    hide BytesBefore, CompareInts;
    assert [2, i] + x == [2] + ([i] + x) && [2, j] + y == [2] + ([j] + y);
    HeadsCompare(2, [i] + x, 2, [j] + y);
    HeadsCompare(i, x, j, y);
    IntsBefore(x, y);
  }

  // ---- contract instances ----

  lemma {:induction false} SameLengthThen(x: seq<int>, y: seq<int>, p: int, q: int)
    requires |x| == |y|
    ensures CompareInts(x + [p], y + [q]) == CompareInts(x, y).Then(CompareInt(p, q))
  {
    if x == [] {
      assert x + [p] == [p] && y + [q] == [q];
    } else {
      SameLengthThen(x[1..], y[1..], p, q);
      assert (x + [p])[1..] == x[1..] + [p] && (y + [q])[1..] == y[1..] + [q];
    }
  }

  /** Instances come by executable, WASM by hash and before the asset contract; then no storage first, then by
      storage. */
  lemma InstancesCompare(h: seq<byte>, g: seq<byte>, m: seq<Entry>, n: seq<Entry>, p: bool, q: bool)
    requires |h| == |g|
    ensures Compare(ScvContractInstance(Wasm(h), m, p), ScvContractInstance(StellarAsset, n, q)) == Less
    ensures Compare(ScvContractInstance(Wasm(h), m, p), ScvContractInstance(Wasm(g), n, q)) == Less
            <==> BytesBefore(h, g) || (h == g && StorageBefore(m, p, n, q))
    ensures Compare(ScvContractInstance(StellarAsset, m, p), ScvContractInstance(StellarAsset, n, q)) == Less
            <==> StorageBefore(m, p, n, q)
  {
    var a, b := ScvContractInstance(Wasm(h), m, p), ScvContractInstance(Wasm(g), n, q);
    var c, d := ScvContractInstance(StellarAsset, m, p), ScvContractInstance(StellarAsset, n, q);
    InstanceScalars(h, g, p, q);
    CompareIntsEqual(h, g);
    IntsBefore(h, g);
    EntriesCompare(m, n);
    InstanceByParts(a, b);
    InstanceByParts(a, d);
    InstanceByParts(c, d);
    hide BytesBefore, CompareInts, Precedes, Compare, CompareEntries;
  }

  lemma InstanceByParts(a: ScVal, b: ScVal)
    requires a.ScvContractInstance? && b.ScvContractInstance?
    ensures Compare(a, b) == CompareInts(Scalars(a), Scalars(b)).Then(CompareEntries(a.storage, b.storage))
  {
    hide CompareInts, CompareEntries, Scalars;
  }

  lemma InstanceScalars(h: seq<byte>, g: seq<byte>, p: bool, q: bool)
    requires |h| == |g|
    ensures CompareInts([0] + h + [BoolScalar(p)], [1, BoolScalar(q)]) == Less
    ensures CompareInts([0] + h + [BoolScalar(p)], [0] + g + [BoolScalar(q)])
            == CompareInts(h, g).Then(CompareInt(BoolScalar(p), BoolScalar(q)))
    ensures CompareInts([1, BoolScalar(p)], [1, BoolScalar(q)]) == CompareInt(BoolScalar(p), BoolScalar(q))
  {
    var x, y := BoolScalar(p), BoolScalar(q);
    assert [0] + h + [x] == [0] + (h + [x]) && [0] + g + [y] == [0] + (g + [y]);
    assert [1, x] == [1] + [x] && [1, y] == [1] + [y] && [x] == [x] + [] && [y] == [y] + [];
    HeadsCompare(0, h + [x], 1, [y]);
    HeadsCompare(0, h + [x], 0, g + [y]);
    HeadsCompare(1, [x], 1, [y]);
    HeadsCompare(x, [], y, []);
    SameLengthThen(h, g, x, y);
  }

  ghost predicate StorageBefore(m: seq<Entry>, p: bool, n: seq<Entry>, q: bool) {
    (!p && q) || (p == q && Precedes(EntryBefore, m, n))
  }

  // ---- vectors and maps ----

  ghost predicate ItemBefore(a: ScVal, b: ScVal) { Compare(a, b) == Less }

  /** By key, then by value. */
  ghost predicate EntryBefore(e: Entry, f: Entry) {
    Compare(e.key, f.key) == Less || (e.key == f.key && Compare(e.val, f.val) == Less)
  }

  lemma {:induction false} ItemsCompare(x: seq<ScVal>, y: seq<ScVal>)
    ensures CompareItems(x, y) == Less <==> Precedes(ItemBefore, x, y)
    decreases |x|
  {
    hide Compare, Precedes;
    PrecedesEnds(ItemBefore, x);
    PrecedesEnds(ItemBefore, y);
    if x != [] && y != [] {
      PrecedesStep(ItemBefore, x, y);
      CompareEqual(x[0], y[0]);
      ItemsCompare(x[1..], y[1..]);
    }
  }

  lemma {:induction false} EntriesCompare(x: seq<Entry>, y: seq<Entry>)
    ensures CompareEntries(x, y) == Less <==> Precedes(EntryBefore, x, y)
    decreases |x|
  {
    hide EntryBefore, CompareEntry, Precedes;
    PrecedesEnds(EntryBefore, x);
    PrecedesEnds(EntryBefore, y);
    if x != [] && y != [] {
      PrecedesStep(EntryBefore, x, y);
      EntryCompares(x[0], y[0]);
      EntriesCompare(x[1..], y[1..]);
    }
  }

  lemma EntryCompares(e: Entry, f: Entry)
    ensures CompareEntry(e, f) == Less <==> EntryBefore(e, f)
    ensures CompareEntry(e, f) == Equal <==> e == f
  {
    hide Compare;
    CompareEqual(e.key, f.key);
    CompareEqual(e.val, f.val);
  }

  /** Vectors compare item by item, maps entry by entry, a prefix first. */
  lemma ContainersCompare(x: seq<ScVal>, y: seq<ScVal>, m: seq<Entry>, n: seq<Entry>)
    ensures Compare(ScvVec(x), ScvVec(y)) == Less <==> Precedes(ItemBefore, x, y)
    ensures Compare(ScvMap(m), ScvMap(n)) == Less <==> Precedes(EntryBefore, m, n)
  {
    ItemsCompare(x, y);
    EntriesCompare(m, n);
    ContainersByParts(x, y, m, n);
    hide Precedes, Compare, CompareItems, CompareEntries;
  }

  lemma ContainersByParts(x: seq<ScVal>, y: seq<ScVal>, m: seq<Entry>, n: seq<Entry>)
    ensures Compare(ScvVec(x), ScvVec(y)) == CompareItems(x, y)
    ensures Compare(ScvMap(m), ScvMap(n)) == CompareEntries(m, n)
  {
    hide CompareItems, CompareEntries;
  }

  // ---- encoded arguments ----

  predicate IsText(ty: TypeDef) { ty.TSymbol? || ty.TString? || ty.TBytes? || ty.TBytesN? }

  function TextBytes(sv: ScVal): seq<byte> {
    if sv.ScvSymbol? || sv.ScvString? || sv.ScvBytes? then sv.bytes else []
  }

  predicate OneTextKind(a: ScVal, b: ScVal) {
    (a.ScvSymbol? && b.ScvSymbol?) || (a.ScvString? && b.ScvString?) || (a.ScvBytes? && b.ScvBytes?)
  }

  ghost predicate TextKeysIn(entries: seq<Entry>) {
    forall i, j :: 0 <= i < |entries| && 0 <= j < |entries| ==> OneTextKind(entries[i].key, entries[j].key)
  }

  ghost predicate KeysAscend(entries: seq<Entry>) {
    forall i, j :: 0 <= i < j < |entries| ==> BytesBefore(TextBytes(entries[i].key), TextBytes(entries[j].key))
  }

  lemma SortedTextsAscend(entries: seq<Entry>)
    requires Sorting.StrictlySorted(KeyBefore, entries) && TextKeysIn(entries)
    ensures KeysAscend(entries)
  {
    hide Compare, BytesBefore;
    forall i, j | 0 <= i < j < |entries|
      ensures BytesBefore(TextBytes(entries[i].key), TextBytes(entries[j].key))
    {
      assert KeyBefore(entries[i], entries[j]) && OneTextKind(entries[i].key, entries[j].key);
      TextsCompare(TextBytes(entries[i].key), TextBytes(entries[j].key));
    }
  }

  lemma TypedTextKeys(sv: ScVal, k: TypeDef, t: TypeDef, spec: ContractSpec)
    requires IsText(k) && WellTyped(sv, TMap(k, t), spec)
    ensures sv.ScvMap? && Sorting.StrictlySorted(KeyBefore, sv.entries) && TextKeysIn(sv.entries)
  {
    hide KeyBefore, Sorting.StrictlySorted;
    forall i | 0 <= i < |sv.entries| ensures ScalarTyped(sv.entries[i].key, k) {
      assert EntryTyped(sv.entries[i], k, t, spec);
      TypedText(sv.entries[i].key, k, spec);
    }
  }

  lemma TypedText(sv: ScVal, k: TypeDef, spec: ContractSpec)
    requires IsText(k) && WellTyped(sv, k, spec)
    ensures ScalarTyped(sv, k)
  {
  }

  /** An encoded map with text keys has them in strictly ascending byte order. */
  lemma TextKeysAscend(v: Json, k: TypeDef, t: TypeDef, spec: ContractSpec, keys: Strkey)
    requires Sane(spec, keys) && IsText(k) && Encode(v, TMap(k, t), spec, keys).Ok?
    ensures Encode(v, TMap(k, t), spec, keys).value.ScvMap?
    ensures KeysAscend(Encode(v, TMap(k, t), spec, keys).value.entries)
  {
    hide Encode, Sane, WellTyped, KeysAscend, TextKeysIn, Sorting.StrictlySorted;
    EncodeSound.EncodeSound(v, TMap(k, t), spec, keys);
    TypedTextKeys(Encode(v, TMap(k, t), spec, keys).value, k, t, spec);
    SortedTextsAscend(Encode(v, TMap(k, t), spec, keys).value.entries);
  }

  /** A struct's fields come in the byte order of their names, whatever order they are declared in. */
  lemma FieldsAscend(v: Json, name: string, s: UdtStruct, spec: ContractSpec, keys: Strkey)
    requires Sane(spec, keys) && UdtOf(spec, name) == Some(StructDef(s)) && !IsTupleStruct(s)
    requires Encode(v, TUdt(name), spec, keys).Ok?
    ensures Encode(v, TUdt(name), spec, keys).value.ScvMap?
    ensures var entries := Encode(v, TUdt(name), spec, keys).value.entries;
      && |entries| == |s.fields| && KeysAscend(entries)
      && forall i :: 0 <= i < |entries| ==> exists f :: f in s.fields && SymbolNamed(entries[i].key, f.name)
  {
    hide Encode, Sane, WellTyped, KeysAscend, TextKeysIn, Sorting.StrictlySorted, SymbolNamed;
    var entries := StructEncodes(v, name, s, spec, keys);
    var sorted := Sorting.Sort(KeyBefore, entries);
    StructNames(name, s, spec, keys);
    EncodeSound.DeclaredSortsStrictly(entries, s.fields, spec);
    Sorting.SortLength(KeyBefore, entries);
    hide EncodeSound.Declared, Sorting.Sort;
    forall i | 0 <= i < |sorted| ensures exists f :: f in s.fields && SymbolNamed(sorted[i].key, f.name) {
      var f := FieldOf(sorted[i], entries, sorted, s.fields, spec);
    }
    NamedKeysAreTexts(sorted, s.fields);
    SortedTextsAscend(sorted);
  }

  lemma NamedKeysAreTexts(entries: seq<Entry>, fields: seq<Field>)
    requires forall i :: 0 <= i < |entries| ==> exists f :: f in fields && SymbolNamed(entries[i].key, f.name)
    ensures TextKeysIn(entries)
  {
  }

  lemma StructEncodes(v: Json, name: string, s: UdtStruct, spec: ContractSpec, keys: Strkey)
    returns (entries: seq<Entry>)
    requires Sane(spec, keys) && UdtOf(spec, name) == Some(StructDef(s)) && !IsTupleStruct(s)
    requires Encode(v, TUdt(name), spec, keys).Ok?
    ensures EncodeSound.Declared(entries, s.fields, spec) && |entries| == |s.fields|
    ensures Encode(v, TUdt(name), spec, keys) == Ok(ScvMap(Sorting.Sort(KeyBefore, entries)))
  {
    hide Sane, EncodeFields, Sorting.Sort, EncodeSound.Declared, UdtOf;
    entries := EncodeFields(v.members, s.fields, spec, keys).value;
    EncodeSound.FieldsSound(v.members, s.fields, spec, keys);
  }

  lemma StructNames(name: string, s: UdtStruct, spec: ContractSpec, keys: Strkey)
    requires Sane(spec, keys) && UdtOf(spec, name) == Some(StructDef(s))
    ensures DistinctNames(FieldName, s.fields)
  {
    UdtDeclared(spec, name);
  }

  lemma FieldOf(e: Entry, entries: seq<Entry>, sorted: seq<Entry>, fields: seq<Field>, spec: ContractSpec)
    returns (f: Field)
    requires e in sorted && multiset(sorted) == multiset(entries) && EncodeSound.Declared(entries, fields, spec)
    ensures f in fields && SymbolNamed(e.key, f.name)
  {
    hide WellTyped;
    assert e in multiset(sorted);
    var i :| 0 <= i < |entries| && entries[i] == e;
    f := fields[i];
    assert EncodeSound.DeclaredEntry(entries[i], fields[i], spec);
  }
}
