/** Results can be fed straight back: exactly when, for every well-typed contract value. */
module RoundTrip {
  import opened Basics
  import opened Json
  import opened ScVal
  import opened Spec
  import opened Encoder
  import opened Decoder
  import opened Relabeller
  import opened TypedValues
  import EncodeSound
  import Decimal
  import Hex
  import Limbs256
  import Sorting
  import Utf8

  /** Every key of every map inside the value renders as a string. */
  ghost predicate Feeds(sv: ScVal)
    decreases sv
  {
    match sv
    case ScvVec(items) => forall i :: 0 <= i < |items| ==> Feeds(items[i])
    case ScvMap(entries) => forall i :: 0 <= i < |entries| ==> FeedsEntry(entries[i])
    case _ => true
  }

  ghost predicate FeedsEntry(e: Entry)
    decreases e
  {
    RendersAsString(e.key) && Feeds(e.val)
  }

  /** Decode a value, name it with the interface, and encode it again. */
  ghost function FedBack(sv: ScVal, ty: TypeDef, spec: ContractSpec, keys: Strkey): Result<ScVal, ArgError> {
    Encode(Relabel(Decode(sv, keys), ty, spec), ty, spec, keys)
  }

  // ---- scalars ----

  lemma TrimKeeps(s: string)
    requires s != [] && !IsSpace(s[0]) && !IsSpace(s[|s| - 1])
    ensures TrimEnd(TrimStart(s)) == s
  {
  }

  lemma IntTextEdges(n: int)
    ensures var s := Decimal.IntText(n); !IsSpace(s[0]) && !IsSpace(s[|s| - 1])
  {
    var digits := Decimal.NatText(if n < 0 then -n else n);
    assert Decimal.IsDigit(digits[0]) && Decimal.IsDigit(digits[|digits| - 1]);
  }

  lemma NumericRoundTrip(sv: ScVal, ty: TypeDef, keys: Strkey)
    requires ScalarTyped(sv, ty)
    requires ty.TU32? || ty.TI32? || ty.TU64? || ty.TI64? || ty.TTimepoint? || ty.TDuration? || ty.TU128? || ty.TI128?
    ensures NumericArg(Decode(sv, keys), ty) == Some(sv)
  {
    hide Decimal.ParseInt, Decimal.IntText;
    match ty
    case TU32 => Decimal.ParseIntText(sv.n, false, 0, TWO_32 - 1);
    case TI32 => Decimal.ParseIntText(sv.n, true, -0x8000_0000, 0x7FFF_FFFF);
    case TU64 => Decimal.ParseIntText(sv.n, false, 0, TWO_64 - 1);
    case TI64 => Decimal.ParseIntText(sv.n, true, -TWO_63, TWO_63 - 1);
    case TTimepoint => Decimal.ParseIntText(sv.n, false, 0, TWO_64 - 1);
    case TDuration => Decimal.ParseIntText(sv.n, false, 0, TWO_64 - 1);
    case TU128 => Decimal.ParseIntText(sv.hi * TWO_64 + sv.lo, false, 0, TWO_128 - 1);
    case TI128 => Decimal.ParseIntText(sv.hi * TWO_64 + sv.lo, true, -TWO_127, TWO_127 - 1);
  }

  lemma WideRoundTrip(sv: ScVal, ty: TypeDef, keys: Strkey)
    requires ScalarTyped(sv, ty) && (ty.TU256? || ty.TI256?)
    ensures WideArg(Decode(sv, keys), ty) == Some(sv)
  {
    hide Decimal.IntText, Decimal.NatText, TrimEnd, TrimStart, Limbs256.UnsignedOf, Limbs256.SignedOf;
    hide Limbs256.LimbsOf, Limbs256.SignedPartsOf;
    var l := [sv.hiHi, sv.hiLo, sv.loHi, sv.loLo];
    var n := Limbs256.Value(l);
    IntTextEdges(n);
    TrimKeeps(Decimal.IntText(n));
    if ty.TU256? {
      Limbs256.LimbsUnique(l);
      Limbs256.PrintedUnsignedParses(l);
      UnsignedText(n);
    } else {
      Limbs256.PrintedSignedParses(l);
    }
  }

  lemma UnsignedText(n: int)
    requires n >= 0
    ensures Decimal.IntText(n) == Decimal.NatText(n)
  {
  }

  lemma TextRoundTrip(sv: ScVal, ty: TypeDef, keys: Strkey)
    requires Faithful(keys) && ScalarTyped(sv, ty)
    requires ty.TSymbol? || ty.TString? || ty.TAddress? || ty.TMuxedAddress? || ty.TBytes? || ty.TBytesN?
    ensures TextArg(Decode(sv, keys), ty, keys) == Some(sv)
  {
    hide Faithful, Decode;
    if ty.TSymbol? || ty.TString? {
      hide Utf8.Encode;
      var s: string :| Utf8.Encode(s) == sv.bytes;
      Utf8.DecodeEncode(s);
      assert Decode(sv, keys) == Str(s) by { TextDecodes(sv, s, keys); }
    } else if ty.TBytes? || ty.TBytesN? {
      hide Hex.Encode, Hex.Decode;
      Hex.DecodeEncode(sv.bytes);
      HexPrefix(Hex.Encode(sv.bytes));
      assert Decode(sv, keys) == Str("0x" + Hex.Encode(sv.bytes)) by { BytesDecode(sv, keys); }
    } else {
      AddressRoundTrip(sv.address, ty, keys);
      assert Decode(sv, keys) == Str(keys.show(sv.address)) by { AddressDecodes(sv, keys); }
    }
  }

  lemma TextDecodes(sv: ScVal, s: string, keys: Strkey)
    requires (sv.ScvString? || sv.ScvSymbol?) && Utf8.Decode(sv.bytes) == Some(s)
    ensures Decode(sv, keys) == Str(s)
  {
  }

  lemma BytesDecode(sv: ScVal, keys: Strkey)
    requires sv.ScvBytes?
    ensures Decode(sv, keys) == Str("0x" + Hex.Encode(sv.bytes))
  {
  }

  lemma AddressDecodes(sv: ScVal, keys: Strkey)
    requires sv.ScvAddress?
    ensures Decode(sv, keys) == Str(keys.show(sv.address))
  {
  }

  lemma HexPrefix(s: string)
    ensures "0x" <= "0x" + s && ("0x" + s)[2..] == s
  {
  }

  lemma AddressRoundTrip(a: ScAddress, ty: TypeDef, keys: Strkey)
    requires Faithful(keys) && WellFormedAddress(a)
    ensures keys.parse(keys.show(a)) == Some(a)
    ensures !a.MuxedAccount? ==> MuxedArg(keys.show(a), keys) == Some(a)
  {
  }

  lemma ScalarRoundTrip(sv: ScVal, ty: TypeDef, keys: Strkey)
    requires Faithful(keys) && ScalarTyped(sv, ty)
    ensures EncodeScalar(Decode(sv, keys), ty, keys) == Ok(sv)
  {
    match ty
    case TBool =>
    case TVoid =>
    case TU256 => WideRoundTrip(sv, ty, keys);
    case TI256 => WideRoundTrip(sv, ty, keys);
    case TBytes => TextRoundTrip(sv, ty, keys);
    case TBytesN(_) => TextRoundTrip(sv, ty, keys);
    case TString => TextRoundTrip(sv, ty, keys);
    case TSymbol => TextRoundTrip(sv, ty, keys);
    case TAddress => TextRoundTrip(sv, ty, keys);
    case TMuxedAddress => TextRoundTrip(sv, ty, keys);
    case _ => NumericRoundTrip(sv, ty, keys);
  }

  lemma ScalarsFeed(sv: ScVal, ty: TypeDef)
    requires ScalarTyped(sv, ty)
    ensures Feeds(sv)
  {
  }

  // ---- relabelling never touches a string, and never makes a null ----

  lemma {:induction false} RelabelText(s: string, ty: TypeDef, spec: ContractSpec)
    ensures Relabel(Str(s), ty, spec) == Str(s)
    decreases ty
  {
    if ty.TOption? { RelabelText(s, ty.value, spec); }
  }

  // ---- objects ----

  function KeyText(e: Json): string
    requires e.Str?
  {
    e.text
  }

  /** The members an all-string-keyed map decodes to. */
  ghost function Decoded(entries: seq<Entry>, keys: Strkey): (ms: seq<Member>)
    requires StringKeys(entries)
    ensures |ms| == |entries|
    ensures forall i :: 0 <= i < |ms| ==>
              ms[i] == Member(KeyText(Decode(entries[i].key, keys)), Decode(entries[i].val, keys))
  {
    seq(|entries|, i requires 0 <= i < |entries| =>
          Member(KeyText(Decode(entries[i].key, keys)), Decode(entries[i].val, keys)))
  }

  lemma {:induction false} DecodesToObject(entries: seq<Entry>, obj: seq<Member>, pairs: seq<Json>, keys: Strkey)
    requires StringKeys(entries)
    requires DistinctKeys(obj + Decoded(entries, keys))
    ensures DecodeEntries(entries, obj, pairs, true, keys) == Object(obj + Decoded(entries, keys))
    decreases entries
  {
    if entries == [] {
      assert obj + Decoded(entries, keys) == obj;
    } else {
      hide Decode;
      var k, v := Decode(entries[0].key, keys), Decode(entries[0].val, keys);
      var m, rest := Member(k.text, v), Decoded(entries[1..], keys);
      assert Decoded(entries, keys) == [m] + rest;
      HeadIsFresh(obj, m, rest);
      InsertFresh(obj, k.text, v);
      DecodesToObject(entries[1..], obj + [m], pairs + [Object([Member("key", k), Member("val", v)])], keys);
    }
  }

  /** In members with distinct keys, one between two parts has a key the first part does not hold. */
  lemma HeadIsFresh(obj: seq<Member>, m: Member, rest: seq<Member>)
    requires DistinctKeys(obj + ([m] + rest))
    ensures m.key !in Keys(obj) && (obj + [m]) + rest == obj + ([m] + rest)
  {
    var all := obj + ([m] + rest);
    assert all[|obj|] == m;
    forall i | 0 <= i < |obj| ensures obj[i].key != m.key { assert all[i] == obj[i]; }
  }

  lemma {:induction false} DecodesToPairs(entries: seq<Entry>, obj: seq<Member>, pairs: seq<Json>, stringy: bool,
                                          keys: Strkey)
    requires !stringy || exists i :: 0 <= i < |entries| && !RendersAsString(entries[i].key)
    ensures DecodeEntries(entries, obj, pairs, stringy, keys).Array?
    decreases entries
  {
    if entries != [] {
      var k, v := Decode(entries[0].key, keys), Decode(entries[0].val, keys);
      if stringy && k.Str? {
        var i :| 0 <= i < |entries| && !RendersAsString(entries[i].key);
        assert entries[1..][i - 1] == entries[i];
      }
      DecodesToPairs(entries[1..], if k.Str? then Insert(obj, k.text, v) else obj,
                     pairs + [Object([Member("key", k), Member("val", v)])], stringy && k.Str?, keys);
    }
  }

  // ---- the theorem ----

  /** A well-typed value comes back as itself exactly when its map keys render as strings; otherwise encoding fails. */
  ghost predicate ComesBack(r: Result<ScVal, ArgError>, sv: ScVal) {
    if Feeds(sv) then r == Ok(sv) else r.Err?
  }

  lemma {:induction false} ResultsFeedBack(sv: ScVal, ty: TypeDef, spec: ContractSpec, keys: Strkey)
    requires Sane(spec, keys) && WellTyped(sv, ty, spec)
    ensures ComesBack(FedBack(sv, ty, spec, keys), sv)
    decreases sv, 2, ty
  {
    hide Encode, Relabel, Decode, Feeds, ScalarTyped, WellFormedTypes, Faithful;
    match ty
    case TOption(t) => OptionFeedsBack(sv, t, spec, keys);
    case TVec(t) => PositionalFeedsBack(sv, ty, Repeat(t, |sv.items|), spec, keys);
    case TTuple(ts) => PositionalFeedsBack(sv, ty, ts, spec, keys);
    case TMap(k, t) => MapFeedsBack(sv, k, t, spec, keys);
    case TUdt(name) => UdtFeedsBack(sv, name, spec, keys);
    case _ => ScalarFeedsBack(sv, ty, spec, keys);
  }

  lemma ScalarFeedsBack(sv: ScVal, ty: TypeDef, spec: ContractSpec, keys: Strkey)
    requires Faithful(keys) && ScalarTyped(sv, ty)
    ensures FedBack(sv, ty, spec, keys) == Ok(sv) && Feeds(sv)
  {
    hide Decode, EncodeScalar;
    ScalarRoundTrip(sv, ty, keys);
    ScalarsFeed(sv, ty);
    assert Relabel(Decode(sv, keys), ty, spec) == Decode(sv, keys);
  }

  /** How a type reads an array: item by item against these types. */
  ghost predicate ReadsPositionally(ty: TypeDef, ts: seq<TypeDef>, spec: ContractSpec) {
    || (ty.TVec? && ts == Repeat(ty.elem, |ts|))
    || ty == TTuple(ts)
    || (ty.TUdt? && UdtOf(spec, ty.name).Some? && UdtOf(spec, ty.name).value.StructDef?
        && IsTupleStruct(UdtOf(spec, ty.name).value.s) && ts == FieldTypes(UdtOf(spec, ty.name).value.s.fields))
  }

  lemma PositionalFeedsBack(sv: ScVal, ty: TypeDef, ts: seq<TypeDef>, spec: ContractSpec, keys: Strkey)
    requires Sane(spec, keys) && TypedPositional(sv, ts, spec) && ReadsPositionally(ty, ts, spec)
    ensures ComesBack(FedBack(sv, ty, spec, keys), sv)
    decreases sv, 1, 1
  {
    hide WellTyped, Sane;
    EachFeedsBack(sv.items, ts, spec, keys);
    ReadPositionally(sv, ty, ts, spec, keys);
  }

  lemma ReadPositionally(sv: ScVal, ty: TypeDef, ts: seq<TypeDef>, spec: ContractSpec, keys: Strkey)
    requires sv.ScvVec? && |sv.items| == |ts| && ReadsPositionally(ty, ts, spec)
    ensures FedBack(sv, ty, spec, keys)
            == VecOf(EncodeEach(RelabelEach(DecodeAll(sv.items, keys), ts, spec), ts, spec, keys))
  {
    var vs := DecodeAll(sv.items, keys);
    var out := RelabelEach(vs, ts, spec);
    assert Decode(sv, keys) == Array(vs);
    hide Decode, DecodeAll;
    NamesPositionally(vs, ty, ts, spec);
    EncodesPositionally(out, ty, ts, spec, keys);
  }

  lemma NamesPositionally(vs: seq<Json>, ty: TypeDef, ts: seq<TypeDef>, spec: ContractSpec)
    requires |vs| == |ts| && ReadsPositionally(ty, ts, spec)
    ensures Relabel(Array(vs), ty, spec) == Array(RelabelEach(vs, ts, spec))
  {
    hide RelabelEach;
    if ty.TVec? {
      assert ts == Repeat(ty.elem, |vs|);
    } else {
      assert Relabel(Array(vs), ty, spec) == RelabelPositional(Array(vs), ts, spec);
    }
  }

  lemma EncodesPositionally(vs: seq<Json>, ty: TypeDef, ts: seq<TypeDef>, spec: ContractSpec, keys: Strkey)
    requires |vs| == |ts| && ReadsPositionally(ty, ts, spec)
    ensures Encode(Array(vs), ty, spec, keys) == VecOf(EncodeEach(vs, ts, spec, keys))
  {
    hide EncodeEach, VecOf;
    if !ty.TVec? { assert Encode(Array(vs), ty, spec, keys) == EncodePositional(Array(vs), ts, spec, keys); }
  }

  lemma UdtFeedsBack(sv: ScVal, name: string, spec: ContractSpec, keys: Strkey)
    requires Sane(spec, keys) && WellTyped(sv, TUdt(name), spec)
    ensures ComesBack(FedBack(sv, TUdt(name), spec, keys), sv)
    decreases sv, 1, 2
  {
    hide Decode, Feeds, Faithful, EncodeEach, EncodeFields, EncodeUnion, EncodeEnum, RelabelFields, RelabelUnion;
    hide RelabelEnum;
    match UdtOf(spec, name) {
      case Some(StructDef(s)) =>
        if IsTupleStruct(s) {
          PositionalFeedsBack(sv, TUdt(name), FieldTypes(s.fields), spec, keys);
        } else {
          StructFeedsBack(sv, s, spec, keys);
        }
      case Some(EnumDef(e)) =>
        EnumFeedsBack(sv, e, keys);
        assert Feeds(sv) by { ScalarsFeed(sv, TU32); }
      case Some(UnionDef(u)) => UnionFeedsBack(sv, u, spec, keys);
    }
  }

  lemma {:induction false} RelabelKeepsNonNull(v: Json, ty: TypeDef, spec: ContractSpec)
    requires !v.Null?
    ensures !Relabel(v, ty, spec).Null?
    decreases ty
  {
    if ty.TOption? { RelabelKeepsNonNull(v, ty.value, spec); }
  }

  lemma OptionFeedsBack(sv: ScVal, t: TypeDef, spec: ContractSpec, keys: Strkey)
    requires Sane(spec, keys) && (sv.ScvVoid? || WellTyped(sv, t, spec))
    ensures ComesBack(FedBack(sv, TOption(t), spec, keys), sv)
    decreases sv, 2, TOption(t), 0
  {
    hide Decode, EncodeScalar, Sane, WellTyped, Feeds;
    if sv.ScvVoid? {
      assert Feeds(sv) by { ScalarsFeed(sv, TVoid); }
    } else {
      ResultsFeedBack(sv, t, spec, keys);
      RelabelKeepsNonNull(Decode(sv, keys), t, spec);
    }
  }

  lemma {:induction false} EachFeedsBack(items: seq<ScVal>, ts: seq<TypeDef>, spec: ContractSpec, keys: Strkey)
    requires Sane(spec, keys)
    requires |items| == |ts| && forall i :: 0 <= i < |items| ==> WellTyped(items[i], ts[i], spec)
    ensures var r := EncodeEach(RelabelEach(DecodeAll(items, keys), ts, spec), ts, spec, keys);
            if forall i :: 0 <= i < |items| ==> Feeds(items[i]) then r == Ok(items) else r.Err?
    decreases items
  {
    hide Encode, Relabel, Decode, Feeds, WellTyped, Sane;
    if items != [] {
      ResultsFeedBack(items[0], ts[0], spec, keys);
      EachFeedsBack(items[1..], ts[1..], spec, keys);
      var all := RelabelEach(DecodeAll(items, keys), ts, spec);
      assert DecodeAll(items, keys)[1..] == DecodeAll(items[1..], keys);
      assert all[0] == Relabel(Decode(items[0], keys), ts[0], spec);
      assert all[1..] == RelabelEach(DecodeAll(items[1..], keys), ts[1..], spec);
      assert items == [items[0]] + items[1..];
      if forall i :: 0 <= i < |items| ==> Feeds(items[i]) {
      } else if Feeds(items[0]) {
        var i :| 0 <= i < |items| && !Feeds(items[i]);
        assert items[1..][i - 1] == items[i];
      }
    }
  }

  lemma EnumFeedsBack(sv: ScVal, e: UdtEnum, keys: Strkey)
    requires sv.ScvU32? && exists i :: 0 <= i < |e.cases| && e.cases[i].value == sv.n < TWO_32
    requires DistinctNames(EnumCaseName, e.cases)
    ensures EncodeEnum(RelabelEnum(Decode(sv, keys), e), e) == Ok(sv)
  {
    var name := CaseNamed(e.cases, sv.n).value;
    var i :| 0 <= i < |e.cases| && e.cases[i].value == sv.n && e.cases[i].name == name;
    FindDistinct(EnumCaseName, e.cases, i);
  }

  lemma UnionFeedsBack(sv: ScVal, u: UdtUnion, spec: ContractSpec, keys: Strkey)
    requires Sane(spec, keys) && UnionTyped(sv, u, spec)
    ensures ComesBack(EncodeUnion(RelabelUnion(Decode(sv, keys), u, spec), u, spec, keys), sv)
    decreases sv, 1, 1
  {
    var c :| CaseTyped(sv, c, u, spec);
    if c.tys == [] { VoidCaseFeedsBack(sv, c, u, spec, keys); } else { CaseFeedsBack(sv, c, u, spec, keys); }
  }

  lemma VoidCaseFeedsBack(sv: ScVal, c: UnionCase, u: UdtUnion, spec: ContractSpec, keys: Strkey)
    requires UnionTyped(sv, u, spec) && CaseTyped(sv, c, u, spec) && c.tys == []
    ensures EncodeUnion(RelabelUnion(Decode(sv, keys), u, spec), u, spec, keys) == Ok(sv) && Feeds(sv)
  {
    UnionDecodes(sv, c.name, keys);
    TaggedFeeds(sv, []);
    assert sv.items == [sv.items[0]] + [] && DecodeAll([], keys) == [];
    hide Find, WellTyped, Feeds, Decode, DecodeAll;
  }

  lemma CaseFeedsBack(sv: ScVal, c: UnionCase, u: UdtUnion, spec: ContractSpec, keys: Strkey)
    requires Sane(spec, keys) && UnionTyped(sv, u, spec) && CaseTyped(sv, c, u, spec) && c.tys != []
    ensures ComesBack(EncodeUnion(RelabelUnion(Decode(sv, keys), u, spec), u, spec, keys), sv)
    decreases sv, 1, 0
  {
    hide Decode, DecodeAll, Encode, EncodeEach, Relabel, RelabelEach, Feeds, WellTyped, Sane, Find;
    var rest := sv.items[1..];
    assert sv.items == [sv.items[0]] + rest;
    UnionDecodes(sv, c.name, keys);
    EachFeedsBack(rest, c.tys, spec, keys);
    TaggedFeeds(sv, rest);
  }

  lemma UnionDecodes(sv: ScVal, name: string, keys: Strkey)
    requires sv.ScvVec? && sv.items != [] && sv.items[0] == ScvSymbol(Utf8.Encode(name))
    ensures Decode(sv, keys) == Array([Str(name)] + DecodeAll(sv.items[1..], keys))
  {
    Utf8.DecodeEncode(name);
    assert Decode(sv.items[0], keys) == Str(name);
    assert Decode(sv, keys) == Array(DecodeAll(sv.items, keys));
  }

  lemma TaggedFeeds(sv: ScVal, rest: seq<ScVal>)
    requires sv.ScvVec? && sv.items != [] && sv.items[0].ScvSymbol? && rest == sv.items[1..]
    ensures Feeds(sv) <==> forall i :: 0 <= i < |rest| ==> Feeds(rest[i])
  {
    if forall i :: 0 <= i < |rest| ==> Feeds(rest[i]) {
      forall i | 0 <= i < |sv.items| ensures Feeds(sv.items[i]) {
        if i > 0 { assert rest[i - 1] == sv.items[i]; }
      }
    }
  }

  // ---- maps ----

  lemma MapFeedsBack(sv: ScVal, k: TypeDef, t: TypeDef, spec: ContractSpec, keys: Strkey)
    requires Sane(spec, keys)
    requires sv.ScvMap? && CanonicalEntries(sv.entries) && EntriesTyped(sv.entries, k, t, spec)
    ensures ComesBack(FedBack(sv, TMap(k, t), spec, keys), sv)
    decreases sv, 1
  {
    hide Encode, Relabel, Decode, FedBack, Feeds, WellTyped, EntriesTyped, CanonicalEntries, Sane, MapOf;
    hide StringKeys, AllFeed, NoAdjacentDuplicate, EntriesBack, Decoded, DistinctKeys, Sorting.Sort;
    hide Sorting.StrictlySorted;
    var entries := sv.entries;
    if StringKeys(entries) {
      EntriesFeedBack(entries, k, t, spec, keys);
      KeysFeedBack(entries, k, t, spec, keys);
      CanonicalIsSorted(entries);
      DistinctTexts(entries, k, spec, keys);
      StringMapEncodes(sv, k, t, spec, keys);
      SortedMapIsKept(entries);
      MapFeeds(sv);
      KeptMap(EntriesBack(entries, k, t, spec, keys), entries);
    } else {
      PairsDoNotEncode(sv, k, t, spec, keys);
    }
  }

  /** Every value under the entries feeds back. */
  ghost predicate AllFeed(entries: seq<Entry>) {
    forall i :: 0 <= i < |entries| ==> Feeds(entries[i].val)
  }

  lemma AllFeedCons(entries: seq<Entry>)
    requires entries != []
    ensures AllFeed(entries) <==> Feeds(entries[0].val) && AllFeed(entries[1..])
  {
    hide Feeds;
    if Feeds(entries[0].val) && AllFeed(entries[1..]) {
      forall i | 0 <= i < |entries| ensures Feeds(entries[i].val) {
        if i > 0 { assert entries[1..][i - 1] == entries[i]; }
      }
    }
  }

  /** The same verdict for a sequence of entries. */
  ghost predicate EntriesComeBack(r: Result<seq<Entry>, ArgError>, entries: seq<Entry>) {
    if AllFeed(entries) then r == Ok(entries) else r.Err?
  }

  /** One entry's outcome in front of the rest's. */
  ghost predicate Joined(r: Result<seq<Entry>, ArgError>, key: ScVal, val: Result<ScVal, ArgError>,
                         rest: Result<seq<Entry>, ArgError>) {
    if val.Ok? && rest.Ok? then r == Ok([Entry(key, val.value)] + rest.value) else r.Err?
  }

  lemma JoinComesBack(r: Result<seq<Entry>, ArgError>, val: Result<ScVal, ArgError>,
                      rest: Result<seq<Entry>, ArgError>, d: seq<Entry>)
    requires d != [] && ComesBack(val, d[0].val) && EntriesComeBack(rest, d[1..])
    requires Joined(r, d[0].key, val, rest)
    ensures EntriesComeBack(r, d)
  {
    hide Feeds, AllFeed;
    AllFeedCons(d);
    assert d == [Entry(d[0].key, d[0].val)] + d[1..];
  }

  lemma AllFeedEmpty(entries: seq<Entry>)
    requires entries == []
    ensures AllFeed(entries)
  {
  }

  lemma CanonicalIsSorted(entries: seq<Entry>)
    requires CanonicalEntries(entries)
    ensures Sorting.StrictlySorted(KeyBefore, entries) && |entries| < TWO_32
  {
  }

  lemma KeptMap(r: Result<seq<Entry>, ArgError>, entries: seq<Entry>)
    requires Sorting.Sort(KeyBefore, entries) == entries && NoAdjacentDuplicate(entries) && |entries| < TWO_32
    ensures r == Ok(entries) ==> MapOf(r, true) == Ok(ScvMap(entries))
    ensures r.Err? ==> MapOf(r, true).Err?
  {
  }

  /** What decoding, relabelling and encoding a string-keyed map comes to. */
  lemma StringMapEncodes(sv: ScVal, k: TypeDef, t: TypeDef, spec: ContractSpec, keys: Strkey)
    requires sv.ScvMap? && StringKeys(sv.entries) && DistinctKeys(Decoded(sv.entries, keys))
    ensures FedBack(sv, TMap(k, t), spec, keys)
            == MapOf(EntriesBack(sv.entries, k, t, spec, keys), true)
  {
    hide MapOf, EncodeEntries, RelabelValues, Decoded, DecodeEntries;
    var ms := Decoded(sv.entries, keys);
    assert [] + ms == ms;
    DecodesToObject(sv.entries, [], [], keys);
    assert Decode(sv, keys) == Object(ms);
    assert Relabel(Object(ms), TMap(k, t), spec) == Object(RelabelValues(ms, t, spec));
  }

  lemma MapFeeds(sv: ScVal)
    requires sv.ScvMap? && StringKeys(sv.entries)
    ensures Feeds(sv) <==> AllFeed(sv.entries)
  {
    if Feeds(sv) {
      forall i | 0 <= i < |sv.entries| ensures Feeds(sv.entries[i].val) { assert FeedsEntry(sv.entries[i]); }
    }
  }

  /** An array named as a map is still an array, and no array encodes as a map. */
  lemma ArrayIsNoMap(v: Json, k: TypeDef, t: TypeDef, spec: ContractSpec, keys: Strkey)
    requires v.Array?
    ensures Encode(Relabel(v, TMap(k, t), spec), TMap(k, t), spec, keys).Err?
  {
    assert Relabel(v, TMap(k, t), spec).Array?;
  }

  lemma PairsDoNotEncode(sv: ScVal, k: TypeDef, t: TypeDef, spec: ContractSpec, keys: Strkey)
    requires sv.ScvMap? && !StringKeys(sv.entries)
    ensures FedBack(sv, TMap(k, t), spec, keys).Err? && !Feeds(sv)
  {
    DecodesToPairs(sv.entries, [], [], true, keys);
    ArrayIsNoMap(Decode(sv, keys), k, t, spec, keys);
    hide Decode, Encode, Relabel;
    var i :| 0 <= i < |sv.entries| && !RendersAsString(sv.entries[i].key);
    assert !FeedsEntry(sv.entries[i]);
  }

  lemma SortedMapIsKept(entries: seq<Entry>)
    requires CanonicalEntries(entries)
    ensures Sorting.Sort(KeyBefore, entries) == entries && NoAdjacentDuplicate(entries)
  {
    EncodeSound.KeyOrder();
    Sorting.SortStrict(KeyBefore, entries);
    forall i | 0 <= i < |entries| - 1 ensures entries[i].key != entries[i + 1].key {
      assert KeyBefore(entries[i], entries[i + 1]);
      CompareEqual(entries[i].key, entries[i + 1].key);
    }
  }

  /** Keys that each encode back from their own text have distinct texts. */
  lemma DistinctTexts(entries: seq<Entry>, k: TypeDef, spec: ContractSpec, keys: Strkey)
    requires Sorting.StrictlySorted(KeyBefore, entries)
    requires StringKeys(entries)
    requires KeysEncode(entries, k, spec, keys)
    ensures DistinctKeys(Decoded(entries, keys))
  {
    var ms := Decoded(entries, keys);
    forall i, j | 0 <= i < j < |ms| ensures ms[i].key != ms[j].key {
      assert KeyBefore(entries[i], entries[j]);
      CompareEqual(entries[i].key, entries[j].key);
      assert Encode(Str(ms[i].key), k, spec, keys) == Ok(entries[i].key);
      assert Encode(Str(ms[j].key), k, spec, keys) == Ok(entries[j].key);
    }
  }

  /** Every key encodes again from its own text. */
  ghost predicate KeysEncode(entries: seq<Entry>, k: TypeDef, spec: ContractSpec, keys: Strkey)
    requires StringKeys(entries)
  {
    forall i :: 0 <= i < |entries| ==>
      Encode(Str(KeyText(Decode(entries[i].key, keys))), k, spec, keys) == Ok(entries[i].key)
  }

  lemma KeysFeedBack(entries: seq<Entry>, k: TypeDef, t: TypeDef, spec: ContractSpec, keys: Strkey)
    requires Sane(spec, keys) && EntriesTyped(entries, k, t, spec) && StringKeys(entries)
    ensures KeysEncode(entries, k, spec, keys)
    decreases entries
  {
    hide Encode, Decode, WellTyped, Sane, RendersAsString, Relabel, Feeds;
    forall i | 0 <= i < |entries|
      ensures Encode(Str(KeyText(Decode(entries[i].key, keys))), k, spec, keys) == Ok(entries[i].key)
    {
      EntryFeedsBack(entries[i], k, t, spec, keys);
    }
  }

  /** The entries a string-keyed map's decoded, relabelled members encode to. */
  ghost function EntriesBack(entries: seq<Entry>, k: TypeDef, t: TypeDef, spec: ContractSpec, keys: Strkey)
    : Result<seq<Entry>, ArgError>
    requires StringKeys(entries)
  {
    EncodeEntries(RelabelValues(Decoded(entries, keys), t, spec), k, t, spec, keys)
  }

  lemma {:induction false} EntriesFeedBack(entries: seq<Entry>, k: TypeDef, t: TypeDef, spec: ContractSpec,
                                           keys: Strkey)
    requires Sane(spec, keys) && EntriesTyped(entries, k, t, spec) && StringKeys(entries)
    ensures EntriesComeBack(EntriesBack(entries, k, t, spec, keys), entries)
    decreases entries
  {
    hide Feeds, AllFeed, StringKeys, EntriesTyped, EntryTyped, Encode, Relabel, Decode, WellTyped, Sane;
    hide RendersAsString, EntriesBack;
    if entries == [] {
      NoEntries(k, t, spec, keys);
    } else {
      TypedCons(entries, k, t, spec);
      EntryFeedsBack(entries[0], k, t, spec, keys);
      EntriesFeedBack(entries[1..], k, t, spec, keys);
      FirstComesBack(entries, k, t, spec, keys);
    }
  }

  /** The first entry and the rest feed back alike, so all do. */
  lemma FirstComesBack(entries: seq<Entry>, k: TypeDef, t: TypeDef, spec: ContractSpec, keys: Strkey)
    requires entries != [] && StringKeys(entries)
    requires StringKeys(entries[1..]) && RendersAsString(entries[0].key)
    requires Encode(Str(KeyText(Decode(entries[0].key, keys))), k, spec, keys) == Ok(entries[0].key)
    requires ComesBack(FedBack(entries[0].val, t, spec, keys), entries[0].val)
    requires EntriesComeBack(EntriesBack(entries[1..], k, t, spec, keys), entries[1..])
    ensures EntriesComeBack(EntriesBack(entries, k, t, spec, keys), entries)
  {
    hide Feeds, AllFeed, StringKeys, Encode, Relabel, Decode, RendersAsString, EntriesBack, FedBack;
    EntriesBackCons(entries, k, t, spec, keys);
    JoinComesBack(EntriesBack(entries, k, t, spec, keys), FedBack(entries[0].val, t, spec, keys),
                  EntriesBack(entries[1..], k, t, spec, keys), entries);
  }

  lemma NoEntries(k: TypeDef, t: TypeDef, spec: ContractSpec, keys: Strkey)
    ensures StringKeys([]) && AllFeed([]) && EntriesBack([], k, t, spec, keys) == Ok([])
  {
    assert Decoded([], keys) == [];
  }

  lemma EntriesBackCons(entries: seq<Entry>, k: TypeDef, t: TypeDef, spec: ContractSpec, keys: Strkey)
    requires entries != [] && StringKeys(entries)
    requires StringKeys(entries[1..]) && RendersAsString(entries[0].key)
    requires Encode(Str(KeyText(Decode(entries[0].key, keys))), k, spec, keys) == Ok(entries[0].key)
    ensures Joined(EntriesBack(entries, k, t, spec, keys), entries[0].key, FedBack(entries[0].val, t, spec, keys),
                   EntriesBack(entries[1..], k, t, spec, keys))
  {
    hide Encode, Relabel, Decode, RendersAsString, EncodeEntries, RelabelValues;
    DecodedCons(entries, keys);
    ConsEncodes(Decoded(entries, keys), k, t, spec, keys);
  }

  lemma TypedCons(entries: seq<Entry>, k: TypeDef, t: TypeDef, spec: ContractSpec)
    requires entries != [] && EntriesTyped(entries, k, t, spec) && StringKeys(entries)
    ensures EntryTyped(entries[0], k, t, spec) && RendersAsString(entries[0].key)
    ensures EntriesTyped(entries[1..], k, t, spec) && StringKeys(entries[1..])
  {
  }

  lemma DecodedCons(entries: seq<Entry>, keys: Strkey)
    requires entries != [] && StringKeys(entries)
    ensures RendersAsString(entries[0].key) && StringKeys(entries[1..])
    ensures var ms := Decoded(entries, keys);
            && ms != [] && ms[1..] == Decoded(entries[1..], keys)
            && ms[0] == Member(KeyText(Decode(entries[0].key, keys)), Decode(entries[0].val, keys))
  {
  }

  /** Encoding relabelled members, one at a time. */
  lemma ConsEncodes(ms: seq<Member>, k: TypeDef, t: TypeDef, spec: ContractSpec, keys: Strkey)
    requires ms != []
    ensures var r := EncodeEntries(RelabelValues(ms, t, spec), k, t, spec, keys);
            var key := Encode(Str(ms[0].key), k, spec, keys);
            var val := Encode(Relabel(ms[0].value, t, spec), t, spec, keys);
            var rest := EncodeEntries(RelabelValues(ms[1..], t, spec), k, t, spec, keys);
            if key.Ok? && val.Ok? && rest.Ok? then r == Ok([Entry(key.value, val.value)] + rest.value) else r.Err?
  {
    hide Encode, Relabel;
    var out := RelabelValues(ms, t, spec);
    assert out[1..] == RelabelValues(ms[1..], t, spec);
  }

  lemma StringsFeed(sv: ScVal)
    requires RendersAsString(sv)
    ensures Feeds(sv)
  {
  }

  lemma EntryFeedsBack(e: Entry, k: TypeDef, t: TypeDef, spec: ContractSpec, keys: Strkey)
    requires Sane(spec, keys)
    requires EntryTyped(e, k, t, spec) && RendersAsString(e.key)
    ensures Encode(Str(KeyText(Decode(e.key, keys))), k, spec, keys) == Ok(e.key)
    ensures ComesBack(FedBack(e.val, t, spec, keys), e.val)
    decreases e
  {
    hide Sane, WellTyped, Relabel;
    ResultsFeedBack(e.key, k, spec, keys);
    ResultsFeedBack(e.val, t, spec, keys);
    StringsFeed(e.key);
    hide Encode, Feeds;
    RelabelText(KeyText(Decode(e.key, keys)), k, spec);
  }

  // ---- structs with named fields ----

  lemma {:induction false} DeclarationOrder(sv: ScVal, fields: seq<Field>, spec: ContractSpec) returns (d: seq<Entry>)
    requires sv.ScvMap? && FieldsTyped(sv, fields, spec)
    ensures EncodeSound.Declared(d, fields, spec)
    ensures forall i :: 0 <= i < |d| ==> d[i] in sv.entries
  {
    if fields == [] {
      d := [];
    } else {
      assert FieldTyped(sv, fields[0], spec);
      var i :| 0 <= i < |sv.entries| && sv.entries[i].key == ScvSymbol(Utf8.Encode(fields[0].name))
        && EntryHolds(sv.entries[i], fields[0].ty, spec);
      assert FieldsTyped(sv, fields[1..], spec) by {
        forall j | 0 <= j < |fields[1..]| ensures FieldTyped(sv, fields[1..][j], spec) {
          assert FieldTyped(sv, fields[j + 1], spec);
        }
      }
      var rest := DeclarationOrder(sv, fields[1..], spec);
      d := [sv.entries[i]] + rest;
      forall j | 0 <= j < |fields| ensures EncodeSound.DeclaredEntry(d[j], fields[j], spec) {
        if j > 0 { assert EncodeSound.DeclaredEntry(rest[j - 1], fields[1..][j - 1], spec); }
      }
    }
  }

  /** The declaration-order entries of a typed struct are its entries, permuted. */
  lemma DeclarationOrderPermutes(d: seq<Entry>, sv: ScVal, fields: seq<Field>, spec: ContractSpec)
    requires sv.ScvMap? && |sv.entries| == |fields| && DistinctNames(FieldName, fields)
    requires EncodeSound.Declared(d, fields, spec) && forall i :: 0 <= i < |d| ==> d[i] in sv.entries
    ensures multiset(d) == multiset(sv.entries)
  {
    forall i, j | 0 <= i < j < |d| ensures d[i] != d[j] {
      assert EncodeSound.DeclaredEntry(d[i], fields[i], spec) && EncodeSound.DeclaredEntry(d[j], fields[j], spec);
      if d[i] == d[j] { Utf8.EncodeInjective(fields[i].name, fields[j].name); }
    }
    Sorting.DrawnIsPermutation(d, sv.entries);
  }

  lemma {:induction false} RelabelFieldsAt(ms: seq<Member>, fields: seq<Field>, spec: ContractSpec, j: nat)
    requires j < |ms| && Find(FieldName, fields, ms[j].key).Some?
    ensures RelabelFields(ms, fields, spec)[j].value
            == Relabel(ms[j].value, Find(FieldName, fields, ms[j].key).value.ty, spec)
  {
    if j > 0 { RelabelFieldsAt(ms[1..], fields, spec, j - 1); }
  }

  /** Every field of the relabelled object reads as the relabelled decoding of its declared entry. */
  ghost predicate FieldsRead(ms: seq<Member>, fields: seq<Field>, d: seq<Entry>, spec: ContractSpec, keys: Strkey)
    requires |d| == |fields|
  {
    forall i :: 0 <= i < |fields| ==>
      Get(ms, fields[i].name) == Some(Relabel(Decode(d[i].val, keys), fields[i].ty, spec))
  }

  ghost predicate Drawn(d: seq<Entry>, sv: ScVal)
    requires sv.ScvMap?
  {
    forall i :: 0 <= i < |d| ==> d[i] in sv.entries
  }

  /** Encoding those fields gives the declaration-order entries. */
  lemma {:induction false} FieldsFeedBack(ms: seq<Member>, fields: seq<Field>, d: seq<Entry>, sv: ScVal,
                                          spec: ContractSpec, keys: Strkey)
    requires Sane(spec, keys) && sv.ScvMap? && EncodeSound.Declared(d, fields, spec) && Drawn(d, sv)
    requires |d| == |fields| && FieldsRead(ms, fields, d, spec, keys)
    ensures EntriesComeBack(EncodeFields(ms, fields, spec, keys), d)
    decreases sv, 0, |fields|
  {
    if fields == [] {
      AllFeedEmpty(d);
    } else {
      hide Feeds, AllFeed, Encode, Relabel, Decode, Get, Sane, Drawn, FieldsRead, EncodeFields, Joined, ComesBack;
      hide EntriesComeBack;
      hide EncodeSound.Declared, EncodeSound.DeclaredEntry;
      DeclaredHead(d, fields, spec);
      EncodeSound.DeclaredCons(d, fields, spec);
      ReadCons(ms, fields, d, sv, spec, keys);
      var e, f, rest, more := d[0], fields[0], d[1..], fields[1..];
      FieldFeedsBack(e, f, sv, spec, keys);
      FieldsFeedBack(ms, more, rest, sv, spec, keys);
      FieldsUnfold(ms, fields, e, Relabel(Decode(e.val, keys), f.ty, spec), spec, keys);
      JoinComesBack(EncodeFields(ms, fields, spec, keys), FedBack(e.val, f.ty, spec, keys),
                    EncodeFields(ms, more, spec, keys), d);
    }
  }

  lemma DeclaredHead(d: seq<Entry>, fields: seq<Field>, spec: ContractSpec)
    requires fields != [] && EncodeSound.Declared(d, fields, spec)
    ensures |d| == |fields| && SymbolNamed(d[0].key, fields[0].name)
  {
    assert EncodeSound.DeclaredEntry(d[0], fields[0], spec);
  }

  lemma FieldFeedsBack(e: Entry, f: Field, sv: ScVal, spec: ContractSpec, keys: Strkey)
    requires Sane(spec, keys) && sv.ScvMap? && e in sv.entries && EncodeSound.DeclaredEntry(e, f, spec)
    ensures ComesBack(FedBack(e.val, f.ty, spec, keys), e.val)
    decreases sv, 0, 0
  {
    hide FedBack, ComesBack, Sane, WellTyped;
    var i :| 0 <= i < |sv.entries| && sv.entries[i] == e;
    ResultsFeedBack(sv.entries[i].val, f.ty, spec, keys);
  }

  lemma ReadCons(ms: seq<Member>, fields: seq<Field>, d: seq<Entry>, sv: ScVal, spec: ContractSpec, keys: Strkey)
    requires fields != [] && |d| == |fields| && sv.ScvMap? && Drawn(d, sv) && FieldsRead(ms, fields, d, spec, keys)
    ensures d[0] in sv.entries && Get(ms, fields[0].name) == Some(Relabel(Decode(d[0].val, keys), fields[0].ty, spec))
    ensures Drawn(d[1..], sv) && FieldsRead(ms, fields[1..], d[1..], spec, keys)
  {
    hide Get, Relabel, Decode;
  }

  lemma FieldsUnfold(ms: seq<Member>, fields: seq<Field>, e: Entry, v: Json, spec: ContractSpec, keys: Strkey)
    requires fields != [] && SymbolNamed(e.key, fields[0].name) && Get(ms, fields[0].name) == Some(v)
    ensures Joined(EncodeFields(ms, fields, spec, keys), e.key, Encode(v, fields[0].ty, spec, keys),
                   EncodeFields(ms, fields[1..], spec, keys))
  {
    hide Encode, Get;
  }

  /** Each entry of a typed struct sits under the symbol of one of its fields. */
  lemma EntryIsField(d: seq<Entry>, sv: ScVal, fields: seq<Field>, spec: ContractSpec, keys: Strkey, j: nat)
    returns (i: nat)
    requires sv.ScvMap? && j < |sv.entries| && multiset(d) == multiset(sv.entries)
    requires EncodeSound.Declared(d, fields, spec)
    ensures i < |fields| && d[i] == sv.entries[j] && RendersAsString(sv.entries[j].key)
    ensures KeyText(Decode(sv.entries[j].key, keys)) == fields[i].name
  {
    hide Decode, WellTyped, EncodeSound.DeclaredEntry;
    assert sv.entries[j] in multiset(d);
    i :| 0 <= i < |d| && d[i] == sv.entries[j];
    SymbolKeyText(d[i], fields[i], spec, keys);
  }

  /** A typed struct decodes to an object whose relabelled members hold each field under its name. */
  lemma StructObject(d: seq<Entry>, sv: ScVal, fields: seq<Field>, spec: ContractSpec, keys: Strkey)
    returns (ms: seq<Member>)
    requires sv.ScvMap? && CanonicalEntries(sv.entries) && multiset(d) == multiset(sv.entries)
    requires EncodeSound.Declared(d, fields, spec) && DistinctNames(FieldName, fields)
    ensures Decode(sv, keys) == Object(ms) && StringKeys(sv.entries) && ms == Decoded(sv.entries, keys)
    ensures FieldsRead(RelabelFields(ms, fields, spec), fields, d, spec, keys)
  {
    hide Relabel, RelabelFields;
    var entries := sv.entries;
    forall j | 0 <= j < |entries| ensures RendersAsString(entries[j].key) {
      var i := EntryIsField(d, sv, fields, spec, keys, j);
    }
    ms := Decoded(entries, keys);
    forall j, k | 0 <= j < k < |ms| ensures ms[j].key != ms[k].key {
      assert KeyBefore(entries[j], entries[k]);
      CompareEqual(entries[j].key, entries[k].key);
      var a := EntryIsField(d, sv, fields, spec, keys, j);
      var b := EntryIsField(d, sv, fields, spec, keys, k);
      assert EncodeSound.DeclaredEntry(d[a], fields[a], spec) && EncodeSound.DeclaredEntry(d[b], fields[b], spec);
    }
    assert [] + ms == ms;
    DecodesToObject(entries, [], [], keys);
    forall i | 0 <= i < |fields|
      ensures Get(RelabelFields(ms, fields, spec), fields[i].name)
              == Some(Relabel(Decode(d[i].val, keys), fields[i].ty, spec))
    {
      FieldIsRead(d, sv, fields, ms, spec, keys, i);
    }
  }

  lemma FieldIsRead(d: seq<Entry>, sv: ScVal, fields: seq<Field>, ms: seq<Member>, spec: ContractSpec, keys: Strkey,
                    i: nat)
    requires sv.ScvMap? && multiset(d) == multiset(sv.entries) && EncodeSound.Declared(d, fields, spec)
    requires DistinctNames(FieldName, fields) && i < |fields|
    requires StringKeys(sv.entries) && ms == Decoded(sv.entries, keys) && DistinctKeys(ms)
    ensures Get(RelabelFields(ms, fields, spec), fields[i].name)
            == Some(Relabel(Decode(d[i].val, keys), fields[i].ty, spec))
  {
    hide Relabel, RelabelFields, WellTyped, Get, Decode, EncodeSound.Declared;
    var j := FieldIsEntry(d, sv, fields, ms, spec, keys, i);
    hide Decoded, StringKeys;
    FindDistinct(FieldName, fields, i);
    RelabelFieldsAt(ms, fields, spec, j);
    GetAt(RelabelFields(ms, fields, spec), j);
  }

  /** Where a field stands among the decoded members. */
  lemma FieldIsEntry(d: seq<Entry>, sv: ScVal, fields: seq<Field>, ms: seq<Member>, spec: ContractSpec, keys: Strkey,
                     i: nat)
      returns (j: nat)
    requires sv.ScvMap? && multiset(d) == multiset(sv.entries) && EncodeSound.Declared(d, fields, spec) && i < |fields|
    requires StringKeys(sv.entries) && ms == Decoded(sv.entries, keys)
    ensures j < |ms| && ms[j] == Member(fields[i].name, Decode(d[i].val, keys))
  {
    hide Decode, WellTyped;
    assert d[i] in multiset(sv.entries);
    j :| 0 <= j < |sv.entries| && sv.entries[j] == d[i];
    SymbolKeyText(d[i], fields[i], spec, keys);
  }

  /** The key of a field's entry decodes to the field's name. */
  lemma SymbolKeyText(e: Entry, f: Field, spec: ContractSpec, keys: Strkey)
    requires EncodeSound.DeclaredEntry(e, f, spec)
    ensures RendersAsString(e.key) && Decode(e.key, keys) == Str(f.name)
  {
    hide WellTyped;
    Utf8.DecodeEncode(f.name);
  }

  lemma StructFeedsBack(sv: ScVal, s: UdtStruct, spec: ContractSpec, keys: Strkey)
    requires Sane(spec, keys) && DistinctNames(FieldName, s.fields) && !IsTupleStruct(s)
    requires sv.ScvMap? && CanonicalEntries(sv.entries) && |sv.entries| == |s.fields| && FieldsTyped(sv, s.fields, spec)
    ensures var v := Decode(sv, keys);
            && v.Object?
            && ComesBack(MapOf(EncodeFields(RelabelFields(v.members, s.fields, spec), s.fields, spec, keys), false), sv)
    decreases sv, 1, 1
  {
    var d := DeclarationOrder(sv, s.fields, spec);
    DeclarationOrderPermutes(d, sv, s.fields, spec);
    var ms := StructObject(d, sv, s.fields, spec, keys);
    FieldsFeedBack(RelabelFields(ms, s.fields, spec), s.fields, d, sv, spec, keys);
    StructFeeds(d, sv, s.fields, spec, keys);
    EncodeSound.KeyOrder();
    Sorting.SortSorted(KeyBefore, d);
    Sorting.StrictUnique(KeyBefore, sv.entries, Sorting.Sort(KeyBefore, d));
  }

  lemma StructFeeds(d: seq<Entry>, sv: ScVal, fields: seq<Field>, spec: ContractSpec, keys: Strkey)
    requires sv.ScvMap? && multiset(d) == multiset(sv.entries) && EncodeSound.Declared(d, fields, spec)
    ensures Feeds(sv) <==> AllFeed(d)
  {
    if Feeds(sv) {
      forall i | 0 <= i < |d| ensures Feeds(d[i].val) {
        assert d[i] in multiset(sv.entries);
        var j :| 0 <= j < |sv.entries| && sv.entries[j] == d[i];
        assert FeedsEntry(sv.entries[j]);
      }
    }
    if AllFeed(d) {
      forall j | 0 <= j < |sv.entries| ensures FeedsEntry(sv.entries[j]) {
        var i := EntryIsField(d, sv, fields, spec, keys, j);
      }
    }
  }

  // ---- main results ----

  /** Any argument that encodes comes back from its own decoded form, exactly when its map keys render as strings. */
  lemma ArgumentsRoundTrip(v: Json, ty: TypeDef, spec: ContractSpec, keys: Strkey)
    requires Sane(spec, keys) && Encode(v, ty, spec, keys).Ok?
    ensures var sv := Encode(v, ty, spec, keys).value;
            FedBack(sv, ty, spec, keys) == Ok(sv) <==> Feeds(sv)
  {
    EncodeSound.EncodeSound(v, ty, spec, keys);
    ResultsFeedBack(Encode(v, ty, spec, keys).value, ty, spec, keys);
  }

  /** A muxed account returned by a contract does not come back: its mux id is dropped. */
  lemma MuxedResultLosesItsId(id: nat, key: seq<byte>, spec: ContractSpec, keys: Strkey)
    requires Faithful(keys) && IsU64(id) && |key| == 32
    ensures FedBack(ScvAddress(MuxedAccount(id, key)), TMuxedAddress, spec, keys) == Ok(ScvAddress(Account(key)))
  {
    assert WellFormedAddress(MuxedAccount(id, key)) && WellFormedAddress(Account(key));
  }
}
