/** Which contract values the generic decoder shows alike. */
module Lookalikes {
  import opened Basics
  import opened Json
  import opened ScVal
  import opened Spec
  import opened Encoder
  import opened Decoder
  import opened TypedValues
  import opened NumericOrder
  import opened Naming
  import DecodedMaps
  import Decimal
  import Hex
  import Limbs256
  import RoundTrip
  import Utf8

  /** Neither a vector nor a map. */
  predicate IsSimple(sv: ScVal) { !sv.ScvVec? && !sv.ScvMap? }

  predicate IsWord(sv: ScVal) { sv.ScvString? || sv.ScvSymbol? }

  predicate PrintsNumber(sv: ScVal) { RendersAsString(sv) && !IsWord(sv) && !sv.ScvBytes? && !sv.ScvAddress? }

  predicate ProperAddress(sv: ScVal) { sv.ScvAddress? ==> WellFormedAddress(sv.address) }

  /** Every strkey starts with a capital letter. */
  ghost predicate Lettered(keys: Strkey) {
    forall a: ScAddress :: WellFormedAddress(a) ==> keys.show(a) != [] && 'A' <= keys.show(a)[0] <= 'Z'
  }

  // ---- texts ----

  /** `y` is the text `x` is shown by for want of UTF-8. */
  ghost predicate SpellsHex(x: seq<byte>, y: seq<byte>) {
    Utf8.Decode(x).None? && y == Utf8.Encode("0x" + Hex.Encode(x))
  }

  ghost predicate SameWord(x: seq<byte>, y: seq<byte>) { x == y || SpellsHex(x, y) || SpellsHex(y, x) }

  ghost predicate WordsSame(a: ScVal, b: ScVal) { IsWord(a) && IsWord(b) && SameWord(a.bytes, b.bytes) }

  /** What a number, a byte string or an address prints. */
  function Printed(sv: ScVal, keys: Strkey): string
    requires PrintsNumber(sv) || sv.ScvBytes? || sv.ScvAddress?
  {
    if sv.ScvBytes? then "0x" + Hex.Encode(sv.bytes)
    else if sv.ScvAddress? then keys.show(sv.address)
    else Decimal.IntText(NumberOf(sv))
  }

  /** A word writes out what the other value prints, or is the same bytes and no UTF-8. */
  ghost predicate Imitates(word: seq<byte>, sv: ScVal, keys: Strkey)
    requires PrintsNumber(sv) || sv.ScvBytes? || sv.ScvAddress?
  {
    word == Utf8.Encode(Printed(sv, keys)) || (sv.ScvBytes? && word == sv.bytes && Utf8.Decode(word).None?)
  }

  ghost predicate TextsAlike(a: ScVal, b: ScVal, keys: Strkey)
    requires RendersAsString(a) && RendersAsString(b)
  {
    if IsWord(a) && IsWord(b) then SameWord(a.bytes, b.bytes)
    else if IsWord(a) then Imitates(a.bytes, b, keys)
    else if IsWord(b) then Imitates(b.bytes, a, keys)
    else if PrintsNumber(a) && PrintsNumber(b) then NumberOf(a) == NumberOf(b)
    else a == b
  }

  ghost predicate LookAlike(a: ScVal, b: ScVal, keys: Strkey) {
    if RendersAsString(a) && RendersAsString(b) then TextsAlike(a, b, keys)
    else if a.ScvError? then b.ScvError?
    else if a.ScvContractInstance? then b.ScvContractInstance? && a.executable == b.executable
    else if (a.ScvU32? || a.ScvI32?) && (b.ScvU32? || b.ScvI32?) then a.n == b.n
    else a == b
  }

  lemma {:induction false} HexInjective(x: seq<byte>, y: seq<byte>)
    requires Hex.Encode(x) == Hex.Encode(y)
    ensures x == y
  {
    Hex.DecodeEncode(x);
    Hex.DecodeEncode(y);
  }

  lemma PrefixedHex(x: seq<byte>, y: seq<byte>)
    ensures "0x" + Hex.Encode(x) == "0x" + Hex.Encode(y) <==> x == y
  {
    RoundTrip.HexPrefix(Hex.Encode(x));
    RoundTrip.HexPrefix(Hex.Encode(y));
    if "0x" + Hex.Encode(x) == "0x" + Hex.Encode(y) { HexInjective(x, y); }
  }

  /** A text is what some bytes are shown as. */
  lemma ShownAsText(x: seq<byte>, s: string)
    ensures TextOf(x) == s <==> x == Utf8.Encode(s) || (Utf8.Decode(x).None? && s == "0x" + Hex.Encode(x))
  {
    Utf8.DecodeEncode(s);
    hide Hex.Encode, Utf8.Encode, Utf8.Decode;
  }

  lemma WordsAlike(x: seq<byte>, y: seq<byte>)
    ensures TextOf(x) == TextOf(y) <==> SameWord(x, y)
  {
    ShownAsText(x, TextOf(y));
    ShownAsText(y, TextOf(x));
    PrefixedHex(x, y);
    Utf8.DecodeEncode(TextOf(x));
    Utf8.DecodeEncode(TextOf(y));
    hide Hex.Encode, Utf8.Encode, Utf8.Decode;
  }

  // ---- the texts of different kinds ----

  lemma NumberIsNoHex(n: int, x: seq<byte>)
    ensures Decimal.IntText(n) != "0x" + Hex.Encode(x)
  {
    var s := "0x" + Hex.Encode(x);
    assert s[0] == '0' && s[1] == 'x';
    Decimal.NatTextNoLeadingZero(if n < 0 then -n else n);
  }

  lemma StrkeyIsNeither(a: ScAddress, n: int, x: seq<byte>, keys: Strkey)
    requires Lettered(keys) && WellFormedAddress(a)
    ensures keys.show(a) != Decimal.IntText(n) && keys.show(a) != "0x" + Hex.Encode(x)
  {
    var s := "0x" + Hex.Encode(x);
    assert s[0] == '0';
    assert Decimal.IntText(n)[0] == '-' || Decimal.IsDigit(Decimal.IntText(n)[0]);
  }

  ghost predicate Strkeys(keys: Strkey) { Faithful(keys) && Lettered(keys) }

  lemma PrintedApart(a: ScVal, b: ScVal, keys: Strkey)
    requires Strkeys(keys) && ProperAddress(a) && ProperAddress(b)
    requires PrintsNumber(a) || a.ScvBytes? || a.ScvAddress?
    requires PrintsNumber(b) || b.ScvBytes? || b.ScvAddress?
    ensures Printed(a, keys) == Printed(b, keys)
            <==> if PrintsNumber(a) && PrintsNumber(b) then NumberOf(a) == NumberOf(b) else a == b
  {
    hide Decimal.IntText, Hex.Encode, Faithful, Lettered, WellFormedAddress, NumberOf;
    if a.ScvAddress? && b.ScvAddress? {
      if Printed(a, keys) == Printed(b, keys) {
        RoundTrip.AddressRoundTrip(a.address, TAddress, keys);
        RoundTrip.AddressRoundTrip(b.address, TAddress, keys);
      }
    } else if a.ScvAddress? {
      StrkeyIsNeither(a.address, NumberOf(b), if b.ScvBytes? then b.bytes else [], keys);
    } else if b.ScvAddress? {
      StrkeyIsNeither(b.address, NumberOf(a), if a.ScvBytes? then a.bytes else [], keys);
    } else if a.ScvBytes? && b.ScvBytes? {
      PrefixedHex(a.bytes, b.bytes);
    } else if a.ScvBytes? {
      NumberIsNoHex(NumberOf(b), a.bytes);
    } else if b.ScvBytes? {
      NumberIsNoHex(NumberOf(a), b.bytes);
    } else if Printed(a, keys) == Printed(b, keys) {
      Decimal.IntTextInjective(NumberOf(a), NumberOf(b));
    }
  }

  lemma WordAndPrinted(word: seq<byte>, sv: ScVal, keys: Strkey)
    requires Strkeys(keys) && ProperAddress(sv) && (PrintsNumber(sv) || sv.ScvBytes? || sv.ScvAddress?)
    ensures TextOf(word) == Printed(sv, keys) <==> Imitates(word, sv, keys)
  {
    hide Decimal.IntText, Hex.Encode, Utf8.Encode, Utf8.Decode, Faithful, Lettered, WellFormedAddress, NumberOf, TextOf;
    ShownAsText(word, Printed(sv, keys));
    if sv.ScvBytes? {
      PrefixedHex(sv.bytes, word);
    } else if sv.ScvAddress? {
      StrkeyIsNeither(sv.address, 0, word, keys);
    } else {
      NumberIsNoHex(NumberOf(sv), word);
    }
  }

  lemma DecodesToText(sv: ScVal, keys: Strkey)
    requires RendersAsString(sv)
    ensures Decode(sv, keys) == Str(if IsWord(sv) then TextOf(sv.bytes) else Printed(sv, keys))
  {
    hide Decimal.IntText, Hex.Encode, TextOf, Limbs256.Value;
  }

  lemma TextsAlikeIff(a: ScVal, b: ScVal, keys: Strkey)
    requires Strkeys(keys) && ProperAddress(a) && ProperAddress(b) && RendersAsString(a) && RendersAsString(b)
    ensures Decode(a, keys) == Decode(b, keys) <==> TextsAlike(a, b, keys)
  {
    hide Strkeys, Decode, TextOf, Printed, Imitates, SameWord, NumberOf, ProperAddress;
    DecodesToText(a, keys);
    DecodesToText(b, keys);
    if IsWord(a) && IsWord(b) {
      WordsAlike(a.bytes, b.bytes);
    } else if IsWord(a) {
      WordAndPrinted(a.bytes, b, keys);
    } else if IsWord(b) {
      WordAndPrinted(b.bytes, a, keys);
    } else {
      PrintedApart(a, b, keys);
    }
  }

  // ---- everything else ----

  lemma OneMember(m: Member, n: Member)
    ensures SameJson(Object([m]), Object([n])) <==> SameMember(m, n)
  {
    if SameJson(Object([m]), Object([n])) { var j := FoundIn([m], [n], 0); }
    if SameMember(m, n) {
      assert [n][0] == n;
      assert Matched(m, [n]);
    }
  }

  lemma Marked(name: string, m: Member, other: string, n: Member)
    requires m.key != "_type" && n.key != "_type"
    ensures SameJson(Object([Marker(name), m]), Object([Marker(other), n])) <==> name == other && SameMember(m, n)
  {
    var ms, ns := [Marker(name), m], [Marker(other), n];
    if SameJson(Object(ms), Object(ns)) {
      var i := FoundIn(ms, ns, 0);
      var k := FoundIn(ms, ns, 1);
    }
    if name == other && SameMember(m, n) {
      assert SameMember(ms[0], ns[0]) && SameMember(ms[1], ns[1]);
      assert Matched(ms[0], ns) && Matched(ms[1], ns);
    }
  }

  function ExecutableMember(e: Executable): Member {
    match e
    case Wasm(hash) => Member("wasm_hash", Str(Hex.Encode(hash)))
    case StellarAsset => Member("stellar_asset", Bool(true))
  }

  lemma ExecutablesAlike(e: Executable, f: Executable)
    ensures ExecutableMember(e).key != "_type"
    ensures SameMember(ExecutableMember(e), ExecutableMember(f)) <==> e == f
  {
    assert "wasm_hash"[0] == 'w' && "stellar_asset"[0] == 's' && "_type"[0] == '_';
    if e.Wasm? && f.Wasm? && Hex.Encode(e.hash) == Hex.Encode(f.hash) { HexInjective(e.hash, f.hash); }
  }

  predicate ShowsObject(sv: ScVal) {
    sv.ScvError? || sv.ScvMapAbsent? || sv.ScvContractInstance? || sv.ScvLedgerKeyContractInstance?
    || sv.ScvLedgerKeyNonce?
  }

  const FLAG := Member("_error", Bool(true))

  function MembersShown(sv: ScVal): seq<Member>
    requires ShowsObject(sv)
  {
    match sv
    case ScvError(_, _) => [FLAG]
    case ScvMapAbsent => []
    case ScvContractInstance(e, _, _) => [Marker("ContractInstance"), ExecutableMember(e)]
    case ScvLedgerKeyContractInstance => [Marker("LedgerKeyContractInstance")]
    case ScvLedgerKeyNonce(nonce) => [Marker("LedgerKeyNonce"), Member("nonce", Int(nonce))]
  }

  lemma ObjectsAlike(a: ScVal, b: ScVal, keys: Strkey)
    requires ShowsObject(a) && ShowsObject(b)
    ensures SameJson(Object(MembersShown(a)), Object(MembersShown(b))) <==> LookAlike(a, b, keys)
  {
    hide Hex.Encode, SameJson, ExecutableMember;
    var v, w := Object(MembersShown(a)), Object(MembersShown(b));
    if SameJson(v, w) { SameKind(v, w); }
    if |v.members| == |w.members| {
      if |v.members| == 1 {
        OneMemberAlike(a, b, keys);
      } else if |v.members| == 2 {
        TwoMembersAlike(a, b, keys);
      } else {
        SameAsItself(v);
      }
    }
  }

  lemma OneMemberAlike(a: ScVal, b: ScVal, keys: Strkey)
    requires (a.ScvError? || a.ScvLedgerKeyContractInstance?) && (b.ScvError? || b.ScvLedgerKeyContractInstance?)
    ensures SameJson(Object(MembersShown(a)), Object(MembersShown(b))) <==> LookAlike(a, b, keys)
  {
    assert "_error"[1] == 'e' && "_type"[1] == 't';
    OneMember(MembersShown(a)[0], MembersShown(b)[0]);
  }

  lemma TwoMembersAlike(a: ScVal, b: ScVal, keys: Strkey)
    requires (a.ScvContractInstance? || a.ScvLedgerKeyNonce?) && (b.ScvContractInstance? || b.ScvLedgerKeyNonce?)
    ensures SameJson(Object(MembersShown(a)), Object(MembersShown(b))) <==> LookAlike(a, b, keys)
  {
    hide SameJson, ExecutableMember;
    var m, n := MembersShown(a)[1], MembersShown(b)[1];
    assert "ContractInstance"[0] == 'C' && "LedgerKeyNonce"[0] == 'L' && "nonce"[0] == 'n' && "_type"[0] == '_';
    ExecutablesAlike(if a.ScvContractInstance? then a.executable else StellarAsset,
                     if b.ScvContractInstance? then b.executable else StellarAsset);
    ExecutablesAlike(if b.ScvContractInstance? then b.executable else StellarAsset, StellarAsset);
    Marked(if a.ScvContractInstance? then "ContractInstance" else "LedgerKeyNonce", m,
           if b.ScvContractInstance? then "ContractInstance" else "LedgerKeyNonce", n);
    NoncesAlike(if a.ScvLedgerKeyNonce? then a.nonce else 0, if b.ScvLedgerKeyNonce? then b.nonce else 0);
  }

  lemma NoncesAlike(x: int, y: int)
    ensures SameMember(Member("nonce", Int(x)), Member("nonce", Int(y))) <==> x == y
  {
  }

  lemma DecodesToMembers(sv: ScVal, keys: Strkey)
    requires IsSimple(sv)
    ensures Decode(sv, keys).Object? <==> ShowsObject(sv)
    ensures ShowsObject(sv) ==> Decode(sv, keys) == Object(MembersShown(sv))
  {
    hide Decimal.IntText, Hex.Encode, TextOf, Limbs256.Value;
  }

  /** What is neither a text nor an object is shown as it is. */
  lemma PlainLeaves(a: ScVal, b: ScVal, keys: Strkey)
    requires IsSimple(a) && IsSimple(b) && !ShowsObject(a) && !RendersAsString(a)
    ensures SameJson(Decode(a, keys), Decode(b, keys)) <==> LookAlike(a, b, keys)
  {
    hide Decimal.IntText, Hex.Encode, TextOf, Limbs256.Value, TextsAlike;
  }

  // ---- the theorem ----

  /** Two values that are neither vectors nor maps are shown alike exactly when they look alike: equal, the same small
      number, the same printed number, a word that writes out or spells in hex what the other prints, two errors, or two
      instances of one executable. */
  lemma SimplesAlikeIff(a: ScVal, b: ScVal, keys: Strkey)
    requires Strkeys(keys) && ProperAddress(a) && ProperAddress(b) && IsSimple(a) && IsSimple(b)
    ensures SameJson(Decode(a, keys), Decode(b, keys)) <==> LookAlike(a, b, keys)
  {
    hide Strkeys, Decode, SameJson, TextsAlike, ProperAddress, MembersShown;
    DecodesToMembers(a, keys);
    DecodesToMembers(b, keys);
    if RendersAsString(a) && RendersAsString(b) {
      TextsAlikeIff(a, b, keys);
      StringsSame(Decode(a, keys), Decode(b, keys));
    } else if ShowsObject(a) && ShowsObject(b) {
      ObjectsAlike(a, b, keys);
    } else if !ShowsObject(a) && !RendersAsString(a) {
      PlainLeaves(a, b, keys);
    } else {
      KindsApart(a, b, keys);
    }
  }

  lemma StringsSame(v: Json, w: Json)
    requires v.Str?
    ensures SameJson(v, w) <==> v == w
  {
  }

  lemma KindsApart(a: ScVal, b: ScVal, keys: Strkey)
    requires IsSimple(a) && IsSimple(b)
    requires (RendersAsString(a) && !RendersAsString(b)) || (ShowsObject(a) && !ShowsObject(b))
    ensures !SameJson(Decode(a, keys), Decode(b, keys)) && !LookAlike(a, b, keys)
  {
    hide Decode, MembersShown;
    DecodesToMembers(a, keys);
    DecodesToMembers(b, keys);
  }

  // ---- at a declared type ----

  /** The values of a scalar type, whatever their bytes; any simple value is one of `Val`. */
  ghost predicate OfScalar(sv: ScVal, ty: TypeDef) {
    match ty
    case TVal => IsSimple(sv) && ProperAddress(sv)
    case TError => sv.ScvError?
    case TString => sv.ScvString?
    case TSymbol => sv.ScvSymbol?
    case _ => ScalarTyped(sv, ty)
  }

  /** At `Val` values are shown alike as above; two errors always are, and two strings or symbols when they are equal or
      one spells the other's bytes in hex. At every other scalar type only equal values are. */
  lemma ScalarsAlikeIff(a: ScVal, b: ScVal, ty: TypeDef, spec: ContractSpec, keys: Strkey)
    requires Strkeys(keys) && OfScalar(a, ty) && OfScalar(b, ty)
    ensures var same := SameJson(Shown(a, ty, spec, keys), Shown(b, ty, spec, keys));
      && (ty.TVal? ==> (same <==> LookAlike(a, b, keys)))
      && (ty.TError? ==> same)
      && (ty.TString? || ty.TSymbol? ==> (same <==> WordsSame(a, b)))
      && (!ty.TVal? && !ty.TError? && !ty.TString? && !ty.TSymbol? ==> (same <==> a == b))
  {
    hide Decode, SameJson, LookAlike, ScalarTyped;
    ScalarIsSimple(a, ty);
    ScalarIsSimple(b, ty);
    ScalarShown(a, ty, spec, keys);
    ScalarShown(b, ty, spec, keys);
    SimplesAlikeIff(a, b, keys);
    if ty.TError? { ErrorsLookAlike(a, b, keys); }
    if !ty.TVal? && !ty.TError? { OneTypeLooksAlike(a, b, ty, keys); }
  }

  lemma ErrorsLookAlike(a: ScVal, b: ScVal, keys: Strkey)
    requires a.ScvError? && b.ScvError?
    ensures LookAlike(a, b, keys)
  {
  }

  lemma ScalarShown(sv: ScVal, ty: TypeDef, spec: ContractSpec, keys: Strkey)
    requires OfScalar(sv, ty)
    ensures Shown(sv, ty, spec, keys) == Decode(sv, keys)
  {
    hide Decode;
  }

  lemma ScalarIsSimple(sv: ScVal, ty: TypeDef)
    requires OfScalar(sv, ty)
    ensures IsSimple(sv) && ProperAddress(sv)
  {
  }

  lemma OneTypeLooksAlike(a: ScVal, b: ScVal, ty: TypeDef, keys: Strkey)
    requires OfScalar(a, ty) && OfScalar(b, ty) && !ty.TVal? && !ty.TError?
    ensures LookAlike(a, b, keys) <==> if ty.TString? || ty.TSymbol? then WordsSame(a, b) else a == b
  {
    hide LookAlike, SameWord, WordsSame, OfScalar, ScalarTyped, NumberOf;
    if IsNumeric(ty) {
      NumbersLookAlike(a, b, ty, keys);
    } else {
      OthersLookAlike(a, b, ty, keys);
    }
  }

  lemma NumbersLookAlike(a: ScVal, b: ScVal, ty: TypeDef, keys: Strkey)
    requires IsNumeric(ty) && OfScalar(a, ty) && OfScalar(b, ty)
    ensures LookAlike(a, b, keys) <==> a == b
  {
    NumbersTell(a, b, ty);
    NumberKind(a, ty);
    NumberKind(b, ty);
    hide ScalarTyped, OfScalar, SameWord, Imitates;
  }

  lemma NumberKind(sv: ScVal, ty: TypeDef)
    requires IsNumeric(ty) && OfScalar(sv, ty)
    ensures PrintsNumber(sv) <==> !ty.TU32? && !ty.TI32?
    ensures !PrintsNumber(sv) ==> (sv.ScvU32? || sv.ScvI32?) && sv.n == NumberOf(sv)
  {
  }

  lemma OthersLookAlike(a: ScVal, b: ScVal, ty: TypeDef, keys: Strkey)
    requires OfScalar(a, ty) && OfScalar(b, ty) && !IsNumeric(ty) && !ty.TVal? && !ty.TError?
    ensures LookAlike(a, b, keys) <==> if ty.TString? || ty.TSymbol? then WordsSame(a, b) else a == b
  {
    OtherKind(a, ty);
    OtherKind(b, ty);
    hide OfScalar, SameWord, Imitates, NumberOf;
  }

  lemma OtherKind(sv: ScVal, ty: TypeDef)
    requires OfScalar(sv, ty) && !IsNumeric(ty) && !ty.TVal? && !ty.TError?
    ensures ty.TString? || ty.TSymbol? <==> IsWord(sv)
    ensures !PrintsNumber(sv) && !sv.ScvError? && !sv.ScvContractInstance? && !sv.ScvU32? && !sv.ScvI32?
  {
    hide WellFormedAddress;
  }

  lemma NumbersTell(a: ScVal, b: ScVal, ty: TypeDef)
    requires IsNumeric(ty) && ScalarTyped(a, ty) && ScalarTyped(b, ty)
    ensures NumberOf(a) == NumberOf(b) <==> a == b
  {
    hide ScalarTyped, NumberOf, Compare;
    CompareIsNumeric(a, b, ty);
    CompareEqual(a, b);
  }

  /** The byte 0xFF begins no UTF-8 text, so as a string it is shown like the string that spells it. */
  lemma TwinStrings(spec: ContractSpec, keys: Strkey)
    requires Strkeys(keys)
    ensures var a, b := ScvString([0xFF]), ScvString(Utf8.Encode("0xff"));
            a != b && SameJson(Shown(a, TString, spec, keys), Shown(b, TString, spec, keys))
  {
    hide Utf8.Encode, Hex.Encode, Shown, SameJson, SpellsHex, Strkeys;
    HexOfFF();
    ScalarsAlikeIff(ScvString([0xFF]), ScvString(Utf8.Encode("0xff")), TString, spec, keys);
  }

  lemma HexOfFF()
    ensures SpellsHex([0xFF], Utf8.Encode("0xff"))
  {
    forall s: string ensures Utf8.Encode(s) != [0xFF] { NoTextOfFF(s); }
    assert [0xFF][1..] == [] && Hex.Encode([]) == "";
    assert Hex.Encode([0xFF]) == "ff" && "0x" + "ff" == "0xff";
  }

  lemma NoTextOfFF(s: string)
    ensures Utf8.Encode(s) != [0xFF]
  {
    if s != [] { assert Utf8.Encode(s)[0] == Utf8.CharBytes(s[0])[0] < 0xFF; }
  }

  // ---- vectors and maps ----

  /** Vectors and tuples are shown alike exactly when their items are, one by one. */
  lemma ItemsAlikeIff(xs: seq<ScVal>, ys: seq<ScVal>, ty: TypeDef, ts: seq<TypeDef>, spec: ContractSpec, keys: Strkey)
    requires RoundTrip.ReadsPositionally(ty, ts, spec) && |xs| == |ys| == |ts|
    ensures SameJson(Shown(ScvVec(xs), ty, spec, keys), Shown(ScvVec(ys), ty, spec, keys)) <==>
            forall i :: 0 <= i < |ts| ==> SameJson(Shown(xs[i], ts[i], spec, keys), Shown(ys[i], ts[i], spec, keys))
  {
    hide Shown, ShownAll, RoundTrip.ReadsPositionally;
    ShownPositionally(ScvVec(xs), ty, ts, spec, keys);
    ShownPositionally(ScvVec(ys), ty, ts, spec, keys);
    forall i | 0 <= i < |ts|
      ensures ShownAll(xs, ts, spec, keys)[i] == Shown(xs[i], ts[i], spec, keys)
      ensures ShownAll(ys, ts, spec, keys)[i] == Shown(ys[i], ts[i], spec, keys)
    {
      ShownAllAt(xs, ts, spec, keys, i);
      ShownAllAt(ys, ts, spec, keys, i);
    }
  }

  /** An absent vector or map is shown like an empty one. */
  lemma AbsentShownEmpty(keys: Strkey)
    ensures Decode(ScvVecAbsent, keys) == Decode(ScvVec([]), keys) == Array([])
    ensures Decode(ScvMapAbsent, keys) == Decode(ScvMap([]), keys) == Object([])
  {
  }

  /** A map can write out what an error is shown as. */
  lemma MapImitatesError(kind: nat, code: nat, keys: Strkey)
    ensures SameJson(Decode(ScvMap([Entry(ScvSymbol(Utf8.Encode("_error")), ScvBool(true))]), keys),
                     Decode(ScvError(kind, code), keys))
  {
    var e := Entry(ScvSymbol(Utf8.Encode("_error")), ScvBool(true));
    Utf8.DecodeEncode("_error");
    OneEntryDecodes(e, keys);
    SameAsItself(Object([FLAG]));
  }

  lemma OneEntryDecodes(e: Entry, keys: Strkey)
    ensures Decode(ScvMap([e]), keys) ==
            if RendersAsString(e.key) then Object([Member(Decode(e.key, keys).text, Decode(e.val, keys))])
            else Array([Object([Member("key", Decode(e.key, keys)), Member("val", Decode(e.val, keys))])])
  {
    DecodedMaps.DecodesByEntries([e], keys);
    assert [e][1..] == [];
    hide Decode;
    assert DecodeEntries([e], [], [], true, keys)
        == DecodeEntries([], if RendersAsString(e.key) then [Member(Decode(e.key, keys).text, Decode(e.val, keys))]
                             else [],
                         [] + [Object([Member("key", Decode(e.key, keys)), Member("val", Decode(e.val, keys))])],
                         RendersAsString(e.key), keys);
  }

  /** A vector of one map can write out the pair a map with a number as its key is shown as. */
  lemma VectorImitatesMap(n: int, v: ScVal, keys: Strkey)
    ensures var pair := [Entry(ScvSymbol(Utf8.Encode("key")), ScvU32(n)), Entry(ScvSymbol(Utf8.Encode("val")), v)];
            SameJson(Decode(ScvVec([ScvMap(pair)]), keys), Decode(ScvMap([Entry(ScvU32(n), v)]), keys))
  {
    var k, w := Entry(ScvSymbol(Utf8.Encode("key")), ScvU32(n)), Entry(ScvSymbol(Utf8.Encode("val")), v);
    Utf8.DecodeEncode("key");
    Utf8.DecodeEncode("val");
    assert "key"[0] != "val"[0];
    assert Decode(k.key, keys) == Str("key") && Decode(w.key, keys) == Str("val") && Decode(ScvU32(n), keys) == Int(n);
    OneEntryDecodes(Entry(ScvU32(n), v), keys);
    PairDecodes(k, w, keys);
    OneItemDecodes(ScvMap([k, w]), keys);
    hide Decode;
    SameAsItself(Array([Object([Member("key", Int(n)), Member("val", Decode(v, keys))])]));
  }

  lemma OneItemDecodes(sv: ScVal, keys: Strkey)
    ensures Decode(ScvVec([sv]), keys) == Array([Decode(sv, keys)])
  {
    assert Decode(ScvVec([sv]), keys) == Array(DecodeAll([sv], keys));
    hide Decode;
    assert [sv][1..] == [];
  }

  lemma {:induction false} PairDecodes(k: Entry, w: Entry, keys: Strkey)
    requires Decode(k.key, keys) == Str("key") && Decode(w.key, keys) == Str("val")
    ensures Decode(ScvMap([k, w]), keys)
            == Object([Member("key", Decode(k.val, keys)), Member("val", Decode(w.val, keys))])
  {
    hide Decode, DecodeEntries, RoundTrip.Decoded, StringKeys, DistinctKeys;
    DecodedMaps.DecodesByEntries([k, w], keys);
    DecodedTwo(k, w, keys);
    KeyAndVal(Decode(k.val, keys), Decode(w.val, keys));
    var ms := RoundTrip.Decoded([k, w], keys);
    assert [] + ms == ms;
    RoundTrip.DecodesToObject([k, w], [], [], keys);
  }

  lemma KeyAndVal(x: Json, y: Json)
    ensures DistinctKeys([Member("key", x), Member("val", y)])
  {
    assert "key"[0] != "val"[0];
  }

  lemma DecodedTwo(k: Entry, w: Entry, keys: Strkey)
    requires Decode(k.key, keys) == Str("key") && Decode(w.key, keys) == Str("val")
    ensures StringKeys([k, w])
    ensures RoundTrip.Decoded([k, w], keys)
            == [Member("key", Decode(k.val, keys)), Member("val", Decode(w.val, keys))]
  {
    hide Decode;
    assert RendersAsString(k.key) && RendersAsString(w.key);
  }
}
