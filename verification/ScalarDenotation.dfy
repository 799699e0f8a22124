/** Which scalar a JSON argument stands for, said without an encoder; and that the encoder finds exactly it. */
module ScalarDenotation {
  import opened Basics
  import opened Json
  import opened ScVal
  import opened Spec
  import opened Encoder
  import opened TypedValues
  import opened NumericOrder
  import Decimal
  import Hex
  import Limbs256
  import Utf8

  // ---- texts ----

  /** Digits after an optional sign; a minus only where negative numbers are. */
  ghost predicate Writes(s: string, n: int, signed: bool) {
    exists digits: string :: WritesWith(s, digits, n, signed)
  }

  predicate WritesWith(s: string, digits: string, n: int, signed: bool) {
    && digits != [] && Decimal.AllDigits(digits)
    && (((s == digits || s == "+" + digits) && n == Decimal.DigitsValue(digits))
        || (signed && s == "-" + digits && n == 0 - Decimal.DigitsValue(digits)))
  }

  predicate AllSpace(s: string) { forall i :: 0 <= i < |s| ==> IsSpace(s[i]) }

  predicate Padded(s: string, before: string, text: string, after: string) {
    AllSpace(before) && AllSpace(after) && s == before + text + after
  }

  /** The same with blanks around it. */
  ghost predicate WritesBlankly(s: string, n: int, signed: bool) {
    exists before, text, after :: Padded(s, before, text, after) && Writes(text, n, signed)
  }

  predicate IsSigned(ty: TypeDef) { ty.TI32? || ty.TI64? || ty.TI128? || ty.TI256? }

  predicate IsWide(ty: TypeDef) { ty.TU256? || ty.TI256? }

  /** A number that fits 64 bits, or a text that writes one; around 256-bit numbers blanks are allowed. */
  ghost predicate GivesNumber(v: Json, n: int, ty: TypeDef) {
    match v
    case Int(m) => m == n && -TWO_63 <= n < TWO_64
    case Str(s) => if IsWide(ty) then WritesBlankly(s, n, IsSigned(ty)) else Writes(s, n, IsSigned(ty))
    case _ => false
  }

  /** Two hexadecimal digits a byte, of either case, after an optional `0x`. */
  ghost predicate SpellsBytes(s: string, b: seq<byte>) {
    SpelledBy(if "0x" <= s then s[2..] else s, b)
  }

  ghost predicate SpelledBy(digits: string, b: seq<byte>) {
    && |digits| == 2 * |b|
    && forall i :: 0 <= i < |b| ==>
         Hex.NibbleOf(digits[2 * i]) == Some(b[i] / 16) && Hex.NibbleOf(digits[2 * i + 1]) == Some(b[i] % 16)
  }

  ghost predicate GivesText(s: string, ty: TypeDef, sv: ScVal, keys: Strkey) {
    match ty
    case TString => sv == ScvString(Utf8.Encode(s)) && |Utf8.Encode(s)| < TWO_32
    case TSymbol => sv == ScvSymbol(Utf8.Encode(s)) && |Utf8.Encode(s)| <= 32
    case TAddress => sv.ScvAddress? && keys.parse(s) == Some(sv.address)
    case TMuxedAddress =>
      if s != [] && s[0] == 'M' then sv.ScvAddress? && sv.address.Account? && keys.muxedKey(s) == Some(sv.address.key)
      else sv.ScvAddress? && keys.parse(s) == Some(sv.address)
    case TBytes => sv.ScvBytes? && |sv.bytes| < TWO_32 && SpellsBytes(s, sv.bytes)
    case TBytesN(n) => sv.ScvBytes? && |sv.bytes| == n < TWO_32 && SpellsBytes(s, sv.bytes)
    case _ => false
  }

  ghost predicate DenotesScalar(v: Json, ty: TypeDef, sv: ScVal, keys: Strkey) {
    if IsNumeric(ty) then ScalarTyped(sv, ty) && GivesNumber(v, NumberOf(sv), ty)
    else match v
      case Bool(b) => ty.TBool? && sv == ScvBool(b)
      case Null => ty.TVoid? && sv.ScvVoid?
      case Str(s) => GivesText(s, ty, sv, keys)
      case _ => false
  }

  lemma ParseIff(s: string, signed: bool, lo: int, hi: int, n: int)
    ensures Decimal.ParseInt(s, signed, lo, hi) == Some(n) <==> Writes(s, n, signed) && lo <= n <= hi
  {
    if exists digits: string :: WritesWith(s, digits, n, signed) {
      var digits: string :| WritesWith(s, digits, n, signed);
      assert Decimal.IsDigit(digits[0]);
      assert ("+" + digits)[1..] == digits && ("-" + digits)[1..] == digits;
    }
    if Decimal.ParseInt(s, signed, lo, hi) == Some(n) {
      var digits := if s[0] == '-' && signed then s[1..] else if s[0] == '+' then s[1..] else s;
      assert s == [s[0]] + s[1..];
      assert WritesWith(s, digits, n, signed);
    }
  }

  // ---- numbers ----

  lemma IntTextWrites(m: int, n: int, signed: bool)
    ensures Writes(Decimal.IntText(m), n, signed) <==> m == n && (signed || m >= 0)
  {
    var s := Decimal.IntText(m);
    if signed || m >= 0 {
      var lo := if m < n then m else n;
      var hi := if m < n then n else m;
      if !signed && n < 0 {
        hide Decimal.IntText;
        assert !Writes(s, n, signed);
      } else {
        Decimal.ParseIntText(m, signed, lo, hi);
        ParseIff(s, signed, lo, hi, n);
        ParseIff(s, signed, lo, hi, m);
      }
    } else {
      assert s[0] == '-';
    }
  }

  lemma IntArgIff(v: Json, ty: TypeDef, lo: int, hi: int, n: int)
    requires !IsWide(ty)
    ensures IntArg(v, IsSigned(ty), lo, hi) == Some(n)
            <==> GivesNumber(v, n, ty) && lo <= n <= hi && (IsSigned(ty) || v.Str? || n >= 0)
  {
    hide Writes, Decimal.ParseInt;
    match v
    case Str(s) => ParseIff(s, IsSigned(ty), lo, hi, n);
    case Int(m) =>
      ParseIff(Decimal.IntText(m), IsSigned(ty), lo, hi, n);
      IntTextWrites(m, n, IsSigned(ty));
    case _ =>
  }

  predicate InRange(n: int, ty: TypeDef) {
    match ty
    case TU32 => 0 <= n < TWO_32
    case TI32 => -0x8000_0000 <= n <= 0x7FFF_FFFF
    case TU64 => 0 <= n < TWO_64
    case TTimepoint => 0 <= n < TWO_64
    case TDuration => 0 <= n < TWO_64
    case TI64 => -TWO_63 <= n < TWO_63
    case TU128 => 0 <= n < TWO_128
    case TI128 => -TWO_127 <= n < TWO_127
    case TU256 => 0 <= n < TWO_256
    case TI256 => -TWO_255 <= n < TWO_255
    case _ => false
  }

  /** The value of an integer type that stands for a number. */
  function ValueOf(n: int, ty: TypeDef): ScVal
    requires IsNumeric(ty) && InRange(n, ty)
  {
    match ty
    case TU32 => ScvU32(n)
    case TI32 => ScvI32(n)
    case TU64 => ScvU64(n)
    case TI64 => ScvI64(n)
    case TTimepoint => ScvTimepoint(n)
    case TDuration => ScvDuration(n)
    case TU128 => ScvU128(n / TWO_64, n % TWO_64)
    case TI128 => ScvI128(n / TWO_64, n % TWO_64)
    case TU256 => var l := Limbs256.LimbsOf(n); ScvU256(l[0], l[1], l[2], l[3])
    case TI256 => var p := Limbs256.SignedPartsOf(n); ScvI256(p[0], p[1], p[2], p[3])
  }

  lemma ValueOfIff(n: int, ty: TypeDef, sv: ScVal)
    requires IsNumeric(ty)
    ensures ScalarTyped(sv, ty) ==> InRange(NumberOf(sv), ty)
    ensures ScalarTyped(sv, ty) && NumberOf(sv) == n <==> InRange(n, ty) && sv == ValueOf(n, ty)
  {
    hide ValueOf, NumberOf, ScalarTyped, InRange;
    if IsWide(ty) {
      WideValueIff(n, ty, sv);
    } else if ty.TU128? || ty.TI128? {
      DoubleValueIff(n, ty, sv);
    } else {
      SingleValueIff(n, ty, sv);
    }
  }

  lemma SingleValueIff(n: int, ty: TypeDef, sv: ScVal)
    requires IsNumeric(ty) && !IsWide(ty) && !ty.TU128? && !ty.TI128?
    ensures ScalarTyped(sv, ty) ==> InRange(NumberOf(sv), ty)
    ensures ScalarTyped(sv, ty) && NumberOf(sv) == n <==> InRange(n, ty) && sv == ValueOf(n, ty)
  {
    hide Limbs256.LimbsOf, Limbs256.SignedPartsOf, Limbs256.Value;
  }

  lemma DoubleValueIff(n: int, ty: TypeDef, sv: ScVal)
    requires ty.TU128? || ty.TI128?
    ensures ScalarTyped(sv, ty) ==> InRange(NumberOf(sv), ty)
    ensures ScalarTyped(sv, ty) && NumberOf(sv) == n <==> InRange(n, ty) && sv == ValueOf(n, ty)
  {
    hide Limbs256.LimbsOf, Limbs256.SignedPartsOf, Limbs256.Value;
    assert n == n / TWO_64 * TWO_64 + n % TWO_64;
  }

  lemma WideValueIff(n: int, ty: TypeDef, sv: ScVal)
    requires IsWide(ty)
    ensures ScalarTyped(sv, ty) ==> InRange(NumberOf(sv), ty)
    ensures ScalarTyped(sv, ty) && NumberOf(sv) == n <==> InRange(n, ty) && sv == ValueOf(n, ty)
  {
    hide Limbs256.LimbsOf, Limbs256.SignedPartsOf, Limbs256.Value;
    if ty.TU256? && sv.ScvU256? && ScalarTyped(sv, ty) {
      Limbs256.LimbsUnique([sv.hiHi, sv.hiLo, sv.loHi, sv.loLo]);
    }
    if ty.TI256? && sv.ScvI256? && ScalarTyped(sv, ty) {
      Limbs256.SignedPartsUnique([sv.hiHi, sv.hiLo, sv.loHi, sv.loLo]);
    }
    if InRange(n, ty) { WideFields(if ty.TU256? then Limbs256.LimbsOf(n) else Limbs256.SignedPartsOf(n)); }
  }

  lemma WideFields(l: seq<int>)
    requires |l| == 4
    ensures [l[0], l[1], l[2], l[3]] == l
  {
  }

  /** The number that was read, as a value. */
  lemma ReadValueIff(r: Option<int>, ty: TypeDef, sv: ScVal)
    requires IsNumeric(ty) && (r.Some? ==> InRange(r.value, ty))
    ensures (if r.Some? then Some(ValueOf(r.value, ty)) else None) == Some(sv)
            <==> ScalarTyped(sv, ty) && r == Some(NumberOf(sv))
  {
    hide ScalarTyped, NumberOf, ValueOf;
    if r.Some? { ValueOfIff(r.value, ty, sv); }
  }

  lemma NumericIff(v: Json, ty: TypeDef, sv: ScVal)
    requires IsNumeric(ty) && !IsWide(ty)
    ensures NumericArg(v, ty) == Some(sv) <==> ScalarTyped(sv, ty) && GivesNumber(v, NumberOf(sv), ty)
  {
    hide GivesNumber, IntArg, NumericArg, ScalarTyped, ValueOf, NumberOf;
    var n := NumberOf(sv);
    var (lo, hi) := Bounds(ty);
    var r := IntArg(v, IsSigned(ty), lo, hi);
    NumericByValue(v, ty);
    ReadValueIff(r, ty, sv);
    IntArgIff(v, ty, lo, hi, n);
    ValueOfIff(n, ty, sv);
    SignedBelowZero(n, ty);
  }

  lemma SignedBelowZero(n: int, ty: TypeDef)
    requires IsNumeric(ty)
    ensures InRange(n, ty) ==> IsSigned(ty) || n >= 0
  {
  }

  function Bounds(ty: TypeDef): (int, int)
    requires IsNumeric(ty) && !IsWide(ty)
  {
    match ty
    case TU32 => (0, TWO_32 - 1)
    case TI32 => (-0x8000_0000, 0x7FFF_FFFF)
    case TI64 => (-TWO_63, TWO_63 - 1)
    case TU128 => (0, TWO_128 - 1)
    case TI128 => (-TWO_127, TWO_127 - 1)
    case _ => (0, TWO_64 - 1)
  }

  lemma NumericByValue(v: Json, ty: TypeDef)
    requires IsNumeric(ty) && !IsWide(ty)
    ensures var (lo, hi) := Bounds(ty);
      var r := IntArg(v, IsSigned(ty), lo, hi);
      && (forall n :: InRange(n, ty) <==> lo <= n <= hi)
      && NumericArg(v, ty) == if r.Some? then Some(ValueOf(r.value, ty)) else None
  {
    hide IntArg;
  }

  // ---- wide numbers ----

  lemma {:induction false} TrimStartIff(s: string, before: string)
    requires AllSpace(before)
    ensures TrimStart(before + s) == TrimStart(s)
    ensures s == [] || !IsSpace(s[0]) ==> TrimStart(s) == s
  {
    if before == [] {
      assert before + s == s;
    } else {
      TrimStartIff(s, before[1..]);
      assert (before + s)[1..] == before[1..] + s;
    }
  }

  lemma {:induction false} TrimEndIff(s: string, after: string)
    requires AllSpace(after)
    ensures TrimEnd(s + after) == TrimEnd(s)
    ensures s == [] || !IsSpace(s[|s| - 1]) ==> TrimEnd(s) == s
  {
    if after == [] {
      assert s + after == s;
    } else {
      TrimEndIff(s, after[..|after| - 1]);
      assert (s + after)[..|s + after| - 1] == s + after[..|after| - 1];
    }
  }

  lemma {:induction false} TrimStartSplits(s: string) returns (before: string)
    ensures AllSpace(before) && s == before + TrimStart(s)
  {
    if s != [] && IsSpace(s[0]) {
      var rest := TrimStartSplits(s[1..]);
      before := [s[0]] + rest;
    } else {
      before := [];
    }
  }

  lemma {:induction false} TrimEndSplits(s: string) returns (after: string)
    ensures AllSpace(after) && s == TrimEnd(s) + after
  {
    if s != [] && IsSpace(s[|s| - 1]) {
      var rest := TrimEndSplits(s[..|s| - 1]);
      after := rest + [s[|s| - 1]];
    } else {
      after := [];
    }
  }

  lemma WrittenEdges(s: string, n: int, signed: bool)
    requires Writes(s, n, signed)
    ensures s != [] && !IsSpace(s[0]) && !IsSpace(s[|s| - 1])
  {
    var digits: string :| WritesWith(s, digits, n, signed);
    assert Decimal.IsDigit(digits[0]) && Decimal.IsDigit(digits[|digits| - 1]);
    assert s[|s| - 1] == digits[|digits| - 1];
  }

  /** Trimming takes off exactly the blanks around a number. */
  lemma TrimmedIff(s: string, n: int, signed: bool)
    ensures Writes(TrimEnd(TrimStart(s)), n, signed) <==> WritesBlankly(s, n, signed)
  {
    hide Writes, TrimStart, TrimEnd, IsSpace;
    if Writes(TrimEnd(TrimStart(s)), n, signed) {
      var before := TrimStartSplits(s);
      var after := TrimEndSplits(TrimStart(s));
      assert s == before + TrimEnd(TrimStart(s)) + after;
      assert Padded(s, before, TrimEnd(TrimStart(s)), after);
    }
    if WritesBlankly(s, n, signed) {
      var before, text, after :| Padded(s, before, text, after) && Writes(text, n, signed);
      WrittenEdges(text, n, signed);
      assert s == before + (text + after);
      TrimStartIff(text + after, before);
      TrimEndIff(text, after);
    }
  }

  lemma WideTextIff(s: string, n: int)
    ensures Limbs256.UnsignedOf(s) == Some(n) <==> Writes(s, n, false) && 0 <= n < TWO_256
    ensures Limbs256.SignedOf(s) == Some(n) <==> Writes(s, n, true) && -TWO_255 <= n < TWO_255
  {
    ParseIff(s, false, 0, TWO_256 - 1, n);
    ParseIff(s, true, -TWO_255, TWO_255 - 1, n);
    hide Writes;
    if s != [] && s[0] == '-' {
      assert !Decimal.IsDigit(s[0]);
    }
  }

  function ReadWide(text: string, ty: TypeDef): Option<int> {
    if ty.TU256? then Limbs256.UnsignedOf(text) else Limbs256.SignedOf(text)
  }

  lemma WideByValue(v: Json, ty: TypeDef)
    requires IsWide(ty)
    ensures WideText(v).None? ==> WideArg(v, ty).None?
    ensures WideText(v).Some? ==>
      var r := ReadWide(WideText(v).value, ty);
      && (r.Some? ==> InRange(r.value, ty))
      && WideArg(v, ty) == if r.Some? then Some(ValueOf(r.value, ty)) else None
  {
    hide WideText, Limbs256.LimbsOf, Limbs256.SignedPartsOf;
  }

  lemma WideIff(v: Json, ty: TypeDef, sv: ScVal)
    requires IsWide(ty)
    ensures WideArg(v, ty) == Some(sv) <==> ScalarTyped(sv, ty) && GivesNumber(v, NumberOf(sv), ty)
  {
    hide WideArg, ScalarTyped, NumberOf, ValueOf, ReadWide;
    WideByValue(v, ty);
    WideGiven(v, NumberOf(sv), ty);
    ValueOfIff(NumberOf(sv), ty, sv);
    if WideText(v).Some? { ReadValueIff(ReadWide(WideText(v).value, ty), ty, sv); }
    hide WideText, GivesNumber;
  }

  lemma WideGiven(v: Json, n: int, ty: TypeDef)
    requires IsWide(ty)
    ensures WideText(v).None? ==> !GivesNumber(v, n, ty)
    ensures WideText(v).Some? ==>
              (ReadWide(WideText(v).value, ty) == Some(n) <==> GivesNumber(v, n, ty) && InRange(n, ty))
  {
    hide Writes, WritesBlankly, Limbs256.UnsignedOf, Limbs256.SignedOf, TrimStart, TrimEnd, Decimal.IntText;
    match v
    case Str(s) =>
      TrimmedIff(s, n, IsSigned(ty));
      WideTextIff(TrimEnd(TrimStart(s)), n);
    case Int(m) =>
      IntTextWrites(m, n, IsSigned(ty));
      WideTextIff(Decimal.IntText(m), n);
    case _ =>
  }

  // ---- texts ----

  lemma {:induction false} HexIff(digits: string, b: seq<byte>)
    ensures Hex.Decode(digits) == Some(b) <==> SpelledBy(digits, b)
    decreases |digits|
  {
    hide Hex.NibbleOf;
    if |digits| >= 2 && b != [] {
      HexIff(digits[2..], b[1..]);
      SpelledCons(digits, b);
      assert b == [b[0]] + b[1..];
      hide SpelledBy;
    }
  }

  lemma SpelledCons(digits: string, b: seq<byte>)
    requires |digits| >= 2 && b != []
    ensures SpelledBy(digits, b) <==>
            && Hex.NibbleOf(digits[0]) == Some(b[0] / 16) && Hex.NibbleOf(digits[1]) == Some(b[0] % 16)
            && SpelledBy(digits[2..], b[1..])
  {
    hide Hex.NibbleOf;
    var d, c := digits[2..], b[1..];
    if SpelledBy(digits, b) {
      assert digits[2 * 0] == digits[0];
      forall i | 0 <= i < |c|
        ensures Hex.NibbleOf(d[2 * i]) == Some(c[i] / 16) && Hex.NibbleOf(d[2 * i + 1]) == Some(c[i] % 16)
      {
        assert c[i] == b[i + 1] && d[2 * i] == digits[2 * (i + 1)] && d[2 * i + 1] == digits[2 * (i + 1) + 1];
      }
    }
    if SpelledBy(d, c) && Hex.NibbleOf(digits[0]) == Some(b[0] / 16) && Hex.NibbleOf(digits[1]) == Some(b[0] % 16) {
      forall i | 0 <= i < |b|
        ensures Hex.NibbleOf(digits[2 * i]) == Some(b[i] / 16) && Hex.NibbleOf(digits[2 * i + 1]) == Some(b[i] % 16)
      {
        if i > 0 {
          assert c[i - 1] == b[i] && d[2 * (i - 1)] == digits[2 * i] && d[2 * (i - 1) + 1] == digits[2 * i + 1];
        }
      }
    }
  }

  lemma TextIff(s: string, ty: TypeDef, sv: ScVal, keys: Strkey)
    requires Faithful(keys)
    ensures TextArg(Str(s), ty, keys) == Some(sv) <==> GivesText(s, ty, sv, keys)
  {
    hide Hex.Decode, SpelledBy, Utf8.Encode, Faithful, MuxedArg;
    if ty.TBytes? || ty.TBytesN? {
      BytesIff(s, ty, sv, keys);
    } else if ty.TString? || ty.TSymbol? {
      WordIff(s, ty, sv, keys);
    } else if ty.TMuxedAddress? {
      MuxedIff(s, keys);
    }
  }

  lemma BytesIff(s: string, ty: TypeDef, sv: ScVal, keys: Strkey)
    requires ty.TBytes? || ty.TBytesN?
    ensures TextArg(Str(s), ty, keys) == Some(sv) <==> GivesText(s, ty, sv, keys)
  {
    var digits := if "0x" <= s then s[2..] else s;
    var b := Hex.Decode(digits);
    if b.Some? { HexIff(digits, b.value); }
    if sv.ScvBytes? { HexIff(digits, sv.bytes); }
    hide Hex.Decode, SpelledBy;
  }

  lemma WordIff(s: string, ty: TypeDef, sv: ScVal, keys: Strkey)
    requires ty.TString? || ty.TSymbol?
    ensures TextArg(Str(s), ty, keys) == Some(sv) <==> GivesText(s, ty, sv, keys)
  {
    hide Utf8.Encode;
  }

  lemma MuxedIff(s: string, keys: Strkey)
    requires Faithful(keys)
    ensures s != [] && s[0] == 'M' ==>
              MuxedArg(s, keys) == (match keys.muxedKey(s) case Some(key) => Some(Account(key)) case None => None)
    ensures !(s != [] && s[0] == 'M') ==> MuxedArg(s, keys) == keys.parse(s)
  {
    if keys.muxedKey(s).Some? {
      assert WellFormedAddress(Account(keys.muxedKey(s).value));
    }
  }

  lemma ScalarIff(v: Json, ty: TypeDef, sv: ScVal, keys: Strkey)
    requires Faithful(keys) && !(ty.TOption? || ty.TVec? || ty.TTuple? || ty.TMap? || ty.TUdt?)
    ensures EncodeScalar(v, ty, keys) == Ok(sv) <==> DenotesScalar(v, ty, sv, keys)
  {
    hide EncodeScalar, DenotesScalar, Faithful;
    if IsNumeric(ty) {
      NumberIff(v, ty, sv, keys);
    } else {
      OtherIff(v, ty, sv, keys);
    }
  }

  lemma NumberIff(v: Json, ty: TypeDef, sv: ScVal, keys: Strkey)
    requires IsNumeric(ty)
    ensures EncodeScalar(v, ty, keys) == Ok(sv) <==> DenotesScalar(v, ty, sv, keys)
  {
    hide WideArg, NumericArg, GivesNumber, ScalarTyped, NumberOf, EncodeScalar, DenotesScalar;
    ScalarKinds(v, ty, keys);
    NumberDenoted(v, ty, sv, keys);
    if IsWide(ty) { WideIff(v, ty, sv); } else { NumericIff(v, ty, sv); }
  }

  lemma NumberDenoted(v: Json, ty: TypeDef, sv: ScVal, keys: Strkey)
    requires IsNumeric(ty)
    ensures DenotesScalar(v, ty, sv, keys) <==> ScalarTyped(sv, ty) && GivesNumber(v, NumberOf(sv), ty)
  {
    hide GivesNumber, ScalarTyped, NumberOf, GivesText;
  }

  lemma OtherIff(v: Json, ty: TypeDef, sv: ScVal, keys: Strkey)
    requires Faithful(keys) && !(ty.TOption? || ty.TVec? || ty.TTuple? || ty.TMap? || ty.TUdt?) && !IsNumeric(ty)
    ensures EncodeScalar(v, ty, keys) == Ok(sv) <==> DenotesScalar(v, ty, sv, keys)
  {
    hide Faithful, TextArg, GivesText;
    if v.Str? { TextIff(v.text, ty, sv, keys); }
    NeverText(ty, sv, keys);
    ScalarKinds(v, ty, keys);
  }

  lemma NeverText(ty: TypeDef, sv: ScVal, keys: Strkey)
    ensures ty.TBool? || ty.TVoid? ==> forall s :: !GivesText(s, ty, sv, keys)
  {
  }

  lemma ScalarKinds(v: Json, ty: TypeDef, keys: Strkey)
    requires !(ty.TOption? || ty.TVec? || ty.TTuple? || ty.TMap? || ty.TUdt?)
    ensures IsWide(ty) ==> EncodeScalar(v, ty, keys) == ToResult(WideArg(v, ty))
    ensures IsNumeric(ty) && !IsWide(ty) ==> EncodeScalar(v, ty, keys) == ToResult(NumericArg(v, ty))
    ensures !IsNumeric(ty) && !ty.TBool? && !ty.TVoid? && EncodeScalar(v, ty, keys).Ok? ==>
              v.Str? && TextArg(v, ty, keys) == Some(EncodeScalar(v, ty, keys).value)
    ensures !IsNumeric(ty) && v.Str? && TextArg(v, ty, keys).Some? ==>
              EncodeScalar(v, ty, keys) == Ok(TextArg(v, ty, keys).value)
  {
    hide WideArg, NumericArg;
  }
}
