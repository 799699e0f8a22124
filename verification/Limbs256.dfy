/** 256-bit integers on four 64-bit limbs, most significant first, with no bignum library. */
module Limbs256 {
  import opened Basics
  import opened Decimal

  const CHUNK: int := 10_000_000_000_000_000_000

  ghost predicate IsLimbs(l: seq<int>) {
    |l| == 4 && forall i :: 0 <= i < 4 ==> 0 <= l[i] < TWO_64
  }

  function Value(l: seq<int>): int
    requires |l| == 4
  {
    ((l[0] * TWO_64 + l[1]) * TWO_64 + l[2]) * TWO_64 + l[3]
  }

  function LimbsOf(n: int): (l: seq<int>)
    requires 0 <= n < TWO_256
    ensures IsLimbs(l) && Value(l) == n
  {
    var a := n / TWO_64;
    var b := a / TWO_64;
    var c := b / TWO_64;
    [c, b % TWO_64, a % TWO_64, n % TWO_64]
  }

  lemma LimbsUnique(l: seq<int>)
    requires IsLimbs(l)
    ensures 0 <= Value(l) < TWO_256 && LimbsOf(Value(l)) == l
  {
    var a := l[0] * TWO_64 + l[1];
    var b := a * TWO_64 + l[2];
    assert (b * TWO_64 + l[3]) / TWO_64 == b && (a * TWO_64 + l[2]) / TWO_64 == a && a / TWO_64 == l[0];
  }

  /** The signed number a limb pattern stands for. */
  function SignedValue(l: seq<int>): int
    requires |l| == 4
  {
    if l[0] >= TWO_63 then Value(l) - TWO_256 else Value(l)
  }

  function SignedLimbsOf(n: int): (l: seq<int>)
    requires -TWO_255 <= n < TWO_255
    ensures IsLimbs(l) && SignedValue(l) == n
  {
    LimbsOf(if n < 0 then n + TWO_256 else n)
  }

  lemma SignedLimbsUnique(l: seq<int>)
    requires IsLimbs(l)
    ensures -TWO_255 <= SignedValue(l) < TWO_255 && SignedLimbsOf(SignedValue(l)) == l
  {
    LimbsUnique(l);
  }

  /** `l[0] as i64` and back: the same 64 bits read signed, or unsigned. */
  function AsSigned(limb: int): int { if limb >= TWO_63 then limb - TWO_64 else limb }

  function AsUnsigned(part: int): int { if part < 0 then part + TWO_64 else part }

  /** The fields of an `Int256Parts`: the top one signed, the others unsigned. */
  ghost predicate IsSignedParts(p: seq<int>) {
    |p| == 4 && -TWO_63 <= p[0] < TWO_63 && forall i :: 1 <= i < 4 ==> 0 <= p[i] < TWO_64
  }

  /** `i256_parts` of a number's limbs. With the top field signed, the fields' value is the number itself. */
  function SignedPartsOf(n: int): (p: seq<int>)
    requires -TWO_255 <= n < TWO_255
    ensures IsSignedParts(p) && Value(p) == n
  {
    var l := SignedLimbsOf(n);
    [AsSigned(l[0]), l[1], l[2], l[3]]
  }

  lemma SignedPartsUnique(p: seq<int>)
    requires IsSignedParts(p)
    ensures -TWO_255 <= Value(p) < TWO_255 && SignedPartsOf(Value(p)) == p
    ensures SignedValue([AsUnsigned(p[0]), p[1], p[2], p[3]]) == Value(p)
  {
    var l := [AsUnsigned(p[0]), p[1], p[2], p[3]];
    TopLimb(p, l);
    SignedLimbsUnique(l);
    hide SignedLimbsOf, SignedValue, Value;
    assert p == [p[0], p[1], p[2], p[3]];
  }

  /** Reading the top limb signed takes 2^256 off exactly when its first bit is set. */
  lemma TopLimb(p: seq<int>, l: seq<int>)
    requires IsSignedParts(p) && l == [AsUnsigned(p[0]), p[1], p[2], p[3]]
    ensures IsLimbs(l) && AsSigned(l[0]) == p[0] && SignedValue(l) == Value(p)
  {
  }

  // ---- what parsing and printing mean ----

  /** A plain run of digits whose value fits. */
  function DigitsIn(s: string, bound: int): (r: Option<int>)
    ensures r.Some? ==> 0 <= r.value < bound
  {
    if s == [] || !AllDigits(s) then None
    else if DigitsValue(s) < bound then Some(DigitsValue(s)) else None
  }

  function StripPlus(s: string): string {
    if s != [] && s[0] == '+' then s[1..] else s
  }

  /** The unsigned decimal texts below 2^256, with an optional plus sign. */
  function UnsignedOf(s: string): (r: Option<int>)
    ensures r.Some? ==> 0 <= r.value < TWO_256
  {
    if s != [] && s[0] == '-' then None else DigitsIn(StripPlus(s), TWO_256)
  }

  /** The signed decimal texts in [-2^255, 2^255), with an optional sign. */
  function SignedOf(s: string): (r: Option<int>)
    ensures r.Some? ==> -TWO_255 <= r.value < TWO_255
  {
    if s != [] && s[0] == '-' then
      match DigitsIn(s[1..], TWO_255 + 1)
      case Some(m) => Some(-m)
      case None => None
    else DigitsIn(StripPlus(s), TWO_255)
  }

  // ---- parsing ----

  method Mul10Add(limbs: seq<int>, digit: int) returns (r: Option<seq<int>>)
    requires IsLimbs(limbs) && 0 <= digit < 10
    ensures r.Some? <==> Value(limbs) * 10 + digit < TWO_256
    ensures r.Some? ==> IsLimbs(r.value) && Value(r.value) == Value(limbs) * 10 + digit
  {
    var out, carry, i := limbs, digit, 4;
    while i > 0
      invariant 0 <= i <= 4 && IsLimbs(out) && 0 <= carry < 10
      invariant forall k :: 0 <= k < i ==> out[k] == limbs[k]
      invariant i == 4 ==> carry == digit
      invariant i == 3 ==> carry * TWO_64 + out[3] == limbs[3] * 10 + digit
      invariant i == 2 ==> (carry * TWO_64 + out[2]) * TWO_64 + out[3] == (limbs[2] * TWO_64 + limbs[3]) * 10 + digit
      invariant i == 1 ==> ((carry * TWO_64 + out[1]) * TWO_64 + out[2]) * TWO_64 + out[3]
                           == ((limbs[1] * TWO_64 + limbs[2]) * TWO_64 + limbs[3]) * 10 + digit
      invariant i == 0 ==> carry * TWO_256 + Value(out) == Value(limbs) * 10 + digit
    {
      i := i - 1;
      var acc := out[i] * 10 + carry;
      out := out[i := acc % TWO_64];
      carry := acc / TWO_64;
    }
    LimbsUnique(out);
    r := if carry == 0 then Some(out) else None;
  }

  method ParseDigits(s: string) returns (r: Option<seq<int>>)
    ensures r.Some? <==> DigitsIn(s, TWO_256).Some?
    ensures r.Some? ==> IsLimbs(r.value) && Value(r.value) == DigitsIn(s, TWO_256).value
  {
    if s == [] || !AllDigits(s) { return None; }
    var limbs := [0, 0, 0, 0];
    for i := 0 to |s|
      invariant IsLimbs(limbs) && Value(limbs) == DigitsValue(s[..i])
    {
      assert s[..i + 1][..i] == s[..i];
      var next := Mul10Add(limbs, DigitOf(s[i]));
      if next.None? {
        LongerIsLarger(s, i + 1);
        return None;
      }
      limbs := next.value;
    }
    assert s[..|s|] == s;
    LimbsUnique(limbs);
    r := Some(limbs);
  }

  lemma {:induction false} LongerIsLarger(s: string, i: nat)
    requires AllDigits(s) && i <= |s|
    ensures DigitsValue(s[..i]) <= DigitsValue(s)
    decreases |s| - i
  {
    if i < |s| {
      assert s[..i + 1][..i] == s[..i];
      LongerIsLarger(s, i + 1);
    } else {
      assert s[..i] == s;
    }
  }

  /** Bitwise complement, limb by limb. */
  function Flip(l: seq<int>): (f: seq<int>)
    requires IsLimbs(l)
    ensures IsLimbs(f) && Value(f) == TWO_256 - 1 - Value(l)
  {
    [TWO_64 - 1 - l[0], TWO_64 - 1 - l[1], TWO_64 - 1 - l[2], TWO_64 - 1 - l[3]]
  }

  /** Two's-complement negation, stopping once the carry is absorbed. */
  method Negate(limbs: seq<int>) returns (out: seq<int>)
    requires IsLimbs(limbs)
    ensures IsLimbs(out)
    ensures Value(out) == if Value(limbs) == 0 then 0 else TWO_256 - Value(limbs)
  {
    out := Flip(limbs);
    ghost var flipped := out;
    var carry, i := 1, 4;
    while i > 0
      invariant 0 <= i <= 4 && IsLimbs(out) && 0 <= carry <= 1
      invariant Value(out) + CarryWeight(carry, i) == Value(flipped) + 1
    {
      i := i - 1;
      out, carry := AddCarry(out, i, carry);
      if carry == 0 { break; }
    }
    assert CarryWeight(carry, i) == carry * TWO_256;
    LimbsUnique(limbs);
    LimbsUnique(out);
  }

  /** A carry about to enter limb `i - 1`, weighed as part of the whole. */
  function CarryWeight(carry: int, i: int): int
    requires 0 <= i <= 4
  {
    if i == 4 then carry
    else if i == 3 then carry * TWO_64
    else if i == 2 then carry * TWO_128
    else if i == 1 then carry * TWO_128 * TWO_64
    else carry * TWO_256
  }

  /** Adds the carry to limb `i`, passing on what does not fit. */
  method AddCarry(l: seq<int>, i: int, carry: int) returns (next: seq<int>, over: int)
    requires IsLimbs(l) && 0 <= carry <= 1 && 0 <= i < 4
    ensures IsLimbs(next) && 0 <= over <= 1
    ensures Value(next) + CarryWeight(over, i) == Value(l) + CarryWeight(carry, i + 1)
  {
    var acc := l[i] + carry;
    next := l[i := acc % TWO_64];
    over := acc / TWO_64;
  }

  method ParseU256(s: string) returns (r: Option<seq<int>>)
    ensures r == match UnsignedOf(s) case Some(n) => Some(LimbsOf(n)) case None => None
  {
    if s != [] && s[0] == '-' { return None; }
    r := ParseDigits(StripPlus(s));
    if r.Some? { LimbsUnique(r.value); }
  }

  method ParseI256(s: string) returns (r: Option<seq<int>>)
    ensures r == match SignedOf(s) case Some(n) => Some(SignedLimbsOf(n)) case None => None
  {
    var negative := s != [] && s[0] == '-';
    var digits := if s != [] && (s[0] == '-' || s[0] == '+') then s[1..] else s;
    var parsed := ParseDigits(digits);
    if parsed.None? { return None; }
    var limbs := parsed.value;
    LimbsUnique(limbs);
    var top := limbs[0] >= TWO_63;
    var isMin := top && limbs[1..] == [0, 0, 0] && limbs[0] == TWO_63;
    assert isMin <==> Value(limbs) == TWO_255 by {
      if Value(limbs) == TWO_255 { assert limbs == LimbsOf(TWO_255); }
    }
    if !negative && top { return None; }
    if negative && top && !isMin { return None; }
    if negative {
      var neg := Negate(limbs);
      LimbsUnique(neg);
      return Some(neg);
    }
    return Some(limbs);
  }

  // ---- printing ----

  function Pow10(k: nat): (p: int)
    ensures p >= 1
  {
    if k == 0 then 1 else 10 * Pow10(k - 1)
  }

  /** Exactly `k` digits. */
  function FixedText(n: nat, k: nat): (s: string)
    ensures |s| == k
  {
    if k == 0 then [] else FixedText(n / 10, k - 1) + [DigitChar(n % 10)]
  }

  function Zeros(k: int): string {
    if k <= 0 then [] else ['0'] + Zeros(k - 1)
  }

  /** `format!("{c:019}")`. */
  function Padded(c: nat): string { Zeros(19 - |NatText(c)|) + NatText(c) }

  lemma {:induction false} ZerosSnoc(k: nat)
    ensures Zeros(k + 1) == Zeros(k) + ['0']
  {
    if k > 0 { ZerosSnoc(k - 1); }
  }

  lemma {:induction false} FixedTextPads(n: nat, k: nat)
    requires k >= 1 && n < Pow10(k)
    ensures |NatText(n)| <= k && FixedText(n, k) == Zeros(k - |NatText(n)|) + NatText(n)
  {
    if k == 1 {
      assert FixedText(n / 10, 0) == [];
      assert Zeros(0) + NatText(n) == NatText(n);
    } else {
      var short := NatText(n / 10);
      FixedTextPads(n / 10, k - 1);
      hide FixedText;
      FixedTextUnfolds(n, k);
      if n < 10 {
        assert short == ['0'] && NatText(n) == [DigitChar(n)];
        hide NatText;
        ZerosSnoc(k - 2);
      } else {
        assert NatText(n) == short + [DigitChar(n % 10)];
        hide NatText, Zeros;
        assert (Zeros(k - 1 - |short|) + short) + [DigitChar(n % 10)]
               == Zeros(k - 1 - |short|) + (short + [DigitChar(n % 10)]);
      }
    }
  }

  lemma FixedTextUnfolds(n: nat, k: nat)
    requires k > 0
    ensures FixedText(n, k) == FixedText(n / 10, k - 1) + [DigitChar(n % 10)]
  {
  }

  lemma ScaleTen(q: nat, p: int)
    requires q > 0 && p >= 1
    ensures q * (10 * p) == 10 * (q * p) && q * p >= 1
  {
  }

  lemma {:induction false} SplitText(q: nat, r: nat, k: nat)
    requires q > 0 && r < Pow10(k)
    ensures NatText(q * Pow10(k) + r) == NatText(q) + FixedText(r, k)
  {
    if k > 0 {
      var m := q * Pow10(k - 1);
      assert q * Pow10(k) == 10 * m by { ScaleTen(q, Pow10(k - 1)); }
      var x := 10 * m + r;
      assert x / 10 == m + r / 10 && x % 10 == r % 10;
      SplitText(q, r / 10, k - 1);
    }
  }

  lemma ChunkIsPow10()
    ensures Pow10(19) == CHUNK
  {
    assert Pow10(3) == 1000;
    assert Pow10(7) == 10000000;
    assert Pow10(11) == 1_00000000000;
    assert Pow10(15) == 1_000000000000000;
  }

  /** The base-10^19 digits of a number, least significant first. */
  function Chunks(n: nat): seq<int> {
    if n < CHUNK then [n] else [n % CHUNK] + Chunks(n / CHUNK)
  }

  function ChunksText(cs: seq<int>): string
    requires cs != [] && forall i :: 0 <= i < |cs| ==> cs[i] >= 0
  {
    if |cs| == 1 then NatText(cs[0]) else ChunksText(cs[1..]) + Padded(cs[0])
  }

  lemma {:induction false} ChunksTextIsText(n: nat)
    ensures var cs := Chunks(n); cs != [] && (forall i :: 0 <= i < |cs| ==> cs[i] >= 0) && ChunksText(cs) == NatText(n)
  {
    if n >= CHUNK {
      var q, r := n / CHUNK, n % CHUNK;
      ChunksTextIsText(q);
      assert Chunks(n)[1..] == Chunks(q);
      ChunkIsPow10();
      SplitText(q, r, 19);
      FixedTextPads(r, 19);
    }
  }

  /** The value of the first `i` limbs. */
  function Prefix(l: seq<int>, i: nat): int
    requires i <= |l|
  {
    if i == 0 then 0 else Prefix(l, i - 1) * TWO_64 + l[i - 1]
  }

  lemma {:induction false} PrefixLocal(a: seq<int>, b: seq<int>, i: nat)
    requires i <= |a| && i <= |b| && a[..i] == b[..i]
    ensures Prefix(a, i) == Prefix(b, i)
  {
    if i > 0 {
      assert a[..i - 1] == a[..i][..i - 1] == b[..i - 1];
      assert a[i - 1] == a[..i][i - 1] == b[i - 1];
      PrefixLocal(a, b, i - 1);
    }
  }

  lemma {:induction false} PrefixZero(l: seq<int>, i: nat)
    requires i <= |l| && forall k :: 0 <= k < |l| ==> l[k] >= 0
    ensures Prefix(l, i) >= 0
    ensures Prefix(l, i) == 0 <==> forall k :: 0 <= k < i ==> l[k] == 0
  {
    if i > 0 { PrefixZero(l, i - 1); }
  }

  /** One long division of the limbs by 10^19, in place. */
  method DivideByChunk(limbs: seq<int>) returns (out: seq<int>, rem: int, allZero: bool)
    requires IsLimbs(limbs)
    ensures IsLimbs(out) && 0 <= rem < CHUNK
    ensures Value(limbs) == Value(out) * CHUNK + rem
    ensures allZero <==> Value(out) == 0
  {
    out, rem, allZero := limbs, 0, true;
    var i := 0;
    while i < 4
      invariant 0 <= i <= 4 && IsLimbs(out) && 0 <= rem < CHUNK
      invariant forall k :: i <= k < 4 ==> out[k] == limbs[k]
      invariant allZero <==> forall k :: 0 <= k < i ==> out[k] == 0
      invariant Prefix(limbs, i) == Prefix(out, i) * CHUNK + rem
    {
      ghost var before := out;
      var cur := rem * TWO_64 + out[i];
      out := out[i := cur / CHUNK];
      rem := cur % CHUNK;
      if out[i] != 0 { allZero := false; }
      i := i + 1;
      PrefixLocal(before, out, i - 1);
    }
    PrefixZero(out, 4);
    assert Prefix(out, 4) == Value(out) && Prefix(limbs, 4) == Value(limbs) by {
      PrefixIsValue(out);
      PrefixIsValue(limbs);
    }
  }

  lemma PrefixIsValue(l: seq<int>)
    requires |l| == 4
    ensures Prefix(l, 4) == Value(l)
  {
    assert Prefix(l, 1) == l[0];
    assert Prefix(l, 2) == l[0] * TWO_64 + l[1];
  }

  method U256ToDecimal(parts: seq<int>) returns (s: string)
    requires IsLimbs(parts)
    ensures s == NatText(Value(parts))
  {
    LimbsUnique(parts);
    ghost var n := Value(parts);
    var limbs, chunks: seq<int> := parts, [];
    while true
      invariant IsLimbs(limbs) && 0 <= Value(limbs)
      invariant chunks + Chunks(Value(limbs)) == Chunks(n)
      decreases Value(limbs)
    {
      ghost var before := Value(limbs);
      var rem, allZero;
      limbs, rem, allZero := DivideByChunk(limbs);
      LimbsUnique(limbs);
      assert before / CHUNK == Value(limbs) && before % CHUNK == rem;
      ghost var was := chunks;
      chunks := chunks + [rem];
      if allZero { break; }
      assert was + Chunks(before) == chunks + Chunks(Value(limbs));
    }
    ChunksTextIsText(n);
    assert chunks == Chunks(n);
    var k := |chunks| - 1;
    s := NatText(chunks[k]);
    assert chunks[k..] == [chunks[k]];
    while k > 0
      invariant 0 <= k < |chunks| && s == ChunksText(chunks[k..])
    {
      k := k - 1;
      assert chunks[k..][1..] == chunks[k + 1..];
      s := s + Padded(chunks[k]);
    }
    assert chunks[0..] == chunks;
  }

  /** The top field is read as a limb by reinterpreting its bits. */
  method I256ToDecimal(parts: seq<int>) returns (s: string)
    requires IsSignedParts(parts)
    ensures s == IntText(Value(parts))
  {
    SignedPartsUnique(parts);
    var bits := [AsUnsigned(parts[0]), parts[1], parts[2], parts[3]];
    LimbsUnique(bits);
    if parts[0] >= 0 {
      s := U256ToDecimal(bits);
      return;
    }
    var limbs := Flip(bits);
    ghost var flipped := limbs;
    var carry, i := 1, 4;
    while i > 0
      invariant 0 <= i <= 4 && IsLimbs(limbs) && 0 <= carry <= 1
      invariant Value(limbs) + CarryWeight(carry, i) == Value(flipped) + 1
    {
      i := i - 1;
      limbs, carry := AddCarry(limbs, i, carry);
    }
    LimbsUnique(limbs);
    var magnitude := U256ToDecimal(limbs);
    s := "-" + magnitude;
  }

  // ---- parsing inverts printing, for every limb pattern ----

  lemma PrintedUnsignedParses(l: seq<int>)
    requires IsLimbs(l)
    ensures UnsignedOf(NatText(Value(l))) == Some(Value(l)) && LimbsOf(Value(l)) == l
  {
    LimbsUnique(l);
    NatTextValue(Value(l));
    assert IsDigit(NatText(Value(l))[0]);
  }

  lemma PrintedSignedParses(p: seq<int>)
    requires IsSignedParts(p)
    ensures SignedOf(IntText(Value(p))) == Some(Value(p)) && SignedPartsOf(Value(p)) == p
  {
    SignedPartsUnique(p);
    var n := Value(p);
    var m := if n < 0 then -n else n;
    NatTextValue(m);
    if n < 0 { assert IntText(n)[1..] == NatText(m); } else { assert IsDigit(NatText(m)[0]); }
  }
}
