/** What the byte-level reader's JSON tells about errors and 256-bit numbers. */
module XdrShows {
  import opened Basics
  import opened Json
  import opened ScVal
  import opened TypedValues
  import opened XdrWire
  import opened NumericOrder
  import Hex
  import Limbs256
  import Lookalikes
  import XdrExact

  // ---- errors ----

  /** The kinds the protocol knows, and their host codes, are numbered from 0 to 9. */
  predicate SameOrUnknown(x: nat, y: nat) { x == y || (x >= 10 && y >= 10) }

  /** An error shows its kind and its code, a contract's own code as a number and a host's by name; numbers past the
      known ones are all shown alike. */
  lemma ErrorsAlikeIff(kind: nat, code: nat, kind': nat, code': nat)
    ensures ErrorJson(kind, code) == ErrorJson(kind', code') <==>
            SameOrUnknown(kind, kind') && if kind == 0 then code == code' else SameOrUnknown(code, code')
  {
    KindsApart(kind, kind');
    CodesApart(code, code');
    hide ErrorKind, HostCode;
    ErrorsTell(kind, code, kind', code');
  }

  lemma ErrorsTell(kind: nat, code: nat, kind': nat, code': nat)
    ensures ErrorJson(kind, code) == ErrorJson(kind', code') <==>
            ErrorKind(kind) == ErrorKind(kind') && CodeShown(kind, code) == CodeShown(kind', code')
  {
    hide ErrorKind, HostCode;
    var e, e' := ErrorShown(kind, code), ErrorShown(kind', code');
    assert e[0] == Member("type", Str(ErrorKind(kind))) && e'[0] == Member("type", Str(ErrorKind(kind')));
    assert e[1] == Member("code", CodeShown(kind, code)) && e'[1] == Member("code", CodeShown(kind', code'));
    var m, m' := Member("error", Object(e)), Member("error", Object(e'));
    assert [m][0] == m && [m'][0] == m';
    assert ErrorJson(kind, code) == Object([m]) && ErrorJson(kind', code') == Object([m']);
  }

  /** A contract's own code is a number, a host's a name. */
  function CodeShown(kind: nat, code: nat): Json { if kind == 0 then Int(code) else Str(HostCode(code)) }

  function ErrorShown(kind: nat, code: nat): seq<Member> {
    [Member("type", Str(ErrorKind(kind))), Member("code", CodeShown(kind, code))]
  }

  lemma KindsApart(k: nat, k': nat)
    ensures ErrorKind(k) == ErrorKind(k') <==> SameOrUnknown(k, k')
  {
  }

  lemma CodesApart(c: nat, c': nat)
    ensures HostCode(c) == HostCode(c') <==> SameOrUnknown(c, c')
  {
  }

  // ---- 256-bit numbers ----

  predicate IsWide(sv: ScVal) { sv.ScvU256? || sv.ScvI256? }

  /** A 256-bit number shows the 32 bytes of its value modulo 2^256, in hex. */
  lemma WideShowsItsBytes(r: Rendering, sv: ScVal) returns (b: seq<byte>)
    requires IsWide(sv) && WireableLeaf(sv)
    ensures |b| == 32 && FromBigEndian(b) == NumberOf(sv) % TWO_256
    ensures LeafJson(r, sv) == Object([Member("_u256_hex", Str(Hex.Encode(b)))]) && b == LeafBytes(sv)
  {
    b := LeafBytes(sv);
    if sv.ScvU256? {
      FourWords(sv.hiHi, sv.hiLo, sv.loHi, sv.loLo);
    } else {
      FourWords(sv.hiHi % TWO_64, sv.hiLo, sv.loHi, sv.loLo);
      TopWordWraps(sv.hiHi, sv.hiLo, sv.loHi, sv.loLo);
    }
  }

  lemma TopWordWraps(a: int, b: int, c: int, d: int)
    requires IsI64(a) && IsU64(b) && IsU64(c) && IsU64(d)
    ensures Limbs256.Value([a % TWO_64, b, c, d]) == Limbs256.Value([a, b, c, d]) % TWO_256
  {
    assert a % TWO_64 == if a < 0 then a + TWO_64 else a;
    var l := [a % TWO_64, b, c, d];
    Limbs256.LimbsUnique(l);
    assert Limbs256.Value(l) == Limbs256.Value([a, b, c, d]) + if a < 0 then TWO_256 else 0;
  }

  lemma {:induction false} Appended(x: seq<byte>, y: seq<byte>)
    ensures FromBigEndian(x + y) == FromBigEndian(x) * XdrExact.Pow256(|y|) + FromBigEndian(y)
  {
    if y == [] {
      assert x + y == x;
    } else {
      var rest := y[..|y| - 1];
      Appended(x, rest);
      assert (x + y)[..|x + y| - 1] == x + rest;
      Scaled(FromBigEndian(x), XdrExact.Pow256(|rest|), FromBigEndian(rest), y[|y| - 1]);
    }
  }

  lemma Scaled(x: nat, p: nat, y: nat, last: nat)
    ensures (x * p + y) * 256 + last == x * (256 * p) + (y * 256 + last)
  {
    assert x * (256 * p) == (x * p) * 256;
  }

  lemma WordAppended(x: seq<byte>, n: nat)
    requires IsU64(n)
    ensures FromBigEndian(x + U64(n)) == FromBigEndian(x) * TWO_64 + n
  {
    XdrExact.Sizes();
    hide XdrExact.Pow256;
    XdrExact.BigEndianValue(n, 8);
    Appended(x, U64(n));
  }

  lemma FourWords(a: nat, b: nat, c: nat, d: nat)
    requires IsU64(a) && IsU64(b) && IsU64(c) && IsU64(d)
    ensures var bytes := U64(a) + U64(b) + U64(c) + U64(d);
      |bytes| == 32 && FromBigEndian(bytes) == Limbs256.Value([a, b, c, d]) == Limbs256.Value([a, b, c, d]) % TWO_256
  {
    assert [] + U64(a) == U64(a) && FromBigEndian([]) == 0;
    WordAppended([], a);
    WordAppended(U64(a), b);
    WordAppended(U64(a) + U64(b), c);
    WordAppended(U64(a) + U64(b) + U64(c), d);
    hide FromBigEndian, U64;
    assert Limbs256.IsLimbs([a, b, c, d]);
    Limbs256.LimbsUnique([a, b, c, d]);
  }

  lemma {:induction false} SameNumber(x: seq<byte>, y: seq<byte>)
    requires |x| == |y| && FromBigEndian(x) == FromBigEndian(y)
    ensures x == y
  {
    if x != [] {
      var i := |x| - 1;
      assert x[i] == FromBigEndian(x) % 256 && y[i] == FromBigEndian(y) % 256;
      SameNumber(x[..i], y[..i]);
      assert x == x[..i] + [x[i]] && y == y[..i] + [y[i]];
    }
  }

  /** Two 256-bit numbers, signed or not, are shown alike exactly when they agree modulo 2^256. */
  lemma WidesAlikeIff(r: Rendering, sv: ScVal, sw: ScVal)
    requires IsWide(sv) && WireableLeaf(sv) && IsWide(sw) && WireableLeaf(sw)
    ensures LeafJson(r, sv) == LeafJson(r, sw) <==> NumberOf(sv) % TWO_256 == NumberOf(sw) % TWO_256
  {
    var b := WideShowsItsBytes(r, sv);
    var c := WideShowsItsBytes(r, sw);
    hide LeafJson, LeafBytes, WireableLeaf, NumberOf, FromBigEndian;
    var m, n := Member("_u256_hex", Str(Hex.Encode(b))), Member("_u256_hex", Str(Hex.Encode(c)));
    assert [m][0] == m && [n][0] == n;
    if LeafJson(r, sv) == LeafJson(r, sw) { Lookalikes.HexInjective(b, c); }
    if NumberOf(sv) % TWO_256 == NumberOf(sw) % TWO_256 { SameNumber(b, c); }
  }
}
