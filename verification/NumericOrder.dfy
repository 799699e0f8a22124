/** The derived order of contract values, on integers of every width, is the order of the numbers they stand for. */
module NumericOrder {
  import opened Basics
  import opened Json
  import opened ScVal
  import opened Spec
  import opened Encoder
  import opened TypedValues
  import EncodeSound
  import Limbs256

  predicate IsNumeric(ty: TypeDef) {
    ty.TU32? || ty.TI32? || ty.TU64? || ty.TI64? || ty.TTimepoint? || ty.TDuration?
    || ty.TU128? || ty.TI128? || ty.TU256? || ty.TI256?
  }

  /** The number a value stands for; values that are no integers stand for nothing. */
  function NumberOf(sv: ScVal): int {
    match sv
    case ScvU32(n) => n
    case ScvI32(n) => n
    case ScvU64(n) => n
    case ScvI64(n) => n
    case ScvTimepoint(n) => n
    case ScvDuration(n) => n
    case ScvU128(hi, lo) => hi * TWO_64 + lo
    case ScvI128(hi, lo) => hi * TWO_64 + lo
    case ScvU256(a, b, c, d) => Limbs256.Value([a, b, c, d])
    case ScvI256(a, b, c, d) => Limbs256.Value([a, b, c, d])
    case _ => 0
  }

  lemma OneMoreLimb(x: int, y: int, u: int, v: int)
    requires IsU64(u) && IsU64(v)
    ensures CompareInt(x * TWO_64 + u, y * TWO_64 + v) == CompareInt(x, y).Then(CompareInt(u, v))
  {
  }

  lemma CompareOne(a: int, b: int)
    ensures CompareInts([a], [b]) == CompareInt(a, b)
  {
  }

  lemma CompareCons(a: int, x: seq<int>, b: int, y: seq<int>)
    ensures CompareInts([a] + x, [b] + y) == CompareInt(a, b).Then(CompareInts(x, y))
  {
    assert ([a] + x)[1..] == x && ([b] + y)[1..] == y;
  }

  lemma CompareTwo(a: int, b: int, c: int, d: int)
    requires IsU64(b) && IsU64(d)
    ensures CompareInts([a, b], [c, d]) == CompareInt(a * TWO_64 + b, c * TWO_64 + d)
  {
    assert [a, b] == [a] + [b] && [c, d] == [c] + [d];
    CompareCons(a, [b], c, [d]);
    CompareOne(b, d);
    OneMoreLimb(a, c, b, d);
  }

  /** Four fields compare left to right as the number they spell, whatever the sign of the first. */
  lemma CompareFour(x: seq<int>, y: seq<int>)
    requires |x| == |y| == 4 && forall i :: 1 <= i < 4 ==> IsU64(x[i]) && IsU64(y[i])
    ensures CompareInts(x, y) == CompareInt(Limbs256.Value(x), Limbs256.Value(y))
  {
    var a, b := x[0] * TWO_64 + x[1], y[0] * TWO_64 + y[1];
    assert x == [x[0]] + ([x[1]] + ([x[2]] + [x[3]])) && y == [y[0]] + ([y[1]] + ([y[2]] + [y[3]]));
    CompareCons(x[0], [x[1]] + ([x[2]] + [x[3]]), y[0], [y[1]] + ([y[2]] + [y[3]]));
    CompareCons(x[1], [x[2]] + [x[3]], y[1], [y[2]] + [y[3]]);
    CompareCons(x[2], [x[3]], y[2], [y[3]]);
    CompareOne(x[3], y[3]);
    OneMoreLimb(x[0], y[0], x[1], y[1]);
    OneMoreLimb(a, b, x[2], y[2]);
    OneMoreLimb(a * TWO_64 + x[2], b * TWO_64 + y[2], x[3], y[3]);
  }

  /** Two integers of one type compare as their numbers. */
  lemma CompareIsNumeric(a: ScVal, b: ScVal, ty: TypeDef)
    requires IsNumeric(ty) && ScalarTyped(a, ty) && ScalarTyped(b, ty)
    ensures Compare(a, b) == CompareInt(NumberOf(a), NumberOf(b))
  {
    hide CompareInts, Limbs256.Value;
    if ty.TU128? || ty.TI128? {
      CompareTwo(a.hi, a.lo, b.hi, b.lo);
    } else if ty.TU256? || ty.TI256? {
      CompareFour(Scalars(a), Scalars(b));
    } else {
      CompareOne(a.n, b.n);
    }
  }

  /** An encoded map with integer keys holds them in increasing order of their numbers, negative ones first. */
  lemma IntegerKeysAscend(v: Json, k: TypeDef, t: TypeDef, spec: ContractSpec, keys: Strkey)
    requires Sane(spec, keys) && IsNumeric(k) && Encode(v, TMap(k, t), spec, keys).Ok?
    ensures Encode(v, TMap(k, t), spec, keys).value.ScvMap?
    ensures var entries := Encode(v, TMap(k, t), spec, keys).value.entries;
      forall i, j :: 0 <= i < j < |entries| ==> NumberOf(entries[i].key) < NumberOf(entries[j].key)
  {
    hide Encode, Sane, Compare, NumberOf, ScalarTyped;
    EncodeSound.EncodeSound(v, TMap(k, t), spec, keys);
    var entries := Encode(v, TMap(k, t), spec, keys).value.entries;
    forall i, j | 0 <= i < j < |entries| ensures NumberOf(entries[i].key) < NumberOf(entries[j].key) {
      var x, y := entries[i], entries[j];
      assert KeyBefore(x, y);
      assert EntryTyped(x, k, t, spec) && EntryTyped(y, k, t, spec);
      TypedInteger(x.key, k, spec);
      TypedInteger(y.key, k, spec);
      CompareIsNumeric(x.key, y.key, k);
    }
  }

  lemma TypedInteger(sv: ScVal, ty: TypeDef, spec: ContractSpec)
    requires IsNumeric(ty) && WellTyped(sv, ty, spec)
    ensures ScalarTyped(sv, ty)
  {
  }
}
