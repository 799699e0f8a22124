/** Types and signatures as text, and why that text is unambiguous. */
module Render {
  import opened Basics
  import opened Spec
  import opened Texts
  import Decimal

  // ---- rendering ----

  /** The word a type without arguments renders as; a user-defined type is its own name. */
  function SimpleName(t: TypeDef): Option<string> {
    match t
    case TVal => Some("Val")
    case TBool => Some("bool")
    case TVoid => Some("void")
    case TError => Some("Error")
    case TU32 => Some("u32")
    case TI32 => Some("i32")
    case TU64 => Some("u64")
    case TI64 => Some("i64")
    case TTimepoint => Some("Timepoint")
    case TDuration => Some("Duration")
    case TU128 => Some("u128")
    case TI128 => Some("i128")
    case TU256 => Some("u256")
    case TI256 => Some("i256")
    case TBytes => Some("Bytes")
    case TString => Some("String")
    case TSymbol => Some("Symbol")
    case TAddress => Some("Address")
    case TMuxedAddress => Some("MuxedAddress")
    case TUdt(name) => Some(name)
    case _ => None
  }

  /** `type_name`. */
  function TypeName(t: TypeDef): string
    decreases t
  {
    match t
    case TOption(v) => "Option<" + TypeName(v) + ">"
    case TResult(ok, err) => "Result<" + TypeName(ok) + ", " + TypeName(err) + ">"
    case TVec(e) => "Vec<" + TypeName(e) + ">"
    case TMap(k, v) => "Map<" + TypeName(k) + ", " + TypeName(v) + ">"
    case TTuple(ts) => "(" + TypeNames(ts) + ")"
    case TBytesN(n) => "BytesN<" + Decimal.NatText(n) + ">"
    case _ => SimpleName(t).value
  }

  /** Type names joined by ", ". */
  function TypeNames(ts: seq<TypeDef>): string
    decreases ts
  {
    if ts == [] then ""
    else if |ts| == 1 then TypeName(ts[0])
    else TypeName(ts[0]) + ", " + TypeNames(ts[1..])
  }

  /** `[..].join(", ")`. */
  function Join(parts: seq<string>): string {
    if parts == [] then ""
    else if |parts| == 1 then parts[0]
    else parts[0] + ", " + Join(parts[1..])
  }

  function Map<T>(render: T -> string, xs: seq<T>): (r: seq<string>)
    ensures |r| == |xs| && forall i :: 0 <= i < |r| ==> r[i] == render(xs[i])
  {
    if xs == [] then [] else [render(xs[0])] + Map(render, xs[1..])
  }

  function FieldToken(f: Field): string { f.name + ": " + TypeName(f.ty) }

  function CaseToken(c: UnionCase): string {
    if c.tys == [] then c.name else c.name + "(" + TypeNames(c.tys) + ")"
  }

  function ValueToken(c: EnumCase): string { c.name + " = " + Decimal.NatText(c.value) }

  function ParamToken(p: EventParam): string {
    p.name + ": " + TypeName(p.ty) + " @" + (if p.inTopics then "topic" else "data")
  }

  function OutputText(outputs: seq<TypeDef>): string {
    if outputs == [] then "void"
    else if |outputs| == 1 then TypeName(outputs[0])
    else "(" + TypeNames(outputs) + ")"
  }

  function FunctionSig(f: FunctionSpec): string {
    f.name + "(" + Join(Map(FieldToken, f.inputs)) + ") -> " + OutputText(f.outputs)
  }

  function FormatText(f: DataFormat): string {
    match f case SingleValue => "single" case VecData => "vec" case MapData => "map"
  }

  function EventSig(e: EventSpec): string {
    e.name + "(" + Join(Map(ParamToken, e.params)) + ") [" + FormatText(e.format) + "]"
  }

  function StructSig(s: UdtStruct): string { "struct " + s.name + " { " + Join(Map(FieldToken, s.fields)) + " }" }
  function UnionSig(u: UdtUnion): string { "union " + u.name + " { " + Join(Map(CaseToken, u.cases)) + " }" }
  function EnumSig(e: UdtEnum): string { "enum " + e.name + " { " + Join(Map(ValueToken, e.cases)) + " }" }
  function ErrorSig(e: UdtEnum): string { "error enum " + e.name + " { " + Join(Map(ValueToken, e.cases)) + " }" }

  // ---- names the rendering can be read back from ----

  predicate IsWord(c: char) { 'a' <= c <= 'z' || 'A' <= c <= 'Z' || '0' <= c <= '9' || c == '_' }

  predicate AllWord(s: string) { forall i :: 0 <= i < |s| ==> IsWord(s[i]) }

  predicate Identifier(s: string) { s != [] && AllWord(s) }

  /** The builtin a word names. */
  function Builtin(w: string): Option<TypeDef> {
    if w == "Val" then Some(TVal)
    else if w == "bool" then Some(TBool)
    else if w == "void" then Some(TVoid)
    else if w == "Error" then Some(TError)
    else if w == "u32" then Some(TU32)
    else if w == "i32" then Some(TI32)
    else if w == "u64" then Some(TU64)
    else if w == "i64" then Some(TI64)
    else if w == "Timepoint" then Some(TTimepoint)
    else if w == "Duration" then Some(TDuration)
    else if w == "u128" then Some(TU128)
    else if w == "i128" then Some(TI128)
    else if w == "u256" then Some(TU256)
    else if w == "i256" then Some(TI256)
    else if w == "Bytes" then Some(TBytes)
    else if w == "String" then Some(TString)
    else if w == "Symbol" then Some(TSymbol)
    else if w == "Address" then Some(TAddress)
    else if w == "MuxedAddress" then Some(TMuxedAddress)
    else None
  }

  /** Every user-defined type mentioned has an identifier for a name, and not a builtin's. */
  predicate Readable(t: TypeDef)
    decreases t
  {
    match t
    case TOption(v) => Readable(v)
    case TResult(ok, err) => Readable(ok) && Readable(err)
    case TVec(e) => Readable(e)
    case TMap(k, v) => Readable(k) && Readable(v)
    case TTuple(ts) => forall i :: 0 <= i < |ts| ==> Readable(ts[i])
    case TUdt(name) => Identifier(name) && Builtin(name).None?
    case _ => true
  }

  // ---- words end where a non-word character stands ----

  /** What may follow a rendered type: nothing, or a character that cannot continue it. */
  predicate Stops(s: string) { s == [] || (!IsWord(s[0]) && s[0] != '<' && s[0] != '(') }

  predicate WordEnds(s: string) { s == [] || !IsWord(s[0]) }

  /** How many leading characters are word characters. */
  function WordLength(x: string): nat {
    if x == [] || !IsWord(x[0]) then 0 else 1 + WordLength(x[1..])
  }

  lemma {:induction false} WordLengthOf(v: string, s: string)
    requires AllWord(v) && WordEnds(s)
    ensures WordLength(v + s) == |v|
  {
    if v == [] {
      assert v + s == s;
    } else {
      assert (v + s)[0] == v[0] && (v + s)[1..] == v[1..] + s;
      WordLengthOf(v[1..], s);
    }
  }

  lemma WordSplit(v: string, s: string, w: string, t: string)
    requires AllWord(v) && AllWord(w) && WordEnds(s) && WordEnds(t)
    requires v + s == w + t
    ensures v == w && s == t
  {
    WordLengthOf(v, s);
    WordLengthOf(w, t);
    SplitAt(v, s, w, t);
  }

  lemma SplitAt(v: string, s: string, w: string, t: string)
    requires |v| == |w| && v + s == w + t
    ensures v == w && s == t
  {
    assert (v + s)[..|v|] == v && (w + t)[..|w|] == w;
    assert (v + s)[|v|..] == s && (w + t)[|w|..] == t;
  }

  // ---- the parts of a rendered type ----

  /** The leading word of a rendered type. */
  function Head(t: TypeDef): string {
    match t
    case TOption(_) => "Option"
    case TResult(_, _) => "Result"
    case TVec(_) => "Vec"
    case TMap(_, _) => "Map"
    case TTuple(_) => ""
    case TBytesN(_) => "BytesN"
    case _ => SimpleName(t).value
  }

  predicate IsSimple(t: TypeDef) { SimpleName(t).Some? }

  /** What follows the opening bracket of a rendered type. */
  function Inside(t: TypeDef): string
    requires !IsSimple(t)
  {
    match t
    case TOption(v) => TypeName(v) + ">"
    case TResult(ok, err) => TypeName(ok) + ", " + TypeName(err) + ">"
    case TVec(e) => TypeName(e) + ">"
    case TMap(k, v) => TypeName(k) + ", " + TypeName(v) + ">"
    case TTuple(ts) => TypeNames(ts) + ")"
    case TBytesN(n) => Decimal.NatText(n) + ">"
  }

  function Bracket(t: TypeDef): char
    requires !IsSimple(t)
  {
    if t.TTuple? then '(' else '<'
  }

  lemma Regroup(head: string, c: char, x: string, z: string)
    ensures head + [c] + x + z == head + ([c] + (x + z))
  {
  }

  /** The rendered form opened at its bracket. */
  ghost predicate Opens(t: TypeDef) {
    TypeName(t) == Head(t) + (if IsSimple(t) then "" else [Bracket(t)] + Inside(t))
  }

  lemma OptionParts(v: TypeDef)
    ensures Opens(TOption(v))
  {
    assert "Option<" == "Option" + ['<'];
    Regroup("Option", '<', TypeName(v), ">");
  }

  lemma VecParts(e: TypeDef)
    ensures Opens(TVec(e))
  {
    assert "Vec<" == "Vec" + ['<'];
    Regroup("Vec", '<', TypeName(e), ">");
  }

  lemma BytesParts(n: nat)
    ensures Opens(TBytesN(n))
  {
    assert "BytesN<" == "BytesN" + ['<'];
    Regroup("BytesN", '<', Decimal.NatText(n), ">");
  }

  lemma TupleParts(ts: seq<TypeDef>)
    ensures Opens(TTuple(ts))
  {
    hide TypeNames;
    assert "(" == "" + ['('];
    Regroup("", '(', TypeNames(ts), ")");
  }

  lemma Parts(t: TypeDef)
    ensures Opens(t)
  {
    hide TypeName, Inside;
    match t
    case TOption(v) => OptionParts(v);
    case TResult(ok, err) => ResultParts(ok, err);
    case TVec(e) => VecParts(e);
    case TMap(k, v) => MapParts(k, v);
    case TBytesN(n) => BytesParts(n);
    case TTuple(ts) => TupleParts(ts);
    case _ => SimpleParts(t);
  }

  lemma SimpleParts(t: TypeDef)
    requires IsSimple(t)
    ensures Opens(t)
  {
    assert Head(t) + "" == Head(t);
  }

  lemma ResultParts(ok: TypeDef, err: TypeDef)
    ensures Opens(TResult(ok, err))
  {
    assert "Result<" == "Result" + ['<'];
    PairParts("Result", TypeName(ok), TypeName(err));
  }

  lemma MapParts(k: TypeDef, v: TypeDef)
    ensures Opens(TMap(k, v))
  {
    assert "Map<" == "Map" + ['<'];
    PairParts("Map", TypeName(k), TypeName(v));
  }

  lemma PairParts(head: string, x: string, y: string)
    ensures head + ['<'] + x + ", " + y + ">" == head + (['<'] + (x + ", " + y + ">"))
  {
    Regroup(head, '<', x + ", " + y, ">");
    assert head + ['<'] + x + ", " + y + ">" == head + ['<'] + (x + ", " + y) + ">";
  }

  lemma SimpleHeadReads(t: TypeDef)
    requires IsSimple(t) && !t.TUdt?
    ensures Builtin(Head(t)) == Some(t)
  {
  }

  lemma HeadIsWord(t: TypeDef)
    requires Readable(t)
    ensures AllWord(Head(t)) && (Head(t) == [] <==> t.TTuple?)
  {
    hide AllWord;
    if t.TUdt? {
      assert Identifier(t.name);
    } else if IsShortNumber(t) {
      ShortNumberIsWord(t);
    } else if t.TU128? || t.TI128? || t.TU256? || t.TI256? || t.TTimepoint? || t.TDuration? {
      LongNumberIsWord(t);
    } else if IsSimple(t) {
      PlainNameIsWord(t);
    } else {
      CompoundIsWord(t);
    }
  }

  predicate IsShortNumber(t: TypeDef) { t.TBool? || t.TVoid? || t.TU32? || t.TI32? || t.TU64? || t.TI64? }

  lemma ShortNumberIsWord(t: TypeDef)
    requires IsShortNumber(t)
    ensures AllWord(Head(t)) && Head(t) != []
  {
  }

  lemma LongNumberIsWord(t: TypeDef)
    requires t.TU128? || t.TI128? || t.TU256? || t.TI256? || t.TTimepoint? || t.TDuration?
    ensures AllWord(Head(t)) && Head(t) != []
  {
  }

  lemma PlainNameIsWord(t: TypeDef)
    requires t.TVal? || t.TError? || t.TBytes? || t.TString? || t.TSymbol? || t.TAddress? || t.TMuxedAddress?
    ensures AllWord(Head(t)) && Head(t) != []
  {
  }

  lemma CompoundIsWord(t: TypeDef)
    requires !IsSimple(t)
    ensures AllWord(Head(t)) && (Head(t) == [] <==> t.TTuple?)
  {
  }

  // ---- a rendered type can be read back, whatever follows it ----

  /** What stands after the leading word of a rendered type. */
  function AfterHead(t: TypeDef, s: string): string {
    if IsSimple(t) then s else [Bracket(t)] + (Inside(t) + s)
  }

  lemma HeadFirst(t: TypeDef, s: string)
    ensures TypeName(t) + s == Head(t) + AfterHead(t, s)
  {
    hide TypeName, Head, Inside;
    Parts(t);
    if IsSimple(t) {
      assert Head(t) + "" == Head(t);
    } else {
      assert Head(t) + ([Bracket(t)] + Inside(t)) + s == Head(t) + ([Bracket(t)] + (Inside(t) + s));
    }
  }

  lemma StopsIffSimple(t: TypeDef, s: string)
    requires Stops(s)
    ensures Stops(AfterHead(t, s)) <==> IsSimple(t)
  {
    hide Inside;
  }

  lemma SameHead(a: TypeDef, b: TypeDef)
    requires Readable(a) && Readable(b) && Head(a) == Head(b) && IsSimple(a) == IsSimple(b)
    ensures IsSimple(a) ==> a == b
    ensures a.TOption? == b.TOption? && a.TResult? == b.TResult? && a.TVec? == b.TVec?
    ensures a.TMap? == b.TMap? && a.TTuple? == b.TTuple? && a.TBytesN? == b.TBytesN?
  {
    if IsSimple(a) {
      if !a.TUdt? { SimpleHeadReads(a); }
      if !b.TUdt? { SimpleHeadReads(b); }
    } else {
      assert Head(a) == "" || Head(a)[0] == Head(b)[0];
      assert |Head(a)| == |Head(b)|;
    }
  }

  lemma {:induction false} TypeNameUnambiguous(a: TypeDef, b: TypeDef, s: string, t: string)
    requires Readable(a) && Readable(b) && Stops(s) && Stops(t)
    requires TypeName(a) + s == TypeName(b) + t
    ensures a == b && s == t
    decreases a, 2
  {
    hide TypeName, Head, Inside, Readable, IsSimple;
    HeadFirst(a, s);
    HeadFirst(b, t);
    HeadIsWord(a);
    HeadIsWord(b);
    WordSplit(Head(a), AfterHead(a, s), Head(b), AfterHead(b, t));
    StopsIffSimple(a, s);
    StopsIffSimple(b, t);
    SameHead(a, b);
    if !IsSimple(a) {
      SameRest([Bracket(a)], Inside(a) + s, Inside(b) + t);
      InsideUnambiguous(a, b, s, t);
    }
  }

  lemma {:induction false} InsideUnambiguous(a: TypeDef, b: TypeDef, s: string, t: string)
    requires Readable(a) && Readable(b) && Stops(s) && Stops(t) && !IsSimple(a) && !IsSimple(b)
    requires a.TOption? == b.TOption? && a.TResult? == b.TResult? && a.TVec? == b.TVec?
    requires a.TMap? == b.TMap? && a.TTuple? == b.TTuple? && a.TBytesN? == b.TBytesN?
    requires Inside(a) + s == Inside(b) + t
    ensures a == b && s == t
    decreases a, 1
  {
    hide TypeName, TypeNames, Decimal.NatText;
    match a
    case TOption(v) => ClosedUnambiguous(v, b.value, s, t);
    case TVec(e) => ClosedUnambiguous(e, b.elem, s, t);
    case TResult(ok, err) => PairUnambiguous(a, ok, err, b.ok, b.err, s, t);
    case TMap(k, v) => PairUnambiguous(a, k, v, b.key, b.val, s, t);
    case TTuple(ts) =>
      assert TypeNames(ts) + (")" + s) == Inside(a) + s && TypeNames(b.types) + (")" + t) == Inside(b) + t;
      TypeNamesUnambiguous(ts, b.types, ")" + s, ")" + t);
      SameRest(")", s, t);
    case TBytesN(n) =>
      assert Decimal.NatText(n) + (">" + s) == Inside(a) + s && Decimal.NatText(b.n) + (">" + t) == Inside(b) + t;
      NumberUnambiguous(n, b.n, ">" + s, ">" + t);
      SameRest(">", s, t);
  }

  lemma NumberUnambiguous(m: nat, n: nat, s: string, t: string)
    requires WordEnds(s) && WordEnds(t) && Decimal.NatText(m) + s == Decimal.NatText(n) + t
    ensures m == n && s == t
  {
    hide Decimal.NatText;
    assert forall i :: 0 <= i < |Decimal.NatText(m)| ==> Decimal.IsDigit(Decimal.NatText(m)[i]);
    assert forall i :: 0 <= i < |Decimal.NatText(n)| ==> Decimal.IsDigit(Decimal.NatText(n)[i]);
    WordSplit(Decimal.NatText(m), s, Decimal.NatText(n), t);
    Decimal.NatTextValue(m);
    Decimal.NatTextValue(n);
  }

  lemma {:induction false} ClosedUnambiguous(x: TypeDef, y: TypeDef, s: string, t: string)
    requires Readable(x) && Readable(y)
    requires TypeName(x) + ">" + s == TypeName(y) + ">" + t
    ensures x == y && s == t
    decreases x, 3
  {
    hide TypeName, Readable;
    assert TypeName(x) + ">" + s == TypeName(x) + (">" + s) && TypeName(y) + ">" + t == TypeName(y) + (">" + t);
    TypeNameUnambiguous(x, y, ">" + s, ">" + t);
    SameRest(">", s, t);
  }

  lemma {:induction false} PairUnambiguous(a: TypeDef, x: TypeDef, x': TypeDef, y: TypeDef, y': TypeDef, s: string,
                                           t: string)
    requires x < a && x' < a && Readable(x) && Readable(x') && Readable(y) && Readable(y')
    requires (TypeName(x) + ", " + TypeName(x') + ">") + s == (TypeName(y) + ", " + TypeName(y') + ">") + t
    ensures x == y && x' == y' && s == t
    decreases a, 0
  {
    hide TypeName, Readable;
    var u, v := TypeName(x') + ">" + s, TypeName(y') + ">" + t;
    assert (TypeName(x) + ", " + TypeName(x') + ">") + s == TypeName(x) + (", " + u);
    assert (TypeName(y) + ", " + TypeName(y') + ">") + t == TypeName(y) + (", " + v);
    TypeNameUnambiguous(x, y, ", " + u, ", " + v);
    SameRest(", ", u, v);
    ClosedUnambiguous(x', y', s, t);
  }

  lemma FirstChar(t: TypeDef)
    requires Readable(t)
    ensures TypeName(t) != [] && (IsWord(TypeName(t)[0]) || TypeName(t)[0] == '(')
  {
    hide TypeName, Inside;
    Parts(t);
    HeadIsWord(t);
  }

  /** What follows the first of several joined parts. */
  function Following(ts: seq<TypeDef>, z: string): string
    requires ts != []
  {
    if |ts| == 1 then z else ", " + (TypeNames(ts[1..]) + z)
  }

  lemma JoinedAssoc(x: string, r: string, z: string)
    ensures x + ", " + r + z == x + (", " + (r + z))
  {
  }

  lemma FirstOfMany(ts: seq<TypeDef>, z: string)
    requires ts != []
    ensures TypeNames(ts) + z == TypeName(ts[0]) + Following(ts, z)
  {
    hide TypeName;
    if |ts| > 1 {
      JoinedAssoc(TypeName(ts[0]), TypeNames(ts[1..]), z);
    }
  }

  lemma FollowingAgree(xs: seq<TypeDef>, ys: seq<TypeDef>, z: string, w: string)
    requires xs != [] && ys != [] && z != [] && z[0] == ')' && w != [] && w[0] == ')'
    requires Following(xs, z) == Following(ys, w)
    ensures |xs| == 1 <==> |ys| == 1
    ensures |xs| == 1 ==> z == w
    ensures |xs| > 1 ==> TypeNames(xs[1..]) + z == TypeNames(ys[1..]) + w
  {
    hide TypeNames;
    assert Following(xs, z)[0] == Following(ys, w)[0];
    if |xs| > 1 && |ys| > 1 { SameRest(", ", TypeNames(xs[1..]) + z, TypeNames(ys[1..]) + w); }
  }

  lemma {:induction false} TypeNamesUnambiguous(xs: seq<TypeDef>, ys: seq<TypeDef>, z: string, w: string)
    requires (forall i :: 0 <= i < |xs| ==> Readable(xs[i])) && (forall i :: 0 <= i < |ys| ==> Readable(ys[i]))
    requires z != [] && z[0] == ')' && w != [] && w[0] == ')'
    requires TypeNames(xs) + z == TypeNames(ys) + w
    ensures xs == ys && z == w
    decreases xs
  {
    hide TypeName, Readable;
    NamesFirst(xs, z);
    NamesFirst(ys, w);
    if xs == [] {
      assert "" + z == z && "" + w == w;
    } else {
      FirstOfMany(xs, z);
      FirstOfMany(ys, w);
      TypeNameUnambiguous(xs[0], ys[0], Following(xs, z), Following(ys, w));
      FollowingAgree(xs, ys, z, w);
      hide TypeNames, Following;
      if |xs| > 1 { TypeNamesUnambiguous(xs[1..], ys[1..], z, w); }
      assert xs == [xs[0]] + xs[1..] && ys == [ys[0]] + ys[1..];
    }
  }

  lemma NamesFirst(ts: seq<TypeDef>, z: string)
    requires (forall i :: 0 <= i < |ts| ==> Readable(ts[i])) && z != [] && z[0] == ')'
    ensures var all := TypeNames(ts) + z; all != [] && (all[0] == ')' <==> ts == [])
  {
    hide TypeName, Readable;
    if ts == [] {
      assert "" + z == z;
    } else {
      FirstOfMany(ts, z);
      FirstChar(ts[0]);
    }
  }

  // ---- joined tokens ----

  /** Two rendered items, whatever follows, are told apart. */
  ghost predicate Separates<T(!new)>(render: T -> string, a: T, b: T) {
    forall s: string, t: string :: Stops(s) && Stops(t) && render(a) + s == render(b) + t ==> a == b && s == t
  }

  predicate StartsWithWord(s: string) { s != [] && IsWord(s[0]) }

  /** The end of a list of tokens: a bracket, or the space before one. */
  predicate Closes(z: string) { z != [] && (z[0] == ')' || z[0] == ' ') }

  function FollowingParts(ps: seq<string>, z: string): string
    requires ps != []
  {
    if |ps| == 1 then z else ", " + (Join(ps[1..]) + z)
  }

  lemma FirstPart(ps: seq<string>, z: string)
    requires ps != []
    ensures Join(ps) + z == ps[0] + FollowingParts(ps, z)
  {
    if |ps| > 1 {
      JoinedAssoc(ps[0], Join(ps[1..]), z);
    }
  }

  lemma PartsFirst(ps: seq<string>, z: string)
    requires (forall i :: 0 <= i < |ps| ==> StartsWithWord(ps[i])) && Closes(z)
    ensures StartsWithWord(Join(ps) + z) <==> ps != []
  {
    if ps == [] {
      assert "" + z == z;
    } else {
      FirstPart(ps, z);
    }
  }

  ghost predicate Separable<T(!new)>(render: T -> string, xs: seq<T>, ys: seq<T>) {
    && (forall i, j :: 0 <= i < |xs| && 0 <= j < |ys| ==> Separates(render, xs[i], ys[j]))
    && (forall i :: 0 <= i < |xs| ==> StartsWithWord(render(xs[i])))
    && (forall i :: 0 <= i < |ys| ==> StartsWithWord(render(ys[i])))
  }

  lemma FollowingPartsAgree(ps: seq<string>, qs: seq<string>, z: string, w: string)
    requires ps != [] && qs != [] && Closes(z) && Closes(w) && FollowingParts(ps, z) == FollowingParts(qs, w)
    ensures |ps| == 1 <==> |qs| == 1
    ensures |ps| == 1 ==> z == w
    ensures |ps| > 1 ==> Join(ps[1..]) + z == Join(qs[1..]) + w
  {
    hide Join;
    assert FollowingParts(ps, z)[0] == FollowingParts(qs, w)[0];
    if |ps| > 1 && |qs| > 1 { SameRest(", ", Join(ps[1..]) + z, Join(qs[1..]) + w); }
  }

  lemma {:induction false} JoinUnambiguous<T(!new)>(render: T -> string, xs: seq<T>, ys: seq<T>, z: string, w: string)
    requires Separable(render, xs, ys) && Closes(z) && Closes(w)
    requires Join(Map(render, xs)) + z == Join(Map(render, ys)) + w
    ensures xs == ys && z == w
  {
    var ps, qs := Map(render, xs), Map(render, ys);
    PartsFirst(ps, z);
    PartsFirst(qs, w);
    if xs == [] {
      assert "" + z == z && "" + w == w;
    } else {
      FirstPart(ps, z);
      FirstPart(qs, w);
      var u, v := FollowingParts(ps, z), FollowingParts(qs, w);
      assert Stops(u) && Stops(v) && Separates(render, xs[0], ys[0]);
      assert render(xs[0]) + u == render(ys[0]) + v;
      assert ps[1..] == Map(render, xs[1..]) && qs[1..] == Map(render, ys[1..]);
      FollowingPartsAgree(ps, qs, z, w);
      if |xs| > 1 {
        SeparableRest(render, xs, ys);
        hide Separable, FollowingParts, Join, Map;
        JoinUnambiguous(render, xs[1..], ys[1..], z, w);
      }
      assert xs == [xs[0]] + xs[1..] && ys == [ys[0]] + ys[1..];
    }
  }

  lemma SeparableRest<T(!new)>(render: T -> string, xs: seq<T>, ys: seq<T>)
    requires xs != [] && ys != [] && Separable(render, xs, ys)
    ensures Separable(render, xs[1..], ys[1..])
  {
  }
}
