/** Equal rendered signatures mean equal declarations. */
module Signatures {
  import opened Spec
  import opened Render
  import opened Texts
  import Decimal

  ghost predicate AllReadable(ts: seq<TypeDef>) { forall i :: 0 <= i < |ts| ==> Readable(ts[i]) }

  predicate ReadableField(f: Field) { Identifier(f.name) && Readable(f.ty) }
  ghost predicate ReadableCase(c: UnionCase) { Identifier(c.name) && AllReadable(c.tys) }
  predicate ReadableParam(p: EventParam) { Identifier(p.name) && Readable(p.ty) }

  // ---- each kind of token can be read back ----

  lemma NamedToken(x: string, sep: string, r: string, s: string)
    ensures x + sep + r + s == x + (sep + (r + s))
  {
  }

  lemma FieldSeparates(a: Field, b: Field)
    requires ReadableField(a) && ReadableField(b)
    ensures Separates(FieldToken, a, b) && StartsWithWord(FieldToken(a))
  {
    hide TypeName, Readable;
    assert FieldToken(a)[0] == a.name[0];
    forall s, t | Stops(s) && Stops(t) && FieldToken(a) + s == FieldToken(b) + t ensures a == b && s == t {
      var x, y := TypeName(a.ty), TypeName(b.ty);
      NamedToken(a.name, ": ", x, s);
      NamedToken(b.name, ": ", y, t);
      WordSplit(a.name, ": " + (x + s), b.name, ": " + (y + t));
      SameRest(": ", x + s, y + t);
      TypeNameUnambiguous(a.ty, b.ty, s, t);
    }
  }

  lemma ValueSeparates(a: EnumCase, b: EnumCase)
    requires Identifier(a.name) && Identifier(b.name)
    ensures Separates(ValueToken, a, b) && StartsWithWord(ValueToken(a))
  {
    hide Decimal.NatText;
    assert ValueToken(a)[0] == a.name[0];
    forall s, t | Stops(s) && Stops(t) && ValueToken(a) + s == ValueToken(b) + t ensures a == b && s == t {
      var x, y := Decimal.NatText(a.value), Decimal.NatText(b.value);
      NamedToken(a.name, " = ", x, s);
      NamedToken(b.name, " = ", y, t);
      WordSplit(a.name, " = " + (x + s), b.name, " = " + (y + t));
      SameRest(" = ", x + s, y + t);
      NumberUnambiguous(a.value, b.value, s, t);
    }
  }

  function CaseRest(c: UnionCase, s: string): string {
    if c.tys == [] then s else "(" + (TypeNames(c.tys) + (")" + s))
  }

  lemma CaseOpens(c: UnionCase, s: string)
    ensures CaseToken(c) + s == c.name + CaseRest(c, s)
  {
    hide TypeNames;
    if c.tys != [] {
      var x := TypeNames(c.tys);
      assert c.name + "(" + x + ")" + s == c.name + ("(" + (x + (")" + s)));
    }
  }

  lemma CaseSeparates(a: UnionCase, b: UnionCase)
    requires ReadableCase(a) && ReadableCase(b)
    ensures Separates(CaseToken, a, b) && StartsWithWord(CaseToken(a))
  {
    hide TypeNames, Readable;
    CaseOpens(a, "");
    assert CaseToken(a) + "" == CaseToken(a);
    assert CaseToken(a)[0] == a.name[0];
    forall s, t | Stops(s) && Stops(t) && CaseToken(a) + s == CaseToken(b) + t ensures a == b && s == t {
      CaseOpens(a, s);
      CaseOpens(b, t);
      WordSplit(a.name, CaseRest(a, s), b.name, CaseRest(b, t));
      assert Stops(CaseRest(a, s)) <==> a.tys == [];
      assert Stops(CaseRest(b, t)) <==> b.tys == [];
      if a.tys != [] {
        var x, y := TypeNames(a.tys), TypeNames(b.tys);
        SameRest("(", x + (")" + s), y + (")" + t));
        TypeNamesUnambiguous(a.tys, b.tys, ")" + s, ")" + t);
        SameRest(")", s, t);
      }
    }
  }

  function Place(p: EventParam): string { if p.inTopics then "topic" else "data" }

  lemma ParamOpens(p: EventParam, s: string)
    ensures ParamToken(p) + s == p.name + (": " + (TypeName(p.ty) + (" @" + (Place(p) + s))))
  {
    hide TypeName;
    var x := TypeName(p.ty);
    NamedToken(p.name, ": ", x, " @" + (Place(p) + s));
    assert p.name + ": " + x + " @" + Place(p) + s == p.name + ": " + x + (" @" + (Place(p) + s));
  }

  lemma ParamSeparates(a: EventParam, b: EventParam)
    requires ReadableParam(a) && ReadableParam(b)
    ensures Separates(ParamToken, a, b) && StartsWithWord(ParamToken(a))
  {
    hide TypeName, Readable;
    assert ParamToken(a)[0] == a.name[0];
    forall s, t | Stops(s) && Stops(t) && ParamToken(a) + s == ParamToken(b) + t ensures a == b && s == t {
      ParamOpens(a, s);
      ParamOpens(b, t);
      var u, v := " @" + (Place(a) + s), " @" + (Place(b) + t);
      WordSplit(a.name, ": " + (TypeName(a.ty) + u), b.name, ": " + (TypeName(b.ty) + v));
      SameRest(": ", TypeName(a.ty) + u, TypeName(b.ty) + v);
      TypeNameUnambiguous(a.ty, b.ty, u, v);
      SameRest(" @", Place(a) + s, Place(b) + t);
      assert (Place(a) + s)[0] == Place(a)[0] && (Place(b) + t)[0] == Place(b)[0];
      SameRest(Place(a), s, t);
    }
  }

  // ---- lists of tokens ----

  lemma FieldsSeparable(xs: seq<Field>, ys: seq<Field>)
    requires (forall i :: 0 <= i < |xs| ==> ReadableField(xs[i]))
             && (forall i :: 0 <= i < |ys| ==> ReadableField(ys[i]))
    ensures Separable(FieldToken, xs, ys)
  {
    hide ReadableField, Separates, FieldToken;
    forall i, j | 0 <= i < |xs| && 0 <= j < |ys| ensures Separates(FieldToken, xs[i], ys[j]) {
      FieldSeparates(xs[i], ys[j]);
    }
    forall i | 0 <= i < |xs| ensures StartsWithWord(FieldToken(xs[i])) { FieldSeparates(xs[i], xs[i]); }
    forall i | 0 <= i < |ys| ensures StartsWithWord(FieldToken(ys[i])) { FieldSeparates(ys[i], ys[i]); }
  }

  lemma CasesSeparable(xs: seq<UnionCase>, ys: seq<UnionCase>)
    requires (forall i :: 0 <= i < |xs| ==> ReadableCase(xs[i])) && (forall i :: 0 <= i < |ys| ==> ReadableCase(ys[i]))
    ensures Separable(CaseToken, xs, ys)
  {
    hide ReadableCase, Separates, CaseToken;
    forall i, j | 0 <= i < |xs| && 0 <= j < |ys| ensures Separates(CaseToken, xs[i], ys[j]) {
      CaseSeparates(xs[i], ys[j]);
    }
    forall i | 0 <= i < |xs| ensures StartsWithWord(CaseToken(xs[i])) { CaseSeparates(xs[i], xs[i]); }
    forall i | 0 <= i < |ys| ensures StartsWithWord(CaseToken(ys[i])) { CaseSeparates(ys[i], ys[i]); }
  }

  lemma ValuesSeparable(xs: seq<EnumCase>, ys: seq<EnumCase>)
    requires (forall i :: 0 <= i < |xs| ==> Identifier(xs[i].name))
             && (forall i :: 0 <= i < |ys| ==> Identifier(ys[i].name))
    ensures Separable(ValueToken, xs, ys)
  {
    hide Identifier, Separates, ValueToken;
    forall i, j | 0 <= i < |xs| && 0 <= j < |ys| ensures Separates(ValueToken, xs[i], ys[j]) {
      ValueSeparates(xs[i], ys[j]);
    }
    forall i | 0 <= i < |xs| ensures StartsWithWord(ValueToken(xs[i])) { ValueSeparates(xs[i], xs[i]); }
    forall i | 0 <= i < |ys| ensures StartsWithWord(ValueToken(ys[i])) { ValueSeparates(ys[i], ys[i]); }
  }

  lemma ParamsSeparable(xs: seq<EventParam>, ys: seq<EventParam>)
    requires (forall i :: 0 <= i < |xs| ==> ReadableParam(xs[i]))
             && (forall i :: 0 <= i < |ys| ==> ReadableParam(ys[i]))
    ensures Separable(ParamToken, xs, ys)
  {
    hide ReadableParam, Separates, ParamToken;
    forall i, j | 0 <= i < |xs| && 0 <= j < |ys| ensures Separates(ParamToken, xs[i], ys[j]) {
      ParamSeparates(xs[i], ys[j]);
    }
    forall i | 0 <= i < |xs| ensures StartsWithWord(ParamToken(xs[i])) { ParamSeparates(xs[i], xs[i]); }
    forall i | 0 <= i < |ys| ensures StartsWithWord(ParamToken(ys[i])) { ParamSeparates(ys[i], ys[i]); }
  }

  // ---- signatures ----

  ghost predicate ReadableFunction(f: FunctionSpec) {
    && (forall i :: 0 <= i < |f.inputs| ==> ReadableField(f.inputs[i]))
    && |f.outputs| <= 1 && AllReadable(f.outputs)
  }

  /** The same outputs, except that no output and a `void` output read alike. */
  ghost predicate SameOutputs(a: seq<TypeDef>, b: seq<TypeDef>) {
    a == b || (a == [] && b == [TVoid]) || (a == [TVoid] && b == [])
  }

  lemma OutputsUnambiguous(a: seq<TypeDef>, b: seq<TypeDef>)
    requires |a| <= 1 && |b| <= 1 && AllReadable(a) && AllReadable(b)
    ensures OutputText(a) == OutputText(b) <==> SameOutputs(a, b)
  {
    if OutputText(a) == OutputText(b) {
      var x := if a == [] then TVoid else a[0];
      var y := if b == [] then TVoid else b[0];
      assert TypeName(TVoid) == "void";
      assert TypeName(x) + "" == TypeName(y) + "";
      TypeNameUnambiguous(x, y, "", "");
    }
  }

  /** Two functions of one name render alike exactly when they declare the same parameters and outputs. */
  lemma FunctionSigUnambiguous(f: FunctionSpec, g: FunctionSpec)
    requires ReadableFunction(f) && ReadableFunction(g) && f.name == g.name
    ensures FunctionSig(f) == FunctionSig(g) <==> f.inputs == g.inputs && SameOutputs(f.outputs, g.outputs)
  {
    hide OutputText, Join, Map, ReadableField, AllReadable;
    OutputsUnambiguous(f.outputs, g.outputs);
    if FunctionSig(f) == FunctionSig(g) {
      var x, y := Join(Map(FieldToken, f.inputs)), Join(Map(FieldToken, g.inputs));
      var z, w := ") -> " + OutputText(f.outputs), ") -> " + OutputText(g.outputs);
      FunctionOpens(f.name, x, OutputText(f.outputs));
      FunctionOpens(g.name, y, OutputText(g.outputs));
      SameRest(f.name, "(" + (x + z), "(" + (y + w));
      SameRest("(", x + z, y + w);
      FieldsSeparable(f.inputs, g.inputs);
      JoinUnambiguous(FieldToken, f.inputs, g.inputs, z, w);
      SameRest(") -> ", OutputText(f.outputs), OutputText(g.outputs));
    }
  }

  lemma FunctionOpens(name: string, x: string, o: string)
    ensures name + "(" + x + ") -> " + o == name + ("(" + (x + (") -> " + o)))
  {
  }

  ghost predicate ReadableEvent(e: EventSpec) { forall i :: 0 <= i < |e.params| ==> ReadableParam(e.params[i]) }

  lemma EventOpens(name: string, x: string, f: string)
    ensures name + "(" + x + ") [" + f + "]" == name + ("(" + (x + (") [" + (f + "]"))))
  {
  }

  lemma FormatUnambiguous(f: DataFormat, g: DataFormat)
    requires FormatText(f) + "]" == FormatText(g) + "]"
    ensures f == g
  {
    assert (FormatText(f) + "]")[0] == FormatText(f)[0] && (FormatText(g) + "]")[0] == FormatText(g)[0];
  }

  /** Event signatures fix the parameters and the body format, but not the prefix topics. */
  lemma EventSigUnambiguous(d: EventSpec, e: EventSpec)
    requires ReadableEvent(d) && ReadableEvent(e) && d.name == e.name
    ensures EventSig(d) == EventSig(e) <==> d.params == e.params && d.format == e.format
  {
    hide Join, Map, ReadableParam, FormatText;
    if EventSig(d) == EventSig(e) {
      var x, y := Join(Map(ParamToken, d.params)), Join(Map(ParamToken, e.params));
      var u, v := FormatText(d.format) + "]", FormatText(e.format) + "]";
      EventOpens(d.name, x, FormatText(d.format));
      EventOpens(e.name, y, FormatText(e.format));
      SameRest(d.name, "(" + (x + (") [" + u)), "(" + (y + (") [" + v)));
      SameRest("(", x + (") [" + u), y + (") [" + v));
      ParamsSeparable(d.params, e.params);
      JoinUnambiguous(ParamToken, d.params, e.params, ") [" + u, ") [" + v);
      SameRest(") [", u, v);
      FormatUnambiguous(d.format, e.format);
    }
  }

  ghost predicate ReadableStruct(s: UdtStruct) { forall i :: 0 <= i < |s.fields| ==> ReadableField(s.fields[i]) }
  ghost predicate ReadableUnion(u: UdtUnion) { forall i :: 0 <= i < |u.cases| ==> ReadableCase(u.cases[i]) }
  ghost predicate ReadableEnum(e: UdtEnum) { forall i :: 0 <= i < |e.cases| ==> Identifier(e.cases[i].name) }

  /** A type signature: its kind, its name, and its members between braces. */
  function Braced(kind: string, name: string, body: string): string { kind + name + " { " + body + " }" }

  lemma BracedOpens(kind: string, name: string, body: string)
    ensures Braced(kind, name, body) == (kind + name + " { ") + (body + " }")
  {
  }

  lemma BracedBodies(kind: string, name: string, x: string, y: string)
    requires Braced(kind, name, x) == Braced(kind, name, y)
    ensures x + " }" == y + " }"
  {
    hide Braced;
    BracedOpens(kind, name, x);
    BracedOpens(kind, name, y);
    SameRest(kind + name + " { ", x + " }", y + " }");
  }

  lemma StructSigUnambiguous(a: UdtStruct, b: UdtStruct)
    requires ReadableStruct(a) && ReadableStruct(b) && a.name == b.name
    ensures StructSig(a) == StructSig(b) <==> a == b
  {
    if StructSig(a) == StructSig(b) {
      BracedBodies("struct ", a.name, Join(Map(FieldToken, a.fields)), Join(Map(FieldToken, b.fields)));
      FieldsSeparable(a.fields, b.fields);
      JoinUnambiguous(FieldToken, a.fields, b.fields, " }", " }");
    }
  }

  lemma UnionSigUnambiguous(a: UdtUnion, b: UdtUnion)
    requires ReadableUnion(a) && ReadableUnion(b) && a.name == b.name
    ensures UnionSig(a) == UnionSig(b) <==> a == b
  {
    if UnionSig(a) == UnionSig(b) {
      BracedBodies("union ", a.name, Join(Map(CaseToken, a.cases)), Join(Map(CaseToken, b.cases)));
      CasesSeparable(a.cases, b.cases);
      JoinUnambiguous(CaseToken, a.cases, b.cases, " }", " }");
    }
  }

  lemma EnumSigUnambiguous(a: UdtEnum, b: UdtEnum)
    requires ReadableEnum(a) && ReadableEnum(b) && a.name == b.name
    ensures EnumSig(a) == EnumSig(b) <==> a == b
  {
    if EnumSig(a) == EnumSig(b) {
      BracedBodies("enum ", a.name, Join(Map(ValueToken, a.cases)), Join(Map(ValueToken, b.cases)));
      ValuesSeparable(a.cases, b.cases);
      JoinUnambiguous(ValueToken, a.cases, b.cases, " }", " }");
    }
  }

  /** The kind of a type shows in the first letters of its signature. */
  lemma KindsDiffer(s: UdtStruct, u: UdtUnion, e: UdtEnum, r: UdtEnum)
    ensures StructSig(s) != UnionSig(u) && StructSig(s) != EnumSig(e) && StructSig(s) != ErrorSig(r)
    ensures UnionSig(u) != EnumSig(e) && UnionSig(u) != ErrorSig(r) && EnumSig(e) != ErrorSig(r)
  {
    hide Join, Map;
    KindLetters("struct ", s.name, Join(Map(FieldToken, s.fields)));
    KindLetters("union ", u.name, Join(Map(CaseToken, u.cases)));
    KindLetters("enum ", e.name, Join(Map(ValueToken, e.cases)));
    KindLetters("error enum ", r.name, Join(Map(ValueToken, r.cases)));
  }

  lemma KindLetters(kind: string, name: string, body: string)
    requires |kind| >= 2
    ensures |Braced(kind, name, body)| >= 2
    ensures Braced(kind, name, body)[0] == kind[0] && Braced(kind, name, body)[1] == kind[1]
  {
  }
}
