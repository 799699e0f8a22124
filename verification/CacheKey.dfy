/** The cache key of a call's arguments: one text for all orders of object members, and no text for two values. */
module CacheKey {
  import opened Basics
  import opened Json
  import opened Canonical
  import Decimal
  import Hex
  import opened TextOrder
  import opened Texts
  import Sorting

  // ---- the text of a leaf, as `serde_json::to_string` writes it ----

  function EscapeChar(c: char): (s: string)
    ensures s != [] && s[0] != '"'
  {
    if c == '"' then "\\\""
    else if c == '\\' then "\\\\"
    else if c as int == 8 then "\\b"
    else if c as int == 9 then "\\t"
    else if c as int == 10 then "\\n"
    else if c as int == 12 then "\\f"
    else if c as int == 13 then "\\r"
    else if c as int < 32 then "\\u00" + [Hex.NibbleChar(c as int / 16), Hex.NibbleChar(c as int % 16)]
    else [c]
  }

  function Escape(s: string): string {
    if s == [] then [] else EscapeChar(s[0]) + Escape(s[1..])
  }

  function Leaf(v: Json): string {
    match v
    case Null => "null"
    case Bool(flag) => if flag then "true" else "false"
    case Int(n) => Decimal.IntText(n)
    case Float(digits) => digits
    case Str(text) => "\"" + Escape(text) + "\""
    case _ => ""
  }

  // ---- the key ----

  /** `join(",")`. */
  function Joined(parts: seq<string>): string { if parts == [] then "" else parts[0] + More(parts[1..]) }

  function More(parts: seq<string>): string { if parts == [] then "" else "," + parts[0] + More(parts[1..]) }

  function Pair(key: string, value: string): string { "\"" + key + "\":" + value }

  lemma {:induction false} MemberWeighs(ms: seq<Member>, m: Member)
    requires m in ms
    ensures Size(m.value) < SizeMembers(ms)
  {
    if m != ms[0] { MemberWeighs(ms[1..], m); }
  }

  /** `normalize_json`: objects are sorted by key on the way down, and keys go in as they are, unescaped. */
  function Normalize(v: Json): string
    decreases Size(v), 1, 0
  {
    match v
    case Object(members) =>
      var sorted := Sorting.Sort(MemberBefore, members);
      assert forall m | m in sorted :: Size(m.value) < Size(v) by {
        forall m | m in sorted ensures Size(m.value) < Size(v) {
          assert m in multiset(sorted);
          MemberWeighs(members, m);
        }
      }
      "{" + Joined(NormalizePairs(sorted, Size(v))) + "}"
    case Array(items) => "[" + Joined(NormalizeAll(items)) + "]"
    case _ => Leaf(v)
  }

  function NormalizePairs(ms: seq<Member>, ghost bound: nat): (r: seq<string>)
    requires forall m | m in ms :: Size(m.value) < bound
    ensures |r| == |ms|
    decreases bound, 0, |ms|
  {
    if ms == [] then [] else [Pair(ms[0].key, Normalize(ms[0].value))] + NormalizePairs(ms[1..], bound)
  }

  function NormalizeAll(vs: seq<Json>): (r: seq<string>)
    ensures |r| == |vs|
    decreases SizeAll(vs), 0, 0
  {
    if vs == [] then [] else [Normalize(vs[0])] + NormalizeAll(vs[1..])
  }

  // ---- writing a value without sorting ----

  function Text(v: Json): string
    decreases v
  {
    match v
    case Object(members) => "{" + Joined(TextPairs(members)) + "}"
    case Array(items) => "[" + Joined(TextAll(items)) + "]"
    case _ => Leaf(v)
  }

  function TextPair(m: Member): string
    decreases m
  {
    Pair(m.key, Text(m.value))
  }

  function TextPairs(ms: seq<Member>): (r: seq<string>)
    ensures |r| == |ms|
    decreases ms
  {
    if ms == [] then [] else [TextPair(ms[0])] + TextPairs(ms[1..])
  }

  function TextAll(vs: seq<Json>): (r: seq<string>)
    ensures |r| == |vs|
    decreases vs
  {
    if vs == [] then [] else [Text(vs[0])] + TextAll(vs[1..])
  }

  // ---- normalizing is writing the canonical form ----

  lemma {:induction false} InsertCanon(m: Member, ms: seq<Member>)
    ensures Sorting.Insert(MemberBefore, CanonMember(m), CanonMembers(ms))
            == CanonMembers(Sorting.Insert(MemberBefore, m, ms))
  {
    var n := CanonMember(m);
    if ms != [] && MemberBefore(ms[0], m) {
      InsertCanon(m, ms[1..]);
      CanonCons(ms[0], Sorting.Insert(MemberBefore, m, ms[1..]));
      assert CanonMembers(ms)[1..] == CanonMembers(ms[1..]);
    } else {
      CanonCons(m, ms);
    }
  }

  lemma CanonCons(m: Member, ms: seq<Member>)
    ensures CanonMembers([m] + ms) == [CanonMember(m)] + CanonMembers(ms)
  {
    assert ([m] + ms)[1..] == ms;
  }

  lemma {:induction false} SortCanon(ms: seq<Member>)
    ensures Sorting.Sort(MemberBefore, CanonMembers(ms)) == CanonMembers(Sorting.Sort(MemberBefore, ms))
  {
    if ms != [] {
      SortCanon(ms[1..]);
      InsertCanon(ms[0], Sorting.Sort(MemberBefore, ms[1..]));
      assert CanonMembers(ms)[1..] == CanonMembers(ms[1..]);
    }
  }

  /** The key is the text of the canonical form. */
  lemma {:induction false} NormalizeIsCanonText(v: Json)
    ensures Normalize(v) == Text(Canon(v))
    decreases Size(v), 1, 0
  {
    match v
    case Object(members) => ObjectIsCanonText(v);
    case Array(items) => AllAreCanonText(items);
    case _ =>
  }

  lemma ObjectIsCanonText(v: Json)
    requires v.Object?
    ensures Normalize(v) == Text(Canon(v))
    decreases Size(v), 0, |v.members| + 1
  {
    var sorted := Sorting.Sort(MemberBefore, v.members);
    SortedWeigh(v);
    SortCanon(v.members);
    PairsAreCanonText(sorted, Size(v));
    hide Sorting.Sort, CanonMembers, TextPairs, NormalizePairs, Joined, Size;
  }

  lemma SortedWeigh(v: Json)
    requires v.Object?
    ensures forall m | m in Sorting.Sort(MemberBefore, v.members) :: Size(m.value) < Size(v)
    ensures |Sorting.Sort(MemberBefore, v.members)| == |v.members|
  {
    var sorted := Sorting.Sort(MemberBefore, v.members);
    Sorting.SortLength(MemberBefore, v.members);
    forall m | m in sorted ensures Size(m.value) < Size(v) {
      assert m in multiset(sorted);
      MemberWeighs(v.members, m);
    }
  }

  lemma {:induction false} PairsAreCanonText(ms: seq<Member>, bound: nat)
    requires forall m | m in ms :: Size(m.value) < bound
    ensures NormalizePairs(ms, bound) == TextPairs(CanonMembers(ms))
    decreases bound, 0, |ms|
  {
    if ms != [] {
      NormalizeIsCanonText(ms[0].value);
      PairsAreCanonText(ms[1..], bound);
    }
  }

  lemma {:induction false} AllAreCanonText(vs: seq<Json>)
    ensures NormalizeAll(vs) == TextAll(CanonAll(vs))
    decreases SizeAll(vs), 0, 0
  {
    if vs != [] {
      NormalizeIsCanonText(vs[0]);
      AllAreCanonText(vs[1..]);
    }
  }

  // ---- reading a text back ----

  /** No key holds the mark `":` that ends a key in the text. A key with no double quote never does. */
  predicate Unmarked(key: string) { forall i :: 0 <= i < |key| - 1 ==> !(key[i] == '"' && key[i + 1] == ':') }

  predicate NumberChar(c: char) { Decimal.IsDigit(c) || c == '+' || c == '-' || Fractional(c) }

  predicate Fractional(c: char) { c == '.' || c == 'e' }

  /** A non-integral number as serde_json prints it: it has a fraction or an exponent. */
  predicate FloatText(s: string) {
    && s != [] && (forall i :: 0 <= i < |s| ==> NumberChar(s[i]))
    && (s[0] == '-' || Decimal.IsDigit(s[0]))
    && exists i :: 0 <= i < |s| && Fractional(s[i])
  }

  ghost predicate Plain(v: Json)
    decreases v
  {
    match v
    case Float(digits) => FloatText(digits)
    case Array(items) => forall i :: 0 <= i < |items| ==> Plain(items[i])
    case Object(members) => forall i :: 0 <= i < |members| ==> PlainMember(members[i])
    case _ => true
  }

  ghost predicate PlainMember(m: Member)
    decreases m
  {
    Unmarked(m.key) && Plain(m.value)
  }

  predicate Delimited(s: string) { s == [] || s[0] == ',' || s[0] == ']' || s[0] == '}' }

  /** Dropping a shared first character. */
  lemma StripHead(c: char, x: string, s: string, d: char, y: string, t: string)
    requires ([c] + x) + s == ([d] + y) + t
    ensures c == d && x + s == y + t
  {
    assert ([c] + x) + s == [c] + (x + s) && ([d] + y) + t == [d] + (y + t);
    assert ([c] + (x + s))[1..] == x + s && ([d] + (y + t))[1..] == y + t;
    assert ([c] + (x + s))[0] == ([d] + (y + t))[0];
  }

  lemma {:induction false} NumbersSeparate(x: string, s: string, y: string, t: string)
    requires forall i :: 0 <= i < |x| ==> NumberChar(x[i])
    requires forall i :: 0 <= i < |y| ==> NumberChar(y[i])
    requires Delimited(s) && Delimited(t) && x + s == y + t
    ensures x == y && s == t
  {
    if x == [] && y == [] {
      assert "" + s == s && "" + t == t;
    } else if x == [] || y == [] {
      NumberNotEnded(x, s, y, t);
    } else {
      assert x == [x[0]] + x[1..] && y == [y[0]] + y[1..];
      StripHead(x[0], x[1..], s, y[0], y[1..], t);
      NumbersSeparate(x[1..], s, y[1..], t);
    }
  }

  lemma NumberNotEnded(x: string, s: string, y: string, t: string)
    requires forall i :: 0 <= i < |x| ==> NumberChar(x[i])
    requires forall i :: 0 <= i < |y| ==> NumberChar(y[i])
    requires Delimited(s) && Delimited(t) && (x == []) != (y == [])
    ensures x + s != y + t
  {
    var a, b := x + s, y + t;
    assert x == [] ==> a == s;
    assert y == [] ==> b == t;
    assert x != [] ==> a[0] == x[0];
    assert y != [] ==> b[0] == y[0];
  }

  lemma EscapesSeparate(c: char, s: string, d: char, t: string)
    requires EscapeChar(c) + s == EscapeChar(d) + t
    ensures c == d && s == t
  {
    var x, y := EscapeChar(c), EscapeChar(d);
    assert (x + s)[0] == x[0] && (y + t)[0] == y[0];
    if |x| > 1 {
      assert (x + s)[1] == x[1] && (y + t)[1] == y[1];
      if |x| > 2 {
        assert (x + s)[4] == x[4] && (y + t)[4] == y[4];
        assert (x + s)[5] == x[5] && (y + t)[5] == y[5];
        assert Hex.NibbleOf(x[4]) == Some(c as int / 16) && Hex.NibbleOf(x[5]) == Some(c as int % 16);
        assert Hex.NibbleOf(y[4]) == Some(d as int / 16) && Hex.NibbleOf(y[5]) == Some(d as int % 16);
      }
    }
    SameRest(x, s, t);
  }

  lemma {:induction false} StringsSeparate(x: string, s: string, y: string, t: string)
    requires Escape(x) + ("\"" + s) == Escape(y) + ("\"" + t)
    ensures x == y && s == t
  {
    hide EscapeChar;
    if x == [] && y == [] {
      assert Escape(x) + ("\"" + s) == "\"" + s && Escape(y) + ("\"" + t) == "\"" + t;
      SameRest("\"", s, t);
    } else if x == [] || y == [] {
      StringNotClosed(x, s, y, t);
    } else {
      var u, v := Escape(x[1..]) + ("\"" + s), Escape(y[1..]) + ("\"" + t);
      assert Escape(x) + ("\"" + s) == EscapeChar(x[0]) + u;
      assert Escape(y) + ("\"" + t) == EscapeChar(y[0]) + v;
      EscapesSeparate(x[0], u, y[0], v);
      StringsSeparate(x[1..], s, y[1..], t);
      assert x == [x[0]] + x[1..] && y == [y[0]] + y[1..];
    }
  }

  /** An escaped character is never the closing quote. */
  lemma StringNotClosed(x: string, s: string, y: string, t: string)
    requires (x == []) != (y == [])
    ensures Escape(x) + ("\"" + s) != Escape(y) + ("\"" + t)
  {
    var a, b := Escape(x) + ("\"" + s), Escape(y) + ("\"" + t);
    assert x == [] ==> a[0] == '"';
    assert y == [] ==> b[0] == '"';
    assert x != [] ==> a[0] == EscapeChar(x[0])[0];
    assert y != [] ==> b[0] == EscapeChar(y[0])[0];
  }

  lemma {:induction false} KeysSeparate(k: string, s: string, l: string, t: string)
    requires Unmarked(k) && Unmarked(l)
    requires k + ("\":" + s) == l + ("\":" + t)
    ensures k == l && s == t
  {
    var a, b := k + ("\":" + s), l + ("\":" + t);
    if k == [] && l == [] {
      assert a == "\":" + s && b == "\":" + t;
      SameRest("\":", s, t);
    } else if k == [] || l == [] {
      KeyNotClosed(k, s, l, t);
    } else {
      assert a[0] == k[0] && b[0] == l[0];
      assert a[1..] == k[1..] + ("\":" + s) && b[1..] == l[1..] + ("\":" + t);
      KeysSeparate(k[1..], s, l[1..], t);
      assert k == [k[0]] + k[1..] && l == [l[0]] + l[1..];
    }
  }

  lemma KeyNotClosed(k: string, s: string, l: string, t: string)
    requires Unmarked(k) && Unmarked(l) && (k == []) != (l == [])
    ensures k + ("\":" + s) != l + ("\":" + t)
  {
    var a, b := k + ("\":" + s), l + ("\":" + t);
    assert k == [] ==> a[0] == '"' && a[1] == ':';
    assert l == [] ==> b[0] == '"' && b[1] == ':';
    assert k != [] ==> a[0] == k[0] && a[1] == if |k| > 1 then k[1] else '"';
    assert l != [] ==> b[0] == l[0] && b[1] == if |l| > 1 then l[1] else '"';
  }

  // ---- a text belongs to one value ----

  datatype Kind = KNull | KBool | KNumber | KStr | KArray | KObject

  function KindOf(v: Json): Kind {
    match v
    case Null => KNull
    case Bool(_) => KBool
    case Int(_) => KNumber
    case Float(_) => KNumber
    case Str(_) => KStr
    case Array(_) => KArray
    case Object(_) => KObject
  }

  predicate Starts(k: Kind, c: char) {
    match k
    case KNull => c == 'n'
    case KBool => c == 't' || c == 'f'
    case KNumber => c == '-' || Decimal.IsDigit(c)
    case KStr => c == '"'
    case KArray => c == '['
    case KObject => c == '{'
  }

  lemma {:induction false} TextStart(v: Json)
    requires Plain(v)
    ensures Text(v) != [] && Starts(KindOf(v), Text(v)[0])
  {
    if v.Int? && v.n >= 0 { assert Decimal.AllDigits(Decimal.NatText(v.n)); }
  }

  lemma {:induction false} IntTextNumber(n: int)
    ensures forall i :: 0 <= i < |Decimal.IntText(n)| ==>
            NumberChar(Decimal.IntText(n)[i]) && !Fractional(Decimal.IntText(n)[i])
  {
    var digits := Decimal.NatText(if n < 0 then -n else n);
    assert Decimal.AllDigits(digits);
  }

  lemma LeavesSeparate(a: Json, s: string, b: Json, t: string)
    requires Plain(a) && Plain(b) && KindOf(a) == KindOf(b) && !a.Array? && !a.Object?
    requires Delimited(s) && Delimited(t) && Leaf(a) + s == Leaf(b) + t
    ensures a == b && s == t
  {
    match a
    case Null => SameRest("null", s, t);
    case Bool(x) =>
      assert (Leaf(a) + s)[0] == Leaf(a)[0] && (Leaf(b) + t)[0] == Leaf(b)[0];
      SameRest(Leaf(a), s, t);
    case Str(x) =>
      StringText(x, s);
      StringText(b.text, t);
      SameRest("\"", Escape(x) + ("\"" + s), Escape(b.text) + ("\"" + t));
      StringsSeparate(x, s, b.text, t);
    case _ => NumbersDiffer(a, s, b, t);
  }

  lemma StringText(x: string, s: string)
    ensures Leaf(Str(x)) + s == "\"" + (Escape(x) + ("\"" + s))
  {
  }

  lemma NumbersDiffer(a: Json, s: string, b: Json, t: string)
    requires Plain(a) && Plain(b) && KindOf(a) == KindOf(b) == KNumber
    requires Delimited(s) && Delimited(t) && Leaf(a) + s == Leaf(b) + t
    ensures a == b && s == t
  {
    if a.Int? { IntTextNumber(a.n); }
    if b.Int? { IntTextNumber(b.n); }
    NumbersSeparate(Leaf(a), s, Leaf(b), t);
    if a.Int? && b.Int? { Decimal.IntTextInjective(a.n, b.n); }
  }

  /** What follows the elements of a bracketed list: `closed` is its bracket and everything after. */
  ghost predicate Closes(closed: string) { closed != [] && (closed[0] == ']' || closed[0] == '}') }

  lemma {:induction false} TextUnambiguous(a: Json, s: string, b: Json, t: string)
    requires Plain(a) && Plain(b) && Delimited(s) && Delimited(t)
    requires Text(a) + s == Text(b) + t
    ensures a == b && s == t
    decreases Size(a), 1
  {
    hide Leaf, Plain;
    TextStart(a);
    TextStart(b);
    assert (Text(a) + s)[0] == Text(a)[0] && (Text(b) + t)[0] == Text(b)[0];
    assert KindOf(a) == KindOf(b);
    match a
    case Array(xs) =>
      Bracketed("[", Joined(TextAll(xs)), "]", s);
      Bracketed("[", Joined(TextAll(b.items)), "]", t);
      SameRest("[", Joined(TextAll(xs)) + ("]" + s), Joined(TextAll(b.items)) + ("]" + t));
      PlainItems(a);
      PlainItems(b);
      ItemsUnambiguous(xs, "]" + s, b.items, "]" + t);
      SameRest("]", s, t);
    case Object(ms) =>
      Bracketed("{", Joined(TextPairs(ms)), "}", s);
      Bracketed("{", Joined(TextPairs(b.members)), "}", t);
      SameRest("{", Joined(TextPairs(ms)) + ("}" + s), Joined(TextPairs(b.members)) + ("}" + t));
      PlainItems(a);
      PlainItems(b);
      MembersUnambiguous(ms, "}" + s, b.members, "}" + t);
      SameRest("}", s, t);
    case _ => LeavesSeparate(a, s, b, t);
  }

  lemma Bracketed(open: string, inside: string, close: string, s: string)
    ensures (open + inside + close) + s == open + (inside + (close + s))
  {
  }

  ghost predicate PlainAll(vs: seq<Json>) { forall i :: 0 <= i < |vs| ==> Plain(vs[i]) }

  ghost predicate PlainMembers(ms: seq<Member>) { forall i :: 0 <= i < |ms| ==> PlainMember(ms[i]) }

  lemma PlainItems(v: Json)
    requires Plain(v)
    ensures v.Array? ==> PlainAll(v.items)
    ensures v.Object? ==> PlainMembers(v.members)
  {
  }

  /** The text after a list's first element: a comma and the rest, or the closing bracket. */
  lemma AfterFirst(parts: seq<string>, closed: string)
    requires parts != [] && Closes(closed)
    ensures Joined(parts) + closed == parts[0] + (More(parts[1..]) + closed)
    ensures Delimited(More(parts[1..]) + closed)
    ensures parts[1..] == [] ==> More(parts[1..]) + closed == closed
    ensures parts[1..] != [] ==> More(parts[1..]) + closed == "," + (Joined(parts[1..]) + closed)
  {
    var rest := parts[1..];
    if rest != [] { assert More(rest) == "," + rest[0] + More(rest[1..]); }
  }

  /** Both lists go on, or both stop, after equal texts. */
  lemma RestsAgree(ps: seq<string>, s: string, qs: seq<string>, t: string)
    requires ps != [] && qs != [] && Closes(s) && Closes(t)
    requires More(ps[1..]) + s == More(qs[1..]) + t
    ensures ps[1..] == [] <==> qs[1..] == []
    ensures ps[1..] == [] ==> s == t
    ensures ps[1..] != [] ==> Joined(ps[1..]) + s == Joined(qs[1..]) + t
  {
    hide Joined, More;
    AfterFirst(ps, s);
    AfterFirst(qs, t);
    var a, b := Joined(ps[1..]) + s, Joined(qs[1..]) + t;
    assert ("," + a)[0] == ',' && ("," + b)[0] == ',';
    assert ("," + a)[1..] == a && ("," + b)[1..] == b;
  }

  lemma {:induction false} ItemsUnambiguous(xs: seq<Json>, s: string, ys: seq<Json>, t: string)
    requires PlainAll(xs) && PlainAll(ys) && Closes(s) && Closes(t)
    requires Joined(TextAll(xs)) + s == Joined(TextAll(ys)) + t
    ensures xs == ys && s == t
    decreases SizeAll(xs), 0
  {
    hide Text, Plain;
    var ps, qs := TextAll(xs), TextAll(ys);
    if xs == [] && ys == [] {
      assert "" + s == s && "" + t == t;
    } else if xs == [] || ys == [] {
      OneListEnds(xs, s, ys, t);
    } else {
      AfterFirst(ps, s);
      AfterFirst(qs, t);
      TextUnambiguous(xs[0], More(ps[1..]) + s, ys[0], More(qs[1..]) + t);
      assert ps[1..] == TextAll(xs[1..]) && qs[1..] == TextAll(ys[1..]);
      RestsAgree(ps, s, qs, t);
      if xs[1..] != [] { ItemsUnambiguous(xs[1..], s, ys[1..], t); }
      assert xs == [xs[0]] + xs[1..] && ys == [ys[0]] + ys[1..];
    }
  }

  lemma OneListEnds(xs: seq<Json>, s: string, ys: seq<Json>, t: string)
    requires PlainAll(xs) && PlainAll(ys) && Closes(s) && Closes(t) && (xs == []) != (ys == [])
    ensures Joined(TextAll(xs)) + s != Joined(TextAll(ys)) + t
  {
    var a, b := Joined(TextAll(xs)) + s, Joined(TextAll(ys)) + t;
    if xs == [] {
      TextStart(ys[0]);
      assert a == s && b[0] == Text(ys[0])[0];
    } else {
      TextStart(xs[0]);
      assert b == t && a[0] == Text(xs[0])[0];
    }
  }

  lemma {:induction false} MembersUnambiguous(ms: seq<Member>, s: string, ns: seq<Member>, t: string)
    requires PlainMembers(ms) && PlainMembers(ns) && Closes(s) && Closes(t)
    requires Joined(TextPairs(ms)) + s == Joined(TextPairs(ns)) + t
    ensures ms == ns && s == t
    decreases SizeMembers(ms), 0
  {
    hide Text, Plain;
    var ps, qs := TextPairs(ms), TextPairs(ns);
    var a, b := Joined(ps) + s, Joined(qs) + t;
    if ms == [] && ns == [] {
      assert "" + s == s && "" + t == t;
    } else if ms == [] || ns == [] {
      OneObjectEnds(ms, s, ns, t);
    } else {
      AfterFirst(ps, s);
      AfterFirst(qs, t);
      PairsSeparate(ms[0], More(ps[1..]) + s, ns[0], More(qs[1..]) + t);
      TextUnambiguous(ms[0].value, More(ps[1..]) + s, ns[0].value, More(qs[1..]) + t);
      assert ps[1..] == TextPairs(ms[1..]) && qs[1..] == TextPairs(ns[1..]);
      RestsAgree(ps, s, qs, t);
      if ms[1..] != [] { MembersUnambiguous(ms[1..], s, ns[1..], t); }
      assert ms == [ms[0]] + ms[1..] && ns == [ns[0]] + ns[1..];
    }
  }

  lemma OneObjectEnds(ms: seq<Member>, s: string, ns: seq<Member>, t: string)
    requires Closes(s) && Closes(t) && (ms == []) != (ns == [])
    ensures Joined(TextPairs(ms)) + s != Joined(TextPairs(ns)) + t
  {
    hide Text;
    var a, b := Joined(TextPairs(ms)) + s, Joined(TextPairs(ns)) + t;
    if ms == [] {
      assert a == s && b[0] == TextPair(ns[0])[0] == '"';
    } else {
      assert b == t && a[0] == TextPair(ms[0])[0] == '"';
    }
  }

  lemma PairsSeparate(m: Member, s: string, n: Member, t: string)
    requires Unmarked(m.key) && Unmarked(n.key)
    requires TextPair(m) + s == TextPair(n) + t
    ensures m.key == n.key && Text(m.value) + s == Text(n.value) + t
  {
    hide Text, Unmarked;
    var x, y := Text(m.value) + s, Text(n.value) + t;
    assert TextPair(m) + s == "\"" + (m.key + ("\":" + x));
    assert TextPair(n) + t == "\"" + (n.key + ("\":" + y));
    SameRest("\"", m.key + ("\":" + x), n.key + ("\":" + y));
    KeysSeparate(m.key, x, n.key, y);
  }

  // ---- keys and values agree ----

  lemma {:induction false} PlainCanon(v: Json)
    requires Plain(v)
    ensures Plain(Canon(v))
    decreases v
  {
    hide Sorting.Sort, FloatText;
    match v
    case Array(items) =>
      CanonAllAt(items);
      forall i | 0 <= i < |items| ensures Plain(CanonAll(items)[i]) { PlainCanon(items[i]); }
    case Object(members) =>
      CanonMembersAt(members);
      var ms, sorted := CanonMembers(members), Sorting.Sort(MemberBefore, CanonMembers(members));
      forall i | 0 <= i < |ms| ensures PlainMember(ms[i]) {
        assert PlainMember(members[i]);
        PlainCanon(members[i].value);
      }
      forall i | 0 <= i < |sorted| ensures PlainMember(sorted[i]) { assert sorted[i] in multiset(ms); }
    case _ =>
  }

  /** Two arguments share a cache key exactly when they are the same value up to the order of object members. */
  lemma KeysAgree(v: Json, w: Json)
    requires Plain(v) && Plain(w) && DistinctDeep(v) && DistinctDeep(w)
    ensures Normalize(v) == Normalize(w) <==> SameJson(v, w)
  {
    hide Normalize, Text, Plain, Canon, SameJson, DistinctDeep;
    NormalizeIsCanonText(v);
    NormalizeIsCanonText(w);
    PlainCanon(v);
    PlainCanon(w);
    CanonIffSame(v, w);
    if Normalize(v) == Normalize(w) {
      assert Text(Canon(v)) + "" == Text(Canon(w)) + "";
      TextUnambiguous(Canon(v), "", Canon(w), "");
    }
  }

  /** A key that spells another key, its value's text and the start of the next key. */
  function MarkedKey(key: string, x: Json, next: string): string { key + "\":" + Normalize(x) + ",\"" + next }

  /** Keys go into the text unescaped, so every object of two members shares its text with an object of one. */
  lemma MarkedKeyCollides(key: string, x: Json, next: string, y: Json)
    requires StrBefore(key, next)
    ensures var v, w := Object([Member(key, x), Member(next, y)]), Object([Member(MarkedKey(key, x, next), y)]);
      !Unmarked(MarkedKey(key, x, next)) && !SameJson(v, w) && Normalize(v) == Normalize(w)
  {
    hide Normalize, StrBefore;
    var marked := MarkedKey(key, x, next);
    assert marked[|key|] == '"' && marked[|key| + 1] == ':';
    NormalizeOne(Member(marked, y));
    NormalizeTwo(Member(key, x), Member(next, y));
    hide MarkedKey;
    OneOrTwo(key, Normalize(x), next, Normalize(y), marked);
  }

  /** So every key, marked or not, stands in an object that shares its text with another. */
  lemma EveryKeyCollides(key: string, x: Json, y: Json) returns (w: Json)
    ensures var v := Object([Member(key, x), Member(key + "+", y)]); !SameJson(v, w) && Normalize(v) == Normalize(w)
  {
    LongerIsLater(key, "+");
    MarkedKeyCollides(key, x, key + "+", y);
    w := Object([Member(MarkedKey(key, x, key + "+"), y)]);
  }

  lemma {:induction false} LongerIsLater(a: string, b: string)
    requires b != []
    ensures StrBefore(a, a + b)
  {
    if a != [] {
      LongerIsLater(a[1..], b);
      assert (a + b)[1..] == a[1..] + b;
    }
  }

  lemma OneOrTwo(key: string, t: string, next: string, u: string, marked: string)
    requires marked == key + "\":" + t + ",\"" + next
    ensures "{" + (Pair(key, t) + ("," + Pair(next, u))) + "}" == "{" + Pair(marked, u) + "}"
  {
    assert Pair(marked, u) == Pair(key, t) + ("," + Pair(next, u));
  }

  lemma NormalizeOne(m: Member)
    ensures Normalize(Object([m])) == "{" + Pair(m.key, Normalize(m.value)) + "}"
  {
    var size := Size(Object([m]));
    assert Sorting.Sort(MemberBefore, [m]) == [m];
    MemberWeighs([m], m);
    NormalizeFirst([m], size);
    assert Joined([Pair(m.key, Normalize(m.value))]) == Pair(m.key, Normalize(m.value));
  }

  lemma NormalizeTwo(m: Member, n: Member)
    requires MemberBefore(m, n)
    ensures Normalize(Object([m, n]))
            == "{" + (Pair(m.key, Normalize(m.value)) + ("," + Pair(n.key, Normalize(n.value)))) + "}"
  {
    var size := Size(Object([m, n]));
    SortedTwo(m, n);
    MemberWeighs([m, n], m);
    MemberWeighs([m, n], n);
    NormalizeFirst([m, n], size);
    assert [m, n][1..] == [n];
    NormalizeFirst([n], size);
    hide Normalize;
    JoinedTwo(Pair(m.key, Normalize(m.value)), Pair(n.key, Normalize(n.value)));
  }

  lemma SortedTwo(m: Member, n: Member)
    requires MemberBefore(m, n)
    ensures Sorting.Sort(MemberBefore, [m, n]) == [m, n]
  {
    assert [m, n][1..] == [n] && Sorting.Sort(MemberBefore, [n]) == [n];
    StrAsymmetric(m.key, n.key);
  }

  lemma NormalizeFirst(ms: seq<Member>, bound: nat)
    requires ms != [] && forall m | m in ms :: Size(m.value) < bound
    ensures NormalizePairs(ms, bound)
            == [Pair(ms[0].key, Normalize(ms[0].value))] + NormalizePairs(ms[1..], bound)
  {
    hide Normalize;
  }

  lemma JoinedTwo(a: string, b: string)
    ensures Joined([a] + ([b] + [])) == a + ("," + b)
  {
    assert ([a] + ([b] + []))[1..] == [b] && [b][1..] == [];
    assert More([b]) == "," + b;
  }
}
