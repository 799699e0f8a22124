/** The hash indexes over a parsed interface, the scans they stand for, and the match of an event to its declaration. */
module SpecIndex {
  import opened Basics
  import opened Json
  import opened Spec
  import opened Relabeller
  import Render

  datatype UdtRef = EnumRef(i: nat) | UnionRef(i: nat) | StructRef(i: nat)

  // ---- the scans the indexes stand for ----

  /** The last event declared with exactly these prefix topics. */
  function LastPrefix(events: seq<EventSpec>, prefix: seq<string>): (r: Option<nat>)
    ensures r.Some? ==> r.value < |events| && events[r.value].prefixTopics == prefix
    ensures forall k :: (if r.Some? then r.value + 1 else 0) <= k < |events| ==> events[k].prefixTopics != prefix
  {
    if events == [] then None
    else if events[|events| - 1].prefixTopics == prefix then Some(|events| - 1)
    else LastPrefix(events[..|events| - 1], prefix)
  }

  predicate LeadsWith(e: EventSpec, topic: string) { e.prefixTopics != [] && e.prefixTopics[0] == topic }

  /** The last event whose first prefix topic is this one. */
  function LastLeading(events: seq<EventSpec>, topic: string): (r: Option<nat>)
    ensures r.Some? ==> r.value < |events| && LeadsWith(events[r.value], topic)
    ensures forall k :: (if r.Some? then r.value + 1 else 0) <= k < |events| ==> !LeadsWith(events[k], topic)
  {
    if events == [] then None
    else if LeadsWith(events[|events| - 1], topic) then Some(|events| - 1)
    else LastLeading(events[..|events| - 1], topic)
  }

  /** What a name resolves to when no prefix matches: a first topic before a declared name,
      the last declaration of the former and the first of the latter. */
  function ByName(events: seq<EventSpec>, name: string): Option<nat> {
    var declared := Position(EventName, events, name);
    if LastLeading(events, name).Some? then LastLeading(events, name)
    else if declared < |events| then Some(declared)
    else None
  }

  /** The case an error code names: the last one declared, over all error enums in order. */
  function ErrorNamed(errors: seq<UdtEnum>, code: int): (r: Option<string>)
    ensures r.Some? ==> exists i :: 0 <= i < |errors| && CaseNamed(errors[i].cases, code) == r
    ensures r.None? ==> forall i :: 0 <= i < |errors| ==> CaseNamed(errors[i].cases, code).None?
  {
    if errors == [] then None
    else
      var last := CaseNamed(errors[|errors| - 1].cases, code);
      if last.Some? then last else ErrorNamed(errors[..|errors| - 1], code)
  }

  function Lookup<K, V>(m: map<K, V>, k: K): Option<V> { if k in m then Some(m[k]) else None }

  function Found(i: nat, bound: nat): Option<nat> { if i < bound then Some(i) else None }

  // ---- filling the indexes ----

  /** `entry(name).or_insert(..)` over a list: what is there stays, and then the first declaration wins. */
  method OrInsertAll<T, R>(before: map<string, R>, nameOf: T -> string, xs: seq<T>, ref: nat -> R)
    returns (m: map<string, R>)
    ensures forall n :: (Lookup(m, n) ==
      if n in before then Some(before[n])
      else if Position(nameOf, xs, n) < |xs| then Some(ref(Position(nameOf, xs, n)))
      else None)
  {
    m := before;
    for i := 0 to |xs|
      invariant forall n :: n in m <==> n in before || Position(nameOf, xs, n) < i
      invariant forall n :: n in m ==> m[n] == if n in before then before[n] else ref(Position(nameOf, xs, n))
    {
      var name := nameOf(xs[i]);
      assert Position(nameOf, xs, name) <= i;
      if name !in m { m := m[name := ref(i)]; }
    }
  }

  function At(i: nat): nat { i }
  function EnumAt(i: nat): UdtRef { EnumRef(i) }
  function UnionAt(i: nat): UdtRef { UnionRef(i) }
  function StructAt(i: nat): UdtRef { StructRef(i) }

  method FirstByName<T>(nameOf: T -> string, xs: seq<T>) returns (m: map<string, nat>)
    ensures forall n :: Lookup(m, n) == Found(Position(nameOf, xs, n), |xs|)
  {
    m := OrInsertAll(map[], nameOf, xs, At);
  }

  lemma LastPrefixNext(events: seq<EventSpec>, i: nat, p: seq<string>)
    requires i < |events|
    ensures LastPrefix(events[..i + 1], p) == if events[i].prefixTopics == p then Some(i)
                                              else LastPrefix(events[..i], p)
  {
    assert events[..i + 1][..i] == events[..i];
  }

  lemma LastLeadingNext(events: seq<EventSpec>, i: nat, n: string)
    requires i < |events|
    ensures LastLeading(events[..i + 1], n) == if LeadsWith(events[i], n) then Some(i) else LastLeading(events[..i], n)
  {
    assert events[..i + 1][..i] == events[..i];
  }

  /** `insert(prefix, i)` for every event with prefix topics: the last declaration wins. */
  method PrefixIndex(events: seq<EventSpec>) returns (m: map<seq<string>, nat>)
    ensures forall p :: Lookup(m, p) == if p == [] then None else LastPrefix(events, p)
  {
    m := map[];
    for i := 0 to |events|
      invariant forall p :: Lookup(m, p) == if p == [] then None else LastPrefix(events[..i], p)
    {
      ghost var before := m;
      var prefix := events[i].prefixTopics;
      if prefix != [] { m := m[prefix := i]; }
      forall p ensures Lookup(m, p) == if p == [] then None else LastPrefix(events[..i + 1], p) {
        LastPrefixNext(events, i, p);
        assert Lookup(before, p) == if p == [] then None else LastPrefix(events[..i], p);
      }
    }
    assert events[..|events|] == events;
  }

  /** Declared names first, then first topics, which overwrite. */
  method NameIndex(events: seq<EventSpec>) returns (m: map<string, nat>)
    ensures forall n :: Lookup(m, n) == ByName(events, n)
  {
    var names := FirstByName(EventName, events);
    m := names;
    for i := 0 to |events|
      invariant forall n :: Lookup(m, n) == if LastLeading(events[..i], n).Some? then LastLeading(events[..i], n)
                                            else Lookup(names, n)
    {
      forall n { LastLeadingNext(events, i, n); }
      hide LastLeading;
      if events[i].prefixTopics != [] { m := m[events[i].prefixTopics[0] := i]; }
    }
    assert events[..|events|] == events;
  }

  /** Enums, then unions, then structs: the first kind to declare a name keeps it. */
  method UdtIndex(spec: ContractSpec) returns (m: map<string, UdtRef>)
    ensures forall n :: Lookup(m, n) == RefOf(spec, n)
  {
    m := OrInsertAll(map[], EnumName, spec.enums, EnumAt);
    m := OrInsertAll(m, UnionName, spec.unions, UnionAt);
    m := OrInsertAll(m, StructName, spec.structs, StructAt);
    forall n ensures Lookup(m, n) == RefOf(spec, n) {}
  }

  function RefOf(spec: ContractSpec, n: string): (r: Option<UdtRef>)
    ensures r.Some? ==> Within(spec, r.value)
  {
    var e, u, s := Position(EnumName, spec.enums, n), Position(UnionName, spec.unions, n),
      Position(StructName, spec.structs, n);
    if e < |spec.enums| then Some(EnumRef(e))
    else if u < |spec.unions| then Some(UnionRef(u))
    else if s < |spec.structs| then Some(StructRef(s))
    else None
  }

  lemma RefOfDefinition(spec: ContractSpec, n: string)
    ensures UdtOf(spec, n) == if RefOf(spec, n).Some? then Some(Resolve(spec, RefOf(spec, n).value)) else None
  {
  }

  predicate Within(spec: ContractSpec, r: UdtRef) {
    match r
    case EnumRef(i) => i < |spec.enums|
    case UnionRef(i) => i < |spec.unions|
    case StructRef(i) => i < |spec.structs|
  }

  function Resolve(spec: ContractSpec, r: UdtRef): UdtDef
    requires Within(spec, r)
  {
    match r
    case EnumRef(i) => EnumDef(spec.enums[i])
    case UnionRef(i) => UnionDef(spec.unions[i])
    case StructRef(i) => StructDef(spec.structs[i])
  }

  /** Discriminant to case name: the last case declared with a value wins. */
  method CaseIndex(cases: seq<EnumCase>) returns (m: map<int, string>)
    ensures forall v :: Lookup(m, v) == CaseNamed(cases, v)
  {
    m := map[];
    for i := 0 to |cases|
      invariant forall v :: Lookup(m, v) == CaseNamed(cases[..i], v)
    {
      assert cases[..i + 1][..i] == cases[..i];
      m := m[cases[i].value := cases[i].name];
    }
    assert cases[..|cases|] == cases;
  }

  /** One flat index over all error enums. */
  method ErrorIndex(errors: seq<UdtEnum>) returns (m: map<int, string>)
    ensures forall v :: Lookup(m, v) == ErrorNamed(errors, v)
  {
    m := map[];
    for i := 0 to |errors|
      invariant forall v :: Lookup(m, v) == ErrorNamed(errors[..i], v)
    {
      assert errors[..i + 1][..i] == errors[..i];
      ghost var before := m;
      var cases := errors[i].cases;
      for j := 0 to |cases|
        invariant forall v :: Lookup(m, v) == if CaseNamed(cases[..j], v).Some? then CaseNamed(cases[..j], v)
                                              else Lookup(before, v)
      {
        assert cases[..j + 1][..j] == cases[..j];
        m := m[cases[j].value := cases[j].name];
      }
      assert cases[..|cases|] == cases;
    }
    assert errors[..|errors|] == errors;
  }

  // ---- matching an event ----

  /** The leading topics that decoded to strings. */
  function LeadingStrings(topics: seq<Json>): (names: seq<string>)
    ensures |names| <= |topics|
  {
    if topics == [] || !topics[0].Str? then [] else [topics[0].text] + LeadingStrings(topics[1..])
  }

  /** The last declaration of the longest declared prefix of the first `k` topics. */
  function LongestDeclared(events: seq<EventSpec>, topics: seq<string>, k: nat): Option<nat>
    requires k <= |topics|
  {
    if k == 0 then None
    else if LastPrefix(events, topics[..k]).Some? then LastPrefix(events, topics[..k])
    else LongestDeclared(events, topics, k - 1)
  }

  function Chosen(events: seq<EventSpec>, topics: seq<string>, name: string): Option<nat> {
    if LongestDeclared(events, topics, |topics|).Some? then LongestDeclared(events, topics, |topics|)
    else ByName(events, name)
  }

  predicate MatchesTopics(e: EventSpec, topics: seq<string>) { e.prefixTopics != [] && e.prefixTopics <= topics }

  lemma {:induction false} LongestMeans(events: seq<EventSpec>, topics: seq<string>, k: nat)
    requires k <= |topics|
    ensures var r := LongestDeclared(events, topics, k);
      if r.Some? then
        && r.value < |events| && MatchesTopics(events[r.value], topics) && |events[r.value].prefixTopics| <= k
        && (forall j :: 0 <= j < |events| && MatchesTopics(events[j], topics) && |events[j].prefixTopics| <= k ==>
              |events[j].prefixTopics| < |events[r.value].prefixTopics|
              || (events[j].prefixTopics == events[r.value].prefixTopics && j <= r.value))
      else forall j :: 0 <= j < |events| && MatchesTopics(events[j], topics) ==> |events[j].prefixTopics| > k
  {
    if k > 0 {
      LongestMeans(events, topics, k - 1);
      forall j | 0 <= j < |events| && MatchesTopics(events[j], topics) && |events[j].prefixTopics| == k
        ensures events[j].prefixTopics == topics[..k]
      {
      }
    }
  }

  /** The chosen event is the last declared among those with the longest prefix the topics start with;
      the name decides only when no declared prefix matches at all. */
  lemma ChosenMeans(events: seq<EventSpec>, topics: seq<string>, name: string, i: nat)
    requires i < |events| && MatchesTopics(events[i], topics)
    requires forall j :: 0 <= j < |events| && MatchesTopics(events[j], topics) ==>
      |events[j].prefixTopics| < |events[i].prefixTopics|
        || (|events[j].prefixTopics| == |events[i].prefixTopics| && j <= i)
    ensures Chosen(events, topics, name) == Some(i)
  {
    LongestMeans(events, topics, |topics|);
  }

  lemma ChosenByName(events: seq<EventSpec>, topics: seq<string>, name: string)
    ensures (forall j :: 0 <= j < |events| ==> !MatchesTopics(events[j], topics))
      <==> LongestDeclared(events, topics, |topics|).None?
    ensures (forall j :: 0 <= j < |events| ==> !MatchesTopics(events[j], topics))
      ==> Chosen(events, topics, name) == ByName(events, name)
  {
    LongestMeans(events, topics, |topics|);
  }

  // ---- binding parameters ----

  function TopicParams(params: seq<EventParam>): nat {
    if params == [] then 0 else TopicParams(params[..|params| - 1]) + if params[|params| - 1].inTopics then 1 else 0
  }

  function AtOrNull(items: seq<Json>, k: nat): Json { if k < |items| then items[k] else Null }

  /** At least one topic is the event's own symbol. */
  function Skipped(e: EventSpec): nat { if |e.prefixTopics| > 1 then |e.prefixTopics| else 1 }

  /** What parameter `i` is bound to, from its place among the parameters alone. */
  function ParamValue(e: EventSpec, i: nat, topics: seq<Json>, body: Json): Json
    requires i < |e.params|
  {
    var before := TopicParams(e.params[..i]);
    if e.params[i].inTopics then AtOrNull(topics, Skipped(e) + before)
    else match e.format
      case MapData => (match Relabeller.Field(body, e.params[i].name) case Some(v) => v case None => Null)
      case VecData => if body.Array? && before <= i then AtOrNull(body.items, i - before) else Null
      case SingleValue => body
  }

  lemma {:induction false} TopicParamsBound(params: seq<EventParam>)
    ensures TopicParams(params) <= |params|
  {
    if params != [] { TopicParamsBound(params[..|params| - 1]); }
  }

  function TypedValue(spec: ContractSpec, p: EventParam, v: Json): Json {
    Object([Member("type", Str(Render.TypeName(p.ty))), Member("value", Relabel(v, p.ty, spec))])
  }

  function BoundParams(spec: ContractSpec, e: EventSpec, n: nat, topics: seq<Json>, body: Json): seq<Member>
    requires n <= |e.params|
  {
    if n == 0 then []
    else Insert(BoundParams(spec, e, n - 1, topics, body), e.params[n - 1].name,
                TypedValue(spec, e.params[n - 1], ParamValue(e, n - 1, topics, body)))
  }

  function Enriched(spec: ContractSpec, e: EventSpec, topics: seq<Json>, body: Json): Json {
    Object([Member("event", Str(e.name)), Member("params", Object(BoundParams(spec, e, |e.params|, topics, body)))])
  }

  /** `enrich_event`. */
  function Enrich(spec: ContractSpec, name: string, topics: seq<Json>, body: Json): Option<Json> {
    match Chosen(spec.events, LeadingStrings(topics), name)
    case Some(i) => if i < |spec.events| then Some(Enriched(spec, spec.events[i], topics, body)) else None
    case None => None
  }

  // ---- the parsed interface with its indexes ----

  class Interface {
    const spec: ContractSpec
    var eventsByPrefix: map<seq<string>, nat>
    var eventsByName: map<string, nat>
    var functionsByName: map<string, nat>
    var udtsByName: map<string, UdtRef>
    var enumCases: seq<map<int, string>>
    var errorCodes: map<int, string>

    /** Every index stands for its scan. */
    ghost predicate Indexed()
      reads this
    {
      && (forall p :: Lookup(eventsByPrefix, p) == if p == [] then None else LastPrefix(spec.events, p))
      && (forall n :: Lookup(eventsByName, n) == ByName(spec.events, n))
      && (forall n :: Lookup(functionsByName, n) == Found(Position(FunctionName, spec.functions, n), |spec.functions|))
      && (forall n :: Lookup(udtsByName, n) == RefOf(spec, n))
      && |enumCases| == |spec.enums|
      && (forall i, v :: 0 <= i < |enumCases| ==> Lookup(enumCases[i], v) == CaseNamed(spec.enums[i].cases, v))
      && (forall v :: Lookup(errorCodes, v) == ErrorNamed(spec.errors, v))
    }

    constructor (parsed: ContractSpec)
      ensures spec == parsed && Indexed()
    {
      spec := parsed;
      eventsByPrefix, eventsByName, functionsByName := map[], map[], map[];
      udtsByName, enumCases, errorCodes := map[], [], map[];
      new;
      Reindex();
    }

    method Reindex()
      modifies this
      ensures Indexed()
    {
      hide LastPrefix, ByName, Position, RefOf, CaseNamed, ErrorNamed, Lookup;
      enumCases := [];
      for i := 0 to |spec.enums|
        invariant |enumCases| == i
        invariant forall k, v :: 0 <= k < i ==> Lookup(enumCases[k], v) == CaseNamed(spec.enums[k].cases, v)
        modifies this`enumCases
      {
        var cases := CaseIndex(spec.enums[i].cases);
        enumCases := enumCases + [cases];
      }
      eventsByPrefix := PrefixIndex(spec.events);
      eventsByName := NameIndex(spec.events);
      functionsByName := FirstByName(FunctionName, spec.functions);
      udtsByName := UdtIndex(spec);
      errorCodes := ErrorIndex(spec.errors);
    }

    /** The hash lookup of a type name is the scan over the declarations. */
    method UdtDefinition(name: string) returns (r: Option<UdtDef>)
      requires Indexed()
      ensures r == UdtOf(spec, name)
    {
      assert Lookup(udtsByName, name) == RefOf(spec, name);
      RefOfDefinition(spec, name);
      if name !in udtsByName { return None; }
      r := Some(Resolve(spec, udtsByName[name]));
    }

    method FunctionNamed(name: string) returns (r: Option<FunctionSpec>)
      requires Indexed()
      ensures r == Find(FunctionName, spec.functions, name)
    {
      assert Lookup(functionsByName, name) == Found(Position(FunctionName, spec.functions, name), |spec.functions|);
      if name !in functionsByName { return None; }
      r := Some(spec.functions[functionsByName[name]]);
    }

    method ResolveErrorCode(code: int) returns (r: Option<string>)
      requires Indexed()
      ensures r == ErrorNamed(spec.errors, code)
    {
      r := Lookup(errorCodes, code);
    }

    /** The prefixes come in any order a hash map may give them; the choice does not depend on it. */
    method SelectEvent(topics: seq<string>, name: string) returns (r: Option<nat>)
      requires Indexed()
      ensures r == Chosen(spec.events, topics, name)
    {
      var best: Option<nat> := None;
      var bestLen := 0;
      var left := eventsByPrefix.Keys;
      while left != {}
        invariant left <= eventsByPrefix.Keys && bestLen <= |topics|
        invariant best.None? ==> bestLen == 0
        invariant best.Some? ==> bestLen > 0 && Lookup(eventsByPrefix, topics[..bestLen]) == best
        invariant forall p | p in eventsByPrefix && p !in left && p != [] && p <= topics :: |p| <= bestLen
        decreases left
      {
        var prefix :| prefix in left;
        var n := |prefix|;
        if n > 0 && n <= |topics| && topics[..n] == prefix && n >= bestLen {
          best := Some(eventsByPrefix[prefix]);
          bestLen := n;
        }
        left := left - {prefix};
      }
      LongestFound(topics, bestLen);
      if best.Some? { return best; }
      r := Lookup(eventsByName, name);
    }

    lemma LongestFound(topics: seq<string>, n: nat)
      requires Indexed() && n <= |topics|
      requires n > 0 ==> Lookup(eventsByPrefix, topics[..n]).Some?
      requires forall p | p in eventsByPrefix && p != [] && p <= topics :: |p| <= n
      ensures LongestDeclared(spec.events, topics, |topics|)
              == if n == 0 then None else Lookup(eventsByPrefix, topics[..n])
    {
      LongestFrom(topics, n, |topics|);
    }

    lemma {:induction false} LongestFrom(topics: seq<string>, n: nat, k: nat)
      requires Indexed() && n <= k <= |topics|
      requires n > 0 ==> Lookup(eventsByPrefix, topics[..n]).Some?
      requires forall p | p in eventsByPrefix && p != [] && p <= topics :: |p| <= n
      ensures LongestDeclared(spec.events, topics, k) == if n == 0 then None else Lookup(eventsByPrefix, topics[..n])
      decreases k
    {
      if k > 0 {
        var p := topics[..k];
        assert p != [] && p <= topics;
        assert Lookup(eventsByPrefix, p) == LastPrefix(spec.events, p);
        if k > n { LongestFrom(topics, n, k - 1); }
      }
    }

    method EnrichEvent(name: string, topics: seq<Json>, body: Json) returns (r: Option<Json>)
      requires Indexed()
      ensures r == Enrich(spec, name, topics, body)
    {
      hide Indexed, Chosen, BoundParams, LeadingStrings;
      var chosen := SelectEvent(LeadingStrings(topics), name);
      if chosen.None? || chosen.value >= |spec.events| { return None; }
      var e := spec.events[chosen.value];
      var params := Bind(spec, e, topics, body);
      r := Some(Object([Member("event", Str(e.name)), Member("params", Object(params))]));
    }
  }

  /** Bind an event's parameters by two running positions, one over the topics and one over the body. */
  method Bind(spec: ContractSpec, e: EventSpec, topics: seq<Json>, body: Json) returns (params: seq<Member>)
    ensures params == BoundParams(spec, e, |e.params|, topics, body)
  {
    hide Relabeller.Relabel, Insert, TypedValue, Render.TypeName;
    var topicAt, dataAt := Skipped(e), 0;
    params := [];
    for i := 0 to |e.params|
      invariant topicAt == Skipped(e) + TopicParams(e.params[..i])
      invariant e.format.VecData? ==> dataAt == i - TopicParams(e.params[..i])
      invariant params == BoundParams(spec, e, i, topics, body)
    {
      var p := e.params[i];
      TopicParamsBound(e.params[..i]);
      assert e.params[..i + 1][..i] == e.params[..i];
      var value;
      if p.inTopics {
        value := AtOrNull(topics, topicAt);
        topicAt := topicAt + 1;
      } else {
        match e.format {
          case MapData =>
            value := match Relabeller.Field(body, p.name) case Some(v) => v case None => Null;
          case VecData =>
            value := if body.Array? then AtOrNull(body.items, dataAt) else Null;
            dataAt := dataAt + 1;
          case SingleValue =>
            value := body;
        }
      }
      assert value == ParamValue(e, i, topics, body);
      params := Insert(params, p.name, TypedValue(spec, p, value));
    }
  }
}
