/** Enriching what a contract emitted gives back what it emitted. */
module Emitted {
  import opened Basics
  import opened Json
  import opened Spec
  import opened Relabeller
  import opened SpecIndex
  import DecodedMaps
  import Render

  // ---- the emitter ----

  /** The values of the parameters published as topics, in order. */
  function TopicValues(params: seq<EventParam>, vals: seq<Json>): seq<Json>
    requires |vals| == |params|
  {
    if params == [] then []
    else (if params[0].inTopics then [vals[0]] else []) + TopicValues(params[1..], vals[1..])
  }

  /** The values of the others, in order. */
  function DataValues(params: seq<EventParam>, vals: seq<Json>): seq<Json>
    requires |vals| == |params|
  {
    if params == [] then []
    else (if params[0].inTopics then [] else [vals[0]]) + DataValues(params[1..], vals[1..])
  }

  function Texts(names: seq<string>): (vs: seq<Json>)
    ensures |vs| == |names| && forall i :: 0 <= i < |vs| ==> vs[i] == Str(names[i])
  {
    seq(|names|, i requires 0 <= i < |names| => Str(names[i]))
  }

  /** The symbols an event is published under: its declared prefix, or its own name when it has none. */
  function Symbols(e: EventSpec): seq<string> { if e.prefixTopics == [] then [e.name] else e.prefixTopics }

  function Topics(e: EventSpec, vals: seq<Json>): seq<Json>
    requires |vals| == |e.params|
  {
    Texts(Symbols(e)) + TopicValues(e.params, vals)
  }

  /** A body that holds the data values: by name, in order, or the one value itself. */
  predicate Holds(e: EventSpec, vals: seq<Json>, body: Json)
    requires |vals| == |e.params|
  {
    match e.format
    case MapData =>
      body.Object? && forall i :: 0 <= i < |vals| && !e.params[i].inTopics ==>
        Get(body.members, e.params[i].name) == Some(vals[i])
    case VecData => body == Array(DataValues(e.params, vals))
    case SingleValue => forall i :: 0 <= i < |vals| && !e.params[i].inTopics ==> body == vals[i]
  }

  ghost predicate DistinctParams(e: EventSpec) {
    forall i, j :: 0 <= i < j < |e.params| ==> e.params[i].name != e.params[j].name
  }

  // ---- each parameter is bound to its own value ----

  /** Where a value stands among its kind. */
  lemma {:induction false} ValuesAt(params: seq<EventParam>, vals: seq<Json>, i: nat)
    requires |vals| == |params| && i < |params|
    ensures var before := TopicParams(params[..i]);
      && before <= i
      && (params[i].inTopics ==> before < |TopicValues(params, vals)| && TopicValues(params, vals)[before] == vals[i])
      && (!params[i].inTopics ==>
            i - before < |DataValues(params, vals)| && DataValues(params, vals)[i - before] == vals[i])
  {
    if i == 0 {
      assert params[..0] == [];
    } else {
      var here := if params[0].inTopics then 1 else 0;
      ValuesAt(params[1..], vals[1..], i - 1);
      assert params[1..][..i - 1] == params[1..i];
      TopicParamsCons(params[..i]);
      assert params[..i][1..] == params[1..i];
      var t, d := TopicValues(params[1..], vals[1..]), DataValues(params[1..], vals[1..]);
      assert TopicValues(params, vals) == (if params[0].inTopics then [vals[0]] else []) + t;
      assert DataValues(params, vals) == (if params[0].inTopics then [] else [vals[0]]) + d;
    }
  }

  lemma {:induction false} TopicParamsCons(params: seq<EventParam>)
    requires params != []
    ensures TopicParams(params) == (if params[0].inTopics then 1 else 0) + TopicParams(params[1..])
  {
    if |params| == 1 {
      assert params[..0] == [] && params[1..] == [];
    } else {
      TopicParamsCons(params[..|params| - 1]);
      assert params[..|params| - 1][1..] == params[1..][..|params| - 2];
    }
  }

  lemma BoundToOwn(e: EventSpec, vals: seq<Json>, body: Json, i: nat)
    requires |vals| == |e.params| && i < |vals| && Holds(e, vals, body)
    ensures ParamValue(e, i, Topics(e, vals), body) == vals[i]
  {
    ValuesAt(e.params, vals, i);
    assert |Texts(Symbols(e))| == Skipped(e);
    hide TopicParams, TopicValues, DataValues;
  }

  /** A parameter the event does not carry is bound to null. */
  lemma MissingIsNull(e: EventSpec, i: nat, topics: seq<Json>, body: Json)
    requires i < |e.params|
    ensures e.params[i].inTopics && |topics| <= |Symbols(e)| + TopicParams(e.params[..i]) ==>
              ParamValue(e, i, topics, body) == Null
    ensures !e.params[i].inTopics && e.format.MapData?
            && (body.Object? ==> e.params[i].name !in Keys(body.members)) ==>
              ParamValue(e, i, topics, body) == Null
    ensures !e.params[i].inTopics && e.format.VecData?
            && (body.Array? ==> |body.items| <= i - TopicParams(e.params[..i])) ==>
              ParamValue(e, i, topics, body) == Null
  {
    hide TopicParams;
  }

  // ---- the record ----

  /** The record of a parameter: its declared type's text, and its value, named at that type. */
  function Record(spec: ContractSpec, p: EventParam, v: Json): Json {
    Object([Member("type", Str(Render.TypeName(p.ty))), Member("value", Relabel(v, p.ty, spec))])
  }

  /** The members hold the first `n` parameters' records, each under its name, and nothing else. */
  ghost predicate Hold(ms: seq<Member>, spec: ContractSpec, e: EventSpec, vals: seq<Json>, n: nat)
    requires |vals| == |e.params| && n <= |vals|
  {
    && |ms| == n
    && (forall k :: k in Keys(ms) ==> exists i :: 0 <= i < n && e.params[i].name == k)
    && (forall i :: 0 <= i < n ==> Get(ms, e.params[i].name) == Some(Record(spec, e.params[i], vals[i])))
  }

  lemma {:induction false} BoundHold(spec: ContractSpec, e: EventSpec, vals: seq<Json>, body: Json, n: nat)
    requires DistinctParams(e) && |vals| == |e.params| && n <= |vals| && Holds(e, vals, body)
    ensures Hold(BoundParams(spec, e, n, Topics(e, vals), body), spec, e, vals, n)
  {
    hide ParamValue, Topics, Holds, Relabel, Hold, DistinctParams;
    if n == 0 {
      NothingHeld(spec, e, vals);
    } else {
      BoundHold(spec, e, vals, body, n - 1);
      BoundToOwn(e, vals, body, n - 1);
      OneMoreHeld(BoundParams(spec, e, n - 1, Topics(e, vals), body), spec, e, vals, n);
    }
  }

  lemma NothingHeld(spec: ContractSpec, e: EventSpec, vals: seq<Json>)
    requires |vals| == |e.params|
    ensures Hold([], spec, e, vals, 0)
  {
  }

  lemma OneMoreHeld(ms: seq<Member>, spec: ContractSpec, e: EventSpec, vals: seq<Json>, n: nat)
    requires |vals| == |e.params| && 0 < n <= |vals| && DistinctParams(e) && Hold(ms, spec, e, vals, n - 1)
    ensures Hold(Insert(ms, e.params[n - 1].name, Record(spec, e.params[n - 1], vals[n - 1])), spec, e, vals, n)
  {
    hide Record, Insert, Get;
    var key, v := e.params[n - 1].name, Record(spec, e.params[n - 1], vals[n - 1]);
    KeysOfInsert(ms, key, v);
    forall i | 0 <= i < n
      ensures Get(Insert(ms, key, v), e.params[i].name) == Some(Record(spec, e.params[i], vals[i]))
    {
      DecodedMaps.GetOfInsert(ms, key, v, e.params[i].name);
    }
  }

  /** The record of an emitted event: its name, and each parameter's record under its name. */
  ghost predicate Recorded(spec: ContractSpec, e: EventSpec, vals: seq<Json>, record: Json)
    requires |vals| == |e.params|
  {
    exists ms ::
      && record == Object([Member("event", Str(e.name)), Member("params", Object(ms))])
      && Hold(ms, spec, e, vals, |vals|)
  }

  /** Enriching an emitted event gives its name, and each parameter its own value, named at its type. */
  lemma EmittedIsEnriched(spec: ContractSpec, i: nat, vals: seq<Json>, body: Json, name: string)
    requires i < |spec.events| && |vals| == |spec.events[i].params|
    requires DistinctParams(spec.events[i]) && Holds(spec.events[i], vals, body)
    requires Chosen(spec.events, LeadingStrings(Topics(spec.events[i], vals)), name) == Some(i)
    ensures var r := Enrich(spec, name, Topics(spec.events[i], vals), body);
      r.Some? && Recorded(spec, spec.events[i], vals, r.value)
  {
    hide Chosen, LeadingStrings, Topics, Holds, DistinctParams, BoundParams, Hold;
    BoundHold(spec, spec.events[i], vals, body, |vals|);
  }

  // ---- which event an emitted one is taken for ----

  /** The topics an event is recognised by: all from the first on that are strings, up to the first that is not. */
  lemma {:induction false} LeadingMeans(topics: seq<Json>)
    ensures var names := LeadingStrings(topics);
      && (forall i :: 0 <= i < |names| ==> topics[i] == Str(names[i]))
      && (|names| < |topics| ==> !topics[|names|].Str?)
  {
    if topics != [] && topics[0].Str? { LeadingMeans(topics[1..]); }
  }

  lemma {:induction false} LeadingTexts(names: seq<string>, more: seq<Json>)
    ensures names <= LeadingStrings(Texts(names) + more)
  {
    if names != [] {
      LeadingTexts(names[1..], more);
      assert (Texts(names) + more)[0] == Str(names[0]);
      assert (Texts(names) + more)[1..] == Texts(names[1..]) + more;
      assert names == [names[0]] + names[1..];
    }
  }

  /** No other declared prefix the topics start with is as long, and later if of the same length. */
  ghost predicate Unrivalled(events: seq<EventSpec>, i: nat, topics: seq<string>)
    requires i < |events|
  {
    forall j :: 0 <= j < |events| && MatchesTopics(events[j], topics) ==>
      |events[j].prefixTopics| < |events[i].prefixTopics|
      || (|events[j].prefixTopics| == |events[i].prefixTopics| && j <= i)
  }

  /** An event with a prefix is recognised by its topics, whatever name it comes with. */
  lemma PrefixedIsChosen(events: seq<EventSpec>, i: nat, vals: seq<Json>, name: string)
    requires i < |events| && |vals| == |events[i].params| && events[i].prefixTopics != []
    requires Unrivalled(events, i, LeadingStrings(Topics(events[i], vals)))
    ensures Chosen(events, LeadingStrings(Topics(events[i], vals)), name) == Some(i)
  {
    LeadingTexts(events[i].prefixTopics, TopicValues(events[i].params, vals));
    ChosenMeans(events, LeadingStrings(Topics(events[i], vals)), name, i);
  }

  /** An event without one is recognised by its own name, if no declared prefix starts with it and no earlier event has
      it. */
  lemma NamedIsChosen(events: seq<EventSpec>, i: nat, vals: seq<Json>)
    requires i < |events| && |vals| == |events[i].params| && events[i].prefixTopics == []
    requires forall j :: 0 <= j < |events| ==> !LeadsWith(events[j], events[i].name)
    requires forall j :: 0 <= j < i ==> events[j].name != events[i].name
    ensures Chosen(events, LeadingStrings(Topics(events[i], vals)), events[i].name) == Some(i)
  {
    var topics := LeadingStrings(Topics(events[i], vals));
    LeadingTexts([events[i].name], TopicValues(events[i].params, vals));
    assert topics[0] == events[i].name;
    forall j | 0 <= j < |events| ensures !MatchesTopics(events[j], topics) {
      assert !LeadsWith(events[j], events[i].name);
    }
    ChosenByName(events, topics, events[i].name);
  }
}
