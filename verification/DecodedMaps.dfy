/** What the generic decoder keeps of a map. */
module DecodedMaps {
  import opened Basics
  import opened Json
  import opened ScVal
  import opened Encoder
  import opened Decoder

  /** No two keys render as the same text, and none renders as one of the texts in `taken`. */
  ghost predicate DistinctTexts(entries: seq<Entry>, taken: set<string>, keys: Strkey)
    requires StringKeys(entries)
  {
    && (forall i, j :: 0 <= i < j < |entries| ==> Decode(entries[i].key, keys) != Decode(entries[j].key, keys))
    && (forall i :: 0 <= i < |entries| ==> Decode(entries[i].key, keys).text !in taken)
  }

  lemma DistinctCons(entries: seq<Entry>, taken: set<string>, keys: Strkey)
    requires entries != [] && StringKeys(entries)
    ensures var text := Decode(entries[0].key, keys).text;
      DistinctTexts(entries, taken, keys) <==> text !in taken && DistinctTexts(entries[1..], taken + {text}, keys)
  {
    hide Decode;
    var rest, text := entries[1..], Decode(entries[0].key, keys).text;
    assert forall i :: 0 <= i < |rest| ==> rest[i] == entries[i + 1];
    if DistinctTexts(entries, taken, keys) {
      forall i | 0 <= i < |rest| ensures Decode(rest[i].key, keys).text !in taken + {text} {
        assert Decode(entries[0].key, keys) != Decode(entries[i + 1].key, keys);
      }
    }
    if text !in taken && DistinctTexts(rest, taken + {text}, keys) {
      forall i, j | 0 <= i < j < |entries| ensures Decode(entries[i].key, keys) != Decode(entries[j].key, keys) {
        assert Decode(rest[j - 1].key, keys).text !in taken + {text};
        if i > 0 { assert Decode(rest[i - 1].key, keys) != Decode(rest[j - 1].key, keys); }
      }
      forall i | 0 <= i < |entries| ensures Decode(entries[i].key, keys).text !in taken {
        if i > 0 { assert Decode(rest[i - 1].key, keys).text !in taken + {text}; }
      }
    }
  }

  lemma {:induction false} StringyEntries(entries: seq<Entry>, obj: seq<Member>, pairs: seq<Json>, keys: Strkey)
    requires StringKeys(entries)
    ensures var v := DecodeEntries(entries, obj, pairs, true, keys);
      v.Object? && |v.members| <= |obj| + |entries|
      && (|v.members| == |obj| + |entries| <==> DistinctTexts(entries, Keys(obj), keys))
    decreases |entries|
  {
    hide Decode;
    if entries != [] {
      var (k, v) := DecodeEntry(entries[0], keys);
      assert RendersAsString(entries[0].key);
      KeysOfInsert(obj, k.text, v);
      DistinctCons(entries, Keys(obj), keys);
      StringyEntries(entries[1..], Insert(obj, k.text, v), pairs + [Object([Member("key", k), Member("val", v)])],
                     keys);
    }
  }

  lemma StringKeysCons(entries: seq<Entry>)
    requires entries != []
    ensures StringKeys(entries) <==> RendersAsString(entries[0].key) && StringKeys(entries[1..])
  {
    assert entries == [entries[0]] + entries[1..];
    if RendersAsString(entries[0].key) && StringKeys(entries[1..]) {
      forall i | 0 <= i < |entries| ensures RendersAsString(entries[i].key) {
        if i > 0 { assert entries[i] == entries[1..][i - 1]; }
      }
    }
    if StringKeys(entries) {
      forall i | 0 <= i < |entries[1..]| ensures RendersAsString(entries[1..][i].key) {
        assert entries[1..][i] == entries[i + 1];
      }
    }
  }

  lemma {:induction false} MixedEntries(entries: seq<Entry>, obj: seq<Member>, pairs: seq<Json>, allStringy: bool,
                                        keys: Strkey)
    requires !allStringy || !StringKeys(entries)
    ensures var v := DecodeEntries(entries, obj, pairs, allStringy, keys);
      v.Array? && |v.items| == |pairs| + |entries|
      && (forall i :: 0 <= i < |pairs| ==> v.items[i] == pairs[i])
      && (forall i :: 0 <= i < |entries| ==> v.items[|pairs| + i] == PairOf(entries[i], keys))
    decreases |entries|
  {
    hide Decode;
    if entries != [] {
      var (k, v) := DecodeEntry(entries[0], keys);
      var more := pairs + [PairOf(entries[0], keys)];
      var stillStringy := allStringy && k.Str?;
      StringKeysCons(entries);
      MixedEntries(entries[1..], if k.Str? then Insert(obj, k.text, v) else obj, more, stillStringy, keys);
      assert more[|pairs|] == PairOf(entries[0], keys);
      forall i | 0 <= i < |entries|
        ensures DecodeEntries(entries, obj, pairs, allStringy, keys).items[|pairs| + i] == PairOf(entries[i], keys)
      {
        if i > 0 { assert entries[i] == entries[1..][i - 1] && |pairs| + i == |more| + (i - 1); }
      }
    }
  }

  ghost function PairOf(e: Entry, keys: Strkey): Json {
    Object([Member("key", Decode(e.key, keys)), Member("val", Decode(e.val, keys))])
  }

  /** Entry `i` as the member it becomes. */
  ghost function MemberOf(e: Entry, keys: Strkey): Member
    requires RendersAsString(e.key)
  {
    Member(Decode(e.key, keys).text, Decode(e.val, keys))
  }

  lemma {:induction false} GetOfInsert(ms: seq<Member>, key: string, value: Json, other: string)
    ensures Get(Insert(ms, key, value), other) == if other == key then Some(value) else Get(ms, other)
  {
    if ms != [] && ms[0].key != key { GetOfInsert(ms[1..], key, value, other); }
  }

  /** Keys still to come decide; otherwise what is there stays. */
  lemma {:induction false} LaterEntryWins(entries: seq<Entry>, obj: seq<Member>, pairs: seq<Json>, text: string,
                                          keys: Strkey)
    requires StringKeys(entries)
    requires forall i :: 0 <= i < |entries| ==> MemberOf(entries[i], keys).key != text
    ensures var v := DecodeEntries(entries, obj, pairs, true, keys); v.Object? && Get(v.members, text) == Get(obj, text)
    decreases |entries|
  {
    hide Decode;
    if entries != [] {
      var m := MemberOf(entries[0], keys);
      StringKeysCons(entries);
      GetOfInsert(obj, m.key, m.value, text);
      assert forall i :: 0 <= i < |entries[1..]| ==> entries[1..][i] == entries[i + 1];
      LaterEntryWins(entries[1..], Insert(obj, m.key, m.value), pairs + [PairOf(entries[0], keys)], text, keys);
    }
  }

  lemma {:induction false} LastEntryStays(entries: seq<Entry>, obj: seq<Member>, pairs: seq<Json>, i: nat, keys: Strkey)
    requires StringKeys(entries) && i < |entries|
    requires forall j :: i < j < |entries| ==> MemberOf(entries[j], keys).key != MemberOf(entries[i], keys).key
    ensures var v := DecodeEntries(entries, obj, pairs, true, keys);
      v.Object? && Get(v.members, MemberOf(entries[i], keys).key) == Some(MemberOf(entries[i], keys).value)
    decreases |entries|
  {
    hide Decode;
    var m := MemberOf(entries[0], keys);
    var next, more := Insert(obj, m.key, m.value), pairs + [PairOf(entries[0], keys)];
    StringKeysCons(entries);
    assert forall j :: 0 <= j < |entries[1..]| ==> entries[1..][j] == entries[j + 1];
    if i == 0 {
      GetOfInsert(obj, m.key, m.value, m.key);
      LaterEntryWins(entries[1..], next, more, m.key, keys);
    } else {
      LastEntryStays(entries[1..], next, more, i - 1, keys);
    }
  }

  lemma DistinctEntriesKept(entries: seq<Entry>, keys: Strkey)
    requires StringKeys(entries) && DistinctTexts(entries, {}, keys)
    ensures var v := DecodeEntries(entries, [], [], true, keys);
      v.Object? && forall i :: 0 <= i < |entries| ==>
        Get(v.members, MemberOf(entries[i], keys).key) == Some(MemberOf(entries[i], keys).value)
  {
    hide Decode, DecodeEntries;
    StringyEntries(entries, [], [], keys);
    forall i | 0 <= i < |entries|
      ensures Get(DecodeEntries(entries, [], [], true, keys).members, MemberOf(entries[i], keys).key)
              == Some(MemberOf(entries[i], keys).value)
    {
      forall j | i < j < |entries| ensures MemberOf(entries[j], keys).key != MemberOf(entries[i], keys).key {
        assert Decode(entries[i].key, keys) != Decode(entries[j].key, keys);
      }
      LastEntryStays(entries, [], [], i, keys);
    }
  }

  /** A map whose keys all render as strings keeps every entry, each under its key's text, exactly when no two keys
      render alike; otherwise it holds fewer. Any other map keeps every entry, as a pair, in order. */
  lemma MapKeepsEveryEntry(entries: seq<Entry>, keys: Strkey)
    ensures StringKeys(entries) ==>
      && Decode(ScvMap(entries), keys).Object?
      && (|Decode(ScvMap(entries), keys).members| == |entries| <==> DistinctTexts(entries, {}, keys))
      && (DistinctTexts(entries, {}, keys) ==>
            forall i :: 0 <= i < |entries| ==>
              Get(Decode(ScvMap(entries), keys).members, MemberOf(entries[i], keys).key)
              == Some(MemberOf(entries[i], keys).value))
    ensures !StringKeys(entries) ==>
      && Decode(ScvMap(entries), keys).Array? && |Decode(ScvMap(entries), keys).items| == |entries|
      && forall i :: 0 <= i < |entries| ==> Decode(ScvMap(entries), keys).items[i] == PairOf(entries[i], keys)
  {
    assert Keys([]) == {};
    DecodesByEntries(entries, keys);
    hide StringKeys, DistinctTexts, Decode, DecodeEntries;
    if StringKeys(entries) {
      StringyEntries(entries, [], [], keys);
      if DistinctTexts(entries, {}, keys) { DistinctEntriesKept(entries, keys); }
    } else {
      MixedEntries(entries, [], [], true, keys);
    }
  }

  /** Among entries whose keys render alike, the last one's value is the one the object holds. */
  lemma LastOfCollidingWins(entries: seq<Entry>, i: nat, keys: Strkey)
    requires StringKeys(entries) && i < |entries|
    requires forall j :: i < j < |entries| ==> MemberOf(entries[j], keys).key != MemberOf(entries[i], keys).key
    ensures Decode(ScvMap(entries), keys).Object?
    ensures Get(Decode(ScvMap(entries), keys).members, MemberOf(entries[i], keys).key)
            == Some(MemberOf(entries[i], keys).value)
  {
    LastEntryStays(entries, [], [], i, keys);
  }

  /** A string key and a symbol key of one spelling: two entries of a strictly sorted map, one member of its object. */
  lemma StringAndSymbolCollide(name: seq<byte>, x: ScVal, y: ScVal, keys: Strkey)
    ensures var entries := [Entry(ScvString(name), x), Entry(ScvSymbol(name), y)];
      && KeyBefore(entries[0], entries[1])
      && Decode(ScvMap(entries), keys).Object? && |Decode(ScvMap(entries), keys).members| < |entries|
  {
    var entries := [Entry(ScvString(name), x), Entry(ScvSymbol(name), y)];
    assert Decode(entries[0].key, keys) == Decode(entries[1].key, keys);
    assert !DistinctTexts(entries, {}, keys);
    assert Keys([]) == {};
    hide Decode, DistinctTexts;
    StringyEntries(entries, [], [], keys);
    DecodesByEntries(entries, keys);
  }

  lemma DecodesByEntries(entries: seq<Entry>, keys: Strkey)
    ensures Decode(ScvMap(entries), keys) == DecodeEntries(entries, [], [], true, keys)
  {
  }
}
