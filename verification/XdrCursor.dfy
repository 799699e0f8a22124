/** The byte-level reader as it is coded: a position that moves over a buffer. */
module XdrCursor {
  import opened Basics
  import opened ByteRanges
  import opened Json
  import opened ScVal
  import opened XdrWire
  import Decimal
  import Hex

  /** The method read what the specification reads: the same success, the same value, the same position after it. */
  ghost predicate Agrees<T>(got: Option<T>, pos: nat, spec: Option<Read<T>>) {
    (got.Some? <==> spec.Some?) && (got.Some? ==> got.value == spec.value.value && pos == spec.value.next)
  }

  // ---- a list read so far ----

  /** The whole reading is what is read already, followed by the reading of the rest. */
  ghost predicate Reached<T>(whole: Option<Read<seq<T>>>, done: seq<T>, rest: Option<Read<seq<T>>>) {
    (whole.Some? <==> rest.Some?) && (whole.Some? ==> whole.value == Read(done + rest.value.value, rest.value.next))
  }

  ghost function Led<T>(x: T, rest: Option<Read<seq<T>>>): Option<Read<seq<T>>> {
    match rest case None => None case Some(r) => Some(Read([x] + r.value, r.next))
  }

  lemma ReachedNothing<T>(whole: Option<Read<seq<T>>>)
    ensures Reached(whole, [], whole)
  {
    if whole.Some? { assert [] + whole.value.value == whole.value.value; }
  }

  lemma ReachedOneMore<T>(whole: Option<Read<seq<T>>>, done: seq<T>, x: T, rest: Option<Read<seq<T>>>)
    requires Reached(whole, done, Led(x, rest))
    ensures Reached(whole, done + [x], rest)
  {
    if rest.Some? { assert done + ([x] + rest.value.value) == (done + [x]) + rest.value.value; }
  }

  lemma ReachedAll<T>(whole: Option<Read<seq<T>>>, done: seq<T>, pos: nat)
    requires Reached(whole, done, Some(Read([], pos)))
    ensures whole == Some(Read(done, pos))
  {
    assert done + [] == done;
  }

  lemma ItemsUnfold(r: Rendering, buf: Bytes, pos: nat, len: nat, depth: nat)
    requires pos <= |buf|
    ensures len == 0 ==> ReadItems(r, buf, pos, len, depth) == Some(Read([], pos))
    ensures len > 0 ==> (ReadItems(r, buf, pos, len, depth) ==
      match ReadScval(r, buf, pos, depth)
      case None => None
      case Some(v) => Led(v.value, ReadItems(r, buf, v.next, len - 1, depth)))
  {
    hide ReadScval;
  }

  lemma PairsUnfold(r: Rendering, buf: Bytes, pos: nat, len: nat, depth: nat)
    requires pos <= |buf|
    ensures len == 0 ==> ReadPairs(r, buf, pos, len, depth) == Some(Read([], pos))
    ensures len > 0 ==> (ReadPairs(r, buf, pos, len, depth) ==
      match ReadScval(r, buf, pos, depth)
      case None => None
      case Some(k) =>
        match ReadScval(r, buf, k.next, depth)
        case None => None
        case Some(v) => Led(KeyVal(k.value, v.value), ReadPairs(r, buf, v.next, len - 1, depth)))
  {
    hide ReadScval;
  }

  // ---- the map accumulator ----

  /** The object, the pairs and the two flags that `read_map` carries along. */
  datatype MapSoFar = MapSoFar(obj: seq<Member>, pairs: seq<KeyVal>, allStringy: bool, hasCollision: bool)

  ghost predicate Tracks(m: MapSoFar) {
    && (m.allStringy <==> AllStrings(m.pairs))
    && (m.allStringy ==> Keys(m.obj) == TextKeys(m.pairs))
    && (m.allStringy ==> (m.hasCollision <==> !NoCollision(m.pairs)))
    && (m.allStringy && !m.hasCollision ==> m.obj == Members(m.pairs))
  }

  ghost function TextKeys(pairs: seq<KeyVal>): set<string>
    requires AllStrings(pairs)
  {
    set i | 0 <= i < |pairs| :: pairs[i].key.text
  }

  function AddPair(m: MapSoFar, p: KeyVal): (r: MapSoFar)
    ensures r.pairs == m.pairs + [p]
  {
    if p.key.Str? then
      MapSoFar(Insert(m.obj, p.key.text, p.val), m.pairs + [p], m.allStringy,
               m.hasCollision || Get(m.obj, p.key.text).Some?)
    else
      m.(pairs := m.pairs + [p], allStringy := false)
  }

  lemma AddTracks(m: MapSoFar, p: KeyVal)
    requires Tracks(m)
    ensures Tracks(AddPair(m, p))
  {
    var pairs := m.pairs + [p];
    assert m.allStringy && p.key.Str? <==> AllStrings(pairs) by {
      assert pairs[|m.pairs|] == p;
      assert forall i :: 0 <= i < |m.pairs| ==> pairs[i] == m.pairs[i];
    }
    if m.allStringy && p.key.Str? {
      var key := p.key.text;
      KeysOfInsert(m.obj, key, p.val);
      TextKeysMore(m.pairs, p);
      CollisionMore(m.pairs, p);
      if key !in Keys(m.obj) {
        InsertFresh(m.obj, key, p.val);
        MembersMore(m.pairs, p);
      }
    }
  }

  lemma TextKeysMore(ps: seq<KeyVal>, p: KeyVal)
    requires p.key.Str? && AllStrings(ps) && AllStrings(ps + [p])
    ensures TextKeys(ps + [p]) == TextKeys(ps) + {p.key.text}
  {
    var all := ps + [p];
    assert all[|ps|] == p;
    forall k | k in TextKeys(ps) ensures k in TextKeys(all) {
      var i :| 0 <= i < |ps| && ps[i].key.text == k;
      assert all[i].key.text == k;
    }
  }

  lemma CollisionMore(ps: seq<KeyVal>, p: KeyVal)
    requires p.key.Str? && AllStrings(ps) && AllStrings(ps + [p])
    ensures NoCollision(ps + [p]) <==> NoCollision(ps) && p.key.text !in TextKeys(ps)
  {
    var all := ps + [p];
    if NoCollision(all) {
      forall i, j | 0 <= i < j < |ps| ensures ps[i].key != ps[j].key { assert all[i].key != all[j].key; }
      forall i | 0 <= i < |ps| ensures ps[i].key.text != p.key.text { assert all[i].key != all[|ps|].key; }
    }
    if NoCollision(ps) && p.key.text !in TextKeys(ps) {
      forall i, j | 0 <= i < j < |all| ensures all[i].key != all[j].key {
        assert ps[i].key.text in TextKeys(ps);
        if j < |ps| { assert ps[i].key != ps[j].key; }
      }
    }
  }

  lemma {:induction false} MembersMore(ps: seq<KeyVal>, p: KeyVal)
    requires p.key.Str? && AllStrings(ps) && AllStrings(ps + [p])
    ensures Members(ps + [p]) == Members(ps) + [Member(p.key.text, p.val)]
  {
    var all := ps + [p];
    assert all[|ps|] == p;
    assert forall i :: 0 <= i < |ps| ==> all[i] == ps[i];
  }

  function Finish(m: MapSoFar): Json {
    if m.allStringy && !m.hasCollision then Object(m.obj) else Array(PairObjects(m.pairs))
  }

  lemma FinishIsMap(m: MapSoFar)
    requires Tracks(m)
    ensures Finish(m) == MapJson(m.pairs)
  {
  }

  // ---- the cursor ----

  class Cursor {
    const buf: Bytes
    const render: Rendering
    var pos: nat

    constructor (bytes: Bytes, rendering: Rendering)
      ensures buf == bytes && render == rendering && pos == 0
    {
      buf, render := bytes, rendering;
      pos := 0;
    }

    method Take(n: nat) returns (got: Option<Bytes>)
      requires pos <= |buf|
      modifies this
      ensures got == Raw(buf, old(pos), n) && pos == if got.Some? then old(pos) + n else old(pos)
    {
      if pos + n > |buf| { return None; }
      got := Some(buf[pos..pos + n]);
      pos := pos + n;
    }

    method Unsigned(size: nat) returns (got: Option<nat>)
      requires pos <= |buf|
      modifies this
      ensures got == UInt(buf, old(pos), size) && pos == if got.Some? then old(pos) + size else old(pos)
    {
      var b := Take(size);
      if b.None? { return None; }
      got := Some(FromBigEndian(b.value));
    }

    /** A length, the bytes, and the padding, which is skipped without looking at it. */
    method VariableBytes() returns (got: Option<Bytes>)
      requires pos <= |buf|
      modifies this
      ensures old(pos) <= pos <= |buf| && Agrees(got, pos, VarBytes(buf, old(pos)))
    {
      hide UInt;
      var len := Unsigned(4);
      if len.None? { return None; }
      var data := Take(len.value);
      if data.None? { return None; }
      var padding := Take(Padding(len.value));
      if padding.None? { return None; }
      got := data;
    }

    method Address() returns (got: Option<ScAddress>)
      requires pos <= |buf|
      modifies this
      ensures old(pos) <= pos <= |buf| && Agrees(got, pos, ReadAddress(buf, old(pos)))
    {
      hide UInt, Raw;
      got := None;
      var kind := Unsigned(4);
      if kind.None? { return; }
      if kind.value == 0 {
        var keyType := Unsigned(4);
        if keyType.None? { return; }
        var key := Take(32);
        if key.Some? { got := Some(Account(key.value)); }
      } else if kind.value == 1 {
        var hash := Take(32);
        if hash.Some? { got := Some(Contract(hash.value)); }
      } else if kind.value == 2 {
        var id := Unsigned(8);
        if id.None? { return; }
        var key := Take(32);
        if key.Some? { got := Some(MuxedAccount(id.value, key.value)); }
      } else if kind.value == 3 {
        var version := Unsigned(4);
        if version.None? || version.value != 0 { return; }
        var hash := Take(32);
        if hash.Some? { got := Some(ClaimableBalance(hash.value)); }
      } else if kind.value == 4 {
        var hash := Take(32);
        if hash.Some? { got := Some(LiquidityPool(hash.value)); }
      }
    }

    /** The tags whose payload holds no further value. */
    method Leaf(tag: nat) returns (got: Option<Json>)
      requires pos <= |buf|
      modifies this
      ensures old(pos) <= pos <= |buf| && Agrees(got, pos, ReadLeaf(render, buf, old(pos), tag))
    {
      hide UInt, Raw, VarBytes, ReadAddress, ErrorJson, Wide, FromBigEndian;
      got := None;
      if tag == 0 {
        var raw := Unsigned(4);
        if raw.Some? && raw.value <= 1 { got := Some(Bool(raw.value == 1)); }
      } else if tag == 1 {
        got := Some(Null);
      } else if tag == 2 {
        var kind := Unsigned(4);
        if kind.None? { return; }
        var code := Unsigned(4);
        if code.Some? { got := Some(ErrorJson(kind.value, code.value)); }
      } else if tag == 3 {
        var n := Unsigned(4);
        if n.Some? { got := Some(Int(n.value)); }
      } else if tag == 4 {
        var n := Unsigned(4);
        if n.Some? { got := Some(Int(Signed(n.value, 0x8000_0000))); }
      } else if tag == 5 || tag == 7 || tag == 8 {
        var n := Unsigned(8);
        if n.Some? { got := Some(Str(Decimal.IntText(n.value))); }
      } else if tag == 6 {
        var n := Unsigned(8);
        if n.Some? { got := Some(Str(Decimal.IntText(Signed(n.value, TWO_63)))); }
      } else {
        got := WideLeaf(tag);
      }
    }

    method WideLeaf(tag: nat) returns (got: Option<Json>)
      requires pos <= |buf| && tag > 8
      modifies this
      ensures old(pos) <= pos <= |buf| && Agrees(got, pos, ReadLeaf(render, buf, old(pos), tag))
    {
      hide UInt, VarBytes, ReadAddress, Wide, FromBigEndian;
      got := None;
      if tag == 9 || tag == 10 {
        var hi := Unsigned(8);
        if hi.None? { return; }
        var lo := Unsigned(8);
        if lo.None? { return; }
        var high := if tag == 9 then hi.value else Signed(hi.value, TWO_63);
        got := Some(Str(Decimal.IntText(high * TWO_64 + lo.value)));
      } else if tag == 11 || tag == 12 {
        var raw := Take(32);
        if raw.Some? { got := Some(Wide(raw.value)); }
      } else if tag == 13 {
        var b := VariableBytes();
        if b.Some? { got := Some(Str("0x" + Hex.Encode(b.value))); }
      } else if tag == 14 || tag == 15 {
        var b := VariableBytes();
        if b.Some? { got := Some(Str(render.text(b.value))); }
      } else if tag == 18 {
        var a := Address();
        if a.Some? { got := Some(Str(render.address(a.value))); }
      } else if tag == 20 {
        got := Some(Opaque(20));
      } else if tag == 21 {
        var nonce := Take(8);
        if nonce.Some? { got := Some(Opaque(21)); }
      }
    }

    method Count() returns (got: Option<nat>)
      requires pos <= |buf|
      modifies this
      ensures old(pos) <= pos <= |buf| && Agrees(got, pos, ReadCount(buf, old(pos)))
    {
      hide UInt;
      var present := Unsigned(4);
      if present.None? { return None; }
      if present.value == 0 { return Some(0); }
      got := Unsigned(4);
    }

    /** One value, with everything nested in it. */
    method Scval(depth: nat) returns (got: Option<Json>)
      requires pos <= |buf|
      modifies this
      ensures old(pos) <= pos <= |buf| && Agrees(got, pos, ReadScval(render, buf, old(pos), depth))
      decreases |buf| - pos, 0
    {
      hide UInt, ReadLeaf, ReadCount, ReadItems, ReadPairs, ReadExecutable, MapJson;
      got := None;
      if depth > MAX_DEPTH { return; }
      var tag := Unsigned(4);
      if tag.None? { return; }
      if tag.value == 16 {
        var len := Count();
        if len.None? { return; }
        var items := Items(len.value, depth + 1);
        if items.Some? { got := Some(Array(items.value)); }
      } else if tag.value == 17 {
        var len := Count();
        if len.None? { return; }
        got := ReadMap(len.value, depth + 1);
      } else if tag.value == 19 {
        var skipped := SkipInstance(depth);
        if skipped { got := Some(Opaque(19)); }
      } else {
        got := Leaf(tag.value);
      }
    }

    method Items(len: nat, depth: nat) returns (got: Option<seq<Json>>)
      requires pos <= |buf|
      modifies this
      ensures old(pos) <= pos <= |buf| && Agrees(got, pos, ReadItems(render, buf, old(pos), len, depth))
      decreases |buf| - pos, 1
    {
      hide ReadItems, ReadScval;
      ghost var whole := ReadItems(render, buf, pos, len, depth);
      var items: seq<Json> := [];
      ReachedNothing(whole);
      for i := 0 to len
        invariant old(pos) <= pos <= |buf|
        invariant Reached(whole, items, ReadItems(render, buf, pos, len - i, depth))
      {
        ItemsUnfold(render, buf, pos, len - i, depth);
        var v := Scval(depth);
        if v.None? { return None; }
        ReachedOneMore(whole, items, v.value, ReadItems(render, buf, pos, len - i - 1, depth));
        items := items + [v.value];
      }
      ItemsUnfold(render, buf, pos, 0, depth);
      ReachedAll(whole, items, pos);
      got := Some(items);
    }

    /** Read a map, falling back to pairs when a key is no string or two keys collide. */
    method ReadMap(len: nat, depth: nat) returns (got: Option<Json>)
      requires pos <= |buf|
      modifies this
      ensures old(pos) <= pos <= |buf|
      ensures var pairs := ReadPairs(render, buf, old(pos), len, depth);
        Agrees(got, pos, if pairs.Some? then Some(Read(MapJson(pairs.value.value), pairs.value.next)) else None)
      decreases |buf| - pos, 1
    {
      hide MapJson, AddPair, ReadScval, ReadPairs, Insert, Finish;
      ghost var whole := ReadPairs(render, buf, pos, len, depth);
      var m := MapSoFar([], [], true, false);
      StartTracks(m);
      ReachedNothing(whole);
      for i := 0 to len
        invariant old(pos) <= pos <= |buf| && Tracks(m)
        invariant Reached(whole, m.pairs, ReadPairs(render, buf, pos, len - i, depth))
      {
        hide Tracks;
        PairsUnfold(render, buf, pos, len - i, depth);
        var k := Scval(depth);
        if k.None? { return None; }
        var v := Scval(depth);
        if v.None? { return None; }
        ReachedOneMore(whole, m.pairs, KeyVal(k.value, v.value), ReadPairs(render, buf, pos, len - i - 1, depth));
        AddTracks(m, KeyVal(k.value, v.value));
        m := AddPair(m, KeyVal(k.value, v.value));
      }
      PairsUnfold(render, buf, pos, 0, depth);
      ReachedAll(whole, m.pairs, pos);
      FinishIsMap(m);
      got := Some(Finish(m));
    }

    /** Skip an instance's executable and read its storage only to stay aligned. */
    method SkipInstance(depth: nat) returns (ok: bool)
      requires pos <= |buf|
      modifies this
      ensures old(pos) <= pos <= |buf|
      ensures var exec := ReadExecutable(buf, old(pos));
        var count := if exec.Some? then ReadCount(buf, exec.value) else None;
        var pairs := if count.Some? then ReadPairs(render, buf, count.value.next, count.value.value, depth + 1)
                     else None;
        ok == pairs.Some? && (ok ==> pos == pairs.value.next)
      decreases |buf| - pos, 2
    {
      hide UInt, ReadCount, FromBigEndian;
      ok := false;
      var kind := Unsigned(4);
      if kind.None? { return; }
      if kind.value == 0 {
        var hash := Take(32);
        if hash.None? { return; }
      } else if kind.value != 1 {
        return;
      }
      var len := Count();
      if len.None? { return; }
      ok := SkipPairs(len.value, depth + 1);
    }

    method SkipPairs(len: nat, depth: nat) returns (ok: bool)
      requires pos <= |buf|
      modifies this
      ensures old(pos) <= pos <= |buf|
      ensures var pairs := ReadPairs(render, buf, old(pos), len, depth);
        ok == pairs.Some? && (ok ==> pos == pairs.value.next)
      decreases |buf| - pos, 1
    {
      hide ReadPairs, ReadScval;
      ghost var whole := ReadPairs(render, buf, pos, len, depth);
      ghost var skipped: seq<KeyVal> := [];
      ReachedNothing(whole);
      for i := 0 to len
        invariant old(pos) <= pos <= |buf|
        invariant Reached(whole, skipped, ReadPairs(render, buf, pos, len - i, depth))
      {
        PairsUnfold(render, buf, pos, len - i, depth);
        var k := Scval(depth);
        if k.None? { return false; }
        var v := Scval(depth);
        if v.None? { return false; }
        ReachedOneMore(whole, skipped, KeyVal(k.value, v.value), ReadPairs(render, buf, pos, len - i - 1, depth));
        skipped := skipped + [KeyVal(k.value, v.value)];
      }
      PairsUnfold(render, buf, pos, 0, depth);
      ReachedAll(whole, skipped, pos);
      ok := true;
    }
  }

  lemma StartTracks(m: MapSoFar)
    requires m == MapSoFar([], [], true, false)
    ensures Tracks(m)
  {
  }
}
