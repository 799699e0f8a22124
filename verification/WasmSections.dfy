/** Locating a custom section of a WASM module: LEB128, section headers, and the walk over them. */
module WasmSections {
  import opened Basics
  import opened ByteRanges

  const MAGIC: Bytes := [0x00, 0x61, 0x73, 0x6d]

  // ---- LEB128 ----

  /** `c << (7 * round)`, before any bits are dropped. */
  function Shl(c: nat, round: nat): nat
    requires round < 5
  {
    if round == 0 then c
    else if round == 1 then c * 0x80
    else if round == 2 then c * 0x4000
    else if round == 3 then c * 0x20_0000
    else c * 0x1000_0000
  }

  /** A decoded number and the position after it. */
  datatype Decoded = Decoded(value: int, next: nat)

  /** The number read from `pos` when `round` bytes of it are already read: at most five bytes, seven bits each,
      and a 32-bit shift that drops the high bits of the fifth. */
  function LebFrom(buf: Bytes, pos: nat, round: nat): (r: Option<Decoded>)
    ensures r.Some? ==> pos < r.value.next <= |buf|
    decreases 5 - round
  {
    if round >= 5 || pos >= |buf| then None
    else
      var bits := Shl(buf[pos] % 128, round) % TWO_32;
      if buf[pos] < 128 then Some(Decoded(bits, pos + 1))
      else match LebFrom(buf, pos + 1, round + 1)
        case None => None
        case Some(rest) => Some(Decoded(bits + rest.value, rest.next))
  }

  function LebAt(buf: Bytes, pos: nat): Option<Decoded> { LebFrom(buf, pos, 0) }

  /** The writer. */
  function PushLeb(v: nat): (out: Bytes)
    ensures out != []
  {
    if v < 128 then [v] else [v % 128 + 128] + PushLeb(v / 128)
  }

  /** The same bytes read without a width. */
  function Unbounded(buf: Bytes, pos: nat, round: nat): (v: nat)
    decreases 5 - round
  {
    if round >= 5 || pos >= |buf| then 0
    else Shl(buf[pos] % 128, round) + if buf[pos] < 128 then 0 else Unbounded(buf, pos + 1, round + 1)
  }

  /** Seven more bits leave room for what is already read, and only the fifth byte can lose any. */
  lemma SevenBits(c: nat, round: nat)
    requires c < 128 && round < 5
    ensures Shl(c, round) % TWO_32 + Shl(1, round) <= if round < 4 then Shl(1, round + 1) else TWO_32
    ensures round < 4 ==> Shl(c, round) < TWO_32 && Shl(1, round + 1) < TWO_32
  {
    assert round == 4 ==> Shl(c, round) % TWO_32 == (c % 16) * 0x1000_0000;
  }

  lemma ModSum(a: nat, b: nat)
    requires a % TWO_32 + b % TWO_32 < TWO_32
    ensures (a + b) % TWO_32 == a % TWO_32 + b % TWO_32
  {
  }

  lemma {:induction false} LebMultiple(buf: Bytes, pos: nat, round: nat)
    requires LebFrom(buf, pos, round).Some?
    ensures round < 5 && pos < |buf|
    ensures var v := LebFrom(buf, pos, round).value.value;
      0 <= v && v + Shl(1, round) <= TWO_32 && v == Unbounded(buf, pos, round) % TWO_32
    decreases 5 - round
  {
    var c := buf[pos] % 128;
    SevenBits(c, round);
    if buf[pos] >= 128 {
      LebMultiple(buf, pos + 1, round + 1);
      hide Shl;
      ModSum(Shl(c, round), Unbounded(buf, pos + 1, round + 1));
    }
  }

  /** On any bytes the reader returns the true number modulo two to the 32: it is the true number exactly when that
      fits. */
  lemma LebIsTruncated(buf: Bytes, pos: nat)
    requires LebAt(buf, pos).Some?
    ensures LebAt(buf, pos).value.value == Unbounded(buf, pos, 0) % TWO_32
    ensures LebAt(buf, pos).value.value == Unbounded(buf, pos, 0) <==> Unbounded(buf, pos, 0) < TWO_32
  {
    hide LebFrom, Unbounded;
    LebMultiple(buf, pos, 0);
  }

  lemma SplitShl(v: nat, round: nat)
    requires round < 5 && Shl(v, round) < TWO_32
    ensures v >= 128 ==> round < 4
    ensures v < 128 ==> Shl(v % 128, round) % TWO_32 == Shl(v, round)
    ensures round < 4 ==> Shl(v % 128, round) % TWO_32 + Shl(v / 128, round + 1) == Shl(v, round)
  {
    var q, c := v / 128, v % 128;
    assert v == 128 * q + c;
    assert round < 4 ==> Shl(c, round) + Shl(q, round + 1) == Shl(v, round);
  }

  lemma HoldsTail(buf: Bytes, pos: nat, out: Bytes)
    requires out != [] && Holds(buf, pos, out)
    ensures pos < |buf| && buf[pos] == out[0] && Holds(buf, pos + 1, out[1..])
  {
    assert buf[pos..pos + |out|][0] == buf[pos];
    assert buf[pos + 1..pos + |out|] == buf[pos..pos + |out|][1..];
  }

  lemma {:induction false} LebOfPush(buf: Bytes, pos: nat, round: nat, v: nat)
    requires round < 5 && Shl(v, round) < TWO_32 && Holds(buf, pos, PushLeb(v))
    ensures LebFrom(buf, pos, round) == Some(Decoded(Shl(v, round), pos + |PushLeb(v)|))
    decreases v
  {
    hide Holds, LebFrom, Shl;
    SplitShl(v, round);
    HoldsTail(buf, pos, PushLeb(v));
    LebStep(buf, pos, round);
    if v >= 128 {
      PushStep(v);
      hide PushLeb;
      LebOfPush(buf, pos + 1, round + 1, v / 128);
    }
  }

  lemma LebStep(buf: Bytes, pos: nat, round: nat)
    requires round < 5 && pos < |buf|
    ensures var bits := Shl(buf[pos] % 128, round) % TWO_32;
      && (buf[pos] < 128 ==> LebFrom(buf, pos, round) == Some(Decoded(bits, pos + 1)))
      && (buf[pos] >= 128 && LebFrom(buf, pos + 1, round + 1).Some? ==>
            var rest := LebFrom(buf, pos + 1, round + 1).value;
            LebFrom(buf, pos, round) == Some(Decoded(bits + rest.value, rest.next)))
  {
    hide Shl;
  }

  lemma PushStep(v: nat)
    requires v >= 128
    ensures PushLeb(v) == [v % 128 + 128] + PushLeb(v / 128) && PushLeb(v)[1..] == PushLeb(v / 128)
    ensures (v % 128 + 128) % 128 == v % 128
  {
  }

  /** The reader inverts the writer for every 32-bit number, with anything before and after. */
  lemma LebRoundTrip(before: Bytes, v: nat, after: Bytes)
    requires v < TWO_32
    ensures LebAt(before + PushLeb(v) + after, |before|) == Some(Decoded(v, |before| + |PushLeb(v)|))
  {
    var buf := before + PushLeb(v) + after;
    assert Holds(buf, |before|, PushLeb(v));
    LebOfPush(buf, |before|, 0, v);
  }

  // ---- sections ----

  /** A section header at `pos`: its id and the bounds of its body. */
  datatype Header = Header(id: byte, start: nat, end: nat)

  function HeaderAt(buf: Bytes, pos: nat): (r: Option<Header>)
    ensures r.Some? ==> pos < r.value.start <= r.value.end <= |buf|
  {
    if pos >= |buf| then None
    else match LebAt(buf, pos + 1)
      case None => None
      case Some(size) =>
        if size.value < 0 || size.next + size.value > |buf| then None
        else Some(Header(buf[pos], size.next, size.next + size.value))
  }

  /** A half-open range of the module's bytes. */
  datatype Range = Range(start: nat, end: nat)

  /** The bounds of the name at the start of a body. It may run past the body, not past the module. */
  function NameAt(buf: Bytes, start: nat): (r: Option<Range>)
    ensures r.Some? ==> start < r.value.start <= r.value.end <= |buf|
  {
    match LebAt(buf, start)
    case None => None
    case Some(len) =>
      if len.value < 0 || len.next + len.value > |buf| then None
      else Some(Range(len.next, len.next + len.value))
  }

  /** The walk from a section boundary. A malformed header or name ends it; `get` of a reversed range is nothing. */
  function FindFrom(buf: Bytes, pos: nat, want: Bytes): (r: Option<Range>)
    decreases |buf| - pos
  {
    if pos >= |buf| then None
    else match HeaderAt(buf, pos)
      case None => None
      case Some(h) =>
        if h.id != 0 then FindFrom(buf, h.end, want)
        else match NameAt(buf, h.start)
          case None => None
          case Some(name) =>
            if buf[name.start..name.end] != want then FindFrom(buf, h.end, want)
            else if name.end <= h.end then Some(Range(name.end, h.end)) else None
  }

  function Find(wasm: Bytes, want: Bytes): Option<Range> {
    if |wasm| < 8 || wasm[..4] != MAGIC then None else FindFrom(wasm, 8, want)
  }

  // ---- the reader ----

  class Reader {
    const buf: Bytes
    var pos: nat

    constructor (bytes: Bytes)
      ensures buf == bytes && pos == 0
    {
      buf := bytes;
      pos := 0;
    }

    method Byte() returns (r: Option<byte>)
      requires pos <= |buf|
      modifies this
      ensures r == if old(pos) < |buf| then Some(buf[old(pos)]) else None
      ensures pos == if r.Some? then old(pos) + 1 else old(pos)
    {
      if pos >= |buf| { return None; }
      r := Some(buf[pos]);
      pos := pos + 1;
    }

    method Take(n: nat) returns (r: Option<Bytes>)
      requires pos <= |buf|
      modifies this
      ensures r == if old(pos) + n <= |buf| then Some(buf[old(pos)..old(pos) + n]) else None
      ensures pos == if r.Some? then old(pos) + n else old(pos)
    {
      var end := pos + n;
      if end > |buf| { return None; }
      r := Some(buf[pos..end]);
      pos := end;
    }

    /** A failed read leaves the position on the last byte it used up. */
    method LebU32() returns (r: Option<int>)
      requires pos <= |buf|
      modifies this
      ensures old(pos) <= pos <= |buf|
      ensures r.Some? <==> LebAt(buf, old(pos)).Some?
      ensures r.Some? ==> r.value == LebAt(buf, old(pos)).value.value && pos == LebAt(buf, old(pos)).value.next
      ensures r.Some? ==> 0 <= r.value < TWO_32
    {
      ghost var whole := LebAt(buf, pos);
      if whole.Some? { LebMultiple(buf, pos, 0); }
      var result := 0;
      for round := 0 to 5
        invariant old(pos) <= pos <= |buf|
        invariant whole.Some? <==> LebFrom(buf, pos, round).Some?
        invariant whole.Some? ==>
          whole.value.value == result + LebFrom(buf, pos, round).value.value
            && whole.value.next == LebFrom(buf, pos, round).value.next
      {
        var next := Byte();
        if next.None? { return None; }
        var b := next.value;
        result := result + Shl(b % 128, round) % TWO_32;
        if b < 128 { return Some(result); }
      }
      r := None;
    }
  }

  /** The walk as it is coded, over a reader whose position jumps from section to section. */
  method CustomSection(wasm: Bytes, want: Bytes) returns (content: Option<Bytes>)
    ensures content.Some? <==> Find(wasm, want).Some?
    ensures content.Some? ==> Find(wasm, want).value.start <= Find(wasm, want).value.end <= |wasm|
    ensures content.Some? ==> content.value == wasm[Find(wasm, want).value.start..Find(wasm, want).value.end]
  {
    hide LebFrom;
    var c := new Reader(wasm);
    var magic := c.Take(4);
    if magic.None? || magic.value != MAGIC { return None; }
    var version := c.Take(4);
    if version.None? { return None; }
    while c.pos < |wasm|
      invariant c.buf == wasm && c.pos <= |wasm|
      invariant |wasm| >= 8 && wasm[..4] == MAGIC
      invariant FindFrom(wasm, c.pos, want) == FindFrom(wasm, 8, want)
      decreases |wasm| - c.pos
    {
      ghost var here := c.pos;
      var id := c.Byte();
      var size := c.LebU32();
      if size.None? { return None; }
      var bodyStart := c.pos;
      var bodyEnd := bodyStart + size.value;
      if bodyEnd > |wasm| { return None; }
      assert HeaderAt(wasm, here) == Some(Header(id.value, bodyStart, bodyEnd));
      if id.value == 0 {
        var nameLen := c.LebU32();
        if nameLen.None? { return None; }
        var name := c.Take(nameLen.value);
        if name.None? { return None; }
        assert NameAt(wasm, bodyStart) == Some(Range(c.pos - nameLen.value, c.pos));
        if name.value == want {
          return if c.pos <= bodyEnd then Some(wasm[c.pos..bodyEnd]) else None;
        }
      }
      c.pos := bodyEnd;
    }
    content := None;
  }

  // ---- arbitrary bytes ----

  /** `at` is a section boundary the walk from `pos` can stand on. */
  ghost predicate Boundary(buf: Bytes, pos: nat, at: nat)
    decreases |buf| - pos
  {
    pos == at || (pos < |buf| && HeaderAt(buf, pos).Some? && Boundary(buf, HeaderAt(buf, pos).value.end, at))
  }

  /** What is found is the whole content, after the wanted name, of a custom section that really stands in the
      module. */
  ghost predicate ContentOf(buf: Bytes, at: nat, want: Bytes, found: Range) {
    && at < |buf| && HeaderAt(buf, at).Some?
    && var h := HeaderAt(buf, at).value;
    && h.id == 0 && h.start < found.start <= found.end == h.end
    && NameAt(buf, h.start).Some?
    && var name := NameAt(buf, h.start).value;
    && name.end == found.start && buf[name.start..name.end] == want
  }

  lemma {:induction false} FoundFrom(buf: Bytes, pos: nat, want: Bytes) returns (at: nat)
    requires FindFrom(buf, pos, want).Some?
    ensures Boundary(buf, pos, at) && ContentOf(buf, at, want, FindFrom(buf, pos, want).value)
    decreases |buf| - pos
  {
    var h := HeaderAt(buf, pos).value;
    if ContentOf(buf, pos, want, FindFrom(buf, pos, want).value) {
      at := pos;
    } else {
      at := FoundFrom(buf, h.end, want);
    }
  }

  /** On arbitrary bytes a result lies inside one custom section of that name, on a boundary the headers lead to. */
  lemma FoundInside(wasm: Bytes, want: Bytes) returns (at: nat)
    requires Find(wasm, want).Some?
    ensures Boundary(wasm, 8, at) && ContentOf(wasm, at, want, Find(wasm, want).value)
  {
    at := FoundFrom(wasm, 8, want);
  }

  // ---- serialized modules ----

  datatype Section = Custom(name: Bytes, content: Bytes) | Other(id: byte, payload: Bytes)

  function Body(s: Section): Bytes {
    match s
    case Custom(name, content) => PushLeb(|name|) + name + content
    case Other(_, payload) => payload
  }

  /** A section as section 5.5.2 of the WebAssembly Core Specification has it. */
  function SectionBytes(s: Section): Bytes { Raw(if s.Custom? then 0 else s.id, Body(s)) }

  function Raw(id: byte, body: Bytes): Bytes { [id] + PushLeb(|body|) + body }

  function SectionsBytes(ss: seq<Section>): Bytes {
    if ss == [] then [] else SectionBytes(ss[0]) + SectionsBytes(ss[1..])
  }

  predicate WellFormed(s: Section) { |Body(s)| < TWO_32 && (s.Other? ==> s.id != 0) }

  function FirstNamed(ss: seq<Section>, want: Bytes): Option<Bytes> {
    if ss == [] then None
    else if ss[0].Custom? && ss[0].name == want then Some(ss[0].content)
    else FirstNamed(ss[1..], want)
  }

  lemma HeaderOfBody(before: Bytes, id: byte, body: Bytes, after: Bytes)
    requires |body| < TWO_32
    ensures var buf, start := before + Raw(id, body) + after, |before| + |Raw(id, body)| - |body|;
      && HeaderAt(buf, |before|) == Some(Header(id, start, start + |body|)) && buf[start..start + |body|] == body
  {
    hide LebFrom, PushLeb;
    var buf := before + Raw(id, body) + after;
    LebRoundTrip(before + [id], |body|, body + after);
    assert buf == before + [id] + PushLeb(|body|) + (body + after);
    assert buf[|before|] == id;
  }

  lemma HeaderOfSection(before: Bytes, s: Section, after: Bytes)
    requires WellFormed(s)
    ensures var buf, pos := before + SectionBytes(s) + after, |before|;
      && HeaderAt(buf, pos)
         == Some(Header(if s.Custom? then 0 else s.id, pos + |SectionBytes(s)| - |Body(s)|, pos + |SectionBytes(s)|))
      && buf[pos + |SectionBytes(s)| - |Body(s)|..pos + |SectionBytes(s)|] == Body(s)
  {
    hide PushLeb, Body;
    HeaderOfBody(before, if s.Custom? then 0 else s.id, Body(s), after);
  }

  lemma NameOfSection(buf: Bytes, start: nat, s: Section)
    requires s.Custom? && WellFormed(s)
    requires start + |Body(s)| <= |buf| && buf[start..start + |Body(s)|] == Body(s)
    ensures var nameEnd := start + |Body(s)| - |s.content|;
      && NameAt(buf, start) == Some(Range(nameEnd - |s.name|, nameEnd))
      && buf[nameEnd - |s.name|..nameEnd] == s.name
      && buf[nameEnd..start + |Body(s)|] == s.content
  {
    hide PushLeb, LebFrom;
    var size := PushLeb(|s.name|);
    assert Holds(buf, start, size + s.name + s.content);
    HoldsBoth(buf, start, size + s.name, s.content);
    HoldsBoth(buf, start, size, s.name);
    LebOfPush(buf, start, 0, |s.name|);
  }

  lemma {:induction false} FindAmong(before: Bytes, ss: seq<Section>, want: Bytes)
    requires forall i :: 0 <= i < |ss| ==> WellFormed(ss[i])
    ensures var buf, r := before + SectionsBytes(ss), FindFrom(before + SectionsBytes(ss), |before|, want);
      && (r.Some? <==> FirstNamed(ss, want).Some?)
      && (r.Some? ==>
          r.value.start <= r.value.end <= |buf| && buf[r.value.start..r.value.end] == FirstNamed(ss, want).value)
    decreases |ss|
  {
    hide HeaderAt, NameAt, SectionBytes, Body, PushLeb;
    var buf := before + SectionsBytes(ss);
    if ss != [] {
      var s, after := ss[0], SectionsBytes(ss[1..]);
      var next := before + SectionBytes(s);
      assert buf == before + SectionBytes(s) + after == next + after;
      HeaderOfSection(before, s, after);
      var h := HeaderAt(buf, |before|).value;
      if s.Custom? { NameOfSection(buf, h.start, s); }
      FindAmong(next, ss[1..], want);
      hide SectionsBytes;
    }
  }

  /** On any serialized module the walk returns exactly the content of the first custom section of that name. */
  lemma FindsFirstNamed(version: Bytes, ss: seq<Section>, want: Bytes)
    requires |version| == 4 && forall i :: 0 <= i < |ss| ==> WellFormed(ss[i])
    ensures var wasm, r := MAGIC + version + SectionsBytes(ss), Find(MAGIC + version + SectionsBytes(ss), want);
      && (r.Some? <==> FirstNamed(ss, want).Some?)
      && (r.Some? ==>
          r.value.start <= r.value.end <= |wasm| && wasm[r.value.start..r.value.end] == FirstNamed(ss, want).value)
  {
    FindStarts(version, SectionsBytes(ss), want);
    FindAmong(MAGIC + version, ss, want);
  }

  // ---- a name that runs past its section ----

  /** A custom section whose name claims more bytes than its body has left. */
  function Overrunning(nameLen: nat, part: Bytes): Bytes { Raw(0, PushLeb(nameLen) + part) }

  /** The walk reads such a name out of the sections that follow, and then goes on as if nothing were wrong. */
  lemma OverrunIsSkipped(version: Bytes, nameLen: nat, part: Bytes, ss: seq<Section>, want: Bytes)
    requires |version| == 4 && forall i :: 0 <= i < |ss| ==> WellFormed(ss[i])
    requires nameLen < TWO_32 && |PushLeb(nameLen)| + |part| < TWO_32
    requires |part| < nameLen <= |part| + |SectionsBytes(ss)| && (part + SectionsBytes(ss))[..nameLen] != want
    ensures var wasm := MAGIC + version + Overrunning(nameLen, part) + SectionsBytes(ss);
      var h, r := HeaderAt(wasm, 8), Find(wasm, want);
      && h.Some? && h.value.id == 0 && NameAt(wasm, h.value.start).Some?
      && NameAt(wasm, h.value.start).value.end > h.value.end
      && (r.Some? <==> FirstNamed(ss, want).Some?)
      && (r.Some? ==>
          r.value.start <= r.value.end <= |wasm| && wasm[r.value.start..r.value.end] == FirstNamed(ss, want).value)
  {
    hide SectionsBytes, PushLeb, LebFrom, FirstNamed, WellFormed, HeaderAt, NameAt, Find;
    var before, rest, body := MAGIC + version, SectionsBytes(ss), PushLeb(nameLen) + part;
    var wasm := before + Overrunning(nameLen, part) + rest;
    HeaderOfBody(before, 0, body, rest);
    FindStarts(version, Overrunning(nameLen, part) + rest, want);
    assert wasm == MAGIC + version + (Overrunning(nameLen, part) + rest);
    hide Overrunning;
    OverrunningName(wasm, HeaderAt(wasm, 8).value.start, nameLen, part, rest);
    FindAmong(before + Overrunning(nameLen, part), ss, want);
    SkipsOther(wasm, want);
  }

  lemma FindStarts(version: Bytes, rest: Bytes, want: Bytes)
    requires |version| == 4
    ensures var wasm := MAGIC + version + rest; Find(wasm, want) == FindFrom(wasm, 8, want)
  {
    hide FindFrom;
    assert (MAGIC + version + rest)[..4] == MAGIC;
  }

  /** The walk passes a custom section of another name. */
  lemma SkipsOther(buf: Bytes, want: Bytes)
    requires |buf| > 8 && HeaderAt(buf, 8).Some? && HeaderAt(buf, 8).value.id == 0
    requires var name := NameAt(buf, HeaderAt(buf, 8).value.start);
      name.Some? && buf[name.value.start..name.value.end] != want
    ensures FindFrom(buf, 8, want) == FindFrom(buf, HeaderAt(buf, 8).value.end, want)
  {
    hide HeaderAt, NameAt;
  }

  lemma OverrunningName(buf: Bytes, start: nat, nameLen: nat, part: Bytes, rest: Bytes)
    requires start <= |buf| && buf[start..] == PushLeb(nameLen) + part + rest
    requires nameLen < TWO_32 && nameLen <= |part| + |rest|
    ensures var at := start + |PushLeb(nameLen)|;
      NameAt(buf, start) == Some(Range(at, at + nameLen)) && buf[at..at + nameLen] == (part + rest)[..nameLen]
  {
    var size := PushLeb(nameLen);
    hide PushLeb;
    assert buf[start..] == size + (part + rest);
    assert buf[start..start + |size|] == buf[start..][..|size|] == size;
    LebOfPush(buf, start, 0, nameLen);
    assert buf[start + |size|..] == buf[start..][|size|..] == part + rest;
    assert buf[start + |size|..start + |size| + nameLen] == buf[start + |size|..][..nameLen];
  }
}
