/** The XDR wire form of contract values (RFC 4506), and what the byte-level reader makes of any bytes. */
module XdrWire {
  import opened Basics
  import opened ByteRanges
  import opened Json
  import opened ScVal
  import opened TypedValues
  import Decimal
  import Hex

  const MAX_DEPTH: nat := 256

  /** How bytes become text (UTF-8, or hex when they are not) and addresses become strkeys. */
  datatype Rendering = Rendering(text: Bytes -> string, address: ScAddress -> string)

  // ---- the encoding ----

  /** Section 4.1 and 4.5 of RFC 4506: big-endian integers. */
  function BigEndian(n: nat, size: nat): (b: Bytes)
    ensures |b| == size
  {
    if size == 0 then [] else BigEndian(n / 256, size - 1) + [n % 256]
  }

  function U32(n: nat): Bytes { BigEndian(n, 4) }
  function U64(n: nat): Bytes { BigEndian(n, 8) }
  function I32(n: int): Bytes { BigEndian(n % TWO_32, 4) }
  function I64(n: int): Bytes { BigEndian(n % TWO_64, 8) }

  function Padding(len: nat): nat { (4 - len % 4) % 4 }

  function Zeros(n: nat): (b: Bytes)
    ensures |b| == n
  {
    if n == 0 then [] else [0] + Zeros(n - 1)
  }

  /** Section 4.10 of RFC 4506: a length, the bytes, and padding to a multiple of four. */
  function VarOpaque(b: Bytes): Bytes { U32(|b|) + b + Zeros(Padding(|b|)) }

  function Tag(sv: ScVal): nat {
    match sv
    case ScvBool(_) => 0
    case ScvVoid => 1
    case ScvError(_, _) => 2
    case ScvU32(_) => 3
    case ScvI32(_) => 4
    case ScvU64(_) => 5
    case ScvI64(_) => 6
    case ScvTimepoint(_) => 7
    case ScvDuration(_) => 8
    case ScvU128(_, _) => 9
    case ScvI128(_, _) => 10
    case ScvU256(_, _, _, _) => 11
    case ScvI256(_, _, _, _) => 12
    case ScvBytes(_) => 13
    case ScvString(_) => 14
    case ScvSymbol(_) => 15
    case ScvVecAbsent => 16
    case ScvVec(_) => 16
    case ScvMapAbsent => 17
    case ScvMap(_) => 17
    case ScvAddress(_) => 18
    case ScvContractInstance(_, _, _) => 19
    case ScvLedgerKeyContractInstance => 20
    case ScvLedgerKeyNonce(_) => 21
  }

  function AddressBytes(a: ScAddress): Bytes {
    match a
    case Account(key) => U32(0) + U32(0) + key
    case Contract(hash) => U32(1) + hash
    case MuxedAccount(id, key) => U32(2) + U64(id) + key
    case ClaimableBalance(hash) => U32(3) + U32(0) + hash
    case LiquidityPool(hash) => U32(4) + hash
  }

  predicate IsU32(n: int) { 0 <= n < TWO_32 }
  predicate IsI32(n: int) { -0x8000_0000 <= n < 0x8000_0000 }

  predicate IsLeaf(sv: ScVal) {
    !sv.ScvVecAbsent? && !sv.ScvVec? && !sv.ScvMapAbsent? && !sv.ScvMap? && !sv.ScvContractInstance?
  }

  /** A leaf the wire form can hold: every integer in range, every length a 32-bit number. */
  predicate WireableLeaf(sv: ScVal)
    requires IsLeaf(sv)
  {
    match sv
    case ScvBool(_) => true
    case ScvVoid => true
    case ScvError(kind, code) => IsU32(kind) && IsU32(code)
    case ScvU32(n) => IsU32(n)
    case ScvI32(n) => IsI32(n)
    case ScvU64(n) => IsU64(n)
    case ScvI64(n) => IsI64(n)
    case ScvTimepoint(n) => IsU64(n)
    case ScvDuration(n) => IsU64(n)
    case ScvU128(hi, lo) => IsU64(hi) && IsU64(lo)
    case ScvI128(hi, lo) => IsI64(hi) && IsU64(lo)
    case ScvU256(a, b, c, d) => IsU64(a) && IsU64(b) && IsU64(c) && IsU64(d)
    case ScvI256(a, b, c, d) => IsI64(a) && IsU64(b) && IsU64(c) && IsU64(d)
    case ScvBytes(b) => |b| < TWO_32
    case ScvString(b) => |b| < TWO_32
    case ScvSymbol(b) => |b| < TWO_32
    case ScvAddress(a) => WellFormedAddress(a)
    case ScvLedgerKeyContractInstance => true
    case ScvLedgerKeyNonce(nonce) => IsI64(nonce)
  }

  function LeafBytes(sv: ScVal): Bytes
    requires IsLeaf(sv) && WireableLeaf(sv)
  {
    match sv
    case ScvBool(b) => U32(if b then 1 else 0)
    case ScvVoid => []
    case ScvError(kind, code) => U32(kind) + U32(code)
    case ScvU32(n) => U32(n)
    case ScvI32(n) => I32(n)
    case ScvU64(n) => U64(n)
    case ScvI64(n) => I64(n)
    case ScvTimepoint(n) => U64(n)
    case ScvDuration(n) => U64(n)
    case ScvU128(hi, lo) => U64(hi) + U64(lo)
    case ScvI128(hi, lo) => I64(hi) + U64(lo)
    case ScvU256(a, b, c, d) => U64(a) + U64(b) + U64(c) + U64(d)
    case ScvI256(a, b, c, d) => I64(a) + U64(b) + U64(c) + U64(d)
    case ScvBytes(b) => VarOpaque(b)
    case ScvString(b) => VarOpaque(b)
    case ScvSymbol(b) => VarOpaque(b)
    case ScvAddress(a) => AddressBytes(a)
    case ScvLedgerKeyContractInstance => []
    case ScvLedgerKeyNonce(nonce) => I64(nonce)
  }

  predicate Wireable(sv: ScVal)
    decreases sv
  {
    match sv
    case ScvVecAbsent => true
    case ScvVec(items) => |items| < TWO_32 && forall i :: 0 <= i < |items| ==> Wireable(items[i])
    case ScvMapAbsent => true
    case ScvMap(entries) => |entries| < TWO_32 && forall i :: 0 <= i < |entries| ==> WireableEntry(entries[i])
    case ScvContractInstance(exec, storage, has) =>
      && (exec.Wasm? ==> |exec.hash| == 32)
      && (!has ==> storage == [])
      && |storage| < TWO_32 && forall i :: 0 <= i < |storage| ==> WireableEntry(storage[i])
    case _ => WireableLeaf(sv)
  }

  predicate WireableEntry(e: Entry)
    decreases e
  {
    Wireable(e.key) && Wireable(e.val)
  }

  function ExecutableBytes(exec: Executable): Bytes {
    match exec
    case Wasm(hash) => U32(0) + hash
    case StellarAsset => U32(1)
  }

  /** The tag, and then the payload; sections 4.13 and 4.19 of RFC 4506 for arrays and optional data. */
  function Wire(sv: ScVal): Bytes
    requires Wireable(sv)
    decreases sv
  {
    U32(Tag(sv)) +
    match sv
    case ScvVecAbsent => U32(0)
    case ScvVec(items) => U32(1) + (U32(|items|) + WireAll(items))
    case ScvMapAbsent => U32(0)
    case ScvMap(entries) => U32(1) + (U32(|entries|) + WireEntries(entries))
    case ScvContractInstance(exec, storage, has) =>
      ExecutableBytes(exec) + if has then U32(1) + (U32(|storage|) + WireEntries(storage)) else U32(0)
    case _ => LeafBytes(sv)
  }

  function WireAll(items: seq<ScVal>): Bytes
    requires forall i :: 0 <= i < |items| ==> Wireable(items[i])
    decreases items
  {
    if items == [] then [] else Wire(items[0]) + WireAll(items[1..])
  }

  function WireEntry(e: Entry): Bytes
    requires WireableEntry(e)
    decreases e
  {
    Wire(e.key) + Wire(e.val)
  }

  function WireEntries(entries: seq<Entry>): Bytes
    requires forall i :: 0 <= i < |entries| ==> WireableEntry(entries[i])
    decreases entries
  {
    if entries == [] then [] else WireEntry(entries[0]) + WireEntries(entries[1..])
  }

  // ---- what the reader shows of a value ----

  function ErrorKind(kind: nat): (name: string)
    ensures kind == 0 <==> name == "Contract"
  {
    var names := ["Contract", "WasmVm", "Context", "Storage", "Object", "Crypto", "Events", "Budget", "Value", "Auth"];
    if kind < 10 then names[kind] else "Unknown"
  }

  function HostCode(code: nat): string {
    var names := ["ArithDomain", "IndexBounds", "InvalidInput", "MissingValue", "ExistingValue", "ExceededLimit",
                  "InvalidAction", "InternalError", "UnexpectedType", "UnexpectedSize"];
    if code < 10 then names[code] else "Unknown"
  }

  function ErrorJson(kind: nat, code: nat): Json {
    var codeJson := if kind == 0 then Int(code) else Str(HostCode(code));
    Object([Member("error", Object([Member("type", Str(ErrorKind(kind))), Member("code", codeJson)]))])
  }

  function Wide(b: Bytes): Json { Object([Member("_u256_hex", Str(Hex.Encode(b)))]) }

  function Opaque(tag: nat): Json { Object([Member("_xdr_tag", Int(tag))]) }

  function LeafJson(r: Rendering, sv: ScVal): Json
    requires IsLeaf(sv) && WireableLeaf(sv)
  {
    match sv
    case ScvBool(b) => Bool(b)
    case ScvVoid => Null
    case ScvError(kind, code) => ErrorJson(kind, code)
    case ScvU32(n) => Int(n)
    case ScvI32(n) => Int(n)
    case ScvU64(n) => Str(Decimal.IntText(n))
    case ScvI64(n) => Str(Decimal.IntText(n))
    case ScvTimepoint(n) => Str(Decimal.IntText(n))
    case ScvDuration(n) => Str(Decimal.IntText(n))
    case ScvU128(hi, lo) => Str(Decimal.IntText(hi * TWO_64 + lo))
    case ScvI128(hi, lo) => Str(Decimal.IntText(hi * TWO_64 + lo))
    case ScvU256(_, _, _, _) => Wide(LeafBytes(sv))
    case ScvI256(_, _, _, _) => Wide(LeafBytes(sv))
    case ScvBytes(b) => Str("0x" + Hex.Encode(b))
    case ScvString(b) => Str(r.text(b))
    case ScvSymbol(b) => Str(r.text(b))
    case ScvAddress(a) => Str(r.address(a))
    case ScvLedgerKeyContractInstance => Opaque(20)
    case ScvLedgerKeyNonce(_) => Opaque(21)
  }

  datatype KeyVal = KeyVal(key: Json, val: Json)

  predicate AllStrings(pairs: seq<KeyVal>) { forall i :: 0 <= i < |pairs| ==> pairs[i].key.Str? }

  predicate NoCollision(pairs: seq<KeyVal>) {
    forall i, j :: 0 <= i < j < |pairs| ==> pairs[i].key != pairs[j].key
  }

  function Members(pairs: seq<KeyVal>): (ms: seq<Member>)
    requires AllStrings(pairs)
    ensures |ms| == |pairs| && forall i :: 0 <= i < |ms| ==> ms[i] == Member(pairs[i].key.text, pairs[i].val)
  {
    if pairs == [] then [] else [Member(pairs[0].key.text, pairs[0].val)] + Members(pairs[1..])
  }

  function PairObjects(pairs: seq<KeyVal>): (vs: seq<Json>)
    ensures |vs| == |pairs|
    ensures forall i :: 0 <= i < |vs| ==> vs[i] == Object([Member("key", pairs[i].key), Member("val", pairs[i].val)])
  {
    if pairs == [] then []
    else [Object([Member("key", pairs[0].key), Member("val", pairs[0].val)])] + PairObjects(pairs[1..])
  }

  predicate ShowsAsObject(pairs: seq<KeyVal>) { AllStrings(pairs) && NoCollision(pairs) }

  /** A plain object when every key is a string and no two collide, `{key, val}` pairs otherwise. */
  function MapJson(pairs: seq<KeyVal>): Json {
    if ShowsAsObject(pairs) then Object(Members(pairs)) else Array(PairObjects(pairs))
  }

  ghost predicate SameKeyVal(p: KeyVal, q: KeyVal) { SameJson(p.key, q.key) && SameJson(p.val, q.val) }

  ghost predicate StandsIn(p: KeyVal, qs: seq<KeyVal>) { exists j :: 0 <= j < |qs| && SameKeyVal(p, qs[j]) }

  /** As many pairs, each standing in both: anywhere when they show as an object, in place when they show as pairs. */
  ghost predicate SamePairs(ps: seq<KeyVal>, qs: seq<KeyVal>) {
    && |ps| == |qs| && (ShowsAsObject(ps) <==> ShowsAsObject(qs))
    && if ShowsAsObject(ps) then forall i :: 0 <= i < |ps| ==> StandsIn(ps[i], qs)
       else forall i :: 0 <= i < |ps| ==> SameKeyVal(ps[i], qs[i])
  }

  /** What a map's JSON tells: its pairs, and their order only when it shows as pairs. */
  lemma MapLosesOnlyOrder(ps: seq<KeyVal>, qs: seq<KeyVal>)
    ensures SameJson(MapJson(ps), MapJson(qs)) <==> SamePairs(ps, qs)
  {
    hide SameKeyVal, AllStrings, NoCollision;
    if ShowsAsObject(ps) && ShowsAsObject(qs) {
      ObjectsTell(ps, qs);
    } else if !ShowsAsObject(ps) && !ShowsAsObject(qs) {
      PairsTell(ps, qs);
    }
  }

  lemma {:induction false} ObjectsTell(ps: seq<KeyVal>, qs: seq<KeyVal>)
    requires AllStrings(ps) && AllStrings(qs)
    ensures SameJson(Object(Members(ps)), Object(Members(qs)))
            <==> |ps| == |qs| && forall i :: 0 <= i < |ps| ==> StandsIn(ps[i], qs)
  {
    var ms, ns := Members(ps), Members(qs);
    forall i | 0 <= i < |ms| ensures Matched(ms[i], ns) <==> StandsIn(ps[i], qs) { MemberStands(ps[i], qs); }
    hide Matched, StandsIn, Members;
  }

  lemma {:induction false} MemberStands(p: KeyVal, qs: seq<KeyVal>)
    requires p.key.Str? && AllStrings(qs)
    ensures Matched(Member(p.key.text, p.val), Members(qs)) <==> StandsIn(p, qs)
  {
    var m, ns := Member(p.key.text, p.val), Members(qs);
    forall j | 0 <= j < |ns| ensures SameMember(m, ns[j]) <==> SameKeyVal(p, qs[j]) { SameNamed(p, qs[j]); }
    hide SameMember, SameKeyVal, Members;
    if Matched(m, ns) {
      var j :| 0 <= j < |ns| && SameMember(m, ns[j]);
      assert SameKeyVal(p, qs[j]);
    }
    if StandsIn(p, qs) {
      var j :| 0 <= j < |qs| && SameKeyVal(p, qs[j]);
      assert SameMember(m, ns[j]);
    }
  }

  lemma SameNamed(p: KeyVal, q: KeyVal)
    requires p.key.Str? && q.key.Str?
    ensures SameMember(Member(p.key.text, p.val), Member(q.key.text, q.val)) <==> SameKeyVal(p, q)
  {
  }

  lemma {:induction false} PairsTell(ps: seq<KeyVal>, qs: seq<KeyVal>)
    ensures SameJson(Array(PairObjects(ps)), Array(PairObjects(qs)))
            <==> |ps| == |qs| && forall i :: 0 <= i < |ps| ==> SameKeyVal(ps[i], qs[i])
  {
    var vs, ws := PairObjects(ps), PairObjects(qs);
    if |ps| == |qs| {
      forall i | 0 <= i < |ps| ensures SameJson(vs[i], ws[i]) <==> SameKeyVal(ps[i], qs[i]) {
        SamePair(ps[i].key, ps[i].val, qs[i].key, qs[i].val);
      }
    }
    hide SameKeyVal, PairObjects, Matched;
  }

  function Shown(r: Rendering, sv: ScVal): Json
    requires Wireable(sv)
    decreases sv
  {
    match sv
    case ScvVecAbsent => Array([])
    case ScvVec(items) => Array(ShownAll(r, items))
    case ScvMapAbsent => Object([])
    case ScvMap(entries) => MapJson(ShownEntries(r, entries))
    case ScvContractInstance(_, _, _) => Opaque(19)
    case _ => LeafJson(r, sv)
  }

  function ShownAll(r: Rendering, items: seq<ScVal>): seq<Json>
    requires forall i :: 0 <= i < |items| ==> Wireable(items[i])
    decreases items
  {
    if items == [] then [] else [Shown(r, items[0])] + ShownAll(r, items[1..])
  }

  function ShownEntry(r: Rendering, e: Entry): KeyVal
    requires WireableEntry(e)
    decreases e
  {
    KeyVal(Shown(r, e.key), Shown(r, e.val))
  }

  function ShownEntries(r: Rendering, entries: seq<Entry>): seq<KeyVal>
    requires forall i :: 0 <= i < |entries| ==> WireableEntry(entries[i])
    decreases entries
  {
    if entries == [] then [] else [ShownEntry(r, entries[0])] + ShownEntries(r, entries[1..])
  }

  /** A string and a symbol with their values exchanged: two strictly sorted maps whose entries come in opposite order,
      and one object. */
  lemma ObjectForgetsOrder(r: Rendering, a: Bytes, b: Bytes, x: ScVal, y: ScVal)
    requires r.text(a) != r.text(b) && |a| < TWO_32 && |b| < TWO_32 && Wireable(x) && Wireable(y)
    ensures var m := ScvMap([Entry(ScvString(b), x), Entry(ScvSymbol(a), y)]);
            var n := ScvMap([Entry(ScvString(a), y), Entry(ScvSymbol(b), x)]);
            && m != n && Wireable(m) && Wireable(n)
            && Compare(ScvString(b), ScvSymbol(a)) == Compare(ScvString(a), ScvSymbol(b)) == Less
            && SameJson(Shown(r, m), Shown(r, n))
  {
    var e, f, g, h := Entry(ScvString(b), x), Entry(ScvSymbol(a), y), Entry(ScvString(a), y), Entry(ScvSymbol(b), x);
    WordEntry(r, e);
    WordEntry(r, f);
    WordEntry(r, g);
    WordEntry(r, h);
    hide Shown, Wireable, WireableEntry, ShownEntry, SameJson, Compare, MapJson;
    SymbolAfterString(b, a);
    SymbolAfterString(a, b);
    ShownTwo(r, e, f);
    ShownTwo(r, g, h);
    SameAsItself(Shown(r, x));
    SameAsItself(Shown(r, y));
    SameAsItself(Str(r.text(a)));
    SameAsItself(Str(r.text(b)));
    SwappedPairs(ShownEntry(r, e), ShownEntry(r, f), ShownEntry(r, g), ShownEntry(r, h));
  }

  lemma SymbolAfterString(a: Bytes, b: Bytes)
    ensures Compare(ScvString(a), ScvSymbol(b)) == Less
  {
  }

  lemma WordEntry(r: Rendering, e: Entry)
    requires (e.key.ScvString? || e.key.ScvSymbol?) && |e.key.bytes| < TWO_32 && Wireable(e.val)
    ensures WireableEntry(e) && ShownEntry(r, e) == KeyVal(Str(r.text(e.key.bytes)), Shown(r, e.val))
  {
    assert Wireable(e.key) && Shown(r, e.key) == Str(r.text(e.key.bytes));
  }

  lemma ShownTwo(r: Rendering, e: Entry, f: Entry)
    requires WireableEntry(e) && WireableEntry(f)
    ensures Wireable(ScvMap([e, f])) && Shown(r, ScvMap([e, f])) == MapJson([ShownEntry(r, e), ShownEntry(r, f)])
  {
    hide ShownEntry, MapJson, WireableEntry;
    assert [e, f][1..] == [f] && [f][1..] == [];
    assert ShownEntries(r, [f]) == [ShownEntry(r, f)];
    assert ShownEntries(r, [e, f]) == [ShownEntry(r, e), ShownEntry(r, f)];
  }

  lemma SwappedPairs(p: KeyVal, q: KeyVal, p': KeyVal, q': KeyVal)
    requires p.key.Str? && q.key.Str? && p.key != q.key && SameKeyVal(p, q') && SameKeyVal(q, p')
    ensures SameJson(MapJson([p, q]), MapJson([p', q']))
  {
    hide MapJson;
    assert [p, q][0] == p && [p, q][1] == q && [p', q'][0] == p' && [p', q'][1] == q';
    assert StandsIn(p, [p', q']) && StandsIn(q, [p', q']);
    MapLosesOnlyOrder([p, q], [p', q']);
  }

  // ---- nesting ----

  function Max(a: nat, b: nat): nat { if a >= b then a else b }

  /** How many levels of elements a value holds. */
  function Nesting(sv: ScVal): nat
    decreases sv
  {
    match sv
    case ScvVec(items) => NestingAll(items)
    case ScvMap(entries) => NestingEntries(entries)
    case ScvContractInstance(_, storage, _) => NestingEntries(storage)
    case _ => 0
  }

  function NestingAll(items: seq<ScVal>): nat
    decreases items
  {
    if items == [] then 0 else Max(1 + Nesting(items[0]), NestingAll(items[1..]))
  }

  function NestingEntry(e: Entry): nat
    decreases e
  {
    1 + Max(Nesting(e.key), Nesting(e.val))
  }

  function NestingEntries(entries: seq<Entry>): nat
    decreases entries
  {
    if entries == [] then 0 else Max(NestingEntry(entries[0]), NestingEntries(entries[1..]))
  }

  // ---- reading ----

  /** A value read, and the position after it. */
  datatype Read<+T> = Read(value: T, next: nat)

  function FromBigEndian(b: Bytes): nat {
    if b == [] then 0 else FromBigEndian(b[..|b| - 1]) * 256 + b[|b| - 1]
  }

  function Raw(buf: Bytes, pos: nat, n: nat): (r: Option<Bytes>)
    ensures r.Some? ==> |r.value| == n && pos + n <= |buf|
  {
    if pos + n <= |buf| then Some(buf[pos..pos + n]) else None
  }

  function UInt(buf: Bytes, pos: nat, size: nat): (r: Option<nat>)
    ensures r.Some? ==> pos + size <= |buf|
  {
    match Raw(buf, pos, size)
    case None => None
    case Some(b) => Some(FromBigEndian(b))
  }

  /** Two's complement. */
  function Signed(n: nat, half: nat): int { if n < half then n else n - 2 * half }

  function VarBytes(buf: Bytes, pos: nat): (r: Option<Read<Bytes>>)
    ensures r.Some? ==> pos + 4 <= r.value.next <= |buf|
  {
    match UInt(buf, pos, 4)
    case None => None
    case Some(len) =>
      match Raw(buf, pos + 4, len)
      case None => None
      case Some(data) =>
        var next := pos + 4 + len + Padding(len);
        if next <= |buf| then Some(Read(data, next)) else None
  }

  function ReadAddress(buf: Bytes, pos: nat): (r: Option<Read<ScAddress>>)
    ensures r.Some? ==> pos + 4 <= r.value.next <= |buf|
  {
    match UInt(buf, pos, 4)
    case None => None
    case Some(kind) =>
      if kind == 0 then
        (match (UInt(buf, pos + 4, 4), Raw(buf, pos + 8, 32))
         case (Some(_), Some(key)) => Some(Read(Account(key), pos + 40))
         case _ => None)
      else if kind == 1 then
        (match Raw(buf, pos + 4, 32) case Some(hash) => Some(Read(Contract(hash), pos + 36)) case None => None)
      else if kind == 2 then
        (match (UInt(buf, pos + 4, 8), Raw(buf, pos + 12, 32))
         case (Some(id), Some(key)) => Some(Read(MuxedAccount(id, key), pos + 44))
         case _ => None)
      else if kind == 3 then
        (match (UInt(buf, pos + 4, 4), Raw(buf, pos + 8, 32))
         case (Some(version), Some(hash)) => if version == 0 then Some(Read(ClaimableBalance(hash), pos + 40)) else None
         case _ => None)
      else if kind == 4 then
        (match Raw(buf, pos + 4, 32) case Some(hash) => Some(Read(LiquidityPool(hash), pos + 36)) case None => None)
      else None
  }


  /** The payload of every tag but 16, 17 and 19. An unknown tag fails. */
  function ReadLeaf(r: Rendering, buf: Bytes, pos: nat, tag: nat): (got: Option<Read<Json>>)
    requires pos <= |buf|
    ensures got.Some? ==> pos <= got.value.next <= |buf|
  {
    if tag == 0 then
      (match UInt(buf, pos, 4)
       case Some(n) => if n <= 1 then Some(Read(Bool(n == 1), pos + 4)) else None
       case None => None)
    else if tag == 1 then Some(Read(Null, pos))
    else if tag == 2 then
      (match (UInt(buf, pos, 4), UInt(buf, pos + 4, 4))
       case (Some(kind), Some(code)) => Some(Read(ErrorJson(kind, code), pos + 8))
       case _ => None)
    else if tag == 3 then
      (match UInt(buf, pos, 4) case Some(n) => Some(Read(Int(n), pos + 4)) case None => None)
    else if tag == 4 then
      (match UInt(buf, pos, 4) case Some(n) => Some(Read(Int(Signed(n, 0x8000_0000)), pos + 4)) case None => None)
    else if tag == 5 || tag == 7 || tag == 8 then
      (match UInt(buf, pos, 8) case Some(n) => Some(Read(Str(Decimal.IntText(n)), pos + 8)) case None => None)
    else if tag == 6 then
      (match UInt(buf, pos, 8)
       case Some(n) => Some(Read(Str(Decimal.IntText(Signed(n, TWO_63))), pos + 8))
       case None => None)
    else if tag == 9 then
      (match (UInt(buf, pos, 8), UInt(buf, pos + 8, 8))
       case (Some(hi), Some(lo)) => Some(Read(Str(Decimal.IntText(hi * TWO_64 + lo)), pos + 16))
       case _ => None)
    else if tag == 10 then
      (match (UInt(buf, pos, 8), UInt(buf, pos + 8, 8))
       case (Some(hi), Some(lo)) => Some(Read(Str(Decimal.IntText(Signed(hi, TWO_63) * TWO_64 + lo)), pos + 16))
       case _ => None)
    else if tag == 11 || tag == 12 then
      (match Raw(buf, pos, 32) case Some(b) => Some(Read(Wide(b), pos + 32)) case None => None)
    else if tag == 13 then
      (match VarBytes(buf, pos) case Some(b) => Some(Read(Str("0x" + Hex.Encode(b.value)), b.next)) case None => None)
    else if tag == 14 || tag == 15 then
      (match VarBytes(buf, pos) case Some(b) => Some(Read(Str(r.text(b.value)), b.next)) case None => None)
    else if tag == 18 then
      (match ReadAddress(buf, pos) case Some(a) => Some(Read(Str(r.address(a.value)), a.next)) case None => None)
    else if tag == 20 then Some(Read(Opaque(20), pos))
    else if tag == 21 then
      (if pos + 8 <= |buf| then Some(Read(Opaque(21), pos + 8)) else None)
    else None
  }

  /** `read_scval`. */
  function ReadScval(r: Rendering, buf: Bytes, pos: nat, depth: nat): (got: Option<Read<Json>>)
    ensures got.Some? ==> pos + 4 <= got.value.next <= |buf|
    decreases |buf| - pos, 0
  {
    if depth > MAX_DEPTH then None
    else match UInt(buf, pos, 4)
      case None => None
      case Some(tag) =>
        if tag == 16 then
          (match ReadCount(buf, pos + 4)
           case None => None
           case Some(count) =>
             match ReadItems(r, buf, count.next, count.value, depth + 1)
             case None => None
             case Some(items) => Some(Read(Array(items.value), items.next)))
        else if tag == 17 then
          (match ReadCount(buf, pos + 4)
           case None => None
           case Some(count) =>
             match ReadPairs(r, buf, count.next, count.value, depth + 1)
             case None => None
             case Some(pairs) => Some(Read(MapJson(pairs.value), pairs.next)))
        else if tag == 19 then
          (match ReadExecutable(buf, pos + 4)
           case None => None
           case Some(next) =>
             match ReadCount(buf, next)
             case None => None
             case Some(count) =>
               match ReadPairs(r, buf, count.next, count.value, depth + 1)
               case None => None
               case Some(pairs) => Some(Read(Opaque(19), pairs.next)))
        else ReadLeaf(r, buf, pos + 4, tag)
  }

  /** A presence flag, any non-zero number, and then a length; an absent collection counts as empty. */
  function ReadCount(buf: Bytes, pos: nat): (got: Option<Read<nat>>)
    ensures got.Some? ==> pos + 4 <= got.value.next <= |buf|
  {
    match UInt(buf, pos, 4)
    case None => None
    case Some(present) =>
      if present == 0 then Some(Read(0, pos + 4))
      else match UInt(buf, pos + 4, 4)
        case None => None
        case Some(len) => Some(Read(len, pos + 8))
  }

  function ReadExecutable(buf: Bytes, pos: nat): (got: Option<nat>)
    ensures got.Some? ==> pos + 4 <= got.value <= |buf|
  {
    match UInt(buf, pos, 4)
    case None => None
    case Some(kind) =>
      if kind == 0 then (if pos + 36 <= |buf| then Some(pos + 36) else None)
      else if kind == 1 then Some(pos + 4)
      else None
  }

  function ReadItems(r: Rendering, buf: Bytes, pos: nat, len: nat, depth: nat): (got: Option<Read<seq<Json>>>)
    requires pos <= |buf|
    ensures got.Some? ==> pos <= got.value.next <= |buf| && |got.value.value| == len
    decreases |buf| - pos, 1, len
  {
    if len == 0 then Some(Read([], pos))
    else match ReadScval(r, buf, pos, depth)
      case None => None
      case Some(v) =>
        match ReadItems(r, buf, v.next, len - 1, depth)
        case None => None
        case Some(rest) => Some(Read([v.value] + rest.value, rest.next))
  }

  function ReadPairs(r: Rendering, buf: Bytes, pos: nat, len: nat, depth: nat): (got: Option<Read<seq<KeyVal>>>)
    requires pos <= |buf|
    ensures got.Some? ==> pos <= got.value.next <= |buf| && |got.value.value| == len
    decreases |buf| - pos, 1, len
  {
    if len == 0 then Some(Read([], pos))
    else match ReadScval(r, buf, pos, depth)
      case None => None
      case Some(k) =>
        match ReadScval(r, buf, k.next, depth)
        case None => None
        case Some(v) =>
          match ReadPairs(r, buf, v.next, len - 1, depth)
          case None => None
          case Some(rest) => Some(Read([KeyVal(k.value, v.value)] + rest.value, rest.next))
  }
}
