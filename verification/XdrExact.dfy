/** The byte-level reader is exact: it inverts the encoding, stops at its end, and looks no further. */
module XdrExact {
  import opened Basics
  import opened ByteRanges
  import opened Json
  import opened ScVal
  import opened TypedValues
  import opened XdrWire
  import Decimal
  import Hex

  // ---- numbers, byte strings and addresses ----

  function Pow256(k: nat): nat { if k == 0 then 1 else 256 * Pow256(k - 1) }

  lemma {:induction false} BigEndianValue(n: nat, k: nat)
    requires n < Pow256(k)
    ensures FromBigEndian(BigEndian(n, k)) == n
  {
    if k > 0 {
      BigEndianValue(n / 256, k - 1);
      assert BigEndian(n, k)[..k - 1] == BigEndian(n / 256, k - 1);
    }
  }

  lemma Sizes()
    ensures Pow256(4) == TWO_32 && Pow256(8) == TWO_64
  {
    assert Pow256(2) == 0x1_0000 && Pow256(4) == 0x1_0000_0000;
    assert Pow256(6) == 0x1_0000_0000_0000;
  }

  lemma UIntReads(buf: Bytes, pos: nat, n: nat, k: nat)
    requires (k == 4 && n < TWO_32) || (k == 8 && n < TWO_64)
    requires Holds(buf, pos, BigEndian(n, k))
    ensures UInt(buf, pos, k) == Some(n)
  {
    Sizes();
    hide Pow256;
    BigEndianValue(n, k);
  }

  lemma VarReads(buf: Bytes, pos: nat, b: Bytes)
    requires |b| < TWO_32 && Holds(buf, pos, VarOpaque(b))
    ensures VarBytes(buf, pos) == Some(Read(b, pos + |VarOpaque(b)|))
  {
    hide BigEndian, Holds;
    HoldsBoth(buf, pos, U32(|b|) + b, Zeros(Padding(|b|)));
    HoldsBoth(buf, pos, U32(|b|), b);
    UIntReads(buf, pos, |b|, 4);
    HoldsIsRaw(buf, pos + 4, b);
    HoldsIsRaw(buf, pos + 4 + |b|, Zeros(Padding(|b|)));
  }

  lemma HoldsIsRaw(buf: Bytes, pos: nat, b: Bytes)
    requires Holds(buf, pos, b)
    ensures Raw(buf, pos, |b|) == Some(b)
  {
  }

  lemma AddressReads(buf: Bytes, pos: nat, a: ScAddress)
    requires WellFormedAddress(a) && Holds(buf, pos, AddressBytes(a))
    ensures ReadAddress(buf, pos) == Some(Read(a, pos + |AddressBytes(a)|))
  {
    hide BigEndian, Holds;
    match a
    case Account(key) =>
      HoldsBoth(buf, pos, U32(0) + U32(0), key);
      HoldsBoth(buf, pos, U32(0), U32(0));
      UIntReads(buf, pos, 0, 4);
      UIntReads(buf, pos + 4, 0, 4);
      HoldsIsRaw(buf, pos + 8, key);
    case Contract(hash) =>
      HoldsBoth(buf, pos, U32(1), hash);
      UIntReads(buf, pos, 1, 4);
      HoldsIsRaw(buf, pos + 4, hash);
    case MuxedAccount(id, key) =>
      HoldsBoth(buf, pos, U32(2) + U64(id), key);
      HoldsBoth(buf, pos, U32(2), U64(id));
      UIntReads(buf, pos, 2, 4);
      UIntReads(buf, pos + 4, id, 8);
      HoldsIsRaw(buf, pos + 12, key);
    case ClaimableBalance(hash) =>
      HoldsBoth(buf, pos, U32(3) + U32(0), hash);
      HoldsBoth(buf, pos, U32(3), U32(0));
      UIntReads(buf, pos, 3, 4);
      UIntReads(buf, pos + 4, 0, 4);
      HoldsIsRaw(buf, pos + 8, hash);
    case LiquidityPool(hash) =>
      HoldsBoth(buf, pos, U32(4), hash);
      UIntReads(buf, pos, 4, 4);
      HoldsIsRaw(buf, pos + 4, hash);
  }

  lemma SignedBack(n: int)
    ensures IsI32(n) ==> 0 <= n % TWO_32 < TWO_32 && Signed(n % TWO_32, 0x8000_0000) == n
    ensures IsI64(n) ==> 0 <= n % TWO_64 < TWO_64 && Signed(n % TWO_64, TWO_63) == n
  {
  }

  lemma TwoReads(buf: Bytes, pos: nat, m: nat, n: nat, k: nat)
    requires (k == 4 && m < TWO_32 && n < TWO_32) || (k == 8 && m < TWO_64 && n < TWO_64)
    requires Holds(buf, pos, BigEndian(m, k) + BigEndian(n, k))
    ensures UInt(buf, pos, k) == Some(m) && UInt(buf, pos + k, k) == Some(n)
  {
    hide BigEndian, Holds;
    HoldsBoth(buf, pos, BigEndian(m, k), BigEndian(n, k));
    UIntReads(buf, pos, m, k);
    UIntReads(buf, pos + k, n, k);
  }

  lemma LeafReads(r: Rendering, buf: Bytes, pos: nat, sv: ScVal)
    requires IsLeaf(sv) && WireableLeaf(sv) && pos <= |buf| && Holds(buf, pos, LeafBytes(sv))
    ensures ReadLeaf(r, buf, pos, Tag(sv)) == Some(Read(LeafJson(r, sv), pos + |LeafBytes(sv)|))
  {
    hide BigEndian, Holds, VarBytes, ReadAddress, AddressBytes, VarOpaque, UInt, Raw, ErrorJson, Wide;
    hide WellFormedAddress, Signed, Opaque, Decimal.IntText, Hex.Encode;
    match sv
    case ScvBool(b) => UIntReads(buf, pos, if b then 1 else 0, 4);
    case ScvError(kind, code) => TwoReads(buf, pos, kind, code, 4);
    case ScvU32(n) => UIntReads(buf, pos, n, 4);
    case ScvI32(n) => SignedBack(n); UIntReads(buf, pos, n % TWO_32, 4);
    case ScvU64(n) => UIntReads(buf, pos, n, 8);
    case ScvI64(n) => SignedBack(n); UIntReads(buf, pos, n % TWO_64, 8);
    case ScvTimepoint(n) => UIntReads(buf, pos, n, 8);
    case ScvDuration(n) => UIntReads(buf, pos, n, 8);
    case ScvU128(hi, lo) => TwoReads(buf, pos, hi, lo, 8);
    case ScvI128(hi, lo) => SignedBack(hi); TwoReads(buf, pos, hi % TWO_64, lo, 8);
    case ScvU256(_, _, _, _) => HoldsIsRaw(buf, pos, LeafBytes(sv));
    case ScvI256(_, _, _, _) => HoldsIsRaw(buf, pos, LeafBytes(sv));
    case ScvLedgerKeyNonce(nonce) => NonceFits(buf, pos, nonce);
    case ScvBytes(b) => VarReads(buf, pos, b);
    case ScvString(b) => VarReads(buf, pos, b);
    case ScvSymbol(b) => VarReads(buf, pos, b);
    case ScvAddress(a) => AddressReads(buf, pos, a);
    case _ =>
  }

  lemma NonceFits(buf: Bytes, pos: nat, nonce: int)
    requires Holds(buf, pos, I64(nonce))
    ensures pos + 8 <= |buf|
  {
  }

  lemma CountReads(buf: Bytes, pos: nat, len: nat, rest: Bytes)
    requires len < TWO_32 && Holds(buf, pos, U32(1) + (U32(len) + rest))
    ensures ReadCount(buf, pos) == Some(Read(len, pos + 8)) && Holds(buf, pos + 8, rest)
  {
    hide BigEndian, Holds;
    HoldsBoth(buf, pos, U32(1), U32(len) + rest);
    HoldsBoth(buf, pos + 4, U32(len), rest);
    UIntReads(buf, pos, 1, 4);
    UIntReads(buf, pos + 4, len, 4);
  }

  lemma AbsentReads(buf: Bytes, pos: nat)
    requires Holds(buf, pos, U32(0))
    ensures ReadCount(buf, pos) == Some(Read(0, pos + 4))
  {
    hide BigEndian, Holds;
    UIntReads(buf, pos, 0, 4);
  }

  lemma ExecutableReads(buf: Bytes, pos: nat, exec: Executable, rest: Bytes)
    requires exec.Wasm? ==> |exec.hash| == 32
    requires Holds(buf, pos, ExecutableBytes(exec) + rest)
    ensures ReadExecutable(buf, pos) == Some(pos + |ExecutableBytes(exec)|)
    ensures Holds(buf, pos + |ExecutableBytes(exec)|, rest)
  {
    hide BigEndian, Holds;
    HoldsBoth(buf, pos, ExecutableBytes(exec), rest);
    match exec
    case Wasm(hash) =>
      HoldsBoth(buf, pos, U32(0), hash);
      UIntReads(buf, pos, 0, 4);
      HoldsIsRaw(buf, pos + 4, hash);
    case StellarAsset => UIntReads(buf, pos, 1, 4);
  }

  // ---- reading an encoding ----

  /** What reading an encoding of this nesting gives. */
  function Expected<T>(value: T, next: nat, depth: nat, nesting: nat): Option<Read<T>> {
    if depth + nesting <= 256 then Some(Read(value, next)) else None
  }

  /** The reader gives the value's JSON and stops at the end of its encoding, unless it is nested too deep. */
  ghost predicate ReadsBack(r: Rendering, buf: Bytes, pos: nat, sv: ScVal, depth: nat) {
    Wireable(sv) && ReadScval(r, buf, pos, depth) == Expected(Shown(r, sv), pos + |Wire(sv)|, depth, Nesting(sv))
  }

  ghost predicate EntryReadsBack(r: Rendering, buf: Bytes, pos: nat, e: Entry, depth: nat) {
    ReadsBack(r, buf, pos, e.key, depth) && ReadsBack(r, buf, pos + |Wire(e.key)|, e.val, depth)
  }

  /** The tag is read, and `body` is the rest of the encoding. */
  ghost predicate Tagged(buf: Bytes, pos: nat, sv: ScVal, body: Bytes) {
    Wireable(sv) && Wire(sv) == U32(Tag(sv)) + body && UInt(buf, pos, 4) == Some(Tag(sv)) && Holds(buf, pos + 4, body)
  }

  /** With the encoding of a value at `pos`, anything before and after, the reader gives the value's JSON and stops
      exactly at the end of the encoding; it refuses exactly the values nested deeper than the limit. */
  lemma {:induction false} WireReads(r: Rendering, buf: Bytes, pos: nat, sv: ScVal, depth: nat)
    requires Wireable(sv) && Holds(buf, pos, Wire(sv))
    ensures ReadScval(r, buf, pos, depth) == Expected(Shown(r, sv), pos + |Wire(sv)|, depth, Nesting(sv))
    decreases sv, 1
  {
    hide BigEndian, Holds, ReadLeaf, LeafJson, LeafBytes, ReadItems, ReadPairs, ReadCount, ReadExecutable, MapJson;
    hide WireableLeaf;
    var body := Wire(sv)[4..];
    assert Wire(sv) == U32(Tag(sv)) + body;
    HoldsBoth(buf, pos, U32(Tag(sv)), body);
    UIntReads(buf, pos, Tag(sv), 4);
    if IsLeaf(sv) {
      assert body == LeafBytes(sv);
      LeafReads(r, buf, pos + 4, sv);
    } else if sv.ScvVec? {
      VecReads(r, buf, pos, sv, depth, body);
    } else if sv.ScvMap? {
      MapReads(r, buf, pos, sv, depth, body);
    } else if sv.ScvContractInstance? {
      InstanceReads(r, buf, pos, sv, depth, body);
    } else {
      AbsentContainerReads(r, buf, pos, sv, depth, body);
    }
  }

  lemma AbsentContainerReads(r: Rendering, buf: Bytes, pos: nat, sv: ScVal, depth: nat, body: Bytes)
    requires Tagged(buf, pos, sv, body) && (sv.ScvVecAbsent? || sv.ScvMapAbsent?)
    ensures ReadsBack(r, buf, pos, sv, depth)
    decreases sv, 0
  {
    hide BigEndian, Holds, ReadLeaf, LeafJson, LeafBytes, WireableLeaf, UInt, ReadCount, ReadItems, ReadPairs;
    hide ReadExecutable, MapJson;
    assert body == Wire(sv)[4..];
    assert body == U32(0);
    AbsentReads(buf, pos + 4);
    NoneToRead(r, buf, pos + 8, depth + 1);
    EmptyMap();
  }

  lemma VecReads(r: Rendering, buf: Bytes, pos: nat, sv: ScVal, depth: nat, body: Bytes)
    requires Tagged(buf, pos, sv, body) && sv.ScvVec?
    ensures ReadsBack(r, buf, pos, sv, depth)
    decreases sv, 0
  {
    hide BigEndian, Holds, ReadLeaf, LeafJson, LeafBytes, WireableLeaf, UInt, ReadCount, ReadItems, ReadPairs;
    hide ReadExecutable, MapJson;
    assert body == Wire(sv)[4..];
    var items := sv.items;
    assert body == U32(1) + (U32(|items|) + WireAll(items));
    CountReads(buf, pos + 4, |items|, WireAll(items));
    HoldsInside(buf, pos + 12, WireAll(items));
    AllRead(r, buf, pos + 12, items, depth + 1);
  }

  lemma MapReads(r: Rendering, buf: Bytes, pos: nat, sv: ScVal, depth: nat, body: Bytes)
    requires Tagged(buf, pos, sv, body) && sv.ScvMap?
    ensures ReadsBack(r, buf, pos, sv, depth)
    decreases sv, 0
  {
    hide BigEndian, Holds, ReadLeaf, LeafJson, LeafBytes, WireableLeaf, UInt, ReadCount, ReadItems, ReadPairs;
    hide ReadExecutable, MapJson;
    assert body == Wire(sv)[4..];
    var entries := sv.entries;
    assert body == U32(1) + (U32(|entries|) + WireEntries(entries));
    CountReads(buf, pos + 4, |entries|, WireEntries(entries));
    HoldsInside(buf, pos + 12, WireEntries(entries));
    EntriesRead(r, buf, pos + 12, entries, depth + 1);
  }

  lemma InstanceReads(r: Rendering, buf: Bytes, pos: nat, sv: ScVal, depth: nat, body: Bytes)
    requires Tagged(buf, pos, sv, body) && sv.ScvContractInstance?
    ensures ReadsBack(r, buf, pos, sv, depth)
    decreases sv, 0
  {
    hide BigEndian, Holds, ReadLeaf, LeafJson, LeafBytes, WireableLeaf, UInt, ReadCount, ReadItems, ReadPairs;
    hide ReadExecutable, MapJson;
    assert body == Wire(sv)[4..];
    var exec, storage := sv.executable, sv.storage;
    var rest := if sv.hasStorage then U32(1) + (U32(|storage|) + WireEntries(storage)) else U32(0);
    assert body == ExecutableBytes(exec) + rest;
    ExecutableReads(buf, pos + 4, exec, rest);
    var next := pos + 4 + |ExecutableBytes(exec)|;
    if sv.hasStorage {
      CountReads(buf, next, |storage|, WireEntries(storage));
      HoldsInside(buf, next + 8, WireEntries(storage));
      EntriesRead(r, buf, next + 8, storage, depth + 1);
    } else {
      assert storage == [] && NestingEntries(storage) == 0;
      AbsentReads(buf, next);
      NoneToRead(r, buf, next + 4, depth + 1);
    }
  }

  lemma HoldsInside(buf: Bytes, pos: nat, out: Bytes)
    requires Holds(buf, pos, out)
    ensures pos <= |buf|
  {
  }

  lemma NoneToRead(r: Rendering, buf: Bytes, pos: nat, depth: nat)
    requires pos <= |buf|
    ensures ReadItems(r, buf, pos, 0, depth) == Some(Read([], pos))
    ensures ReadPairs(r, buf, pos, 0, depth) == Some(Read([], pos))
  {
  }

  lemma EmptyMap()
    ensures MapJson([]) == Object([])
  {
  }

  lemma {:induction false} AllRead(r: Rendering, buf: Bytes, pos: nat, items: seq<ScVal>, depth: nat)
    requires depth > 0 && pos <= |buf|
    requires (forall i :: 0 <= i < |items| ==> Wireable(items[i])) && Holds(buf, pos, WireAll(items))
    ensures ReadItems(r, buf, pos, |items|, depth)
         == if items == [] then Some(Read([], pos))
            else Expected(ShownAll(r, items), pos + |WireAll(items)|, depth - 1, NestingAll(items))
    decreases items
  {
    hide ReadScval, Wireable, Wire, Shown, Nesting, Holds;
    if items != [] {
      HoldsBoth(buf, pos, Wire(items[0]), WireAll(items[1..]));
      WireReads(r, buf, pos, items[0], depth);
      if depth + Nesting(items[0]) <= MAX_DEPTH {
        AllRead(r, buf, pos + |Wire(items[0])|, items[1..], depth);
      }
    }
  }

  lemma EntryReads(r: Rendering, buf: Bytes, pos: nat, e: Entry, depth: nat)
    requires WireableEntry(e) && Holds(buf, pos, WireEntry(e))
    ensures EntryReadsBack(r, buf, pos, e, depth)
    decreases e
  {
    hide ReadScval, Wireable, Wire, Shown, Nesting, Holds;
    HoldsBoth(buf, pos, Wire(e.key), Wire(e.val));
    WireReads(r, buf, pos, e.key, depth);
    WireReads(r, buf, pos + |Wire(e.key)|, e.val, depth);
  }

  lemma {:induction false} EntriesRead(r: Rendering, buf: Bytes, pos: nat, entries: seq<Entry>, depth: nat)
    requires depth > 0 && pos <= |buf|
    requires (forall i :: 0 <= i < |entries| ==> WireableEntry(entries[i])) && Holds(buf, pos, WireEntries(entries))
    ensures ReadPairs(r, buf, pos, |entries|, depth)
         == if entries == [] then Some(Read([], pos))
            else Expected(ShownEntries(r, entries), pos + |WireEntries(entries)|, depth - 1, NestingEntries(entries))
    decreases entries
  {
    hide ReadScval, Wireable, Wire, Shown, Nesting, Holds;
    if entries != [] {
      var e := entries[0];
      assert WireableEntry(e);
      HoldsBoth(buf, pos, WireEntry(e), WireEntries(entries[1..]));
      EntryReads(r, buf, pos, e, depth);
      if depth + Nesting(e.key) <= MAX_DEPTH && depth + Nesting(e.val) <= MAX_DEPTH {
        EntriesRead(r, buf, pos + |WireEntry(e)|, entries[1..], depth);
      }
    }
  }

  // ---- reading any bytes ----

  /** The `n` bytes at `pos` stand at `q` of another buffer. */
  ghost predicate SameBytes(buf: Bytes, pos: nat, c: Bytes, q: nat, n: nat) {
    pos + n <= |buf| && q + n <= |c| && buf[pos..pos + n] == c[q..q + n]
  }

  lemma SamePart(buf: Bytes, pos: nat, c: Bytes, q: nat, n: nat, o: nat, m: nat)
    requires SameBytes(buf, pos, c, q, n) && o + m <= n
    ensures SameBytes(buf, pos + o, c, q + o, m)
    ensures Raw(buf, pos + o, m) == Raw(c, q + o, m) && Raw(c, q + o, m).Some?
    ensures UInt(buf, pos + o, m) == UInt(c, q + o, m)
  {
    SliceOfSlice(buf, pos, n, o, m);
    SliceOfSlice(c, q, n, o, m);
  }

  /** The same reading, `got.next - pos` bytes on from `q`. */
  function Moved<T>(got: Read<T>, pos: nat, q: nat): Read<T>
    requires pos <= got.next
  {
    Read(got.value, q + (got.next - pos))
  }

  lemma VarLocal(buf: Bytes, pos: nat, c: Bytes, q: nat)
    requires VarBytes(buf, pos).Some? && SameBytes(buf, pos, c, q, VarBytes(buf, pos).value.next - pos)
    ensures VarBytes(c, q) == Some(Moved(VarBytes(buf, pos).value, pos, q))
    ensures (VarBytes(buf, pos).value.next - pos) % 4 == 0
  {
    var n := VarBytes(buf, pos).value.next - pos;
    var len := UInt(buf, pos, 4).value;
    SamePart(buf, pos, c, q, n, 0, 4);
    SamePart(buf, pos, c, q, n, 4, len);
    SamePart(buf, pos, c, q, n, 4 + len, Padding(len));
    hide Raw, UInt, SameBytes;
    Padded(len);
  }

  lemma Padded(len: nat)
    ensures (4 + len + Padding(len)) % 4 == 0
  {
  }

  lemma AddressLocal(buf: Bytes, pos: nat, c: Bytes, q: nat)
    requires ReadAddress(buf, pos).Some? && SameBytes(buf, pos, c, q, ReadAddress(buf, pos).value.next - pos)
    ensures ReadAddress(c, q) == Some(Moved(ReadAddress(buf, pos).value, pos, q))
    ensures (ReadAddress(buf, pos).value.next - pos) % 4 == 0
  {
    hide Raw, UInt, SameBytes;
    var n := ReadAddress(buf, pos).value.next - pos;
    SamePart(buf, pos, c, q, n, 0, 4);
    if n == 36 {
      SamePart(buf, pos, c, q, n, 4, 32);
    } else if n == 40 {
      SamePart(buf, pos, c, q, n, 4, 4);
      SamePart(buf, pos, c, q, n, 8, 32);
    } else {
      SamePart(buf, pos, c, q, n, 4, 8);
      SamePart(buf, pos, c, q, n, 12, 32);
    }
  }

  ghost predicate LeafRead(r: Rendering, buf: Bytes, pos: nat, tag: nat, c: Bytes, q: nat) {
    && pos <= |buf| && q <= |c| && ReadLeaf(r, buf, pos, tag).Some?
    && SameBytes(buf, pos, c, q, ReadLeaf(r, buf, pos, tag).value.next - pos)
  }

  ghost predicate LeafMoves(r: Rendering, buf: Bytes, pos: nat, tag: nat, c: Bytes, q: nat)
    requires LeafRead(r, buf, pos, tag, c, q)
  {
    && ReadLeaf(r, c, q, tag) == Some(Moved(ReadLeaf(r, buf, pos, tag).value, pos, q))
    && (ReadLeaf(r, buf, pos, tag).value.next - pos) % 4 == 0
  }

  lemma FourByteLeaf(r: Rendering, buf: Bytes, pos: nat, tag: nat, c: Bytes, q: nat)
    requires LeafRead(r, buf, pos, tag, c, q) && (tag == 0 || tag == 3 || tag == 4)
    ensures LeafMoves(r, buf, pos, tag, c, q)
  {
    hide Raw, UInt, VarBytes, ReadAddress, ErrorJson, Wide, SameBytes;
    SamePart(buf, pos, c, q, 4, 0, 4);
  }

  lemma ErrorLeaf(r: Rendering, buf: Bytes, pos: nat, tag: nat, c: Bytes, q: nat)
    requires LeafRead(r, buf, pos, tag, c, q) && (tag == 2)
    ensures LeafMoves(r, buf, pos, tag, c, q)
  {
    hide Raw, UInt, VarBytes, ReadAddress, ErrorJson, Wide, SameBytes;
    SamePart(buf, pos, c, q, 8, 0, 4);
    SamePart(buf, pos, c, q, 8, 4, 4);
  }

  lemma EightByteLeaf(r: Rendering, buf: Bytes, pos: nat, tag: nat, c: Bytes, q: nat)
    requires LeafRead(r, buf, pos, tag, c, q) && (5 <= tag <= 8 || tag == 21)
    ensures LeafMoves(r, buf, pos, tag, c, q)
  {
    hide Raw, UInt, VarBytes, ReadAddress, ErrorJson, Wide, SameBytes;
    SamePart(buf, pos, c, q, 8, 0, 8);
    RawFits(c, q, 8);
  }

  lemma SixteenByteLeaf(r: Rendering, buf: Bytes, pos: nat, tag: nat, c: Bytes, q: nat)
    requires LeafRead(r, buf, pos, tag, c, q) && (tag == 9 || tag == 10)
    ensures LeafMoves(r, buf, pos, tag, c, q)
  {
    hide Raw, UInt, VarBytes, ReadAddress, ErrorJson, Wide, SameBytes;
    SamePart(buf, pos, c, q, 16, 0, 8);
    SamePart(buf, pos, c, q, 16, 8, 8);
  }

  lemma WideLeaf(r: Rendering, buf: Bytes, pos: nat, tag: nat, c: Bytes, q: nat)
    requires LeafRead(r, buf, pos, tag, c, q) && (tag == 11 || tag == 12)
    ensures LeafMoves(r, buf, pos, tag, c, q)
  {
    hide Raw, UInt, VarBytes, ReadAddress, ErrorJson, Wide, SameBytes;
    SamePart(buf, pos, c, q, 32, 0, 32);
  }

  lemma VarLeaf(r: Rendering, buf: Bytes, pos: nat, tag: nat, c: Bytes, q: nat)
    requires LeafRead(r, buf, pos, tag, c, q) && (13 <= tag <= 15)
    ensures LeafMoves(r, buf, pos, tag, c, q)
  {
    hide Raw, UInt, VarBytes, ReadAddress, ErrorJson, Wide, SameBytes;
    VarLocal(buf, pos, c, q);
  }

  lemma AddressLeaf(r: Rendering, buf: Bytes, pos: nat, tag: nat, c: Bytes, q: nat)
    requires LeafRead(r, buf, pos, tag, c, q) && (tag == 18)
    ensures LeafMoves(r, buf, pos, tag, c, q)
  {
    hide Raw, UInt, VarBytes, ReadAddress, ErrorJson, Wide, SameBytes;
    AddressLocal(buf, pos, c, q);
  }

  lemma RawFits(buf: Bytes, pos: nat, n: nat)
    requires Raw(buf, pos, n).Some?
    ensures pos + n <= |buf|
  {
  }

  lemma LeafLocal(r: Rendering, buf: Bytes, pos: nat, tag: nat, c: Bytes, q: nat)
    requires LeafRead(r, buf, pos, tag, c, q)
    ensures LeafMoves(r, buf, pos, tag, c, q)
  {
    hide Raw, UInt, VarBytes, ReadAddress, SameBytes;
    if tag == 0 || tag == 3 || tag == 4 {
      FourByteLeaf(r, buf, pos, tag, c, q);
    } else if tag == 2 {
      ErrorLeaf(r, buf, pos, tag, c, q);
    } else if 5 <= tag <= 8 || tag == 21 {
      EightByteLeaf(r, buf, pos, tag, c, q);
    } else if tag == 9 || tag == 10 {
      SixteenByteLeaf(r, buf, pos, tag, c, q);
    } else if tag == 11 || tag == 12 {
      WideLeaf(r, buf, pos, tag, c, q);
    } else if 13 <= tag <= 15 {
      VarLeaf(r, buf, pos, tag, c, q);
    } else if tag == 18 {
      AddressLeaf(r, buf, pos, tag, c, q);
    }
  }

  lemma CountLocal(buf: Bytes, pos: nat, c: Bytes, q: nat)
    requires ReadCount(buf, pos).Some? && SameBytes(buf, pos, c, q, ReadCount(buf, pos).value.next - pos)
    ensures ReadCount(c, q) == Some(Moved(ReadCount(buf, pos).value, pos, q))
    ensures (ReadCount(buf, pos).value.next - pos) % 4 == 0
  {
    hide Raw, UInt;
    var n := ReadCount(buf, pos).value.next - pos;
    SamePart(buf, pos, c, q, n, 0, 4);
    if n == 8 { SamePart(buf, pos, c, q, n, 4, 4); }
  }

  lemma ExecutableLocal(buf: Bytes, pos: nat, c: Bytes, q: nat)
    requires ReadExecutable(buf, pos).Some? && SameBytes(buf, pos, c, q, ReadExecutable(buf, pos).value - pos)
    ensures ReadExecutable(c, q) == Some(q + (ReadExecutable(buf, pos).value - pos))
    ensures (ReadExecutable(buf, pos).value - pos) % 4 == 0
  {
    SamePart(buf, pos, c, q, ReadExecutable(buf, pos).value - pos, 0, 4);
  }

  /** The reading at `pos` is the reading at `q`, and its length is a multiple of four. */
  ghost predicate Relocates(r: Rendering, buf: Bytes, pos: nat, depth: nat, c: Bytes, q: nat)
    requires ReadScval(r, buf, pos, depth).Some?
  {
    && ReadScval(r, c, q, depth) == Some(Moved(ReadScval(r, buf, pos, depth).value, pos, q))
    && (ReadScval(r, buf, pos, depth).value.next - pos) % 4 == 0
  }

  lemma VecLocal(r: Rendering, buf: Bytes, pos: nat, depth: nat, c: Bytes, q: nat)
    requires ReadScval(r, buf, pos, depth).Some? && UInt(buf, pos, 4) == Some(16)
    requires SameBytes(buf, pos, c, q, ReadScval(r, buf, pos, depth).value.next - pos)
    ensures Relocates(r, buf, pos, depth, c, q)
    decreases |buf| - pos, 2
  {
    hide UInt, SameBytes, ReadLeaf, ReadCount, ReadItems, ReadPairs, ReadExecutable, MapJson;
    var n := ReadScval(r, buf, pos, depth).value.next - pos;
    SamePart(buf, pos, c, q, n, 0, 4);
    var count := ReadCount(buf, pos + 4).value;
    SamePart(buf, pos, c, q, n, 4, count.next - (pos + 4));
    CountLocal(buf, pos + 4, c, q + 4);
    SamePart(buf, pos, c, q, n, count.next - pos, pos + n - count.next);
    Inside(buf, count.next, c, q + (count.next - pos), pos + n - count.next);
    ItemsLocal(r, buf, count.next, count.value, depth + 1, c, q + (count.next - pos));
  }

  lemma MapLocal(r: Rendering, buf: Bytes, pos: nat, depth: nat, c: Bytes, q: nat)
    requires ReadScval(r, buf, pos, depth).Some? && UInt(buf, pos, 4) == Some(17)
    requires SameBytes(buf, pos, c, q, ReadScval(r, buf, pos, depth).value.next - pos)
    ensures Relocates(r, buf, pos, depth, c, q)
    decreases |buf| - pos, 2
  {
    hide UInt, SameBytes, ReadLeaf, ReadCount, ReadItems, ReadPairs, ReadExecutable, MapJson;
    var n := ReadScval(r, buf, pos, depth).value.next - pos;
    SamePart(buf, pos, c, q, n, 0, 4);
    var count := ReadCount(buf, pos + 4).value;
    SamePart(buf, pos, c, q, n, 4, count.next - (pos + 4));
    CountLocal(buf, pos + 4, c, q + 4);
    SamePart(buf, pos, c, q, n, count.next - pos, pos + n - count.next);
    Inside(buf, count.next, c, q + (count.next - pos), pos + n - count.next);
    PairsLocal(r, buf, count.next, count.value, depth + 1, c, q + (count.next - pos));
  }

  lemma InstanceLocal(r: Rendering, buf: Bytes, pos: nat, depth: nat, c: Bytes, q: nat)
    requires ReadScval(r, buf, pos, depth).Some? && UInt(buf, pos, 4) == Some(19)
    requires SameBytes(buf, pos, c, q, ReadScval(r, buf, pos, depth).value.next - pos)
    ensures Relocates(r, buf, pos, depth, c, q)
    decreases |buf| - pos, 2
  {
    hide UInt, SameBytes, ReadLeaf, ReadCount, ReadItems, ReadPairs, ReadExecutable, MapJson;
    var n := ReadScval(r, buf, pos, depth).value.next - pos;
    SamePart(buf, pos, c, q, n, 0, 4);
    var next := ReadExecutable(buf, pos + 4).value;
    SamePart(buf, pos, c, q, n, 4, next - (pos + 4));
    ExecutableLocal(buf, pos + 4, c, q + 4);
    var count := ReadCount(buf, next).value;
    SamePart(buf, pos, c, q, n, next - pos, count.next - next);
    CountLocal(buf, next, c, q + (next - pos));
    SamePart(buf, pos, c, q, n, count.next - pos, pos + n - count.next);
    Inside(buf, count.next, c, q + (count.next - pos), pos + n - count.next);
    PairsLocal(r, buf, count.next, count.value, depth + 1, c, q + (count.next - pos));
  }

  /** On any bytes a reading uses up a positive multiple of four, and depends on nothing but what it used up. */
  lemma {:induction false} ReadLocal(r: Rendering, buf: Bytes, pos: nat, depth: nat, c: Bytes, q: nat)
    requires ReadScval(r, buf, pos, depth).Some?
    requires SameBytes(buf, pos, c, q, ReadScval(r, buf, pos, depth).value.next - pos)
    ensures ReadScval(r, buf, pos, depth).value.next >= pos + 4
    ensures Relocates(r, buf, pos, depth, c, q)
    decreases |buf| - pos, 3
  {
    hide SameBytes, ReadLeaf, ReadCount, ReadItems, ReadPairs, ReadExecutable, MapJson;
    var tag := UInt(buf, pos, 4).value;
    if tag == 16 {
      VecLocal(r, buf, pos, depth, c, q);
    } else if tag == 17 {
      MapLocal(r, buf, pos, depth, c, q);
    } else if tag == 19 {
      InstanceLocal(r, buf, pos, depth, c, q);
    } else {
      var n := ReadScval(r, buf, pos, depth).value.next - pos;
      SamePart(buf, pos, c, q, n, 0, 4);
      SamePart(buf, pos, c, q, n, 4, n - 4);
      Inside(buf, pos + 4, c, q + 4, n - 4);
      LeafLocal(r, buf, pos + 4, tag, c, q + 4);
    }
  }

  lemma Inside(buf: Bytes, pos: nat, c: Bytes, q: nat, n: nat)
    requires SameBytes(buf, pos, c, q, n)
    ensures pos <= |buf| && q <= |c|
  {
  }

  ghost predicate ItemsRead(r: Rendering, buf: Bytes, pos: nat, len: nat, depth: nat, c: Bytes, q: nat) {
    && pos <= |buf| && q <= |c| && ReadItems(r, buf, pos, len, depth).Some?
    && SameBytes(buf, pos, c, q, ReadItems(r, buf, pos, len, depth).value.next - pos)
  }

  ghost predicate ItemsMove(r: Rendering, buf: Bytes, pos: nat, len: nat, depth: nat, c: Bytes, q: nat)
    requires ItemsRead(r, buf, pos, len, depth, c, q)
  {
    && ReadItems(r, c, q, len, depth) == Some(Moved(ReadItems(r, buf, pos, len, depth).value, pos, q))
    && (ReadItems(r, buf, pos, len, depth).value.next - pos) % 4 == 0
  }

  lemma {:induction false} ItemsLocal(r: Rendering, buf: Bytes, pos: nat, len: nat, depth: nat, c: Bytes, q: nat)
    requires ItemsRead(r, buf, pos, len, depth, c, q)
    ensures ItemsMove(r, buf, pos, len, depth, c, q)
    decreases |buf| - pos, 4, len
  {
    hide ReadScval, SameBytes;
    if len > 0 {
      var n := ReadItems(r, buf, pos, len, depth).value.next - pos;
      var m := ReadScval(r, buf, pos, depth).value.next - pos;
      SamePart(buf, pos, c, q, n, 0, m);
      ReadLocal(r, buf, pos, depth, c, q);
      SamePart(buf, pos, c, q, n, m, n - m);
      Inside(buf, pos + m, c, q + m, n - m);
      ItemsLocal(r, buf, pos + m, len - 1, depth, c, q + m);
    }
  }

  ghost predicate PairsRead(r: Rendering, buf: Bytes, pos: nat, len: nat, depth: nat, c: Bytes, q: nat) {
    && pos <= |buf| && q <= |c| && ReadPairs(r, buf, pos, len, depth).Some?
    && SameBytes(buf, pos, c, q, ReadPairs(r, buf, pos, len, depth).value.next - pos)
  }

  ghost predicate PairsMove(r: Rendering, buf: Bytes, pos: nat, len: nat, depth: nat, c: Bytes, q: nat)
    requires PairsRead(r, buf, pos, len, depth, c, q)
  {
    && ReadPairs(r, c, q, len, depth) == Some(Moved(ReadPairs(r, buf, pos, len, depth).value, pos, q))
    && (ReadPairs(r, buf, pos, len, depth).value.next - pos) % 4 == 0
  }

  lemma {:induction false} PairsLocal(r: Rendering, buf: Bytes, pos: nat, len: nat, depth: nat, c: Bytes, q: nat)
    requires PairsRead(r, buf, pos, len, depth, c, q)
    ensures PairsMove(r, buf, pos, len, depth, c, q)
    decreases |buf| - pos, 4, len
  {
    hide ReadScval, SameBytes;
    if len > 0 {
      var n := ReadPairs(r, buf, pos, len, depth).value.next - pos;
      var m := ReadScval(r, buf, pos, depth).value.next - pos;
      var k := ReadScval(r, buf, pos + m, depth).value.next - pos;
      SamePart(buf, pos, c, q, n, 0, m);
      ReadLocal(r, buf, pos, depth, c, q);
      SamePart(buf, pos, c, q, n, m, k - m);
      ReadLocal(r, buf, pos + m, depth, c, q + m);
      SamePart(buf, pos, c, q, n, k, n - k);
      Inside(buf, pos + k, c, q + k, n - k);
      PairsLocal(r, buf, pos + k, len - 1, depth, c, q + k);
      PairsLead(r, buf, pos, len, depth, m, k, c, q);
    }
  }

  /** The reading at `pos` ends at `next` and is the reading at `q`. */
  ghost predicate ReadsAlike(r: Rendering, buf: Bytes, pos: nat, depth: nat, next: nat, c: Bytes, q: nat) {
    && ReadScval(r, buf, pos, depth).Some? && ReadScval(r, buf, pos, depth).value.next == next
    && Relocates(r, buf, pos, depth, c, q)
  }

  ghost predicate PairsAlike(r: Rendering, buf: Bytes, pos: nat, len: nat, depth: nat, c: Bytes, q: nat) {
    PairsRead(r, buf, pos, len, depth, c, q) && PairsMove(r, buf, pos, len, depth, c, q)
  }

  /** One pair read alike, and the rest read alike, is all read alike. */
  lemma PairsLead(r: Rendering, buf: Bytes, pos: nat, len: nat, depth: nat, m: nat, k: nat, c: Bytes, q: nat)
    requires PairsRead(r, buf, pos, len, depth, c, q) && len > 0
    requires ReadsAlike(r, buf, pos, depth, pos + m, c, q) && ReadsAlike(r, buf, pos + m, depth, pos + k, c, q + m)
    requires PairsAlike(r, buf, pos + k, len - 1, depth, c, q + k)
    ensures PairsMove(r, buf, pos, len, depth, c, q)
  {
    hide ReadScval, SameBytes;
  }
}
