/** Contract values and the total order Soroban sorts map keys by. */
module ScVal {
  import opened Basics

  datatype ScAddress =
    | Account(key: seq<byte>)
    | Contract(hash: seq<byte>)
    | MuxedAccount(id: nat, key: seq<byte>)
    | ClaimableBalance(hash: seq<byte>)
    | LiquidityPool(hash: seq<byte>)

  datatype Executable = Wasm(hash: seq<byte>) | StellarAsset

  /** One constructor per `ScVal` variant; an absent vector or map is a constructor of its own.
      The top field of a signed 128- or 256-bit value is signed. */
  datatype ScVal =
    | ScvBool(b: bool)
    | ScvVoid
    | ScvError(kind: nat, code: nat)
    | ScvU32(n: int)
    | ScvI32(n: int)
    | ScvU64(n: int)
    | ScvI64(n: int)
    | ScvTimepoint(n: int)
    | ScvDuration(n: int)
    | ScvU128(hi: int, lo: int)
    | ScvI128(hi: int, lo: int)
    | ScvU256(hiHi: int, hiLo: int, loHi: int, loLo: int)
    | ScvI256(hiHi: int, hiLo: int, loHi: int, loLo: int)
    | ScvBytes(bytes: seq<byte>)
    | ScvString(bytes: seq<byte>)
    | ScvSymbol(bytes: seq<byte>)
    | ScvVecAbsent
    | ScvVec(items: seq<ScVal>)
    | ScvMapAbsent
    | ScvMap(entries: seq<Entry>)
    | ScvAddress(address: ScAddress)
    | ScvContractInstance(executable: Executable, storage: seq<Entry>, hasStorage: bool)
    | ScvLedgerKeyContractInstance
    | ScvLedgerKeyNonce(nonce: int)

  datatype Entry = Entry(key: ScVal, val: ScVal)

  // ---- the derived order: variant, then scalar fields, then children, each left to right ----

  datatype Ordering = Less | Equal | Greater {
    function Then(o: Ordering): Ordering { if this == Equal then o else this }
    function Flip(): Ordering { match this case Less => Greater case Equal => Equal case Greater => Less }
  }

  function Rank(v: ScVal): nat {
    match v
    case ScvBool(_) => 0
    case ScvVoid => 1
    case ScvError(_, _) => 2
    case ScvU32(_) => 3
    case ScvI32(_) => 4
    case ScvU64(_) => 5
    case ScvI64(_) => 6
    case ScvTimepoint(_) => 7
    case ScvDuration(_) => 8
    case ScvU128(_, _) => 9
    case ScvI128(_, _) => 10
    case ScvU256(_, _, _, _) => 11
    case ScvI256(_, _, _, _) => 12
    case ScvBytes(_) => 13
    case ScvString(_) => 14
    case ScvSymbol(_) => 15
    case ScvVecAbsent => 16
    case ScvVec(_) => 17
    case ScvMapAbsent => 18
    case ScvMap(_) => 19
    case ScvAddress(_) => 20
    case ScvContractInstance(_, _, _) => 21
    case ScvLedgerKeyContractInstance => 22
    case ScvLedgerKeyNonce(_) => 23
  }

  function AddressScalars(a: ScAddress): seq<int> {
    match a
    case Account(key) => [0] + key
    case Contract(hash) => [1] + hash
    case MuxedAccount(id, key) => [2, id] + key
    case ClaimableBalance(hash) => [3] + hash
    case LiquidityPool(hash) => [4] + hash
  }

  function BoolScalar(b: bool): int { if b then 1 else 0 }

  /** The fields of a value that are not themselves values, in declaration order. */
  function Scalars(v: ScVal): seq<int> {
    match v
    case ScvBool(b) => [BoolScalar(b)]
    case ScvError(kind, code) => [kind, code]
    case ScvU32(n) => [n]
    case ScvI32(n) => [n]
    case ScvU64(n) => [n]
    case ScvI64(n) => [n]
    case ScvTimepoint(n) => [n]
    case ScvDuration(n) => [n]
    case ScvU128(hi, lo) => [hi, lo]
    case ScvI128(hi, lo) => [hi, lo]
    case ScvU256(a, b, c, d) => [a, b, c, d]
    case ScvI256(a, b, c, d) => [a, b, c, d]
    case ScvBytes(bytes) => bytes
    case ScvString(bytes) => bytes
    case ScvSymbol(bytes) => bytes
    case ScvAddress(address) => AddressScalars(address)
    case ScvContractInstance(Wasm(hash), _, has) => [0] + hash + [BoolScalar(has)]
    case ScvContractInstance(StellarAsset, _, has) => [1, BoolScalar(has)]
    case ScvLedgerKeyNonce(nonce) => [nonce]
    case _ => []
  }

  function CompareInt(a: int, b: int): Ordering {
    if a < b then Less else if a == b then Equal else Greater
  }

  function CompareInts(a: seq<int>, b: seq<int>): Ordering {
    if a == [] then (if b == [] then Equal else Less)
    else if b == [] then Greater
    else CompareInt(a[0], b[0]).Then(CompareInts(a[1..], b[1..]))
  }

  /** `ScVal::cmp`. */
  function Compare(a: ScVal, b: ScVal): Ordering
    decreases a
  {
    CompareInt(Rank(a), Rank(b)).Then(CompareInts(Scalars(a), Scalars(b))).Then(CompareChildren(a, b))
  }

  function CompareChildren(a: ScVal, b: ScVal): Ordering
    decreases a, 0
  {
    if a.ScvVec? && b.ScvVec? then CompareItems(a.items, b.items)
    else if a.ScvMap? && b.ScvMap? then CompareEntries(a.entries, b.entries)
    else if a.ScvContractInstance? && b.ScvContractInstance? then CompareEntries(a.storage, b.storage)
    else Equal
  }

  function CompareItems(a: seq<ScVal>, b: seq<ScVal>): Ordering
    decreases a
  {
    if a == [] then (if b == [] then Equal else Less)
    else if b == [] then Greater
    else Compare(a[0], b[0]).Then(CompareItems(a[1..], b[1..]))
  }

  function CompareEntries(a: seq<Entry>, b: seq<Entry>): Ordering
    decreases a
  {
    if a == [] then (if b == [] then Equal else Less)
    else if b == [] then Greater
    else CompareEntry(a[0], b[0]).Then(CompareEntries(a[1..], b[1..]))
  }

  function CompareEntry(a: Entry, b: Entry): Ordering
    decreases a
  {
    Compare(a.key, b.key).Then(Compare(a.val, b.val))
  }

  // ---- it is a total order ----

  lemma {:induction false} CompareIntsEqual(a: seq<int>, b: seq<int>)
    ensures CompareInts(a, b) == Equal <==> a == b
  {
    if a != [] && b != [] {
      CompareIntsEqual(a[1..], b[1..]);
      assert a == [a[0]] + a[1..] && b == [b[0]] + b[1..];
    }
  }

  lemma SameShape(a: ScVal, b: ScVal)
    requires Rank(a) == Rank(b) && Scalars(a) == Scalars(b)
    ensures a.ScvVec? || a.ScvMap? || a.ScvContractInstance? || a == b
    ensures a.ScvContractInstance? ==> a == b.(storage := a.storage)
  {
    if a.ScvAddress? {
      SameAddress(a.address, b.address);
    } else if a.ScvContractInstance? {
      var x, y := Scalars(a), Scalars(b);
      assert x[0] == y[0] && x[|x| - 1] == y[|y| - 1];
      if a.executable.Wasm? && b.executable.Wasm? {
        assert x[1..|x| - 1] == a.executable.hash && y[1..|y| - 1] == b.executable.hash;
      }
    } else {
      var x, y := Scalars(a), Scalars(b);
      assert |x| == |y| && (|x| > 0 ==> x[0] == y[0]) && (|x| > 1 ==> x[1] == y[1]);
      assert |x| == 4 ==> x[2] == y[2] && x[3] == y[3];
    }
  }

  lemma SameAddress(a: ScAddress, b: ScAddress)
    requires AddressScalars(a) == AddressScalars(b)
    ensures a == b
  {
    var x, y := AddressScalars(a), AddressScalars(b);
    assert x[0] == y[0];
    if a.MuxedAccount? {
      assert x[1] == y[1];
      assert x[2..] == a.key && y[2..] == b.key;
    } else {
      assert x[1..] == y[1..];
    }
  }

  lemma {:induction false} CompareEqual(a: ScVal, b: ScVal)
    ensures Compare(a, b) == Equal <==> a == b
    decreases a
  {
    CompareIntsEqual(Scalars(a), Scalars(b));
    if Rank(a) == Rank(b) && Scalars(a) == Scalars(b) { ChildrenEqual(a, b); }
    hide Rank, Scalars, CompareInts, CompareChildren;
  }

  lemma ChildrenEqual(a: ScVal, b: ScVal)
    requires Rank(a) == Rank(b) && Scalars(a) == Scalars(b)
    ensures CompareChildren(a, b) == Equal <==> a == b
    decreases a, 0
  {
    SameRank(a, b);
    SameShape(a, b);
    hide Rank, Scalars;
    if a.ScvVec? { CompareItemsEqual(a.items, b.items); }
    if a.ScvMap? { CompareEntriesEqual(a.entries, b.entries); }
    if a.ScvContractInstance? { CompareEntriesEqual(a.storage, b.storage); }
  }

  lemma {:induction false} CompareItemsEqual(a: seq<ScVal>, b: seq<ScVal>)
    ensures CompareItems(a, b) == Equal <==> a == b
    decreases a
  {
    if a != [] && b != [] {
      CompareEqual(a[0], b[0]);
      CompareItemsEqual(a[1..], b[1..]);
      assert a == [a[0]] + a[1..] && b == [b[0]] + b[1..];
    }
  }

  lemma {:induction false} CompareEntriesEqual(a: seq<Entry>, b: seq<Entry>)
    ensures CompareEntries(a, b) == Equal <==> a == b
    decreases a
  {
    if a != [] && b != [] {
      CompareEntryEqual(a[0], b[0]);
      CompareEntriesEqual(a[1..], b[1..]);
      assert a == [a[0]] + a[1..] && b == [b[0]] + b[1..];
    }
  }

  lemma {:induction false} CompareEntryEqual(a: Entry, b: Entry)
    ensures CompareEntry(a, b) == Equal <==> a == b
    decreases a
  {
    CompareEqual(a.key, b.key);
    CompareEqual(a.val, b.val);
  }

  lemma {:induction false} CompareIntsFlip(a: seq<int>, b: seq<int>)
    ensures CompareInts(b, a) == CompareInts(a, b).Flip()
  {
    if a != [] && b != [] { CompareIntsFlip(a[1..], b[1..]); }
  }

  lemma ThenFlip(x: Ordering, y: Ordering)
    ensures x.Then(y).Flip() == x.Flip().Then(y.Flip())
  {
  }

  lemma {:induction false} CompareFlip(a: ScVal, b: ScVal)
    ensures Compare(b, a) == Compare(a, b).Flip()
    decreases a
  {
    var x, y, z := CompareInt(Rank(a), Rank(b)), CompareInts(Scalars(a), Scalars(b)), CompareChildren(a, b);
    CompareIntsFlip(Scalars(a), Scalars(b));
    CompareChildrenFlip(a, b);
    ThenFlip(x, y);
    ThenFlip(x.Then(y), z);
  }

  lemma {:induction false} CompareChildrenFlip(a: ScVal, b: ScVal)
    ensures CompareChildren(b, a) == CompareChildren(a, b).Flip()
    decreases a, 0
  {
    if a.ScvVec? && b.ScvVec? { CompareItemsFlip(a.items, b.items); }
    if a.ScvMap? && b.ScvMap? { CompareEntriesFlip(a.entries, b.entries); }
    if a.ScvContractInstance? && b.ScvContractInstance? { CompareEntriesFlip(a.storage, b.storage); }
  }

  lemma {:induction false} CompareItemsFlip(a: seq<ScVal>, b: seq<ScVal>)
    ensures CompareItems(b, a) == CompareItems(a, b).Flip()
    decreases a
  {
    if a != [] && b != [] {
      CompareFlip(a[0], b[0]);
      CompareItemsFlip(a[1..], b[1..]);
    }
  }

  lemma {:induction false} CompareEntriesFlip(a: seq<Entry>, b: seq<Entry>)
    ensures CompareEntries(b, a) == CompareEntries(a, b).Flip()
    decreases a
  {
    if a != [] && b != [] {
      CompareEntryFlip(a[0], b[0]);
      CompareEntriesFlip(a[1..], b[1..]);
    }
  }

  lemma {:induction false} CompareEntryFlip(a: Entry, b: Entry)
    ensures CompareEntry(b, a) == CompareEntry(a, b).Flip()
    decreases a
  {
    CompareFlip(a.key, b.key);
    CompareFlip(a.val, b.val);
  }

  /** How the comparisons of three values must fit together; it survives lexicographic composition. */
  predicate Chains(ab: Ordering, bc: Ordering, ac: Ordering) {
    (ab == Equal ==> ac == bc) && (bc == Equal ==> ac == ab) && (ab == Less && bc == Less ==> ac == Less)
  }

  lemma {:induction false} CompareIntsChains(a: seq<int>, b: seq<int>, c: seq<int>)
    ensures Chains(CompareInts(a, b), CompareInts(b, c), CompareInts(a, c))
  {
    if a != [] && b != [] && c != [] { CompareIntsChains(a[1..], b[1..], c[1..]); }
    CompareIntsEqual(a, b);
    CompareIntsEqual(b, c);
  }

  lemma SameRank(a: ScVal, b: ScVal)
    requires Rank(a) == Rank(b)
    ensures a.ScvVec? == b.ScvVec? && a.ScvMap? == b.ScvMap? && a.ScvContractInstance? == b.ScvContractInstance?
  {
  }

  lemma {:induction false} CompareChains(a: ScVal, b: ScVal, c: ScVal)
    ensures Chains(Compare(a, b), Compare(b, c), Compare(a, c))
    decreases a
  {
    CompareIntsChains(Scalars(a), Scalars(b), Scalars(c));
    if Rank(a) == Rank(b) == Rank(c) { ChildrenChain(a, b, c); }
    CompareEqual(a, b);
    CompareEqual(b, c);
    hide Rank, Scalars, CompareInts, CompareChildren;
  }

  lemma ChildrenChain(a: ScVal, b: ScVal, c: ScVal)
    requires Rank(a) == Rank(b) == Rank(c)
    ensures Chains(CompareChildren(a, b), CompareChildren(b, c), CompareChildren(a, c))
    decreases a, 0
  {
    SameRank(a, b);
    SameRank(b, c);
    hide Rank;
    if a.ScvVec? { CompareItemsChains(a.items, b.items, c.items); }
    if a.ScvMap? { CompareEntriesChains(a.entries, b.entries, c.entries); }
    if a.ScvContractInstance? { CompareEntriesChains(a.storage, b.storage, c.storage); }
  }

  lemma {:induction false} CompareItemsChains(a: seq<ScVal>, b: seq<ScVal>, c: seq<ScVal>)
    ensures Chains(CompareItems(a, b), CompareItems(b, c), CompareItems(a, c))
    decreases a
  {
    if a != [] && b != [] && c != [] {
      CompareChains(a[0], b[0], c[0]);
      CompareItemsChains(a[1..], b[1..], c[1..]);
    }
    CompareItemsEqual(a, b);
    CompareItemsEqual(b, c);
  }

  lemma {:induction false} CompareEntriesChains(a: seq<Entry>, b: seq<Entry>, c: seq<Entry>)
    ensures Chains(CompareEntries(a, b), CompareEntries(b, c), CompareEntries(a, c))
    decreases a
  {
    if a != [] && b != [] && c != [] {
      CompareEntryChains(a[0], b[0], c[0]);
      CompareEntriesChains(a[1..], b[1..], c[1..]);
    }
    CompareEntriesEqual(a, b);
    CompareEntriesEqual(b, c);
  }

  lemma {:induction false} CompareEntryChains(a: Entry, b: Entry, c: Entry)
    ensures Chains(CompareEntry(a, b), CompareEntry(b, c), CompareEntry(a, c))
    decreases a
  {
    CompareChains(a.key, b.key, c.key);
    CompareChains(a.val, b.val, c.val);
  }
}
