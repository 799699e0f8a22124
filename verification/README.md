# Lumenqraph: typed contract calls and the services around them

A Dafny 4.11 model of the typed contract-call pipeline of `lumenqraph-core`, and of the stateful pieces of
`lumenqraph-api` that sit around it, with proofs about whole runs and whole value spaces.

- **Values and interfaces.** `ScVal` (contract values and the order Soroban sorts map keys by), `Spec` (a parsed interface),
  `Json`, `Decimal`, `Utf8`/`Hex`, and the small helpers `Basics`, `Sorting`, `TextOrder`, `Texts` and `ByteRanges`.
  `NumericOrder` shows the derived order of integer values to be the order of the numbers, and `DerivedOrder` what it is on
  texts, addresses and containers.
- **Encoder, decoder, relabeller.** `Encoder` turns typed JSON into contract values, `Decoder` turns contract values into
  untyped JSON, `Relabeller` names untyped JSON with the interface. `ScalarDenotation` and `Denotation` define what JSON
  stands for which value apart from the encoder, and show the encoder to find exactly that; `NamedParts` says what naming makes
  of each part. `EncodeSound`, `RoundTrip`, `Naming`, `NamingDrops`, `Lookalikes`, `Canonical` and `DecodedMaps` prove what the
  three promise together. All three are total functions over mutually recursive user-defined types; their termination measure
  is the pair (JSON size, type), and a map key rewrapped as a string weighs less than its object. `Call` encodes whole calls.
- **256-bit arithmetic.** `Limbs256`: parsing, negation and printing on four 64-bit limbs, against integers.
- **Interface diff.** `Render`, `Signatures`, `Diff`, `DiffPartition`, `DiffMeaning`, `Upgrade`: the diff compares rendered
  strings; here the strings are shown to determine what they render, so that a verdict about strings is a verdict about
  interfaces and calls.
- **Interface indexes and events.** `SpecIndex`: the hash indexes against the scans they stand for, and event matching.
  `Emitted`: what a contract emits, and that enrichment gives it back.
- **Byte-level readers.** `WasmSections` (LEB128 and the section walk), `XdrWire`, `XdrExact`, `XdrCursor` (the XDR cursor),
  `XdrShows` (what its JSON tells).
- **Services.** `SpecCache` and `SpecServe` (revalidation protocol: what is returned is fresh, and something is returned),
  `RateLimit` and `RateMeaning` (token bucket), `Pagination` and `Keyset` (cursors and the page walk), `CacheKey`, `CallCache`
  and `CallRecency` (the `/call` cache), `EditDistance` (name suggestions).

Code that mutates is modelled as classes and loops (`RateLimit.Shard`, `CallCache.Cache`, `SpecIndex.Interface`,
`WasmSections.Reader`, `XdrCursor.Cursor`, the limb arithmetic, the edit table, the diff's accumulation); each such method is
proved against a function, and the theorems are about that function.

`hide` statements in proofs only narrow what the solver unfolds.

## Standing assumptions

- The strkey library, base64, and the database's text collation are parameters. `TypedValues.Faithful` says what is assumed of
  strkeys (parse and print are inverse, only `M...` texts are muxed), `Pagination.Faithful` of base64 (decoding inverts
  encoding), `Keyset.Collation` of the collation (a strict total order).
- `TypedValues.Sane` adds that names are unique inside each struct and enum. The diff theorems assume readable interfaces:
  identifiers as names, no user-defined type called like a builtin, unique names. `Upgrade.PunctuatedNameHidesABreak` shows
  why.
- `Lookalikes.Lettered`, used only there, adds that a strkey starts with a capital letter.
- `serde_json` keeps object members by key. Here an object lists them in the order they were put in, and statements about
  equal values use `Json.SameJson`, which ignores that order.
- Clocks are arguments. Seconds in the token bucket are reals, so floating-point rounding is not modelled.
- Arguments of cached calls are JSON whose object keys do not contain `":` (`CacheKey.Plain`); `CacheKey.MarkedKeyCollides`
  shows why.

## Where the code and its own words part

- `normalize_json` writes object keys unescaped, so a key holding `":` can pass for two members. The comment at
  `call_cache.rs:43-45` credits insertion order; keys are in fact sorted.
- `CallCache::insert` counts an eviction when `put` returns a value, which happens on replacement and not when an entry is
  pushed out.
- `decode_scval` drops colliding map keys although the dialect table promises pairs; `DecodedMaps.MapKeepsEveryEntry` gives the
  exact condition, and `DecodedMaps.StringAndSymbolCollide` a contract's own map that loses an entry: a string and a symbol
  of the same text. The table's rows for errors and for tags 19 to 21 describe the byte-level cursor, not `decode_scval`.
- The `contracts` connection orders ids ascending but compares both columns with `<`; `Keyset.ContractsContinueIffNoTie` gives
  the exact condition under which a page continues where the last one stopped, and `Keyset.TiedContractIsSkipped` a
  pair of which the second is skipped when a page ends between them.
- A comment says naming must never lose data (`spec.rs:618`). It drops part of a JSON value exactly where a union array carries
  items after a void case, a result object members beside `Ok` or `Err`, or a map pair members beside `key` and `val`
  (`NamingDrops.NamingDropsIff`). Values of one declared type are shown apart when their strings are UTF-8 and the type holds
  no `Val`, `Error` or `Result` (`Naming.NamingLosesNothing`). Elsewhere they need not be: errors are all shown alike, a
  string that is not UTF-8 like the string that spells it in hex, and at `Val` a word like whatever prints its text
  (`Lookalikes.ScalarsAlikeIff` is exact).
- A row rewritten between the two queries of `SpecCache::current` pairs the new section with the old hash (`SpecCache.TornRead`).
  A return is the version it validated exactly when the section read is the same one, and a miss reads that version exactly
  when no newer one was stored between its two queries.
- Muxed accounts encode to their underlying account, so a muxed result loses its id when fed back.
- The section walk's comment says the name lies inside its section; the code checks this only for the section it returns. A
  name may run on into the sections that follow, and the walk goes on (`WasmSections.OverrunIsSkipped`).
- The map reader's comment has pairs take over so that no entry is lost. None is, but an object does forget the order of its
  entries (`XdrWire.ObjectForgetsOrder`).
- The repository's README (line 758) says `main` does not compile (for one, `hi_hi` of a signed 256-bit
  value is used as an unsigned limb when printing); the evident meaning is modelled.

## Model

| member | source | states |
|---|---|---|
| Call.CallEncodesIff | crates/lumenqraph-core/src/read.rs:99-165 | A call to a declared function encodes if and only if its arguments fit (every key names a parameter, or as many items as parameters) and each parameter is given a value of its type; argument i is then what the value given for parameter i encodes to, and the output is the first one declared |
| Call.NamesAndPositionsAgree | crates/lumenqraph-core/src/read.rs:142-150 | The same values given by name, in any order, and by position encode to the same call |
| Call.RefusalMeans | crates/lumenqraph-core/src/read.rs:106-149 | Each refusal names what is wrong: no such function, the wrong number of items, a key that is no parameter, or the first parameter that has no value or a value not of its type |
| Denotation.EncodeIff | crates/lumenqraph-core/src/read.rs:281-699 | At every type, an argument encodes to a value if and only if it stands for it: numbers as numbers or texts, hex with or without its prefix, vectors and tuples item by item, maps and structs as the ascending entries of their members, enum cases by name or discriminant, unions by case with a lone value bracketed or bare |
| Denotation.UntypedRefused | crates/lumenqraph-core/src/read.rs:436-438 | `Val`, `Error` and `Result` parameters are refused as unsupported, whatever they are given |
| ScalarDenotation.ScalarIff | crates/lumenqraph-core/src/read.rs:281-333 | At every scalar type, which JSON values encode and to what: any accepted spelling of a number in range, the bytes a text or its hex spells, the address a strkey parses to |
| EncodeSound.EncodeSound | crates/lumenqraph-core/src/read.rs:281-699 | Whatever encodes belongs to its declared type: integers in range, maps strictly sorted and of declared types, structs complete, union payloads of the declared arity, through recursive types |
| EncodeSound.ScalarSound | crates/lumenqraph-core/src/read.rs:281-333 | Every scalar that encodes is in the range of its type |
| EncodeSound.UnionSound | crates/lumenqraph-core/src/read.rs:587-699 | An encoded union value is a declared case, tagged by its symbol, with the payload that case declares |
| RoundTrip.ResultsFeedBack | crates/lumenqraph-core/src/read.rs:760-775 | Every value of a declared type, decoded and named, encodes again to exactly itself if its map keys render as strings, and is rejected otherwise |
| RoundTrip.ArgumentsRoundTrip | crates/lumenqraph-core/src/read.rs:281-448 | Any argument that encodes comes back from its own decoded and named form if and only if its map keys render as strings |
| RoundTrip.PairsDoNotEncode | crates/lumenqraph-core/src/read.rs:364-388 | A map with a key that renders as no string decodes to pairs, which the encoder refuses |
| RoundTrip.MuxedResultLosesItsId | crates/lumenqraph-core/src/read.rs:400-440 | A muxed account comes back as the account under it, without its id |
| Naming.NamingLosesNothing | crates/lumenqraph-core/src/spec.rs:605-768 | Among values of one declared type with UTF-8 strings and without `Val`, `Error` or `Result` in it, no two have the same shown form once decoded and named, not even up to the order of object members; maps shown as pairs included |
| Naming.VoidCaseDropsPayload | crates/lumenqraph-core/src/spec.rs:709-725 | An array whose first item names a void case is named like that case alone, whatever follows it |
| NamingDrops.NamingDropsIff | crates/lumenqraph-core/src/spec.rs:619-768 | For every JSON value and every type, naming never adds a leaf or key, and drops some exactly where a union array has items after a void case, a result object has members beside `Ok` or `Err`, or a map pair has members beside its key and value |
| NamingDrops.UnionsNamedAlikeIff | crates/lumenqraph-core/src/spec.rs:706-735 | Two arrays at a union are named alike if and only if both are of one void case, or of one case with payloads named alike, or neither names a case and they are the same |
| NamedParts.ResultNamed | crates/lumenqraph-core/src/spec.rs:674-688 | `{"Ok": x}` becomes `{"Ok": x named at the success type}`, `{"Err": x}` the same at the error type, and a value with neither label stays as it is |
| NamedParts.DiscriminantNamed | crates/lumenqraph-core/src/spec.rs:699-706 | A declared discriminant becomes the name of the last case that has it, and anything else at an enum stays as it is |
| NamedParts.FieldsNamed | crates/lumenqraph-core/src/spec.rs:738-752 | Each member of a struct keeps its key; a declared field is named at its type and any other member stays as it is |
| NamedParts.EntriesNamed | crates/lumenqraph-core/src/spec.rs:647-673 | Each member of a map keeps its key and is named at the value type; each pair of a map is named on both sides, at the same place |
| NamedParts.TupleNamed | crates/lumenqraph-core/src/spec.rs:637-646 | Item i of an array that lines up with its types is named at type i, at the same place |
| NamedParts.LeftAlone | crates/lumenqraph-core/src/spec.rs:619-692 | Null at an option, a scalar, an undeclared name and a value of another shape than its type stay as they are |
| Lookalikes.SimplesAlikeIff | crates/lumenqraph-core/src/xdr.rs:150-227 | Two values that are no vectors or maps decode alike if and only if they are equal, small integers or printed numbers of one value, a word that writes out or shares as hex what the other prints, both errors, or instances of one executable |
| Lookalikes.ScalarsAlikeIff | crates/lumenqraph-core/src/spec.rs:605-690 | At `Val` two such values are shown alike as above, at `Error` always, at strings and symbols if and only if the bytes are equal or one spells the hex of the other, which is not UTF-8, and at every other scalar type if and only if they are equal |
| Lookalikes.ItemsAlikeIff | crates/lumenqraph-core/src/spec.rs:628-645 | Vectors and tuples of any values are shown alike if and only if their items are, one by one |
| Lookalikes.TwinStrings | crates/lumenqraph-core/src/xdr.rs:177-184 | The string of the one byte 0xFF is shown like the string "0xff" |
| Lookalikes.MapImitatesError | crates/lumenqraph-core/src/xdr.rs:150-227 | A map of one symbol key decodes like an error |
| Lookalikes.VectorImitatesMap | crates/lumenqraph-core/src/xdr.rs:189-214 | A vector of one map decodes like a map with a number as its key |
| Lookalikes.DecodesToText | crates/lumenqraph-core/src/xdr.rs:150-227 | A number shows as its decimal text, bytes as 0x and their hex, an address as its strkey, a word as its UTF-8 text or else as 0x and its hex |
| Lookalikes.AbsentShownEmpty | crates/lumenqraph-core/src/xdr.rs:183-188 | An absent vector or map is shown like an empty one |
| Canonical.EncodingIgnoresMemberOrder | crates/lumenqraph-core/src/read.rs:364-388 | JSON values equal as maps encode to the same value or are both refused, at every depth |
| Canonical.EncodedMapsAreSorted | crates/lumenqraph-core/src/read.rs:515-536 | Every map inside an encoded argument has strictly increasing keys, whatever order JSON keys and declared fields came in |
| Canonical.CanonIffSame | crates/lumenqraph-api/src/call_cache.rs:170-190 | Sorting members at every depth identifies exactly the JSON values that are equal as maps |
| ScVal.CompareEqual | crates/lumenqraph-core/src/read.rs:364-388 | The derived order of contract values ties exactly equal values |
| ScVal.CompareFlip | crates/lumenqraph-core/src/read.rs:364-388 | The derived order is antisymmetric |
| ScVal.CompareChains | crates/lumenqraph-core/src/read.rs:364-388 | The derived order is transitive, so sorting map entries by it is meaningful |
| NumericOrder.CompareIsNumeric | crates/lumenqraph-core/src/read.rs:1007-1013 | On every integer type up to 256 bits, signed or not, the derived order is the order of the numbers |
| NumericOrder.IntegerKeysAscend | crates/lumenqraph-core/src/read.rs:364-388 | An encoded map with integer keys has its entries in strictly ascending numeric order, negative keys first |
| DerivedOrder.TextsCompare | crates/lumenqraph-core/src/read.rs:364-388 | Of two symbols, strings or byte values one comes first exactly when it is a proper prefix of the other or the first byte in which they differ is smaller |
| DerivedOrder.VariantsCompare | crates/lumenqraph-core/src/read.rs:364-388 | Values of different variants come in the order the variants are declared in, an absent vector or map before a present one |
| DerivedOrder.FlagsAndErrorsCompare | crates/lumenqraph-core/src/read.rs:364-388 | False comes before true; errors compare by kind, then by code |
| DerivedOrder.NoncesCompare | crates/lumenqraph-core/src/read.rs:364-388 | Nonces compare as numbers |
| DerivedOrder.AddressKindsCompare | crates/lumenqraph-core/src/read.rs:364-388 | Addresses of different kinds come in the order account, contract, muxed account, claimable balance, pool |
| DerivedOrder.AddressesCompare | crates/lumenqraph-core/src/read.rs:364-388 | Addresses of one kind compare by their bytes, muxed accounts by id first |
| DerivedOrder.ContainersCompare | crates/lumenqraph-core/src/read.rs:364-388 | Vectors compare item by item and maps entry by entry, key before value, a proper prefix first |
| DerivedOrder.InstancesCompare | crates/lumenqraph-core/src/read.rs:364-388 | Instances compare by executable, WASM by hash and before the asset contract, then by storage, none first |
| DerivedOrder.TextKeysAscend | crates/lumenqraph-core/src/read.rs:364-388 | An encoded map with text keys has them in strictly ascending byte order |
| DerivedOrder.FieldsAscend | crates/lumenqraph-core/src/read.rs:515-536 | An encoded struct has one entry for each declared field, in the byte order of the field names and not by length or declaration |
| DecodedMaps.MapKeepsEveryEntry | crates/lumenqraph-core/src/xdr.rs:187-212 | A decoded map of string-rendering keys is an object with as many members as entries if and only if no two keys render alike, and then holds every entry under its key's text; any other map is the array of its pairs, in order |
| DecodedMaps.LastOfCollidingWins | crates/lumenqraph-core/src/xdr.rs:187-212 | Where keys collide, the value shown under a text is that of the last entry rendering so |
| DecodedMaps.StringAndSymbolCollide | crates/lumenqraph-core/src/xdr.rs:187-212 | For any text, a sorted map holding it as a string and as a symbol decodes to fewer members than entries |
| Decimal.ParseIntText | crates/lumenqraph-core/src/read.rs:849-864 | Printing then parsing an integer gives it back whenever it is in the type's range |
| Decimal.NatTextUnique | crates/lumenqraph-core/src/xdr.rs:230-257 | The printed text is the only text of that number without leading zeros |
| Limbs256.Mul10Add | crates/lumenqraph-core/src/read.rs:909-919 | Multiplying the limbs by ten and adding a digit overflows exactly when the integer result reaches 2^256, and is exact otherwise |
| Limbs256.Negate | crates/lumenqraph-core/src/read.rs:921-934 | Negation is two's complement modulo 2^256, with zero its own negative |
| Limbs256.ParseDigits | crates/lumenqraph-core/src/read.rs:936-952 | The limbs hold the digits' value; refused exactly when there is no digit, a non-digit, or a value of 2^256 or more |
| Limbs256.ParseU256 | crates/lumenqraph-core/src/read.rs:965-974 | A text is accepted exactly when its value lies in [0, 2^256), and gives that value's limbs |
| Limbs256.ParseI256 | crates/lumenqraph-core/src/read.rs:976-996 | A text is accepted exactly when its value lies in [-2^255, 2^255), and gives that value's two's-complement limbs |
| Limbs256.DivideByChunk | crates/lumenqraph-core/src/xdr.rs:230-257 | One long division of the limbs by 10^19 is exact, and says when the quotient is zero |
| Limbs256.U256ToDecimal | crates/lumenqraph-core/src/xdr.rs:230-257 | The printed text is the decimal text of the limbs' value |
| Limbs256.I256ToDecimal | crates/lumenqraph-core/src/xdr.rs:259-288 | The printed text is the decimal text of the number whose top limb is signed, the least value included |
| Limbs256.PrintedUnsignedParses | crates/lumenqraph-core/src/xdr.rs:230-257 | Printing then parsing is the identity on every four limbs |
| Limbs256.PrintedSignedParses | crates/lumenqraph-core/src/xdr.rs:259-288 | The same for the four limbs of a signed number, the top one signed |
| Render.TypeNameUnambiguous | crates/lumenqraph-core/src/spec.rs:792-833 | Two rendered types followed by any delimited text are equal texts only if the types and the rests are equal |
| Render.JoinUnambiguous | crates/lumenqraph-core/src/diff.rs:495-601 | A joined list of separable tokens determines its items |
| Signatures.FunctionSigUnambiguous | crates/lumenqraph-core/src/diff.rs:495-516 | Two functions render alike exactly when parameters and outputs agree, except that no output and void read alike |
| Signatures.EventSigUnambiguous | crates/lumenqraph-core/src/diff.rs:525-540 | Two events render alike exactly when parameters and body format agree; prefix topics are not part of it |
| Signatures.StructSigUnambiguous | crates/lumenqraph-core/src/diff.rs:546-601 | Struct signatures determine the fields |
| Signatures.UnionSigUnambiguous | crates/lumenqraph-core/src/diff.rs:546-601 | Union signatures determine the cases and their payloads |
| Signatures.EnumSigUnambiguous | crates/lumenqraph-core/src/diff.rs:546-601 | Enum signatures determine the cases and discriminants |
| Signatures.KindsDiffer | crates/lumenqraph-core/src/diff.rs:546-601 | No two kinds of type ever render alike |
| Diff.FunctionSigs | crates/lumenqraph-core/src/diff.rs:495-516 | The two maps hold the last declared signature and parameter tokens of every function |
| Diff.TypeSigs | crates/lumenqraph-core/src/diff.rs:546-601 | The map holds the last declared signature over the four kinds in order |
| Diff.OrderedNames | crates/lumenqraph-core/src/diff.rs:435-478 | Names are visited once each, in text order, whatever order a set gives them in |
| Diff.DiffSection | crates/lumenqraph-core/src/diff.rs:435-478 | The accumulated lists are those of the per-name classification |
| Diff.ReclassifyChanged | crates/lumenqraph-core/src/diff.rs:343-369 | Draining the changed items moves exactly the soft ones aside, in order |
| Diff.DiffSpecs | crates/lumenqraph-core/src/diff.rs:176-203 | The imperative diff computes the specified one |
| DiffPartition.SectionIsExact | crates/lumenqraph-core/src/diff.rs:435-478 | Each list of a section is exactly the names with its verdict, with their signatures, in name order |
| DiffPartition.NamesHaveVerdicts | crates/lumenqraph-core/src/diff.rs:435-478 | Every name of either interface has exactly one verdict, and no other name has any |
| DiffPartition.EmptyMeansEqual | crates/lumenqraph-core/src/diff.rs:143-151 | A section is empty if and only if the signature maps are equal |
| DiffPartition.ReorderMeans | crates/lumenqraph-core/src/diff.rs:480-489 | A reordering is reported exactly for a non-identical permutation of the parameters |
| DiffPartition.SwapSection | crates/lumenqraph-core/src/diff.rs:428-478 | In a section that softens nothing, swapping the interfaces swaps added with removed |
| DiffPartition.SwapDiff | crates/lumenqraph-core/src/diff.rs:176-203 | Swapping the interfaces swaps added with removed in the functions, the events and the types of the whole diff |
| DiffPartition.BreakingMeans | crates/lumenqraph-core/src/diff.rs:153-174 | A section breaks exactly when some name was removed, changed or reordered, and is additive exactly when nothing worse than an addition occurred |
| DiffPartition.BreakingIsTopSeverity | crates/lumenqraph-core/src/diff.rs:176-203 | The breaking flag and the top severity never disagree |
| DiffPartition.NoDiffMeansSameSignatures | crates/lumenqraph-core/src/diff.rs:208-210 | The whole diff is empty exactly when all signature maps are unchanged |
| DiffMeaning.BreakingIff | crates/lumenqraph-core/src/diff.rs:173-203 | For readable interfaces, a diff is not breaking if and only if every old function is there with its parameters and output, every old event with its format and its parameters and more only if those are named data fields of a map event, and every old type unchanged or, if a union or an enum, with cases after those it had |
| DiffMeaning.SeverityIff | crates/lumenqraph-core/src/diff.rs:184-203 | The severity is breaking exactly with the flag, and additive exactly when besides no old event or type gained anything |
| DiffMeaning.FunctionsHeldIff | crates/lumenqraph-core/src/diff.rs:495-516 | The function section has nothing breaking if and only if every old function is still there with equal parameters, in order, and the same output, none and void reading alike |
| DiffMeaning.EventsHeldIff | crates/lumenqraph-core/src/diff.rs:262-288 | The event section has nothing breaking if and only if every old event is still there with its format and equal parameters, and with more only where they are named data fields of a map event; and it is additive if and only if none gained any |
| DiffMeaning.GrewIffAddedFields | crates/lumenqraph-core/src/diff.rs:300-334 | A changed event is only potentially breaking if and only if both are map events of one format, the old parameters open the new ones unchanged, and the rest are named data fields |
| DiffMeaning.TypesHeldIff | crates/lumenqraph-core/src/diff.rs:343-366 | The type section has nothing breaking if and only if every old type is still there, unchanged or with cases appended; and it is additive if and only if none gained any |
| DiffMeaning.GrewIffAddedCases | crates/lumenqraph-core/src/diff.rs:371-417 | A changed type is only potentially breaking if and only if it stays a union or a plain enum and its old cases open the new ones unchanged |
| DiffMeaning.DocumentedTexts | crates/lumenqraph-core/src/spec.rs:792-833 | Types and functions render as the documentation writes them |
| Upgrade.NonBreakingUpgradeKeepsCalls | crates/lumenqraph-core/src/diff.rs:176-203 | If the diff is not breaking, every call that encoded under the old interface encodes under the new one, to the same argument values and output type |
| Upgrade.EncodeContinues | crates/lumenqraph-core/src/read.rs:281-699 | If every old type continues, whatever encoded before encodes to the same value |
| Upgrade.NonBreakingTypesExtend | crates/lumenqraph-core/src/diff.rs:343-417 | A non-breaking type section keeps every old type, or only appends cases to it |
| Upgrade.NonBreakingFunctionStays | crates/lumenqraph-core/src/diff.rs:495-516 | A non-breaking function section keeps every old function with its parameters and outputs |
| Upgrade.AdditiveUpgradeKeepsMeanings | crates/lumenqraph-core/src/spec.rs:619-768 | After a purely additive upgrade every JSON value of every closed old type is named exactly as before |
| Upgrade.PunctuatedNameHidesABreak | crates/lumenqraph-core/src/diff.rs:495-516 | A parameter name holding punctuation gives an empty diff for an upgrade that stops a call from encoding |
| EditDistance.NoCheaperScript | crates/lumenqraph-core/src/read.rs:184-210 | No edit script between two texts is cheaper than the recurrence the table follows |
| EditDistance.CheapestScript | crates/lumenqraph-core/src/read.rs:184-210 | Some script costs exactly that much |
| EditDistance.Levenshtein | crates/lumenqraph-core/src/read.rs:184-210 | The filled table gives the distance, or the cap when lengths differ by more than three |
| EditDistance.CapIsHarmless | crates/lumenqraph-core/src/read.rs:184-190 | The cap never changes whether two names are within two edits |
| EditDistance.DidYouMean | crates/lumenqraph-core/src/read.rs:170-181 | The suggestion is a nearest candidate, the first of those, if one is within two edits |
| EditDistance.SuggestionMeansEdits | crates/lumenqraph-core/src/read.rs:170-181 | A suggestion is made exactly when some candidate is reachable by two edits or fewer |
| SpecIndex.UdtIndex | crates/lumenqraph-core/src/spec.rs:328-347 | The type index resolves a name to the first enum, else union, else struct declaring it |
| SpecIndex.PrefixIndex | crates/lumenqraph-core/src/spec.rs:294-302 | The prefix index holds the last event declared with each non-empty prefix |
| SpecIndex.NameIndex | crates/lumenqraph-core/src/spec.rs:304-317 | A name resolves to the last event with that first topic, else to the first event so named |
| SpecIndex.CaseIndex | crates/lumenqraph-core/src/spec.rs:349-358 | A discriminant names the last case declared with it |
| SpecIndex.ErrorIndex | crates/lumenqraph-core/src/spec.rs:360-369 | An error code names the last case declared with it over all error enums |
| SpecIndex.RefOfDefinition | crates/lumenqraph-core/src/spec.rs:379-385 | The indexed reference of a type name leads to the definition the scan finds |
| SpecIndex.Interface.Reindex | crates/lumenqraph-core/src/spec.rs:289-369 | After indexing, every index agrees with its scan on every key |
| SpecIndex.Interface.UdtDefinition | crates/lumenqraph-core/src/spec.rs:379-385 | Hash lookup of a type equals the scan over the declarations |
| SpecIndex.Interface.FunctionNamed | crates/lumenqraph-core/src/spec.rs:371-375 | Hash lookup of a function equals the scan |
| SpecIndex.Interface.ResolveErrorCode | crates/lumenqraph-core/src/spec.rs:395-399 | Hash lookup of an error code gives the last case declared with it |
| SpecIndex.Interface.SelectEvent | crates/lumenqraph-core/src/spec.rs:534-559 | Whatever order the hash map yields prefixes in, the same event is chosen |
| SpecIndex.ChosenMeans | crates/lumenqraph-core/src/spec.rs:534-559 | The chosen event is the last declared among those with the longest matching prefix |
| SpecIndex.ChosenByName | crates/lumenqraph-core/src/spec.rs:558-559 | The name decides exactly when no declared prefix matches the leading string topics |
| SpecIndex.Bind | crates/lumenqraph-core/src/spec.rs:561-596 | The two running positions bind each parameter to the topic or body element at its place among the parameters, or to null |
| Emitted.EmittedIsEnriched | crates/lumenqraph-core/src/spec.rs:561-597 | For an event emitted as its declaration says (the prefix symbols, or its own name without any, then the topic parameters in order, and a body in the declared format) whose topics choose that declaration, the record gives its name and under each parameter exactly that parameter's own value, named at its type, with the type's text |
| Emitted.PrefixedIsChosen | crates/lumenqraph-core/src/spec.rs:534-559 | An emitted event with a prefix is recognised by its topics alone, whatever name comes with it, unless another declared prefix of its topics is longer or as long and later |
| Emitted.NamedIsChosen | crates/lumenqraph-core/src/spec.rs:557-559 | An emitted event without a prefix is recognised by its own name, if no declared prefix starts with it and no earlier event bears it |
| Emitted.MissingIsNull | crates/lumenqraph-core/src/spec.rs:578-587 | A parameter whose topic, map member or vector element the event does not carry is bound to null |
| Emitted.LeadingMeans | crates/lumenqraph-core/src/spec.rs:534-538 | An event is recognised by all its topics up to the first that is no string |
| SpecIndex.Interface.EnrichEvent | crates/lumenqraph-core/src/spec.rs:528-602 | The indexed lookup and the binding loop compute `Enrich`, whose meaning the `Emitted` lemmas give |
| WasmSections.LebRoundTrip | crates/lumenqraph-core/src/spec.rs:896-911 | Reading inverts the LEB128 writer for every 32-bit number, with anything before and after |
| WasmSections.LebIsTruncated | crates/lumenqraph-core/src/spec.rs:896-911 | On any bytes the result is the true number modulo 2^32, the true number exactly when it fits |
| WasmSections.Reader.LebU32 | crates/lumenqraph-core/src/spec.rs:896-911 | The loop reads what the specification reads and moves just past it |
| WasmSections.Reader.Byte | crates/lumenqraph-core/src/spec.rs:884-888 | One byte, or nothing at the end |
| WasmSections.Reader.Take | crates/lumenqraph-core/src/spec.rs:890-895 | Exactly the next bytes, or nothing and no move |
| WasmSections.CustomSection | crates/lumenqraph-core/src/spec.rs:846-874 | The walking loop returns the range the specification finds |
| WasmSections.FindsFirstNamed | crates/lumenqraph-core/src/spec.rs:840-874 | On any serialized module the result is the content of the first custom section of that name, or nothing if there is none |
| WasmSections.FoundInside | crates/lumenqraph-core/src/spec.rs:846-874 | On arbitrary bytes a result is the tail, after the wanted name, of one custom section on a boundary the headers lead to |
| WasmSections.OverrunIsSkipped | crates/lumenqraph-core/src/spec.rs:858-870 | Behind a first custom section whose name runs past its end, into the sections that follow, the walk still finds exactly the content of the first section of the wanted name |
| XdrExact.WireReads | crates/lumenqraph-core/src/xdr.rs:362-501 | On the encoding of any value, with anything around it, the reader gives its JSON and stops exactly at its end, if and only if it is nested within the limit |
| XdrExact.ReadLocal | crates/lumenqraph-core/src/xdr.rs:362-501 | On any bytes a success uses up a positive multiple of four bytes and depends on those bytes alone |
| XdrExact.VarReads | crates/lumenqraph-core/src/xdr.rs:354-360 | Variable-length bytes come back from their padded encoding |
| XdrExact.AddressReads | crates/lumenqraph-core/src/xdr.rs:575-623 | Every kind of address comes back from its encoding |
| XdrShows.ErrorsAlikeIff | crates/lumenqraph-core/src/xdr.rs:378-416 | Two errors are shown alike if and only if their kinds are the same or both unknown and their codes are the same or, for host errors, both unknown |
| XdrShows.WideShowsItsBytes | crates/lumenqraph-core/src/xdr.rs:435-439 | A 256-bit number, signed or not, is shown as the hex of the 32 bytes of its value modulo 2^256 |
| XdrShows.WidesAlikeIff | crates/lumenqraph-core/src/xdr.rs:435-439 | Two 256-bit numbers, signed or not, are shown alike if and only if they agree modulo 2^256 |
| XdrWire.MapLosesOnlyOrder | crates/lumenqraph-core/src/xdr.rs:544-573 | Two maps have the same JSON if and only if they have equally many pairs, each standing in both: anywhere if they show as objects, in the same place if they show as pairs |
| XdrWire.ObjectForgetsOrder | crates/lumenqraph-core/src/xdr.rs:544-573 | Two different sorted maps, a string and a symbol with their values exchanged, have the same JSON |
| XdrCursor.Cursor.Scval | crates/lumenqraph-core/src/xdr.rs:362-501 | The moving cursor reads what the specification reads |
| XdrCursor.Cursor.ReadMap | crates/lumenqraph-core/src/xdr.rs:544-573 | The accumulated object, pairs and flags end in the map's JSON |
| XdrCursor.Cursor.SkipInstance | crates/lumenqraph-core/src/xdr.rs:512-538 | Skipping an instance stays aligned with its storage |
| XdrCursor.Cursor.VariableBytes | crates/lumenqraph-core/src/xdr.rs:354-360 | Length, bytes and padding are consumed together |
| XdrCursor.Cursor.Address | crates/lumenqraph-core/src/xdr.rs:575-623 | Each address kind consumes its own payload; an unknown kind fails |
| XdrCursor.AddTracks | crates/lumenqraph-core/src/xdr.rs:551-565 | One more pair keeps the object, the pairs and both flags in step |
| SpecCache.EveryReturnIsFresh | crates/lumenqraph-api/src/specs.rs:86-156 | Over every interleaving of queries, inserts, clears, invalidations and writes, each return is the section of a version at least as new as the one its validating query saw, under that one's hash, and at most 256 entries are held |
| SpecCache.ReturnIsValidatedIffSameSection | crates/lumenqraph-api/src/specs.rs:86-156 | Over every interleaving, a return is exactly the version its call validated if and only if the version its section was read from has that same section |
| SpecCache.MissReadsValidatedIffNotRewritten | crates/lumenqraph-api/src/specs.rs:118-156 | A call that missed the cache reads the very version it validated if and only if no newer version was stored between its two queries, whatever else happens before, between and after |
| SpecCache.QuietRowIsServedCurrent | crates/lumenqraph-api/src/specs.rs:86-156 | If no version was stored after the one a call validated, the call returned exactly that one |
| SpecServe.EndedIsAnswered | crates/lumenqraph-api/src/specs.rs:86-156 | A step that ends a call in flight adds exactly one answer, for that call's contract and validated version, unless it fetched a section that is empty or does not parse |
| SpecServe.NoCallIsLost | crates/lumenqraph-api/src/specs.rs:86-156 | Over every interleaving, the calls started are exactly those answered, refused for their section, or in flight |
| SpecServe.WarmIsServedIff | crates/lumenqraph-api/src/specs.rs:124-133 | In every reachable state a call is answered at once, with the cached section, if and only if an entry is filed at the stored version; otherwise it goes on to its second query |
| SpecServe.ColdIsServedAndFiled | crates/lumenqraph-api/src/specs.rs:86-156 | A call on a cold row with nothing between its steps answers with the stored version and files it |
| SpecServe.FiledIsServed | crates/lumenqraph-api/src/specs.rs:124-156 | Once a call has filed the stored version, after any interleaving that does not rewrite, invalidate, clear or refile it, the next call answers at once with that section |
| SpecServe.InvalidatedIsCold | crates/lumenqraph-api/src/specs.rs:124-133 | After an invalidation the row is cold and every other entry is as it was |
| SpecCache.TornRead | crates/lumenqraph-api/src/specs.rs:118-156 | A write between the two queries yields the new section under the old hash |
| RateLimit.Shard.Check | crates/lumenqraph-api/src/rate_limit.rs:107-159 | A check refills, spends, promotes and evicts as specified, and keeps the shard within capacity |
| RateLimit.Shard.constructor | crates/lumenqraph-api/src/rate_limit.rs:77-86 | Shares are the least that together hold the requested number of identities |
| RateLimit.AdmissionIsBounded | crates/lumenqraph-api/src/rate_limit.rs:107-159 | Over any run whose timestamps keep lock order, a window of length T admits at most L + L*T/60 requests of an identity, plus one bucket for each eviction inside the window |
| RateLimit.AdmissionIsBoundedInAnyOrder | crates/lumenqraph-api/src/rate_limit.rs:107-159 | With timestamps in any order the bound grows by exactly L*R/60, R being how far the identity's own timestamps moved backwards in lock order |
| RateLimit.RewindAdmitsTwice | crates/lumenqraph-api/src/rate_limit.rs:117-119 | Without the backward movement in it the bound fails: a rewound timestamp admits a second request at once |
| RateLimit.RetryHintIsHonest | crates/lumenqraph-api/src/rate_limit.rs:130-159 | After a denial the hint is in 1..60 and a check that much later is allowed, whatever other identities do meanwhile |
| RateMeaning.CheckMeans | crates/lumenqraph-api/src/rate_limit.rs:107-153 | A check is allowed if and only if the refilled bucket, or a full one for a new identity, holds a whole token; it then spends one and reports the whole tokens left, and else spends none; no other bucket changes |
| RateMeaning.RefillMeans | crates/lumenqraph-api/src/rate_limit.rs:130-133 | Refilling adds the limit per minute of elapsed time up to a full bucket, and nothing when time runs back |
| RateMeaning.FreshIdentityGetsItsLimit | crates/lumenqraph-api/src/rate_limit.rs:119-138 | Of any number of requests a new identity makes at one instant, exactly the first `limit` are admitted |
| RateMeaning.RetryHintIsLeast | crates/lumenqraph-api/src/rate_limit.rs:143-152 | A check one second before a hint of more than one is still denied |
| RateMeaning.EvictionTakesTheOldest | crates/lumenqraph-api/src/rate_limit.rs:117-129 | Over any run the shard keeps its identities in order of their last request, so the one evicted is the one whose last request is oldest |
| Pagination.CursorRoundTrip | crates/lumenqraph-api/src/pagination.rs:58-74 | A cursor gives its position back whatever the id holds |
| Pagination.CursorAccepted | crates/lumenqraph-api/src/pagination.rs:68-74 | A cursor is accepted exactly when its payload is a 64-bit integer, a bar and any text |
| Pagination.Parse | crates/lumenqraph-api/src/pagination.rs:180-203 | Accepted exactly when the cursor decodes or, without one, the offset is within 10,000; the position is the decoded cursor, a limit outside 1..max becomes the nearer end, and the offset is the requested one, or 0 when it is negative or a cursor is given |
| Pagination.Finish | crates/lumenqraph-api/src/pagination.rs:218-234 | No row is dropped unless a further page is announced, and its cursor stands on the last row kept |
| Keyset.BuildConnection | crates/lumenqraph-api/src/graphql.rs:517-559 | Edges are the leading rows in order, each with its own cursor; the end cursor is the last edge's |
| Keyset.WalkCovers | crates/lumenqraph-api/src/graphql.rs:371-390 | Following end cursors, while rows come and go, never fails, repeats or reorders a row, shows only rows that were there, and at its end has shown every row that stayed throughout |
| Keyset.EventWalkCovers | crates/lumenqraph-api/src/graphql.rs:371-390 | The walk over one contract's events, all or those of one name, covers exactly the rows meeting that filter |
| Keyset.TransferWalkCovers | crates/lumenqraph-api/src/graphql.rs:408-436 | The same for transfers, filtered by contract, sender and receiver |
| Keyset.StaticWalk | crates/lumenqraph-api/src/graphql.rs:371-436 | On a table that stands still the walk shows the query's rows in order and ends exactly when they run out |
| Keyset.NextQuery | crates/lumenqraph-api/src/graphql.rs:376-380 | The rows older than a page's last row are exactly the rest of the query |
| Keyset.OrderedStrictly | crates/lumenqraph-api/src/graphql.rs:376-380 | A query's rows are the matching rows, strictly newest first |
| Keyset.ContractsContinueIffNoTie | crates/lumenqraph-api/src/graphql.rs:291-298 | The contracts predicate continues after a row if and only if no other contract shares that row's ledger |
| Keyset.TiedContractIsSkipped | crates/lumenqraph-api/src/graphql.rs:291-298 | Of two contracts sharing a ledger, the one ordered second does not satisfy the next page's predicate after the first |
| CacheKey.KeysAgree | crates/lumenqraph-api/src/call_cache.rs:170-190 | Two arguments whose object keys hold no end-of-key mark have the same key if and only if they are the same value up to the order of object members |
| CacheKey.NormalizeIsCanonText | crates/lumenqraph-api/src/call_cache.rs:170-190 | Sorting on the way down writes the text of the canonical form |
| CacheKey.TextUnambiguous | crates/lumenqraph-api/src/call_cache.rs:170-190 | The text of a value, followed by any delimited text, determines the value |
| CacheKey.MarkedKeyCollides | crates/lumenqraph-api/src/call_cache.rs:178-181 | For any two keys in order and any two values, the object of both shares its text with a different object of one member, whose key holds the mark |
| CacheKey.EveryKeyCollides | crates/lumenqraph-api/src/call_cache.rs:178-181 | Every key, with the mark or without, stands in an object that shares its text with a different value |
| CallCache.Cache.Get | crates/lumenqraph-api/src/call_cache.rs:67-95 | A lookup promotes a live entry, drops an expired one, and counts once |
| CallCache.Cache.Insert | crates/lumenqraph-api/src/call_cache.rs:98-117 | An insert replaces, or evicts the least recently used entry when full |
| CallCache.Cache.InvalidateContract | crates/lumenqraph-api/src/call_cache.rs:121-131 | Collecting and popping a contract's keys leaves the specified contents |
| CallCache.DropKeeps | crates/lumenqraph-api/src/call_cache.rs:121-131 | Invalidation drops exactly the contract's entries and changes no other |
| CallCache.HitIsLatest | crates/lumenqraph-api/src/call_cache.rs:67-131 | Over any run, a hit is the result of the latest insert for the same contract, function, arguments up to member order, source and WASM hash, within the time to live and not invalidated since |
| CallCache.HitsExactlyWhenLive | crates/lumenqraph-api/src/call_cache.rs:67-131 | While no more distinct keys than the capacity were inserted, a lookup hits if and only if such an insert exists |
| CallRecency.KeptByLastUse | crates/lumenqraph-api/src/call_cache.rs:67-117 | Over any run the entries are kept in order of last use, a hit or an insert |
| CallRecency.InsertEvictsLeastRecent | crates/lumenqraph-api/src/call_cache.rs:98-117 | After any run an insert loses at most one entry, the one used least recently, and only when a new key comes to a full cache |
| CallRecency.LookupMeans | crates/lumenqraph-api/src/call_cache.rs:67-95 | A lookup returns what was stored for less than the time to live, drops what was stored for longer, and leaves every other entry as it was |
| Lru.WithoutKeeps | crates/lumenqraph-api/src/rate_limit.rs:107-159 | Taking a key out of the recency order loses no other key and keeps keys distinct |

## Left out

- Strkey, base64 and the XDR parser of `stellar_xdr`: parameters or absent; `decode_scval_base64` is modelled from the parsed value on.
- The transaction envelope, source accounts, fees and simulation: only the argument list of a call is modelled.
- Error texts, docs, diff summaries and the JSON shape of a diff: no property beyond the text itself.
- EncodeSound.EncodeSound: `Val`, `Result` and `Error` parameters are rejected by the encoder and so have no image; muxed addresses reach the image only as plain accounts.
- RoundTrip.ResultsFeedBack: stated for values that belong to a declared type; strings and symbols that are not UTF-8 do not, and muxed accounts are covered by MuxedResultLosesItsId.
- Naming.NamingLosesNothing: stated for values that belong to a declared type as `TypedValues.WellTyped` has it; for the scalars that leaves out Lookalikes.ScalarsAlikeIff is exact.
- Lookalikes.SimplesAlikeIff: vectors and maps at `Val` are not compared; besides matching part by part they can write out each other's JSON and that of errors and instances, as VectorImitatesMap and MapImitatesError show.
- Upgrade.NonBreakingUpgradeKeepsCalls: one direction, for readable interfaces; for others PunctuatedNameHidesABreak shows it fails.
- DiffMeaning.BreakingIff: for readable interfaces, as for Upgrade.NonBreakingUpgradeKeepsCalls.
- Upgrade.AdditiveUpgradeKeepsMeanings: nothing is claimed for event enrichment, because event signatures omit prefix topics.
- CacheKey.KeysAgree: for keys without the end-of-key mark; which marked keys collide depends on the other value, so no condition on one value alone is both necessary and sufficient.
- SpecCache.EveryReturnIsFresh: a state machine over values; the locks, the in-place map updates, the database and the `at_version` cache are not modelled, and writers are assumed to strictly increase `fetched_at`.
- SpecServe.NoCallIsLost: database failures and contracts without a row, which the first query turns away, are no calls here.
- Emitted.EmittedIsEnriched: for distinct parameter names; under a repeated name the record keeps the last value.
- RateLimit.Shard.Check: hashing identities to shards, locking and the Redis backend are not modelled; limits stay fixed in the run theorems.
- CallCache.Cache.Get: counters are unbounded and the mutex is not modelled.
- Keyset.WalkCovers: stated for the `events` and `transfers` connections; REST lists share the query and the sentinel rule (Pagination.Finish), but their other filters and offset pages are not modelled.
- WasmSections.CustomSection: positions are unbounded, so the overflow checks on a 64-bit `usize`, which cannot fail here, are dropped.
- XdrCursor.Cursor.Scval: the cursor is kept in the source but no longer called from `decode_scval_base64`; presence flags other than 0 and 1 and non-zero padding are accepted, as the code does.
- View-function heuristics, code generation, sanitizing, URL checks, authentication, key caching and concurrency limits: easy or heuristic.
