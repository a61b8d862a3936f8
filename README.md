# IotaHelper bundle extraction and non-ASCII escape codec, in Dafny

This project models the logic of `IotaHelper` (`src/helpers/iotaHelper.ts`) from the
iota-database-tutorial repository. That logic covers two things:

- **The non-ASCII escape codec.** `encodeNonASCII` rewrites every UTF-16 code unit from
  U+007F (DEL) to U+FFFF as `\u` followed by four lowercase, zero-padded hexadecimal
  digits. `decodeNonASCII` turns `\u` or `\U` followed by four word characters back into
  one code unit, scanning from left to right without overlap. For the empty string, which
  is falsy, both return `undefined`.
- **Bundle reconstruction, `extractBundles`.** It groups IOTA transaction objects into a
  dictionary keyed by bundle hash. For each bundle, taken in first-insertion order, it
  stable-sorts the group by `attachmentTimestamp`. It then reads `lastIndex` from the
  earliest transaction and keeps the first `lastIndex + 1` transactions; this drops
  reattachments. Next it sorts those by `currentIndex`, hands them to `extractJson`,
  decodes the escapes and runs `JSON.parse`.

Modules:

- `wrappers.dfy` (`Wrappers`): `Option`. It stands for `undefined` results and for
  exceptions.
- `codec.dfy` (`EscapeCodec`): text is a `seq<CodeUnit>` of UTF-16 code units.
  - `EncodeUnits` and `DecodeUnits` are the two `replace` passes, written as recursive
    functions.
  - `EncodeNonAscii` and `DecodeNonAscii` add the falsy-input check.
  - `ParseEscapeGroup` models `String.fromCharCode(parseInt(group, 16))`: a
    leading `0x`/`0X` is dropped, the longest run of hex digits is read, and NaN becomes
    U+0000.
  - `Escape` models `("0000" + n.toString(16)).substr(-4)` literally.
- `transactions.dfy` (`Transactions`): the transaction fields that extraction reads, and
  the two sort keys.
- `sort.dfy` (`StableSort`): `Sorted` is a functional stable insertion sort that serves
  as the specification. `InsertionSort` is an in-place insertion sort on an array, proved
  to compute it.
- `bundles.dfy` (`Bundles`):
  - `GroupByBundle` is the dictionary-filling loop. It returns the map and its key
    insertion order.
  - `Group` and `BundleOrder` are its reference definitions.
  - `SelectAttempt` and `BundleEntries` cover attempt selection and sequencing.
  - `ExtractOne` is the body of the loop over the keys, for one bundle. `ExtractAll` is
    that loop, over the dictionary and its keys.
  - `ExtractBundles` is the whole operation. `extractJson` and `JSON.parse` are function
    parameters of it.

Where the module's description and its code differ, the model follows the code:

- The encoder also escapes U+007F.
- Encoding and then decoding gives back the text only for text that holds no literal
  backslash-`u`-and-four-word-characters sequence (see Findings).

## Model

| member | source | states |
|---|---|---|
| `EscapeCodec.EncodeNonAscii` | src/helpers/iotaHelper.ts:83-85 | `undefined` (None) exactly for the empty string; otherwise the output length is the input length plus 5 for each unit at or above 0x7F and holds no unit at or above 0x7F |
| `EscapeCodec.DecodeNonAscii` | src/helpers/iotaHelper.ts:92-94 | `undefined` (None) exactly for the empty string; otherwise the output is never longer than the input and equals it exactly when the input holds no escape |
| `EscapeCodec.ToHexDigits` | src/helpers/iotaHelper.ts:84 | `n.toString(16)` is a non-empty run of lowercase hex digits with value `n` and no leading zero |
| `EscapeCodec.EscapeDigits` | src/helpers/iotaHelper.ts:84 | an escape is `\`, `u` and exactly four lowercase hex digits whose value is the escaped unit (zero-padded on the left) |
| `EscapeCodec.EncodeUnits` | src/helpers/iotaHelper.ts:84 | the replacement pass maps non-empty text to non-empty text, so only the empty input is falsy; its length and output range are stated by the next two rows |
| `EscapeCodec.EncodeUnitsLength` | src/helpers/iotaHelper.ts:84 | output length is the input length plus 5 times `CountEscaped(s)`, the number of units at or above 0x7F |
| `EscapeCodec.EncodeUnitsAscii` | src/helpers/iotaHelper.ts:84 | no output unit is at or above DEL (0x7F) |
| `EscapeCodec.EncodeUnitsAppend` | src/helpers/iotaHelper.ts:84 | the global replace works unit by unit: encoding distributes over concatenation |
| `EscapeCodec.EncodeUnitsUnchangedIff` | src/helpers/iotaHelper.ts:84 | a text is left unchanged iff all of its units are below 0x7F (units below 0x7F are copied) |
| `EscapeCodec.EncodeIdempotent` | src/helpers/iotaHelper.ts:84 | encoding an encoded text again changes nothing |
| `EscapeCodec.DecodeUnits` | src/helpers/iotaHelper.ts:93 | the replacement pass maps non-empty text to non-empty text, since each match is replaced by one unit |
| `EscapeCodec.ParseEscapeGroup` | src/helpers/iotaHelper.ts:93 | four hex digits of either case give the unit they denote; a group whose first unit is not a hex digit is NaN and gives U+0000 |
| `EscapeCodec.ParseEscapeGroupExamples` | src/helpers/iotaHelper.ts:93 | `parseInt` on non-hex groups: `0x1g` gives 0x1, `0X1F` gives 0x1F, `12g4` gives 0x12, and `zzzz` and `0xzz` give U+0000 |
| `EscapeCodec.HexEscapeDecodes` | src/helpers/iotaHelper.ts:93 | `\u` or `\U` plus four hex digits of either case decodes to the single unit they denote, and decoding continues after them |
| `EscapeCodec.EscapeDecodes` | src/helpers/iotaHelper.ts:84-93 | decoding undoes one escape written by the encoder |
| `EscapeCodec.DecodeShortens` | src/helpers/iotaHelper.ts:93 | decoding never lengthens a text and strictly shortens any text that holds an escape |
| `EscapeCodec.DecodeUnchanged` | src/helpers/iotaHelper.ts:93 | text holding no escape sequence is returned unchanged |
| `EscapeCodec.DecodeUnchangedIff` | src/helpers/iotaHelper.ts:93 | decoding leaves a text unchanged iff it holds no escape |
| `EscapeCodec.DecodeEncode` | src/helpers/iotaHelper.ts:84-93 | decode(encode(s)) == s for every s holding no literal `\u`/`\U` plus four word characters |
| `EscapeCodec.CodecRoundTrip` | src/helpers/iotaHelper.ts:83-94 | the same round trip through the two public functions, for non-empty s |
| `EscapeCodec.LiteralEscapeBreaksRoundTrip` | src/helpers/iotaHelper.ts:84-93 | the six-unit text `\u0041` encodes to itself and decodes to `A` |
| `EscapeCodec.DecodeEncodeStrict` | src/helpers/iotaHelper.ts:84-93 | with the backslash escaped as well, decode(encode(s)) == s for every text |
| `StableSort.SortedPermutation` | src/helpers/iotaHelper.ts:124 | sorting yields a permutation (same multiset) of its input |
| `StableSort.SortedOrdered` | src/helpers/iotaHelper.ts:115 | sorting yields a sequence non-decreasing in the key |
| `StableSort.SortedStable` | src/helpers/iotaHelper.ts:115 | for every key, the elements with that key keep their input order (stable sort) |
| `StableSort.SortedSpec` | src/helpers/iotaHelper.ts:115-124 | length, permutation, order and stability of the sort together |
| `StableSort.InsertionSort` | src/helpers/iotaHelper.ts:124 | the array after the in-place sort is the stable sort of its old contents |
| `Bundles.BundleOrder` | src/helpers/iotaHelper.ts:111 | a hash is a dictionary key iff its group is non-empty, so `bundles[hash][0]` always exists |
| `Bundles.GroupByBundle` | src/helpers/iotaHelper.ts:103-108 | the dictionary maps each key to its group (the input transactions of that bundle, in input order, non-empty); keys in first-insertion order |
| `Bundles.GroupMembers` | src/helpers/iotaHelper.ts:105-108 | a group holds exactly the input transactions with that bundle hash |
| `Bundles.BundleOrderDistinct` | src/helpers/iotaHelper.ts:111 | each bundle hash appears once among the keys |
| `Bundles.BundleOrderCovers` | src/helpers/iotaHelper.ts:105-111 | the bundle hash of every input transaction becomes a key |
| `Bundles.BundleOrderMembers` | src/helpers/iotaHelper.ts:105-111 | every key is the bundle hash of some input transaction |
| `Bundles.BundleOrderByFirstOccurrence` | src/helpers/iotaHelper.ts:111 | keys are ordered by the first occurrence of their hash in the input |
| `Bundles.FirstIndexSpec` | src/helpers/iotaHelper.ts:111 | the position used for that order is where the hash first occurs |
| `Bundles.FirstIsEarliest` | src/helpers/iotaHelper.ts:115-118 | `lastIndex` is read from a group member with the earliest timestamp |
| `Bundles.SelectAttempt` | src/helpers/iotaHelper.ts:118-121 | the slice is a prefix of the timestamp order, holding `lastIndex + 1` transactions whenever that fits in the group |
| `Bundles.SelectionSize` | src/helpers/iotaHelper.ts:118-121 | the slice holds `lastIndex + 1` transactions, capped at the group size; `slice` counts from the end for `lastIndex < -1` |
| `Bundles.EarliestSelected` | src/helpers/iotaHelper.ts:115-121 | the slice is a sub-multiset of the group and no excluded transaction is earlier than a kept one |
| `Bundles.EarliestCompleteAttempt` | src/helpers/iotaHelper.ts:112-121 | when the earliest attempt shares one timestamp and `lastIndex` and is complete, the slice is exactly that attempt in input order |
| `Bundles.BundleEntries` | src/helpers/iotaHelper.ts:121-124 | the entries handed to `extractJson` are a permutation of the slice, non-decreasing in `currentIndex`, ties in timestamp order; no gap or count check |
| `Bundles.NoReattachmentSelected` | src/helpers/iotaHelper.ts:112-121 | under the same conditions, every selected transaction carries the earliest timestamp |
| `Bundles.OrderEntries` | src/helpers/iotaHelper.ts:115-124 | the array steps (sort by timestamp, slice, sort by index) compute `BundleEntries` |
| `Bundles.ReattachmentExample` | src/helpers/iotaHelper.ts:112-126 | a two-part bundle with a later reattachment yields the original's parts in index order |
| `Bundles.ExtractObject` | src/helpers/iotaHelper.ts:126-130 | an empty (falsy) `extractJson` result makes `JSON.parse` fail; otherwise the object is `JSON.parse` of the decoded text |
| `Bundles.ExtractOne` | src/helpers/iotaHelper.ts:115-130 | one pass of the per-hash loop body yields exactly `ExtractObject` of that bundle's group |
| `Bundles.ExtractAll` | src/helpers/iotaHelper.ts:110-132 | the loop over the keys yields one object per key in key order, and fails exactly when some key's object fails |
| `Bundles.ExtractBundles` | src/helpers/iotaHelper.ts:102-133 | one object per distinct bundle, in first-occurrence order; the call fails exactly when decoding or parsing fails for some bundle |

## Left out

- `findTransactionObjectsAsync`, `getNewAddressAsync` and `sendTransferAsync`
  (src/helpers/iotaHelper.ts:13-76) are left out. They only adapt iota.lib.js network
  calls from callbacks to promises.
- `extractJson` (iota.lib.js) is foreign code, so it is a function parameter of
  `ExtractBundles`. The model takes it to be a total, deterministic function that never
  throws, so an exception from `extractJson` is not represented. A `null` result is
  modelled as the empty string, because both are falsy and `decodeNonASCII` maps both to
  `undefined`.
- `JSON.parse` is a function parameter that returns `None` where it would throw.
  `JSON.parse(undefined)` always throws. A thrown exception is modelled as `None` for the
  whole call; the objects built so far are discarded, as they are in the source.
- The codec takes strings only. `null` and `undefined` inputs, which are also falsy, are
  not modelled.
- `Array.prototype.sort` is modelled as an explicit stable insertion sort. The engine's
  own algorithm is not modelled.
- Timestamps and indices are unbounded integers, not IEEE doubles. So comparator overflow
  and NaN keys are not modelled.
- `Object.keys` order is modelled as insertion order. This holds for IOTA bundle hashes:
  they are 81-character tryte strings, never array-index-like keys.
- `__proto__`-like keys are not modelled.
- `ExtractBundles`: the in-place sorts work on fresh arrays copied from the dictionary's
  groups. Aliasing of `bundles[hash]` with the dictionary entry is not modelled.

## Findings

| source | as written | input that shows it | evidently intended | confidence | as-written member | corrected member |
|---|---|---|---|---|---|---|
| src/helpers/iotaHelper.ts:84 | the encoder escapes only units 0x7F-0xFFFF, so a literal backslash passes through unescaped, and the decoder then reads any literal `\u` plus four word characters in the text as an escape | the six units `\u0041` (for example inside `JSON.stringify` output of a string holding a backslash) encode to themselves and decode to `A` | `decodeNonASCII(encodeNonASCII(s)) == s` for every text, by escaping the backslash too | medium, not executed | `EscapeCodec.LiteralEscapeBreaksRoundTrip` | `EscapeCodec.DecodeEncodeStrict` |

The corrected encoder, `EncodeUnitsStrict`, also writes U+005C as `\u005c`. It is the
definition for which `DecodeEncodeStrict` proves the round trip for every text. The
rest of the model only decodes, and the decoder is the same in both versions.
