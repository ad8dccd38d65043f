# Digest value type and canonical record hashing

This project models `src/modules/data/Hash.ts` of the stoa ledger code: the
64-byte digest type `Hash`, the functions that turn bytes into digests
(`hash`, `hashMulti`, `makeUTXOKey`), and the recursive canonical serializer
(`hashPart`) that `hashFull` folds into one digest. Digests content-address
blocks, transactions and UTXO entries, so every byte of the layout matters.

Layout:

- `wrappers.dfy` — `Option` (an omitted optional argument) and `Result`
  (an operation that throws in the source).
- `bytes.dfy` — bytes, zero-filled allocation, byte reversal, Node's
  `Buffer.copy` (`CopyInto`) and the unsigned little-endian encoding used by
  `writeBigUInt64LE`, with its decoder.
- `hash.dfy` — module `Hashing`: `Width` = 64, the `Hash` value (its buffer
  is a `Block`, a sequence of exactly `Width` bytes), the two byte orders
  with their two distinct defaults (`DefaultBinaryEndian` = Big,
  `DefaultTextEndian` = Little), `new Hash(bin?, endian?)` (`Create`),
  `fromBinary`, `toBinary`, `computeHash`, and `hash` (`HashBytes`),
  `hashMulti`, `makeUTXOKey`.
- `canonical.dfy` — module `Canonical`: the record tree handed to
  `hashPart`, the serializer `HashPart` written as the source writes it (a
  sink threaded through loops over array elements, object members and the
  steps of a `computeHash` method), a structural reference `Encoding` of
  what each record contributes, and `HashFull`.

The digest primitive (`sodium.crypto_generichash` with a 64-byte output) is
a parameter `H` of type `Digester`, any function from bytes to a `Width`-byte
block; every property below holds for every such `H`.

The record tree has one variant per branch of `hashPart`: `Null` (null or
undefined), `HashLeaf` (a digest, which has `computeHash`), `Custom` (any
other object with `computeHash`, given as the sequence of its writes and of
the fields it hands back to `hashPart`), `Arr` (an array), `Obj` (a plain
object, its own members in an explicit order), and `Scalar` (a number,
boolean or bigint: `for … in` finds no own member, so it writes nothing).

Binary conversions default to big-endian and hex-text conversions to
little-endian; the model keeps the two defaults as separate constants. One
place where a reader's expectation and the code part ways: a raw byte buffer that is a record member but has no
`computeHash` is walked by the generic `for … in` branch. Its own members
are its numeric bytes, and numbers write nothing, so such a buffer
contributes no bytes at all. The model follows the code
(`Canonical.ScalarMembersWriteNothing`). A record member whose bytes are
meant to count must serialize itself, as `Custom([Write(bytes)])` does in
`Canonical.TwoFieldExample`.

## Model

| member | source | states |
|---|---|---|
| `Hashing.NullHash` | src/modules/data/Hash.ts:38-41 | `NULL` has all `Width` bytes zero |
| `Hashing.NullIsZero` | src/modules/data/Hash.ts:38-53 | `new Hash()` with no data is `NULL`, which is `Width` zero bytes and reads as zeros in either byte order |
| `Hashing.Create` | src/modules/data/Hash.ts:48-53 | without data the new digest is `Width` zero bytes whatever the order; with data it succeeds exactly for `Width` bytes, which it gives back when written out in the order given, and fails with `MalformedInput` otherwise |
| `Hashing.BinaryOrder` | src/modules/data/Hash.ts:93-94 | the order a binary conversion uses (here and at lines 111-112): Big when omitted, the given order otherwise |
| `Hashing.TextOrder` | src/modules/data/Hash.ts:63-64 | the order a text conversion uses (here and at lines 77-78): Little when omitted, the given order otherwise |
| `Hashing.EndianDefaults` | src/modules/data/Hash.ts:61-118 | omitted order means Big for the binary conversions and Little for the text conversions, the two defaults differ, and an explicit order is always used as given |
| `Hashing.FromBinary` | src/modules/data/Hash.ts:89-102 | fails with `MalformedInput` exactly when the input is not `Width` bytes; otherwise the digest holds the input verbatim for Big (also the default) and byte-reversed for Little |
| `Hashing.FromBinaryOverwrites` | src/modules/data/Hash.ts:48-53 | the result of `fromBinary` does not depend on the previous buffer, so `new Hash(bin, endian)` gives the same digest as `fromBinary` on any digest |
| `Hashing.ToBinary` | src/modules/data/Hash.ts:109-118 | Big (also the default) yields the internal buffer, Little its byte reversal |
| `Hashing.FromBinaryToBinary` | src/modules/data/Hash.ts:89-118 | for every `Width`-byte input and every order, explicit or omitted, reading it in then writing it out in that order returns the input |
| `Hashing.ToBinaryFromBinary` | src/modules/data/Hash.ts:89-118 | writing a digest out in some order and reading it back in that order returns the same digest |
| `Hashing.EndianDuality` | src/modules/data/Hash.ts:109-118 | the little-endian form is the reverse of the big-endian form and vice versa; the default form is the big-endian one |
| `Hashing.LittleInBigOut` | src/modules/data/Hash.ts:96-117 | input read little-endian and written big-endian comes out byte-reversed |
| `Hashing.ToBinaryInjective` | src/modules/data/Hash.ts:109-118 | two digests have the same binary form in a given order exactly when they are equal |
| `Hashing.ComputeHash` | src/modules/data/Hash.ts:146-149 | a digest appends exactly its `Width` internal bytes to the sink and leaves the earlier bytes alone |
| `Hashing.HashBytes` | src/modules/data/Hash.ts:157-162 | `hash(source)` holds exactly the primitive's output for `source` |
| `Hashing.HashBytesBinaryForm` | src/modules/data/Hash.ts:157-162 | the digest of `source` written out in the default order is the primitive's output, and in little-endian order its reversal |
| `Hashing.HashMulti` | src/modules/data/Hash.ts:171-180 | the merge buffer built by the two copies is the plain concatenation, so `hashMulti(a, b)` is `hash(a ++ b)` |
| `Hashing.HashMultiIsConcatenation` | src/modules/data/Hash.ts:171-180 | two pairs of buffers with the same concatenation give the same digest, and the same as hashing the concatenation alone: no separator, no length prefix |
| `Hashing.IndexBytes` | src/modules/data/Hash.ts:191-192 | an index below 2^64 is written as 8 bytes that decode little-endian to the index |
| `Hashing.MakeUTXOKey` | src/modules/data/Hash.ts:189-195 | succeeds exactly for 0 <= index < 2^64, failing with `OutOfRange` otherwise; on success it is `hashMulti` of the digest's bytes and an 8-byte little-endian encoding of the index |
| `Hashing.UTXOKeyLayout` | src/modules/data/Hash.ts:189-195 | the key hashes the digest's internal (big-endian) 64 bytes followed by 8 bytes that decode little-endian to the index |
| `Hashing.UTXOKeyInputInjective` | src/modules/data/Hash.ts:189-195 | two (digest, index) pairs give the same primitive input exactly when they are the same pair, so distinct keys rest only on the primitive's collision resistance |
| `Hashing.UTXOKeyOfNull` | src/modules/data/Hash.ts:189-195 | the key of `NULL` and index 0 is `hashMulti` of 64 zero bytes and 8 zero bytes |
| `Bytes.Reverse` | src/modules/data/Hash.ts:114-115 | the reversal has the same length and holds byte `n-1-i` at position `i` |
| `Bytes.CopyInto` | src/modules/data/Hash.ts:173-175 | a copy into a buffer at an offset keeps the bytes before the offset, writes the source bytes that fit from the offset on, and keeps the rest |
| `Bytes.ToLittleEndian` | src/modules/data/Hash.ts:191-192 | the `n`-byte little-endian encoding of a value below 256^n has `n` bytes and decodes back to the value |
| `Bytes.LittleEndianRoundTrip` | src/modules/data/Hash.ts:191-192 | every `n`-byte sequence is the encoding of the value it decodes to |
| `Bytes.LittleEndianInjective` | src/modules/data/Hash.ts:191-192 | two in-range values have the same encoding exactly when they are equal |
| `Canonical.HashFull` | src/modules/data/Hash.ts:204-212 | a null record gives `NULL` for every primitive; any other record gives the primitive applied to its whole serialization |
| `Canonical.HashPart` | src/modules/data/Hash.ts:219-247 | `hashPart` only appends to the sink, and what it appends is exactly the record's structural encoding: nothing for null or a scalar, the digest's bytes, a `computeHash`'s writes, an array's elements, an object's member values |
| `Canonical.HashPartAll` | src/modules/data/Hash.ts:233-236 | the `for … of` loop appends the elements' encodings one after another, in order |
| `Canonical.HashPartMembers` | src/modules/data/Hash.ts:240-246 | the loop over an object's own members appends their values' encodings one after another, in member order |
| `Canonical.RunSteps` | src/modules/data/Hash.ts:225-228 | an object with `computeHash` appends its own writes and its fields' encodings in the order it issues them |
| `Canonical.LeafRules` | src/modules/data/Hash.ts:219-229 | a null and a scalar append nothing; a digest appends exactly its `Width` bytes in big-endian order |
| `Canonical.ArrayIsConsecutive` | src/modules/data/Hash.ts:231-237 | serializing `xs ++ ys` writes the bytes of `xs` and then of `ys`, with nothing between |
| `Canonical.SingletonArray` | src/modules/data/Hash.ts:231-237 | a one-element array writes what its element writes |
| `Canonical.ObjectWritesValues` | src/modules/data/Hash.ts:238-247 | an object writes what the array of its member values writes; the keys contribute nothing |
| `Canonical.NullsContributeNothing` | src/modules/data/Hash.ts:219-237 | removing every null from an array leaves its serialization unchanged |
| `Canonical.NullElementOmitted` | src/modules/data/Hash.ts:219-237 | an array with a null element inserted has the same serialization and the same digest as without it |
| `Canonical.NullMemberOmitted` | src/modules/data/Hash.ts:219-247 | an object with a null-valued member inserted has the same serialization and digest as without it |
| `Canonical.NullFieldOmitted` | src/modules/data/Hash.ts:219-229 | a `computeHash` that hands a null field to `hashPart` gives the same serialization and digest as one that skips it |
| `Canonical.ScalarMembersWriteNothing` | src/modules/data/Hash.ts:238-247 | an object whose member values are all scalars or nulls, a raw byte buffer among them, writes nothing |
| `Canonical.NullShortCircuitsOnlyAtTop` | src/modules/data/Hash.ts:204-212 | only a null record takes the `NULL` short-circuit without applying the primitive; an empty array, an array of one null and a scalar all hash the empty input |
| `Canonical.TwoFieldExample` | src/modules/data/Hash.ts:204-247 | `{a: NULL, b: <object writing bytes>}` hashes 64 zero bytes followed by those bytes |

## Left out

- The digest primitive's internals (BLAKE2b, RFC 7693) and its failure: it is the parameter `H`, assumed total.
- Hex text: `fromString`, `toString` and `createFromString` parse and print through `readFromString` and `writeToString` in `../utils/buffer`, which is not part of this model; only their choice of byte order (`Hashing.TextOrder`, default Little) is modelled.
- `reverse` from `../utils/buffer` is not part of this model; `Bytes.Reverse` is assumed to be what it computes, both when returning a copy and when writing into `this.data`.
- `SmartBuffer`: the sink is an immutable byte sequence that is only appended to, and `readBuffer` returns all of it.
- Aliasing and in-place mutation: `toBinary(Big)` returns the internal buffer itself, and `fromBinary` and `fromString` rewrite `this`. Digests are values here; `Hashing.FromBinary` takes the digest being rewritten and returns the new one.
- JavaScript's `for … in` order and `hasOwnProperty` filtering: a plain object is given as the ordered list of its own members.
- Cyclic records: an object graph that reaches itself through an array element or an own member makes `hashPart` recurse until the stack overflows; `Record` is a finite datatype, so the model cannot express a cycle.
- `Hash.Width` is a public static field that other code could reassign; the model fixes it as the constant `Hashing.Width` = 64.
- Strings reaching `hashPart`: `for … in` over a one-character string yields that same string again, so the source recurses without end; there is no record variant for strings.
- `computeHash` detection by duck typing is replaced by the `HashLeaf` and `Custom` variants; a `computeHash` that reads, rewinds or overwrites the sink instead of appending is not modelled.
- Collision resistance and determinism of the primitive: determinism is automatic for a function; collision resistance cannot be stated of an arbitrary `H`, so `Hashing.UTXOKeyInputInjective` proves distinct inputs instead.
