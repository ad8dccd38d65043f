/** The fixed-width digest value type (`class Hash`) and the functions that
    produce digests from bytes: `hash`, `hashMulti` and `makeUTXOKey`. */
module Hashing {
  import opened Wrappers
  import opened Bytes

  /** Number of bytes in every digest (`Hash.Width`). */
  const Width: nat := 64

  /** A buffer of exactly `Width` bytes. */
  type Block = s: seq<byte> | |s| == Width witness Zeros(Width)

  /** The byte order in which a digest is read or written. */
  datatype Endian = Big | Little

  /** Byte order used by `fromBinary`/`toBinary` when none is given. */
  const DefaultBinaryEndian: Endian := Big

  /** Byte order used by `fromString`/`toString` when none is given. */
  const DefaultTextEndian: Endian := Little

  /** The order a binary conversion uses for an optional `endian` argument. */
  function BinaryOrder(endian: Option<Endian>): (order: Endian)
    ensures endian.None? ==> order == Big
    ensures endian.Some? ==> order == endian.value
  {
    endian.GetOr(DefaultBinaryEndian)
  }

  /** The order a hex-text conversion uses for an optional `endian` argument. */
  function TextOrder(endian: Option<Endian>): (order: Endian)
    ensures endian.None? ==> order == Little
    ensures endian.Some? ==> order == endian.value
  {
    endian.GetOr(DefaultTextEndian)
  }

  /** Why a digest operation could not produce a value: a binary buffer of
      the wrong length (the assertion in `fromBinary`), or an index that
      does not fit an unsigned 64-bit integer (`writeBigUInt64LE`). */
  datatype Error = MalformedInput | OutOfRange

  /** A digest: its internal buffer is always `Width` bytes. */
  datatype Hash = Hash(data: Block)

  /** The digest whose bytes are all zero. */
  function NullHash(): (h: Hash)
    ensures forall i :: 0 <= i < Width ==> h.data[i] == 0
  {
    Create(None, None).value
  }

  /** `target.fromBinary(bin, endian)`: rejects a buffer that is not `Width`
      bytes long; otherwise overwrites the whole internal buffer with `bin`,
      reversed when the order is little-endian. */
  function FromBinary(target: Hash, bin: seq<byte>, endian: Option<Endian>): (r: Result<Hash, Error>)
    ensures r.Failure? <==> |bin| != Width
    ensures r.Failure? ==> r.error == MalformedInput
    ensures r.Success? && BinaryOrder(endian) == Big ==> r.value.data == bin
    ensures r.Success? && BinaryOrder(endian) == Little ==>
      forall i :: 0 <= i < Width ==> r.value.data[i] == bin[Width - 1 - i]
  {
    if |bin| != Width then Failure(MalformedInput)
    else if BinaryOrder(endian) == Little then Success(Hash(Reverse(bin)))
    else Success(Hash(CopyInto(bin, target.data, 0)))
  }

  /** `new Hash(bin?, endian?)`: a zeroed buffer, filled by `fromBinary`
      when binary data is given; the order is ignored without data. */
  function Create(bin: Option<seq<byte>>, endian: Option<Endian>): (r: Result<Hash, Error>)
    ensures bin.None? ==> r.Success? && r.value.data == Zeros(Width)
    ensures bin.Some? ==> (r.Success? <==> |bin.value| == Width)
    ensures bin.Some? && r.Success? ==> ToBinary(r.value, endian) == bin.value
    ensures r.Failure? ==> r.error == MalformedInput
  {
    var blank := Hash(Zeros(Width));
    match bin
    case None => Success(blank)
    case Some(b) => FromBinary(blank, b, endian)
  }

  /** `h.toBinary(endian)`: the internal buffer, reversed for little-endian. */
  function ToBinary(h: Hash, endian: Option<Endian>): (r: Block)
    ensures BinaryOrder(endian) == Big ==> r == h.data
    ensures BinaryOrder(endian) == Little ==> r == Reverse(h.data)
  {
    if BinaryOrder(endian) == Little then Reverse(h.data) else h.data
  }

  /** `h.computeHash(buffer)`: appends the `Width` raw bytes to the sink. */
  function ComputeHash(h: Hash, sink: seq<byte>): (r: seq<byte>)
    ensures |r| == |sink| + Width
    ensures r[..|sink|] == sink && r[|sink|..] == h.data
  {
    sink + h.data
  }

  /** The digest primitive (`crypto_generichash` with a `Width`-byte output),
      left uninterpreted: any function with a `Width`-byte result. */
  type Digester = seq<byte> -> Block

  /** `hash(source)`: the primitive's output wrapped as a digest. */
  function HashBytes(H: Digester, source: seq<byte>): (r: Hash)
    ensures r.data == H(source)
  {
    var temp := H(source);
    Create(Some(temp), None).value
  }

  /** `hashMulti(source1, source2)`: both buffers are copied into one buffer
      of the combined length, which is then hashed. */
  function HashMulti(H: Digester, source1: seq<byte>, source2: seq<byte>): (r: Hash)
    ensures r == HashBytes(H, source1 + source2)
  {
    var merge := Zeros(|source1| + |source2|);
    var merge := CopyInto(source1, merge, 0);
    var merge := CopyInto(source2, merge, |source1|);
    assert merge == source1 + source2;
    var temp := H(merge);
    Create(Some(temp), None).value
  }

  /** The eight bytes `writeBigUInt64LE` writes for an index in range. */
  function IndexBytes(index: nat): (r: seq<byte>)
    requires index < TwoTo64
    ensures |r| == 8 && FromLittleEndian(r) == index
  {
    Pow256Of8();
    ToLittleEndian(index, 8)
  }

  /** `makeUTXOKey(h, index)`: the digest of `h`'s bytes followed by the
      little-endian 64-bit encoding of `index`; an index outside
      [0, 2^64) is refused, as `writeBigUInt64LE` throws for it. */
  function MakeUTXOKey(H: Digester, h: Hash, index: int): (r: Result<Hash, Error>)
    ensures r.Success? <==> 0 <= index < TwoTo64
    ensures r.Failure? ==> r.error == OutOfRange
    ensures r.Success? ==> exists idx: seq<byte> ::
      |idx| == 8 && FromLittleEndian(idx) == index && r.value == HashMulti(H, h.data, idx)
  {
    if 0 <= index < TwoTo64 then
      var idx := IndexBytes(index);
      Success(HashMulti(H, h.data, idx))
    else
      Failure(OutOfRange)
  }

  // ----- properties of the value type -----

  /** The two binary conversions default to big-endian and the two text
      conversions to little-endian; an explicit order is always honoured. */
  lemma EndianDefaults()
    ensures BinaryOrder(None) == Big && TextOrder(None) == Little
    ensures BinaryOrder(None) != TextOrder(None)
    ensures forall e :: BinaryOrder(Some(e)) == e && TextOrder(Some(e)) == e
  {
  }

  /** `NULL` and `new Hash()` are `Width` zero bytes, in either byte order. */
  lemma NullIsZero(endian: Option<Endian>)
    ensures Create(None, endian) == Success(NullHash())
    ensures NullHash().data == Zeros(Width)
    ensures ToBinary(NullHash(), endian) == Zeros(Width)
  {
  }

  /** Binary data read in one byte order and written back in the same
      order is unchanged, for an explicit or an omitted order. */
  lemma FromBinaryToBinary(target: Hash, bin: seq<byte>, endian: Option<Endian>)
    requires |bin| == Width
    ensures FromBinary(target, bin, endian).Success?
    ensures ToBinary(FromBinary(target, bin, endian).value, endian) == bin
  {
  }

  /** `fromBinary` overwrites every byte, so the digest it yields does not
      depend on the buffer it was called on; `createFromBinary` and
      `new Hash(bin, endian)` therefore agree with it on any target. */
  lemma FromBinaryOverwrites(t1: Hash, t2: Hash, bin: seq<byte>, endian: Option<Endian>)
    ensures FromBinary(t1, bin, endian) == FromBinary(t2, bin, endian)
    ensures Create(Some(bin), endian) == FromBinary(t1, bin, endian)
  {
  }

  /** Writing a digest in some byte order and reading it back in that
      order gives the same digest, whatever buffer is overwritten. */
  lemma ToBinaryFromBinary(h: Hash, target: Hash, endian: Option<Endian>)
    ensures FromBinary(target, ToBinary(h, endian), endian) == Success(h)
  {
    ReverseReverse(h.data);
  }

  /** The little-endian form of a digest is the reverse of its big-endian
      form, and an omitted order means big-endian. */
  lemma EndianDuality(h: Hash)
    ensures ToBinary(h, Some(Little)) == Reverse(ToBinary(h, Some(Big)))
    ensures ToBinary(h, Some(Big)) == Reverse(ToBinary(h, Some(Little)))
    ensures ToBinary(h, None) == ToBinary(h, Some(Big))
  {
  }

  /** Reading little-endian and writing big-endian reverses the bytes. */
  lemma LittleInBigOut(target: Hash, bin: seq<byte>)
    requires |bin| == Width
    ensures FromBinary(target, bin, Some(Little)).Success?
    ensures ToBinary(FromBinary(target, bin, Some(Little)).value, Some(Big)) == Reverse(bin)
  {
  }

  /** Two digests are equal exactly when their binary forms are. */
  lemma ToBinaryInjective(h1: Hash, h2: Hash, endian: Option<Endian>)
    ensures ToBinary(h1, endian) == ToBinary(h2, endian) <==> h1 == h2
  {
    ReverseReverse(h1.data);
    ReverseReverse(h2.data);
  }

  // ----- properties of the combination functions -----

  /** Hashing two buffers together depends only on their concatenation:
      there is no separator and no length prefix, so splitting the same
      bytes at another point gives the same digest. */
  lemma HashMultiIsConcatenation(H: Digester, a: seq<byte>, b: seq<byte>, c: seq<byte>, d: seq<byte>)
    requires a + b == c + d
    ensures HashMulti(H, a, b) == HashMulti(H, c, d)
    ensures HashMulti(H, a, b) == HashMulti(H, a + b, [])
  {
    assert a + b + [] == a + b;
  }

  /** `hash(source)` read back in the default binary order is the
      primitive's output, and in little-endian order its reversal. */
  lemma HashBytesBinaryForm(H: Digester, source: seq<byte>)
    ensures ToBinary(HashBytes(H, source), None) == H(source)
    ensures ToBinary(HashBytes(H, source), Some(Little)) == Reverse(H(source))
  {
  }

  /** The UTXO key of an in-range index hashes 72 bytes: the digest's 64
      raw (big-endian) bytes, then the index in 8 little-endian bytes. */
  lemma UTXOKeyLayout(H: Digester, h: Hash, index: nat)
    requires index < TwoTo64
    ensures MakeUTXOKey(H, h, index) == Success(HashBytes(H, h.data + IndexBytes(index)))
    ensures (h.data + IndexBytes(index))[..Width] == ToBinary(h, Some(Big))
    ensures FromLittleEndian((h.data + IndexBytes(index))[Width..]) == index
  {
  }

  /** Different (digest, index) pairs give different inputs to the
      primitive, so distinct keys follow from collision resistance. */
  lemma UTXOKeyInputInjective(h1: Hash, i1: nat, h2: Hash, i2: nat)
    requires i1 < TwoTo64 && i2 < TwoTo64
    ensures h1.data + IndexBytes(i1) == h2.data + IndexBytes(i2) <==> h1 == h2 && i1 == i2
  {
    if h1.data + IndexBytes(i1) == h2.data + IndexBytes(i2) {
      var s := h1.data + IndexBytes(i1);
      assert h1.data == s[..Width] == h2.data;
      assert IndexBytes(i1) == s[Width..] == IndexBytes(i2);
    }
  }

  /** The key of the zero digest and index 0 hashes 72 zero bytes. */
  lemma UTXOKeyOfNull(H: Digester)
    ensures MakeUTXOKey(H, NullHash(), 0) == Success(HashMulti(H, Zeros(Width), Zeros(8)))
  {
    assert IndexBytes(0) == Zeros(8);
    NullIsZero(None);
  }
}
