/** Byte sequences and the few buffer operations the digest code relies on:
    zero-filled allocation, byte reversal, `Buffer.copy` and the unsigned
    little-endian integer encoding. */
module Bytes {

  /** One octet of a Node `Buffer`. */
  newtype byte = b: int | 0 <= b < 256

  /** The contents of a freshly allocated buffer of `n` bytes. */
  function Zeros(n: nat): (r: seq<byte>)
    ensures |r| == n
    ensures forall i :: 0 <= i < n ==> r[i] == 0
  {
    seq(n, _ => 0)
  }

  /** `s` in the opposite byte order. */
  function Reverse(s: seq<byte>): (r: seq<byte>)
    ensures |r| == |s|
    ensures forall i :: 0 <= i < |s| ==> r[i] == s[|s| - 1 - i]
  {
    if s == [] then [] else Reverse(s[1..]) + [s[0]]
  }

  /** Reversing twice gives back the original order. */
  lemma ReverseReverse(s: seq<byte>)
    ensures Reverse(Reverse(s)) == s
  {
  }

  /** `src.copy(target, start)`: as many bytes of `src` as fit are written
      into `target` from offset `start`; the other bytes of `target` stay. */
  function CopyInto(src: seq<byte>, target: seq<byte>, start: nat): (r: seq<byte>)
    requires start <= |target|
    ensures |r| == |target|
    ensures forall i :: 0 <= i < start ==> r[i] == target[i]
    ensures forall i :: start <= i < |target| && i < start + |src| ==> r[i] == src[i - start]
    ensures forall i :: start + |src| <= i < |target| ==> r[i] == target[i]
  {
    var n := if |src| < |target| - start then |src| else |target| - start;
    target[..start] + src[..n] + target[start + n..]
  }

  /** 256 to the power `n`: the number of values `n` bytes can hold. */
  function Pow256(n: nat): (p: nat)
    ensures p > 0
  {
    if n == 0 then 1 else 256 * Pow256(n - 1)
  }

  /** 2^64, the bound of an unsigned 64-bit integer. */
  const TwoTo64: nat := 0x1_0000_0000_0000_0000

  lemma Pow256Of8()
    ensures Pow256(8) == TwoTo64
  {
  }

  /** The unsigned integer whose little-endian encoding is `s`
      (least significant byte first). */
  function FromLittleEndian(s: seq<byte>): (x: nat)
    ensures x < Pow256(|s|)
  {
    if s == [] then 0 else
      var rest := FromLittleEndian(s[1..]);
      assert rest <= Pow256(|s| - 1) - 1;
      assert 256 * rest <= 256 * Pow256(|s| - 1) - 256;
      s[0] as nat + 256 * rest
  }

  /** The `n`-byte little-endian encoding of `x`, as `writeBigUInt64LE`
      produces for `n` = 8. */
  function ToLittleEndian(x: nat, n: nat): (r: seq<byte>)
    requires x < Pow256(n)
    ensures |r| == n
    ensures FromLittleEndian(r) == x
  {
    if n == 0 then [] else
      assert x / 256 < Pow256(n - 1);
      [(x % 256) as byte] + ToLittleEndian(x / 256, n - 1)
  }

  /** Decoding then re-encoding at the same width gives back the bytes, so
      every `n`-byte sequence is the encoding of exactly one integer. */
  lemma {:induction false} LittleEndianRoundTrip(s: seq<byte>)
    ensures ToLittleEndian(FromLittleEndian(s), |s|) == s
  {
    if s != [] {
      LittleEndianRoundTrip(s[1..]);
      var x := FromLittleEndian(s);
      assert x % 256 == s[0] as int;
      assert x / 256 == FromLittleEndian(s[1..]);
    }
  }

  /** Distinct integers have distinct encodings of the same width. */
  lemma LittleEndianInjective(x: nat, y: nat, n: nat)
    requires x < Pow256(n) && y < Pow256(n)
    ensures ToLittleEndian(x, n) == ToLittleEndian(y, n) <==> x == y
  {
  }
}
