/** The canonical serialization of a record tree (`hashPart`) and the digest
    of a whole record (`hashFull`). */
module Canonical {
  import opened Wrappers
  import opened Bytes
  import opened Hashing

  /** A value handed to `hashPart`. */
  datatype Record =
    | Null                        // `null` or `undefined`
    | Scalar                      // a number, boolean or bigint: no own members
    | HashLeaf(hash: Hash)        // a digest, which serializes itself
    | Custom(steps: seq<Step>)    // any other object with a `computeHash` method
    | Arr(elems: seq<Record>)     // an array
    | Obj(members: seq<Member>)   // a plain object, its own members in enumeration order

  /** One own member of a plain object. */
  datatype Member = Member(key: string, value: Record)

  /** One action of a `computeHash` method: writing bytes of its own to the
      sink, or handing one of its fields back to `hashPart`. */
  datatype Step = Write(bytes: seq<byte>) | Part(value: Record)

  // ----- the serializer, threading the sink as the source does -----

  /** `hashPart(record, buffer)`: the sink after `record` has been written.
      It only appends, and what it appends is exactly the record's encoding. */
  function HashPart(r: Record, sink: seq<byte>): (out: seq<byte>)
    ensures out == sink + Encoding(r)
    decreases r, 1
  {
    match r
    case Null => sink
    case Scalar => sink
    case HashLeaf(h) => ComputeHash(h, sink)
    case Custom(steps) => RunSteps(steps, sink)
    case Arr(elems) => HashPartAll(elems, sink)
    case Obj(members) => HashPartMembers(members, sink)
  }

  /** The `for … of` loop over an array's elements: their encodings are
      appended one after another, in order. */
  function HashPartAll(elems: seq<Record>, sink: seq<byte>): (out: seq<byte>)
    ensures out == sink + EncodingAll(elems)
    decreases elems, 0
  {
    if elems == [] then sink
    else
      var next := HashPart(elems[0], sink);
      assert next + EncodingAll(elems[1..]) == sink + EncodingAll(elems);
      HashPartAll(elems[1..], next)
  }

  /** The `for … in` loop over a plain object's own members: their values'
      encodings are appended one after another, in member order. */
  function HashPartMembers(members: seq<Member>, sink: seq<byte>): (out: seq<byte>)
    ensures out == sink + MembersEncoding(members)
    decreases members, 0
  {
    if members == [] then sink
    else
      var next := HashPart(members[0].value, sink);
      assert next + MembersEncoding(members[1..]) == sink + MembersEncoding(members);
      HashPartMembers(members[1..], next)
  }

  /** A `computeHash` method run against the sink: its own writes and its
      fields' encodings are appended in the order it issues them. */
  function RunSteps(steps: seq<Step>, sink: seq<byte>): (out: seq<byte>)
    ensures out == sink + StepsEncoding(steps)
    decreases steps, 0
  {
    if steps == [] then sink
    else
      var next := match steps[0]
        case Write(bytes) => sink + bytes
        case Part(v) => assert v < steps[0]; HashPart(v, sink);
      assert next + StepsEncoding(steps[1..]) == sink + StepsEncoding(steps);
      RunSteps(steps[1..], next)
  }

  // ----- what a record contributes, defined structurally -----

  /** The bytes a record contributes to the sink. */
  function Encoding(r: Record): seq<byte>
  {
    match r
    case Null => []
    case Scalar => []
    case HashLeaf(h) => h.data
    case Custom(steps) => StepsEncoding(steps)
    case Arr(elems) => EncodingAll(elems)
    case Obj(members) => MembersEncoding(members)
  }

  /** The contributions of a sequence of records, one after another. */
  function EncodingAll(elems: seq<Record>): seq<byte>
  {
    if elems == [] then [] else Encoding(elems[0]) + EncodingAll(elems[1..])
  }

  /** The contributions of an object's member values, one after another. */
  function MembersEncoding(members: seq<Member>): seq<byte>
  {
    if members == [] then [] else Encoding(members[0].value) + MembersEncoding(members[1..])
  }

  /** The bytes a `computeHash` method writes, one step after another. */
  function StepsEncoding(steps: seq<Step>): seq<byte>
  {
    if steps == [] then []
    else
      var first := match steps[0]
        case Write(bytes) => bytes
        case Part(v) => assert v < steps[0]; Encoding(v);
      first + StepsEncoding(steps[1..])
  }

  /** The values of an object's members, in order. */
  function Values(members: seq<Member>): (vs: seq<Record>)
    ensures |vs| == |members|
    ensures forall i :: 0 <= i < |members| ==> vs[i] == members[i].value
  {
    if members == [] then [] else [members[0].value] + Values(members[1..])
  }

  /** `elems` with every null left out. */
  function WithoutNulls(elems: seq<Record>): (rs: seq<Record>)
    ensures forall x :: x in rs ==> x in elems && !x.Null?
    ensures forall x :: x in elems && !x.Null? ==> x in rs
  {
    if elems == [] then []
    else if elems[0].Null? then WithoutNulls(elems[1..])
    else [elems[0]] + WithoutNulls(elems[1..])
  }

  // ----- the digest of a record -----

  /** `hashFull(record)`: the zero digest for a null record, without
      serializing anything; otherwise the primitive applied to the whole
      serialization of the record into an empty sink. */
  function HashFull(H: Digester, r: Record): (h: Hash)
    ensures r.Null? ==> h == NullHash()
    ensures !r.Null? ==> h == HashBytes(H, Encoding(r))
  {
    if r.Null? then Create(None, None).value
    else
      var buffer := HashPart(r, []);
      assert buffer == Encoding(r);
      HashBytes(H, buffer)
  }

  // ----- the serialization rules -----

  /** A null writes nothing, a scalar writes nothing, and a digest writes its
      `Width` raw bytes in big-endian (internal) order, with no prefix. */
  lemma LeafRules(h: Hash, sink: seq<byte>)
    ensures HashPart(Null, sink) == sink
    ensures HashPart(Scalar, sink) == sink
    ensures HashPart(HashLeaf(h), sink) == sink + ToBinary(h, Some(Big))
    ensures |HashPart(HashLeaf(h), sink)| == |sink| + Width
  {
  }

  /** The contributions of two runs of records, one after the other. */
  lemma {:induction false} EncodingAllConcat(xs: seq<Record>, ys: seq<Record>)
    ensures EncodingAll(xs + ys) == EncodingAll(xs) + EncodingAll(ys)
  {
    if xs == [] {
      assert xs + ys == ys;
    } else {
      assert (xs + ys)[0] == xs[0];
      assert (xs + ys)[1..] == xs[1..] + ys;
      EncodingAllConcat(xs[1..], ys);
    }
  }

  /** An array writes its elements consecutively, in order: splitting it
      anywhere and serializing the two halves one after the other writes
      the same bytes. */
  lemma ArrayIsConsecutive(xs: seq<Record>, ys: seq<Record>, sink: seq<byte>)
    ensures HashPart(Arr(xs + ys), sink) == HashPart(Arr(ys), HashPart(Arr(xs), sink))
    ensures Encoding(Arr(xs + ys)) == Encoding(Arr(xs)) + Encoding(Arr(ys))
  {
    EncodingAllConcat(xs, ys);
  }

  /** A one-element array writes what its element writes. */
  lemma SingletonArray(x: Record)
    ensures Encoding(Arr([x])) == Encoding(x)
  {
    assert [x][1..] == [];
    assert EncodingAll([x]) == Encoding(x) + [];
  }

  /** A plain object writes its member values in member order; the keys
      contribute nothing, so it writes what the array of its values does. */
  lemma {:induction false} ObjectWritesValues(members: seq<Member>)
    ensures Encoding(Obj(members)) == Encoding(Arr(Values(members)))
  {
    if members != [] {
      ObjectWritesValues(members[1..]);
      assert Values(members)[1..] == Values(members[1..]);
    }
  }

  /** Leaving the nulls out of an array does not change what it writes. */
  lemma {:induction false} NullsContributeNothing(elems: seq<Record>)
    ensures EncodingAll(WithoutNulls(elems)) == EncodingAll(elems)
  {
    if elems != [] {
      NullsContributeNothing(elems[1..]);
      if !elems[0].Null? {
        assert ([elems[0]] + WithoutNulls(elems[1..]))[1..] == WithoutNulls(elems[1..]);
      }
    }
  }

  /** A null array element serializes exactly as if it were omitted, so the
      digest of the enclosing array is the same. */
  lemma NullElementOmitted(H: Digester, xs: seq<Record>, ys: seq<Record>)
    ensures Encoding(Arr(xs + [Null] + ys)) == Encoding(Arr(xs + ys))
    ensures HashFull(H, Arr(xs + [Null] + ys)) == HashFull(H, Arr(xs + ys))
  {
    assert [Null][1..] == [];
    EncodingAllConcat(xs + [Null], ys);
    EncodingAllConcat(xs, [Null]);
    EncodingAllConcat(xs, ys);
    assert EncodingAll(xs + [Null]) == EncodingAll(xs);
  }

  /** A member whose value is null serializes exactly as if the object did
      not have it. */
  lemma NullMemberOmitted(H: Digester, ms: seq<Member>, key: string, ns: seq<Member>)
    ensures Encoding(Obj(ms + [Member(key, Null)] + ns)) == Encoding(Obj(ms + ns))
    ensures HashFull(H, Obj(ms + [Member(key, Null)] + ns)) == HashFull(H, Obj(ms + ns))
  {
    assert [Member(key, Null)][1..] == [];
    MembersEncodingConcat(ms + [Member(key, Null)], ns);
    MembersEncodingConcat(ms, [Member(key, Null)]);
    MembersEncodingConcat(ms, ns);
    assert MembersEncoding(ms + [Member(key, Null)]) == MembersEncoding(ms);
  }

  /** A `computeHash` that hands a null field to `hashPart` writes the same
      bytes as one that skips the field. */
  lemma NullFieldOmitted(H: Digester, ss: seq<Step>, ts: seq<Step>)
    ensures Encoding(Custom(ss + [Part(Null)] + ts)) == Encoding(Custom(ss + ts))
    ensures HashFull(H, Custom(ss + [Part(Null)] + ts)) == HashFull(H, Custom(ss + ts))
  {
    assert [Part(Null)][1..] == [];
    StepsEncodingConcat(ss + [Part(Null)], ts);
    StepsEncodingConcat(ss, [Part(Null)]);
    StepsEncodingConcat(ss, ts);
    assert StepsEncoding(ss + [Part(Null)]) == StepsEncoding(ss);
  }

  lemma {:induction false} MembersEncodingConcat(ms: seq<Member>, ns: seq<Member>)
    ensures MembersEncoding(ms + ns) == MembersEncoding(ms) + MembersEncoding(ns)
  {
    if ms == [] {
      assert ms + ns == ns;
    } else {
      assert (ms + ns)[0] == ms[0];
      assert (ms + ns)[1..] == ms[1..] + ns;
      MembersEncodingConcat(ms[1..], ns);
    }
  }

  lemma {:induction false} StepsEncodingConcat(ss: seq<Step>, ts: seq<Step>)
    ensures StepsEncoding(ss + ts) == StepsEncoding(ss) + StepsEncoding(ts)
  {
    if ss == [] {
      assert ss + ts == ts;
    } else {
      assert (ss + ts)[0] == ss[0];
      assert (ss + ts)[1..] == ss[1..] + ts;
      StepsEncodingConcat(ss[1..], ts);
    }
  }

  /** An object whose own members are all scalars or nulls writes nothing.
      A byte buffer without `computeHash` is such an object (its own
      members are its numeric bytes), so it contributes no bytes. */
  lemma {:induction false} ScalarMembersWriteNothing(members: seq<Member>)
    requires forall i :: 0 <= i < |members| ==> members[i].value in {Null, Scalar}
    ensures Encoding(Obj(members)) == []
  {
    if members != [] {
      assert members[0].value in {Null, Scalar};
      ScalarMembersWriteNothing(members[1..]);
      assert Encoding(members[0].value) == [];
    }
  }

  // ----- the digest of a record -----

  /** Only a null record takes the short-circuit to the zero digest without
      applying the primitive; an empty array, an array of one null and a
      scalar are the primitive applied to no bytes. */
  lemma NullShortCircuitsOnlyAtTop(H: Digester)
    ensures HashFull(H, Null) == NullHash()
    ensures HashFull(H, Arr([])) == HashBytes(H, [])
    ensures HashFull(H, Arr([Null])) == HashBytes(H, [])
    ensures HashFull(H, Scalar) == HashBytes(H, [])
  {
  }

  /** The digest of `{a: NULL, b: <object writing bytes>}` is the primitive
      applied to 64 zero bytes followed by those bytes. */
  lemma TwoFieldExample(H: Digester, bytes: seq<byte>)
    ensures HashFull(H, Obj([Member("a", HashLeaf(NullHash())), Member("b", Custom([Write(bytes)]))]))
         == HashBytes(H, Zeros(Width) + bytes)
  {
    NullIsZero(None);
    var r := Obj([Member("a", HashLeaf(NullHash())), Member("b", Custom([Write(bytes)]))]);
    assert [Write(bytes)][1..] == [];
    assert StepsEncoding([Write(bytes)]) == bytes;
    assert r.members[1..][1..] == [];
    assert MembersEncoding(r.members[1..]) == bytes;
    assert MembersEncoding(r.members) == NullHash().data + bytes;
  }
}
