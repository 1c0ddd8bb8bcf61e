/** The encoder and the decoder of package rlp put together. */
module RlpRoundTrip {
  import opened Basics
  import opened RlpSpec
  import RlpEncode
  import RlpDecode

  /** Well-known encodings: the empty string, a small byte, "dog", the empty list, and ["cat", "dog"]. */
  lemma KnownEncodings()
    ensures Encode(Bytes([])) == [0x80] && Encode(Bytes([0x7F])) == [0x7F] && Encode(Bytes([0x80])) == [0x81, 0x80]
    ensures Encode(Bytes([100, 111, 103])) == [0x83, 100, 111, 103]
    ensures Encode(List([])) == [0xC0]
    ensures Encode(List([Bytes([99, 97, 116]), Bytes([100, 111, 103])])) == [0xC8, 0x83, 99, 97, 116, 0x83, 100, 111, 103]
  {
    var cat, dog := Bytes([99, 97, 116]), Bytes([100, 111, 103]);
    assert Encode(cat) == [0x83, 99, 97, 116] && Encode(dog) == [0x83, 100, 111, 103];
    assert [cat, dog][1..] == [dog] && [dog][1..] == [];
    assert EncodeAll([dog]) == Encode(dog) + EncodeAll([]);
    assert EncodeAll([cat, dog]) == Encode(cat) + EncodeAll([dog]);
  }

  /** Decoding undoes encoding, for every value whose encoding fits in a Go slice. */
  method EncodeThenDecode(v: Value) returns (r: RlpDecode.Result<Value>)
    requires |Encode(v)| <= MAX_INT
    ensures r == RlpDecode.Ok(v)
  {
    var b := RlpEncode.EncodeToBytes(v);
    r := RlpDecode.DecodeBytes(b);
  }

  /** Whatever the decoder accepts, the encoder reproduces byte for byte. */
  method DecodeThenEncode(b: seq<byte>) returns (out: Option<seq<byte>>)
    requires |b| <= MAX_INT
    ensures out.Some? ==> out.value == b
    ensures out.Some? <==> exists v :: Encode(v) == b
  {
    var r := RlpDecode.DecodeBytes(b);
    if r.Err? { return None; }
    var again := RlpEncode.EncodeToBytes(r.value);
    return Some(again);
  }
}
