/** The slice-based readers of rlp/raw.go. */
module RlpRaw {
  import opened Basics
  import opened RlpSpec
  import opened RlpDecode
  import RlpEncode
  import Wire

  datatype RawError = RawUnexpectedEOF | RawCanonSize | RawValueTooLarge | RawExpectedString | RawCanonInt | RawUintOverflow

  datatype RawResult<T> = Good(value: T) | Bad(error: RawError)

  /** Kind, tag size and content size of the first value; a single byte is its own
      content and has no tag. */
  datatype RawKind = RawKind(kind: Kind, tagsize: nat, contentsize: nat)

  function ReadSize(b: seq<byte>, slen: nat): RawResult<nat>
    requires 1 <= slen <= 8
  {
    if slen > |b| then Bad(RawUnexpectedEOF)
    else
      var s := FromBigEndian(b[..slen]);
      if s < 56 || b[0] == 0 then Bad(RawCanonSize) else Good(s)
  }

  function ReadKind(buf: seq<byte>): RawResult<RawKind> {
    if buf == [] then Bad(RawUnexpectedEOF)
    else
      var b := buf[0];
      if b < 0x80 then Fitting(buf, RawKind(Byte, 0, 1))
      else if b < 0xB8 then
        if b == 0x81 && |buf| > 1 && buf[1] < 128 then Bad(RawCanonSize)
        else Fitting(buf, RawKind(String, 1, b - 0x80))
      else if b < 0xC0 then LongKind(buf, String, b - 0xB7)
      else if b < 0xF8 then Fitting(buf, RawKind(ListKind, 1, b - 0xC0))
      else LongKind(buf, ListKind, b - 0xF7)
  }

  function LongKind(buf: seq<byte>, k: Kind, slen: nat): RawResult<RawKind>
    requires buf != [] && 1 <= slen <= 8
  {
    match ReadSize(buf[1..], slen)
    case Bad(e) => Bad(e)
    case Good(size) => Fitting(buf, RawKind(k, slen + 1, size))
  }

  /** Rejects values larger than the input slice. */
  function Fitting(buf: seq<byte>, k: RawKind): RawResult<RawKind> {
    if k.contentsize > |buf| - k.tagsize then Bad(RawValueTooLarge) else Good(k)
  }

  /** The slice reader and the stream reader agree on what a tag is: the former also
      insists that the content is there and is not a byte that should stand alone. */
  lemma {:induction false} SameTags(buf: seq<byte>)
    ensures ReadKind(buf).Good? <==>
              && ReadTag(buf).Some?
              && var t := ReadTag(buf).value;
                 t.len + t.size <= |buf| && !(t.kind.String? && t.size == 1 && buf[t.len] < 128)
    ensures ReadKind(buf).Good? ==>
              var t, k := ReadTag(buf).value, ReadKind(buf).value;
              t.kind == k.kind && k.tagsize + k.contentsize == t.len + t.size
              && k.tagsize == (if t.kind.Byte? then 0 else t.len)
  {
    hide FromBigEndian;
    if buf != [] && (0xB8 <= buf[0] < 0xC0 || 0xF8 <= buf[0]) {
      var n := if buf[0] < 0xC0 then buf[0] - 0xB7 else buf[0] - 0xF7;
      if n < |buf| {
        assert buf[1..][..n] == buf[1..1 + n] && buf[1..][0] == buf[1];
      }
    }
  }

  lemma {:induction false} ReadKindBounds(buf: seq<byte>)
    ensures ReadKind(buf).Good? ==>
              var k := ReadKind(buf).value;
              1 <= k.tagsize + k.contentsize <= |buf|
  {
    hide FromBigEndian;
  }

  function Split(b: seq<byte>): RawResult<(Kind, seq<byte>, seq<byte>)> {
    ReadKindBounds(b);
    match ReadKind(b)
    case Bad(e) => Bad(e)
    case Good(k) =>
      Good((k.kind, b[k.tagsize..k.tagsize + k.contentsize], b[k.tagsize + k.contentsize..]))
  }

  /** What Split returns as the content of an encoded value. */
  function Payload(v: Value): seq<byte> {
    match v
    case Bytes(b) => b
    case List(items) => EncodeAll(items)
  }

  lemma {:induction false} SplitOfEncode(v: Value, rest: seq<byte>)
    requires |Encode(v)| < TWO_64
    ensures Split(Encode(v) + rest).Good?
    ensures var (k, content, more) := Split(Encode(v) + rest).value;
            && content == Payload(v) && more == rest
            && k == (if v.List? then ListKind else if EncodesAsItself(v) then Byte else String)
  {
    hide ReadKind, ReadTag, Encode;
    var buf := Encode(v) + rest;
    ReadTagOfEncode(v, rest);
    SameTags(buf);
    ReadKindBounds(buf);
    var t := ReadTag(buf).value;
    assert buf[..|Encode(v)|] == Encode(v) && buf[|Encode(v)|..] == rest;
    assert buf[t.len..|Encode(v)|] == Encode(v)[t.len..];
    if EncodesAsItself(v) {
      SingleByte(v);
      assert buf[0..1] == v.b;
    }
  }

  /** A string content that Split returned was encoded the only way it can be. */
  lemma {:induction false} SplitStringSound(b: seq<byte>)
    requires Split(b).Good? && !Split(b).value.0.ListKind?
    ensures var (_, content, rest) := Split(b).value;
            b == EncodeBytes(content) + rest
  {
    hide ReadKind, ReadTag, EncodeBytes;
    SameTags(b);
    ReadKindBounds(b);
    ReadTagSound(b);
    var t, k := ReadTag(b).value, ReadKind(b).value;
    var content := b[k.tagsize..k.tagsize + k.contentsize];
    if t.kind.Byte? {
      assert content == [b[0]];
    } else {
      Join(b, 0, t.len, t.len + t.size);
    }
    EncodeOfBytes(t, b[0], content);
    EncodeBytesIs(content);
    assert b == b[0..t.len + t.size] + b[t.len + t.size..];
  }

  lemma EncodeBytesIs(b: seq<byte>)
    ensures Encode(Value.Bytes(b)) == EncodeBytes(b)
  {
  }

  function SplitString(b: seq<byte>): RawResult<(seq<byte>, seq<byte>)> {
    match Split(b)
    case Bad(e) => Bad(e)
    case Good((k, content, rest)) => if k.ListKind? then Bad(RawExpectedString) else Good((content, rest))
  }

  function SplitUint64(b: seq<byte>): RawResult<(nat, seq<byte>)> {
    match SplitString(b)
    case Bad(e) => Bad(e)
    case Good((content, rest)) =>
      if |content| == 0 then Good((0, rest))
      else if |content| == 1 then
        if content[0] == 0 then Bad(RawCanonInt) else Good((content[0], rest))
      else if |content| > 8 then Bad(RawUintOverflow)
      else
        match ReadSize(content, |content|)
        case Bad(_) => Bad(RawCanonInt)
        case Good(x) => Good((x, rest))
  }

  /** The bytes AppendUint64 puts behind b. */
  function UintBytes(i: nat): (s: seq<byte>)
    requires i < TWO_64
    ensures s == EncodeBytes(BigEndian(i))
  {
    if i == 0 then [0x80]
    else if i < 128 then assert BigEndian(i / 256) == []; [i]
    else RlpEncode.UintHeader(i); [0x80 + RlpEncode.PutIntSize(i)] + RlpEncode.PutIntBytes(i)
  }

  /** Integer contents are read exactly when they have no leading zero and fit in 64 bits. */
  lemma {:induction false} UintContent(content: seq<byte>)
    ensures 2 <= |content| <= 8 ==>
              (ReadSize(content, |content|).Good? <==> content[0] != 0)
    ensures 2 <= |content| <= 8 && content[0] != 0 ==>
              ReadSize(content, |content|).value == FromBigEndian(content)
  {
    hide FromBigEndian, BigEndian;
    if 2 <= |content| <= 8 && content[0] != 0 {
      assert content[..|content|] == content;
      BigEndianCanonical(content);
      BigEndianLength(FromBigEndian(content), 1);
      assert Pow256(0) == 1;
    }
  }

  lemma {:induction false} UintOfContent(content: seq<byte>)
    requires |content| <= 8 && (content != [] ==> content[0] != 0)
    ensures FromBigEndian(content) < TWO_64 && BigEndian(FromBigEndian(content)) == content
    ensures |content| == 1 ==> FromBigEndian(content) == content[0]
    ensures content == [] ==> FromBigEndian(content) == 0
  {
    hide BigEndian;
    BigEndianCanonical(content);
    FromBigEndianBound(content);
    Pow256Monotone(|content|, 8);
    Pow256Of8();
    if |content| == 1 { assert content[..0] == []; }
  }

  /** Appending and splitting integers are inverse: reading back gives the number and the
      rest, and only the appended form of a number is read. */
  lemma {:induction false} SplitUint64Sound(b: seq<byte>)
    requires SplitUint64(b).Good?
    ensures var (x, rest) := SplitUint64(b).value;
            x < TWO_64 && b == UintBytes(x) + rest
  {
    hide Split, FromBigEndian, BigEndian, ReadSize, EncodeBytes;
    var (content, rest) := SplitString(b).value;
    SplitStringSound(b);
    UintContent(content);
    UintOfContent(content);
  }

  lemma {:induction false} SplitUint64Complete(x: nat, rest: seq<byte>)
    requires x < TWO_64
    ensures SplitUint64(UintBytes(x) + rest) == Good((x, rest))
  {
    hide Split, FromBigEndian, BigEndian, ReadSize, EncodeBytes, UintBytes;
    var content := BigEndian(x);
    SizeFits(x);
    BigEndianRoundTrip(x);
    BigEndianOfZero();
    EncodeBytesIs(content);
    UintFits(x);
    SplitOfEncode(Value.Bytes(content), rest);
    UintContent(content);
    UintOfContent(content);
  }

  lemma BigEndianOfZero()
    ensures BigEndian(0) == []
  {
  }

  lemma {:induction false} UintFits(x: nat)
    requires x < TWO_64
    ensures |Encode(Value.Bytes(BigEndian(x)))| < TWO_64
  {
    hide BigEndian;
    SizeFits(x);
  }

  /** How often a value can be split off before nothing is left, or why it cannot. */
  function CountItems(b: seq<byte>): RawResult<nat> {
    if b == [] then Good(0)
    else
      ReadKindBounds(b);
      match Split(b)
      case Bad(e) => Bad(e)
      case Good(first) => OneMore(CountItems(first.2))
  }

  function OneMore(r: RawResult<nat>): RawResult<nat> {
    if r.Good? then Good(r.value + 1) else r
  }

  /** Exactly one value for the slice readers, whatever a list holds. */
  predicate IsItem(p: seq<byte>) {
    ReadKind(p).Good? && ReadKind(p).value.tagsize + ReadKind(p).value.contentsize == |p|
  }

  /** The first value does not depend on what follows it. */
  lemma {:induction false} FirstIsItem(b: seq<byte>)
    ensures ReadKind(b).Good? ==>
              var k := ReadKind(b).value;
              k.tagsize + k.contentsize <= |b| && ReadKind(b[..k.tagsize + k.contentsize]) == ReadKind(b)
  {
    hide FromBigEndian;
    if ReadKind(b).Good? {
      var k := ReadKind(b).value;
      var p := b[..k.tagsize + k.contentsize];
      if k.tagsize > 1 { assert p[1..][..k.tagsize - 1] == b[1..][..k.tagsize - 1]; }
    }
  }

  lemma {:induction false} ItemStaysFirst(p: seq<byte>, rest: seq<byte>)
    requires IsItem(p)
    ensures ReadKind(p + rest) == ReadKind(p)
  {
    hide FromBigEndian;
    var k := ReadKind(p).value;
    if k.tagsize > 1 { assert (p + rest)[1..][..k.tagsize - 1] == p[1..][..k.tagsize - 1]; }
  }

  /** The count is Good(n) exactly for what n items make up. */
  lemma {:induction false} CountOfItems(items: seq<seq<byte>>)
    requires forall i :: 0 <= i < |items| ==> IsItem(items[i])
    ensures CountItems(Wire.Concat(items)) == Good(|items|)
  {
    hide ReadKind;
    if items != [] {
      var rest := Wire.Concat(items[1..]);
      CountOfItems(items[1..]);
      ReadKindBounds(items[0]);
      ItemStaysFirst(items[0], rest);
      assert (items[0] + rest)[|items[0]|..] == rest;
    }
  }

  lemma {:induction false} ItemsOfCount(b: seq<byte>) returns (items: seq<seq<byte>>)
    requires CountItems(b).Good?
    ensures Wire.Concat(items) == b && |items| == CountItems(b).value
    ensures forall i :: 0 <= i < |items| ==> IsItem(items[i])
    decreases |b|
  {
    hide ReadKind;
    if b == [] { return []; }
    ReadKindBounds(b);
    FirstIsItem(b);
    var first := Split(b).value;
    var p := b[..ReadKind(b).value.tagsize + ReadKind(b).value.contentsize];
    var others := ItemsOfCount(first.2);
    items := [p] + others;
    assert items[1..] == others && b == p + first.2;
  }

  /** CountValues, for any input; a sequence of encoded values is counted element by element. */
  method CountValues(b: seq<byte>) returns (r: RawResult<nat>)
    requires |b| <= MAX_INT
    ensures r == CountItems(b)
    ensures forall vs :: EncodeAll(vs) == b ==> r == Good(|vs|)
  {
    hide EncodeAll, ReadKind, CountItems;
    forall vs | EncodeAll(vs) == b ensures CountItems(b) == Good(|vs|) { CountOfEncoded(vs); }
    var i, rest := 0, b;
    while |rest| > 0
      invariant CountItems(b) == if CountItems(rest).Good? then Good(i + CountItems(rest).value) else CountItems(rest)
      decreases |rest|
    {
      CountFirst(rest);
      match ReadKind(rest)
      case Bad(e) => return Bad(e);
      case Good(k) =>
        rest := rest[k.tagsize + k.contentsize..];
        i := i + 1;
    }
    CountFirst(rest);
    return Good(i);
  }

  lemma CountFirst(b: seq<byte>)
    ensures b == [] ==> CountItems(b) == Good(0)
    ensures b != [] ==>
              match ReadKind(b)
              case Bad(e) => CountItems(b) == Bad(e)
              case Good(k) => 1 <= k.tagsize + k.contentsize <= |b| && CountItems(b) == OneMore(CountItems(b[k.tagsize + k.contentsize..]))
  {
    hide ReadKind;
    ReadKindBounds(b);
  }

  lemma {:induction false} CountOfEncoded(vs: seq<Value>)
    requires |EncodeAll(vs)| <= MAX_INT
    ensures CountItems(EncodeAll(vs)) == Good(|vs|)
    decreases |vs|
  {
    hide ReadKind, EncodeAll;
    if vs == [] {
      EncodeAllOfNone();
    } else {
      EncodeAllEmpty(vs);
      CountStep(vs);
      CountOfEncoded(vs[1..]);
    }
  }

  lemma {:induction false} CountStep(vs: seq<Value>)
    requires 0 < |EncodeAll(vs)| <= MAX_INT
    ensures vs != [] && ReadKind(EncodeAll(vs)).Good?
    ensures var k := ReadKind(EncodeAll(vs)).value;
            k.tagsize + k.contentsize <= |EncodeAll(vs)|
            && EncodeAll(vs)[k.tagsize + k.contentsize..] == EncodeAll(vs[1..])
  {
    hide ReadKind, ReadTag, Encode;
    EncodeAllOfNone();
    assert vs != [];
    ReadKindBounds(EncodeAll(vs));
    SplitOfEncode(vs[0], EncodeAll(vs[1..]));
  }
}
