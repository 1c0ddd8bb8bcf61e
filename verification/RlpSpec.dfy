/** The recursive meaning of RLP: byte strings and nested lists of them, as in
    Appendix B of the Ethereum Yellow Paper, together with the facts about it that
    the encoder and the decoder are measured against. */
module RlpSpec {
  import opened Basics

  /** The largest length a Go slice can have. */
  const MAX_INT: nat := 0x7FFF_FFFF_FFFF_FFFF

  datatype Value = Bytes(b: seq<byte>) | List(items: seq<Value>)

  /** Big-endian bytes of n without leading zeros. */
  function BigEndian(n: nat): seq<byte> {
    if n == 0 then [] else BigEndian(n / 256) + [n % 256]
  }

  function FromBigEndian(s: seq<byte>): nat {
    if s == [] then 0 else FromBigEndian(s[..|s| - 1]) * 256 + s[|s| - 1]
  }

  /** A string or list header. The tag byte is truncated to eight bits, which
      never happens to a size that fits in 64 bits. */
  function Header(smallTag: byte, largeTag: byte, size: nat): seq<byte> {
    if size < 56 then [(smallTag + size) % 256]
    else [(largeTag + |BigEndian(size)|) % 256] + BigEndian(size)
  }

  function StringHeader(size: nat): seq<byte> { Header(0x80, 0xB7, size) }

  function ListHeader(size: nat): seq<byte> { Header(0xC0, 0xF7, size) }

  function EncodeBytes(b: seq<byte>): seq<byte> {
    if |b| == 1 && b[0] <= 0x7F then b else StringHeader(|b|) + b
  }

  function Encode(v: Value): seq<byte>
    decreases v, 1
  {
    match v
    case Bytes(b) => EncodeBytes(b)
    case List(items) => ListHeader(|EncodeAll(items)|) + EncodeAll(items)
  }

  function EncodeAll(vs: seq<Value>): seq<byte>
    decreases vs, 0
  {
    if vs == [] then [] else Encode(vs[0]) + EncodeAll(vs[1..])
  }

  // ---------------------------------------------------------------- numbers

  lemma {:induction false} BigEndianRoundTrip(n: nat)
    ensures FromBigEndian(BigEndian(n)) == n
    ensures n > 0 ==> BigEndian(n) != [] && BigEndian(n)[0] != 0
  {
    if n > 0 {
      BigEndianRoundTrip(n / 256);
      var s := BigEndian(n / 256);
      assert (s + [n % 256])[..|s|] == s;
    }
  }

  lemma {:induction false} BigEndianShift(m: nat, d: byte)
    requires m * 256 + d > 0
    ensures BigEndian(m * 256 + d) == BigEndian(m) + [d]
  {
    var n := m * 256 + d;
    assert n / 256 == m && n % 256 == d;
  }

  /** A string without leading zeros is the minimal encoding of its value. */
  lemma {:induction false} BigEndianCanonical(s: seq<byte>)
    requires s == [] || s[0] != 0
    ensures BigEndian(FromBigEndian(s)) == s
    ensures s != [] ==> FromBigEndian(s) > 0
  {
    if |s| > 0 {
      var t := s[..|s| - 1];
      BigEndianCanonical(t);
      assert s == t + [s[|s| - 1]];
      BigEndianShift(FromBigEndian(t), s[|s| - 1]);
    }
  }

  lemma {:induction false} FromBigEndianBound(s: seq<byte>)
    ensures FromBigEndian(s) < Pow256(|s|)
  {
    if s != [] { FromBigEndianBound(s[..|s| - 1]); }
  }

  /** The length of the minimal encoding is decided by the powers of 256. */
  lemma {:induction false} BigEndianLength(n: nat, k: nat)
    ensures |BigEndian(n)| <= k <==> n < Pow256(k)
    decreases k
  {
    if k > 0 && n > 0 { BigEndianLength(n / 256, k - 1); }
    else if k == 0 { assert Pow256(0) == 1; }
    else { PowPositive(k); }
  }

  lemma {:induction false} PowPositive(k: nat)
    ensures Pow256(k) > 0
  {
    if k > 0 { PowPositive(k - 1); }
  }

  /** A size that fits in 64 bits has a length of at most eight bytes. */
  lemma {:induction false} SizeFits(n: nat)
    requires n < TWO_64
    ensures |BigEndian(n)| <= 8
    ensures n > 0 ==> |BigEndian(n)| >= 1
  {
    Pow256Of8();
    BigEndianLength(n, 8);
  }

  // ---------------------------------------------------------------- structure

  lemma {:induction false} EncodeAllConcat(us: seq<Value>, vs: seq<Value>)
    ensures EncodeAll(us + vs) == EncodeAll(us) + EncodeAll(vs)
  {
    if us == [] {
      assert us + vs == vs;
    } else {
      assert (us + vs)[1..] == us[1..] + vs;
      EncodeAllConcat(us[1..], vs);
    }
  }

  lemma {:induction false} EncodeAllSnoc(us: seq<Value>, v: Value)
    ensures EncodeAll(us + [v]) == EncodeAll(us) + Encode(v)
  {
    EncodeAllConcat(us, [v]);
    assert EncodeAll([v]) == Encode(v) + EncodeAll([v][1..]);
  }

  lemma {:induction false} EncodeNonEmpty(v: Value)
    ensures |Encode(v)| >= 1
  {
  }

  /** What a header says about itself: which tag byte it has and where its size is. */
  lemma {:induction false} HeaderShape(smallTag: byte, largeTag: byte, size: nat)
    requires smallTag + 55 == largeTag <= 0xF7
    requires size < TWO_64
    ensures var h := Header(smallTag, largeTag, size);
            |h| >= 1 &&
            if size < 56 then h == [smallTag + size]
            else
              && h == [largeTag + |BigEndian(size)|] + BigEndian(size)
              && 2 <= |h| <= 9
              && h[1..] == BigEndian(size)
              && h[1] != 0
              && FromBigEndian(h[1..]) == size
  {
    hide BigEndian, FromBigEndian;
    if size >= 56 {
      SizeFits(size);
      BigEndianRoundTrip(size);
      assert ([largeTag + |BigEndian(size)|] + BigEndian(size))[1..] == BigEndian(size);
    }
  }
}
