/** Bytes and big-endian 32-bit lengths as both transport layers put them on the wire. */
module Wire {
  import opened Basics

  const TWO_32: nat := 0x1_0000_0000

  /** binary.BigEndian.PutUint32 of uint32(n). */
  function PutUint32(n: nat): (s: seq<byte>)
    ensures |s| == 4
  {
    [n / 0x100_0000 % 256, n / 0x1_0000 % 256, n / 0x100 % 256, n % 256]
  }

  function Uint32(s: seq<byte>): (n: nat)
    requires |s| == 4
    ensures n < TWO_32
  {
    s[0] as int * 0x100_0000 + s[1] as int * 0x1_0000 + s[2] as int * 0x100 + s[3] as int
  }

  lemma Uint32RoundTrip(n: nat)
    requires n < TWO_32
    ensures Uint32(PutUint32(n)) == n
  {
    var a, b, c := n / 0x100, n / 0x1_0000, n / 0x100_0000;
    DivTwice(n, 0x100);
    DivTwice(n, 0x1_0000);
    assert n == 0x100 * a + n % 0x100 && a == 0x100 * b + a % 0x100 && b == 0x100 * c + b % 0x100 && c % 0x100 == c;
  }

  /** The most significant byte comes first. */
  lemma BigEndianOrder()
    ensures PutUint32(0x0102_0304) == [1, 2, 3, 4] && Uint32([1, 2, 3, 4]) == 0x0102_0304
  {
  }

  lemma DivTwice(n: nat, m: nat)
    requires m == 0x100 || m == 0x1_0000
    ensures n / m / 0x100 == n / (m * 0x100)
  {
  }

  function Concat(parts: seq<seq<byte>>): seq<byte> {
    if parts == [] then [] else parts[0] + Concat(parts[1..])
  }

  lemma {:induction false} ConcatAppend(a: seq<seq<byte>>, b: seq<seq<byte>>)
    ensures Concat(a + b) == Concat(a) + Concat(b)
  {
    if a == [] {
      assert a + b == b;
    } else {
      assert (a + b)[1..] == a[1..] + b;
      ConcatAppend(a[1..], b);
    }
  }

  lemma ConcatOne(s: seq<byte>)
    ensures Concat([s]) == s
  {
    assert [s][1..] == [];
  }

  // ---------------------------------------------------------------- int64

  type int64 = x: int | -TWO_63 <= x < TWO_63

  function LittleEndian(n: nat, width: nat): (s: seq<byte>)
    ensures |s| == width
  {
    if width == 0 then [] else [n % 256] + LittleEndian(n / 256, width - 1)
  }

  function FromLittleEndian(s: seq<byte>): nat {
    if s == [] then 0 else s[0] + 256 * FromLittleEndian(s[1..])
  }

  /** The least significant byte comes first. */
  lemma {:induction false} LittleEndianAt(n: nat, width: nat, i: nat)
    requires i < width
    ensures LittleEndian(n, width)[i] == n / Pow256(i) % 256
  {
    if i > 0 {
      LittleEndianAt(n / 256, width - 1, i - 1);
      DivideAgain(n, Pow256(i - 1));
    }
  }

  lemma DivideAgain(n: nat, m: nat)
    requires m > 0
    ensures n / 256 / m == n / (256 * m)
  {
    var q := n / 256 / m;
    var r := n / 256 - q * m;
    assert n == 256 * (q * m + r) + n % 256;
    assert 256 * (q * m) == q * (256 * m);
    Quotient(n, 256 * m, q, 256 * r + n % 256);
  }

  lemma Quotient(n: nat, m: nat, q: nat, r: nat)
    requires n == q * m + r && r < m
    ensures n / m == q
  {
    var k := n / m - q;
    assert k * m == r - n % m;
    NoMultiple(k, m);
  }

  lemma NoMultiple(k: int, m: nat)
    requires 0 - m < k * m < m
    ensures k == 0
  {
    assert k >= 1 ==> k * m >= m;
    assert k <= -1 ==> k * m <= 0 - m;
  }

  lemma {:induction false} LittleEndianRoundTrip(n: nat, width: nat)
    requires n < Pow256(width)
    ensures FromLittleEndian(LittleEndian(n, width)) == n
  {
    if width > 0 {
      LittleEndianRoundTrip(n / 256, width - 1);
      var s := LittleEndian(n, width);
      assert s[1..] == LittleEndian(n / 256, width - 1);
    }
  }

  lemma {:induction false} FromLittleEndianBound(s: seq<byte>)
    ensures FromLittleEndian(s) < Pow256(|s|)
  {
    if s != [] { FromLittleEndianBound(s[1..]); }
  }

  /** GetByteInt64. */
  function PutInt64(x: int64): (s: seq<byte>)
    ensures |s| == 8
  {
    LittleEndian(if x < 0 then x + TWO_64 else x, 8)
  }

  /** GetInt64FromByte. */
  function Int64(s: seq<byte>): int64
    requires |s| == 8
  {
    FromLittleEndianBound(s);
    Pow256Of8();
    var n := FromLittleEndian(s);
    if n < TWO_63 then n else n - TWO_64
  }

  lemma Int64RoundTrip(x: int64)
    ensures Int64(PutInt64(x)) == x
  {
    Pow256Of8();
    LittleEndianRoundTrip(if x < 0 then x + TWO_64 else x, 8);
  }

  lemma LowByte(low: byte, high: nat)
    ensures (low + 256 * high) % 256 == low && (low + 256 * high) / 256 == high
  {
  }

  lemma {:induction false} LittleEndianBack(s: seq<byte>)
    ensures LittleEndian(FromLittleEndian(s), |s|) == s
  {
    if s != [] {
      LittleEndianBack(s[1..]);
      LowByte(s[0], FromLittleEndian(s[1..]));
      assert s == [s[0]] + s[1..];
    }
  }

  lemma Int64BytesBack(s: seq<byte>)
    requires |s| == 8
    ensures PutInt64(Int64(s)) == s
  {
    FromLittleEndianBound(s);
    Pow256Of8();
    LittleEndianBack(s);
  }
}
