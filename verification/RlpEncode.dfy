/** The encoder of rlp/encbuffer.go and rlp/encode.go. String data goes to one flat
    buffer; list headers are kept aside with the offset at which they belong and
    are only spliced in when the output is produced. */
module RlpEncode {
  import opened Basics
  import opened RlpSpec

  // ---------------------------------------------------------------- integers

  /** byte(i >> 8(k-1)), ..., byte(i >> 8), byte(i). */
  function LowBytes(i: nat, k: nat): (s: seq<byte>)
    ensures |s| == k
  {
    if k == 0 then [] else LowBytes(i / 256, k - 1) + [i % 256]
  }

  lemma {:induction false} LowBytesMinimal(i: nat, k: nat)
    requires k > 0 && Pow256(k - 1) <= i < Pow256(k)
    ensures LowBytes(i, k) == BigEndian(i)
  {
    if k == 1 {
      assert Pow256(0) == 1;
      assert LowBytes(i / 256, 0) == [] == BigEndian(i / 256);
    } else {
      LowBytesMinimal(i / 256, k - 1);
    }
  }

  /** The number of bytes putint writes. */
  function PutIntSize(i: nat): (n: nat)
    requires i < TWO_64
    ensures 1 <= n <= 8
    ensures n == if i == 0 then 1 else |BigEndian(i)|
  {
    var n :=
      if i < 0x100 then 1
      else if i < 0x1_0000 then 2
      else if i < 0x100_0000 then 3
      else if i < 0x1_0000_0000 then 4
      else if i < 0x100_0000_0000 then 5
      else if i < 0x1_0000_0000_0000 then 6
      else if i < 0x100_0000_0000_0000 then 7
      else 8;
    PutIntRange(i, n);
    n
  }

  lemma {:induction false} PutIntRange(i: nat, n: nat)
    requires 1 <= n <= 8
    requires [0, 0x100, 0x1_0000, 0x100_0000, 0x1_0000_0000, 0x100_0000_0000, 0x1_0000_0000_0000,
              0x100_0000_0000_0000, TWO_64][n - 1] <= i
    requires i < [0x100, 0x1_0000, 0x100_0000, 0x1_0000_0000, 0x100_0000_0000, 0x1_0000_0000_0000,
                  0x100_0000_0000_0000, TWO_64][n - 1]
    ensures i > 0 ==> |BigEndian(i)| == n
  {
    Pow256Table();
    BigEndianLength(i, n);
    BigEndianLength(i, n - 1);
  }

  lemma {:induction false} Pow256Table()
    ensures Pow256(0) == 1 && Pow256(1) == 0x100 && Pow256(2) == 0x1_0000 && Pow256(3) == 0x100_0000
    ensures Pow256(4) == 0x1_0000_0000 && Pow256(5) == 0x100_0000_0000
    ensures Pow256(6) == 0x1_0000_0000_0000 && Pow256(7) == 0x100_0000_0000_0000
    ensures Pow256(8) == TWO_64
  {
    assert Pow256(1) == 0x100 && Pow256(2) == 0x1_0000;
    assert Pow256(3) == 0x100_0000 && Pow256(4) == 0x1_0000_0000;
    assert Pow256(5) == 0x100_0000_0000 && Pow256(6) == 0x1_0000_0000_0000;
  }

  /** The bytes putint stores are the shortest big-endian form of i; zero takes one byte. */
  function PutIntBytes(i: nat): (s: seq<byte>)
    requires i < TWO_64
    ensures s == if i == 0 then [0] else BigEndian(i)
  {
    var n := PutIntSize(i);
    assert i > 0 ==> LowBytes(i, n) == BigEndian(i) by {
      if i > 0 {
        BigEndianLength(i, n);
        BigEndianLength(i, n - 1);
        LowBytesMinimal(i, n);
      }
    }
    LowBytes(i, n)
  }

  /** intsize: the loop that shifts i right until nothing is left. */
  method IntSize(i: nat) returns (size: nat)
    requires i < TWO_64
    ensures size == if i == 0 then 1 else |BigEndian(i)|
  {
    var rest := i;
    size := 1;
    rest := rest / 256;
    while rest != 0
      invariant size >= 1
      invariant i == 0 ==> rest == 0 && size == 1
      invariant i > 0 ==> |BigEndian(i)| == size + |BigEndian(rest)|
    {
      rest := rest / 256;
      size := size + 1;
    }
  }

  // ---------------------------------------------------------------- the flat form

  /** offset: index of this header in the string data.
      size: while the list is open, the header bytes counted before it;
      afterwards the encoded size of the list's content. */
  datatype ListHead = ListHead(offset: nat, size: nat)

  /** Header bytes of all closed lists, what lhsize keeps running. */
  function HeadTotal(heads: seq<ListHead>): nat {
    if heads == [] then 0 else |ListHeader(heads[0].size)| + HeadTotal(heads[1..])
  }

  /** Headers in output order, none before `from` or past the end of the string data. */
  predicate Ordered(heads: seq<ListHead>, from: nat, end: nat) {
    if heads == [] then from <= end
    else from <= heads[0].offset <= end && Ordered(heads[1..], heads[0].offset, end)
  }

  /** The output denoted by the string data s that begins at position `from` and the
      headers that belong from there on. */
  function Splice(s: seq<byte>, from: nat, heads: seq<ListHead>): seq<byte>
    requires Ordered(heads, from, from + |s|)
    decreases heads
  {
    if heads == [] then s
    else
      var k := heads[0].offset - from;
      s[..k] + (ListHeader(heads[0].size) + Splice(s[k..], heads[0].offset, heads[1..]))
  }

  /** The string data that encoding v adds. */
  function Strings(v: Value): seq<byte>
    decreases v, 1
  {
    match v
    case Bytes(b) => EncodeBytes(b)
    case List(items) => if items == [] then [0xC0] else StringsAll(items)
  }

  function StringsAll(vs: seq<Value>): seq<byte>
    decreases vs, 0
  {
    if vs == [] then [] else Strings(vs[0]) + StringsAll(vs[1..])
  }

  /** The headers that encoding v adds when the string data is `from` bytes long. */
  function Heads(v: Value, from: nat): seq<ListHead>
    decreases v, 1
  {
    match v
    case Bytes(_) => []
    case List(items) =>
      if items == [] then []
      else [ListHead(from, |EncodeAll(items)|)] + HeadsAll(items, from)
  }

  function HeadsAll(vs: seq<Value>, from: nat): seq<ListHead>
    decreases vs, 0
  {
    if vs == [] then [] else Heads(vs[0], from) + HeadsAll(vs[1..], from + |Strings(vs[0])|)
  }

  lemma {:induction false} HeadTotalConcat(a: seq<ListHead>, b: seq<ListHead>)
    ensures HeadTotal(a + b) == HeadTotal(a) + HeadTotal(b)
  {
    if a == [] {
      assert a + b == b;
    } else {
      assert (a + b)[1..] == a[1..] + b;
      HeadTotalConcat(a[1..], b);
    }
  }

  /** size() is exact: string bytes plus header bytes make up the encoding. */
  lemma {:induction false} FlatLength(v: Value, from: nat)
    ensures |Strings(v)| + HeadTotal(Heads(v, from)) == |Encode(v)|
    decreases v, 1
  {
    match v
    case Bytes(_) =>
    case List(items) =>
      if items == [] {
        assert EncodeAll(items) == [];
      } else {
        var head := [ListHead(from, |EncodeAll(items)|)];
        FlatLengthAll(items, from);
        HeadTotalConcat(head, HeadsAll(items, from));
        assert head[1..] == [];
        assert HeadTotal(head) == |ListHeader(head[0].size)| + HeadTotal(head[1..]);
      }
  }

  lemma {:induction false} FlatLengthAll(vs: seq<Value>, from: nat)
    ensures |StringsAll(vs)| + HeadTotal(HeadsAll(vs, from)) == |EncodeAll(vs)|
    decreases vs, 0
  {
    if vs == [] {
      assert HeadsAll(vs, from) == [] && HeadTotal([]) == 0;
    } else {
      hide HeadTotal, Strings, Heads, Encode;
      FlatLength(vs[0], from);
      FlatLengthAll(vs[1..], from + |Strings(vs[0])|);
      HeadTotalConcat(Heads(vs[0], from), HeadsAll(vs[1..], from + |Strings(vs[0])|));
    }
  }

  lemma {:induction false} SpliceSkip(a: seq<byte>, s: seq<byte>, from: nat, heads: seq<ListHead>)
    requires Ordered(heads, from + |a|, from + |a| + |s|)
    ensures Ordered(heads, from, from + |a + s|)
    ensures Splice(a + s, from, heads) == a + Splice(s, from + |a|, heads)
  {
    if heads != [] {
      var k := heads[0].offset - from - |a|;
      assert (a + s)[..|a| + k] == a + s[..k] && (a + s)[|a| + k..] == s[k..];
      Assoc(a, s[..k], ListHeader(heads[0].size) + Splice(s[k..], heads[0].offset, heads[1..]));
    }
  }

  lemma {:induction false} SpliceHead(head: ListHead, s: seq<byte>, rest: seq<ListHead>)
    requires Ordered(rest, head.offset, head.offset + |s|)
    ensures Ordered([head] + rest, head.offset, head.offset + |s|)
    ensures Splice(s, head.offset, [head] + rest) == ListHeader(head.size) + Splice(s, head.offset, rest)
  {
    OrderedBounds(rest, head.offset, head.offset + |s|);
    assert ([head] + rest)[1..] == rest;
    assert s[..0] == [] && s[0..] == s;
  }

  lemma {:induction false} OrderedBounds(heads: seq<ListHead>, from: nat, end: nat)
    requires Ordered(heads, from, end)
    ensures from <= end
  {
  }

  lemma {:induction false} EncodeEmpty(v: Value)
    requires v.Bytes? || v.items == []
    ensures Encode(v) == Strings(v)
  {
    assert v.List? ==> EncodeAll(v.items) == [];
  }

  /** Splicing is the recursive encoding: whatever string data and headers follow, the
      strings and headers of v turn into exactly Encode(v) in front of them. */
  lemma {:induction false} SpliceIsEncode(v: Value, s: seq<byte>, from: nat, rest: seq<ListHead>)
    requires Ordered(rest, from + |Strings(v)|, from + |Strings(v)| + |s|)
    ensures Ordered(Heads(v, from) + rest, from, from + |Strings(v) + s|)
    ensures Splice(Strings(v) + s, from, Heads(v, from) + rest)
         == Encode(v) + Splice(s, from + |Strings(v)|, rest)
    decreases v, 1
  {
    hide Ordered, Splice, ListHeader;
    if v.Bytes? || v.items == [] {
      EncodeEmpty(v);
      SpliceSkip(Strings(v), s, from, rest);
      assert Heads(v, from) + rest == rest;
    } else {
      var items := v.items;
      var head, tail := ListHead(from, |EncodeAll(items)|), HeadsAll(items, from) + rest;
      SpliceIsEncodeAll(items, s, from, rest);
      SpliceHead(head, Strings(v) + s, tail);
      Assoc([head], HeadsAll(items, from), rest);
      Assoc(ListHeader(head.size), EncodeAll(items), Splice(s, from + |Strings(v)|, rest));
    }
  }

  lemma {:induction false} SpliceIsEncodeAll(vs: seq<Value>, s: seq<byte>, from: nat, rest: seq<ListHead>)
    requires Ordered(rest, from + |StringsAll(vs)|, from + |StringsAll(vs)| + |s|)
    ensures Ordered(HeadsAll(vs, from) + rest, from, from + |StringsAll(vs) + s|)
    ensures Splice(StringsAll(vs) + s, from, HeadsAll(vs, from) + rest)
         == EncodeAll(vs) + Splice(s, from + |StringsAll(vs)|, rest)
    decreases vs, 0
  {
    hide Ordered, Splice, ListHeader;
    if vs == [] {
      assert HeadsAll(vs, from) + rest == rest && StringsAll(vs) + s == s;
    } else {
      var first, more := Strings(vs[0]), StringsAll(vs[1..]);
      var tail := HeadsAll(vs[1..], from + |first|);
      SpliceIsEncodeAll(vs[1..], s, from + |first|, rest);
      SpliceIsEncode(vs[0], more + s, from, tail + rest);
      Assoc(Heads(vs[0], from), tail, rest);
      Assoc(first, more, s);
      Assoc(Encode(vs[0]), EncodeAll(vs[1..]), Splice(s, from + |StringsAll(vs)|, rest));
    }
  }

  // ---------------------------------------------------------------- the buffer

  /** copy(dst[at:], s). */
  method CopyInto(dst: array<byte>, at: nat, s: seq<byte>)
    requires at + |s| <= dst.Length
    modifies dst
    ensures dst[..at] == old(dst[..at]) && dst[at..at + |s|] == s
    ensures dst[at + |s|..] == old(dst[at + |s|..])
  {
    for k := 0 to |s|
      invariant dst[..at] == old(dst[..at]) && dst[at..at + k] == s[..k]
      invariant dst[at + |s|..] == old(dst[at + |s|..])
    {
      dst[at + k] := s[k];
    }
  }

  /** puthead writes exactly the header and nothing beyond it, so nine spare bytes
      are not needed. */
  method PutHead(dst: array<byte>, at: nat, smallTag: byte, largeTag: byte, size: nat) returns (n: nat)
    requires size < TWO_64 && smallTag + 55 == largeTag <= 0xF7
    requires at + |Header(smallTag, largeTag, size)| <= dst.Length
    modifies dst
    ensures n == |Header(smallTag, largeTag, size)|
    ensures dst[..at] == old(dst[..at]) && dst[at..at + n] == Header(smallTag, largeTag, size)
    ensures dst[at + n..] == old(dst[at + n..])
  {
    hide BigEndian, FromBigEndian, Header;
    HeaderShape(smallTag, largeTag, size);
    if size < 56 {
      CopyInto(dst, at, [smallTag + size]);
      return 1;
    }
    var s := PutIntBytes(size);
    CopyInto(dst, at, [largeTag + |s|] + s);
    return |s| + 1;
  }

  lemma {:induction false} UintHeader(i: nat)
    requires 128 <= i < TWO_64
    ensures var s := BigEndian(i);
            1 <= |s| <= 8 && EncodeBytes(s) == [0x80 + |s|] + s
  {
    SizeFits(i);
    var s := BigEndian(i);
    assert s == BigEndian(i / 256) + [i % 256];
    if |s| == 1 {
      BigEndianLength(i, 1);
      assert Pow256(0) == 1;
      assert s[0] == i;
    }
  }

  class EncBuffer {
    var str: seq<byte>
    var lheads: seq<ListHead>
    var lhsize: nat

    constructor ()
      ensures str == [] && lheads == [] && lhsize == 0
    {
      str, lheads, lhsize := [], [], 0;
    }

    function Size(): nat
      reads this
    {
      |str| + lhsize
    }

    method WriteUint64(i: nat)
      requires i < TWO_64
      modifies `str
      ensures str == old(str) + EncodeBytes(BigEndian(i))
    {
      if i == 0 {
        str := str + [0x80];
      } else if i < 128 {
        assert BigEndian(i / 256) == [];
        str := str + [i];
      } else {
        var s := PutIntBytes(i);
        UintHeader(i);
        str := str + ([0x80 + |s|] + s);
      }
    }

    method EncodeStringHeader(size: nat)
      requires size < TWO_64
      modifies `str
      ensures str == old(str) + StringHeader(size)
    {
      HeaderShape(0x80, 0xB7, size);
      if size < 56 {
        str := str + [0x80 + size];
      } else {
        var s := PutIntBytes(size);
        str := str + ([0xB7 + |s|] + s);
      }
    }

    method WriteBytes(b: seq<byte>)
      requires |b| <= MAX_INT
      modifies `str
      ensures str == old(str) + EncodeBytes(b)
    {
      if |b| == 1 && b[0] <= 0x7F {
        str := str + [b[0]];
      } else {
        EncodeStringHeader(|b|);
        str := str + b;
      }
    }

    /** Opens a list; its header remembers how many header bytes came before. */
    method List() returns (index: nat)
      modifies `lheads
      ensures index == |old(lheads)| && lheads == old(lheads) + [ListHead(|str|, lhsize)]
    {
      lheads := lheads + [ListHead(|str|, lhsize)];
      index := |lheads| - 1;
    }

    method ListEnd(index: nat)
      requires index < |lheads|
      requires lheads[index].offset + lheads[index].size <= Size() <= MAX_INT
      modifies `lheads, `lhsize
      ensures var size := old(Size() - lheads[index].offset - lheads[index].size);
              && lheads == old(lheads)[index := ListHead(old(lheads)[index].offset, size)]
              && lhsize == old(lhsize) + |ListHeader(size)|
    {
      var lh := lheads[index];
      var size := Size() - lh.offset - lh.size;
      lheads := lheads[index := lh.(size := size)];
      if size < 56 {
        lhsize := lhsize + 1;
      } else {
        var n := IntSize(size);
        lhsize := lhsize + 1 + n;
      }
    }

    /** The writers of makeSliceWriter and writeInterface on an untyped value. */
    method WriteValue(v: Value)
      requires Size() + |Encode(v)| <= MAX_INT
      modifies this
      ensures str == old(str) + Strings(v)
      ensures lheads == old(lheads) + Heads(v, |old(str)|)
      ensures lhsize == old(lhsize) + HeadTotal(Heads(v, |old(str)|))
      decreases v, 1
    {
      match v
      case Bytes(b) =>
        WriteBytes(b);
      case List(items) =>
        if |items| == 0 {
          str := str + [0xC0];
          return;
        }
        hide HeadTotal, ListHeader, HeadsAll, EncodeAll, StringsAll;
        ghost var from := |str|;
        var index := List();
        WriteItems(items);
        FlatLengthAll(items, from);
        HeadTotalList(items, from);
        ghost var open := lheads;
        ListEnd(index);
        ClosedHead(old(lheads), open[index], HeadsAll(items, from), lheads[index]);
        assert lheads == old(lheads) + Heads(v, from);
    }

    /** The element loop of the slice writer. */
    method WriteItems(items: seq<Value>)
      requires Size() + |EncodeAll(items)| <= MAX_INT
      modifies this
      ensures str == old(str) + StringsAll(items)
      ensures lheads == old(lheads) + HeadsAll(items, |old(str)|)
      ensures lhsize == old(lhsize) + HeadTotal(HeadsAll(items, |old(str)|))
      decreases items, 0
    {
      ghost var start := Flat(str, lheads, lhsize);
      GrownByNothing(start);
      assert items[..0] == [];
      for i := 0 to |items|
        invariant Grown(start, items[..i], Flat(str, lheads, lhsize))
      {
        GrownFits(start, items, i, Flat(str, lheads, lhsize));
        ghost var before := Flat(str, lheads, lhsize);
        WriteValue(items[i]);
        GrownByItem(start, items, i, before, Flat(str, lheads, lhsize));
      }
      assert items[..|items|] == items;
    }

    /** One round of the loop of copyTo: the string data before a header, then the header. */
    method CopyPiece(dst: array<byte>, pos: nat, strpos: nat, head: ListHead) returns (next: nat)
      requires strpos <= head.offset <= |str| && head.size < TWO_64
      requires pos + (head.offset - strpos) + |ListHeader(head.size)| <= dst.Length
      modifies dst
      ensures next == pos + (head.offset - strpos) + |ListHeader(head.size)|
      ensures dst[..next] == old(dst[..pos]) + (str[strpos..head.offset] + ListHeader(head.size))
    {
      ghost var done := dst[..pos];
      var piece := str[strpos..head.offset];
      CopyInto(dst, pos, piece);
      var mid := pos + |piece|;
      assert dst[..mid] == done + piece;
      var n := PutHead(dst, mid, 0xC0, 0xF7, head.size);
      next := mid + n;
      assert dst[..next] == dst[..mid] + dst[mid..next];
    }

    /** Two cursors, one in the string data and one in the destination. */
    method CopyTo(dst: array<byte>)
      requires Ordered(lheads, 0, |str|) && lhsize == HeadTotal(lheads)
      requires forall h :: h in lheads ==> h.size < TWO_64
      requires dst.Length == Size()
      modifies dst
      ensures dst[..] == Splice(str, 0, lheads)
    {
      var strpos: nat, pos: nat := 0, 0;
      SpliceLength(str, 0, lheads);
      PendingAtStart(str, lheads);
      ghost var all := Splice(str, 0, lheads);
      hide Ordered, Splice, ListHeader, Pending, CanPend;
      ghost var done: seq<byte> := [];
      for k := 0 to |lheads|
        invariant CanPend(str, strpos, lheads, k) && pos <= dst.Length == |all|
        invariant dst[..pos] == done && done + Pending(str, strpos, lheads, k) == all
      {
        var head := lheads[k];
        PendingStep(str, strpos, lheads, k);
        ghost var piece := str[strpos..head.offset] + ListHeader(head.size);
        Assoc(done, piece, Pending(str, head.offset, lheads, k + 1));
        pos := CopyPiece(dst, pos, strpos, head);
        strpos := head.offset;
        done := done + piece;
      }
      PendingAtEnd(str, strpos, lheads);
      CopyInto(dst, pos, str[strpos..]);
      assert dst[..] == dst[..pos] + dst[pos..];
    }
  }

  ghost predicate CanPend(str: seq<byte>, strpos: nat, heads: seq<ListHead>, k: nat) {
    k <= |heads| && strpos <= |str| && Ordered(heads[k..], strpos, |str|)
  }

  /** What copyTo still has to produce after k headers. */
  ghost function Pending(str: seq<byte>, strpos: nat, heads: seq<ListHead>, k: nat): seq<byte>
    requires CanPend(str, strpos, heads, k)
  {
    Splice(str[strpos..], strpos, heads[k..])
  }

  lemma {:induction false} PendingAtStart(str: seq<byte>, heads: seq<ListHead>)
    requires Ordered(heads, 0, |str|)
    ensures CanPend(str, 0, heads, 0) && Pending(str, 0, heads, 0) == Splice(str, 0, heads)
  {
    assert heads[0..] == heads && str[0..] == str;
  }

  lemma {:induction false} PendingAtEnd(str: seq<byte>, strpos: nat, heads: seq<ListHead>)
    requires CanPend(str, strpos, heads, |heads|)
    ensures strpos <= |str| && Pending(str, strpos, heads, |heads|) == str[strpos..]
  {
  }

  lemma {:induction false} PendingStep(str: seq<byte>, from: nat, heads: seq<ListHead>, k: nat)
    requires k < |heads| && CanPend(str, from, heads, k)
    ensures from <= heads[k].offset <= |str| && CanPend(str, heads[k].offset, heads, k + 1)
    ensures Pending(str, from, heads, k)
         == (str[from..heads[k].offset] + ListHeader(heads[k].size)) + Pending(str, heads[k].offset, heads, k + 1)
  {
    var offset := heads[k].offset;
    assert heads[k..][0] == heads[k] && heads[k..][1..] == heads[k + 1..];
    OrderedBounds(heads[k + 1..], offset, |str|);
    assert str[from..][..offset - from] == str[from..offset];
    assert str[from..][offset - from..] == str[offset..];
    Assoc(str[from..offset], ListHeader(heads[k].size), Splice(str[offset..], offset, heads[k + 1..]));
  }

  lemma ClosedHead<T>(before: seq<T>, open: T, inner: seq<T>, closed: T)
    ensures (before + [open] + inner)[|before| := closed] == before + ([closed] + inner)
  {
  }

  lemma {:induction false} HeadTotalList(items: seq<Value>, from: nat)
    requires items != []
    ensures HeadTotal(Heads(List(items), from)) == |ListHeader(|EncodeAll(items)|)| + HeadTotal(HeadsAll(items, from))
  {
    assert Heads(List(items), from)[1..] == HeadsAll(items, from);
  }

  /** The three fields of the buffer as one value. */
  datatype Flat = Flat(str: seq<byte>, heads: seq<ListHead>, lhsize: nat)

  /** Writing the values vs to a buffer `a` turned it into `b`. */
  ghost predicate Grown(a: Flat, vs: seq<Value>, b: Flat) {
    && b.str == a.str + StringsAll(vs)
    && b.heads == a.heads + HeadsAll(vs, |a.str|)
    && b.lhsize == a.lhsize + HeadTotal(HeadsAll(vs, |a.str|))
  }

  lemma GrownByNothing(a: Flat)
    ensures Grown(a, [], a)
  {
  }

  lemma {:induction false} GrownFits(a: Flat, items: seq<Value>, i: nat, b: Flat)
    requires i < |items| && Grown(a, items[..i], b)
    ensures |b.str| + b.lhsize + |Encode(items[i])| <= |a.str| + a.lhsize + |EncodeAll(items)|
  {
    hide StringsAll, HeadsAll, HeadTotal;
    ItemStep(items, i, |a.str|);
    FlatLengthAll(items[..i], |a.str|);
  }

  lemma {:induction false} GrownByItem(a: Flat, items: seq<Value>, i: nat, b: Flat, c: Flat)
    requires i < |items| && Grown(a, items[..i], b)
    requires c.str == b.str + Strings(items[i])
    requires c.heads == b.heads + Heads(items[i], |b.str|)
    requires c.lhsize == b.lhsize + HeadTotal(Heads(items[i], |b.str|))
    ensures Grown(a, items[..i + 1], c)
  {
    hide StringsAll, HeadsAll, HeadTotal, Strings, Heads;
    ItemStep(items, i, |a.str|);
    Assoc(a.str, StringsAll(items[..i]), Strings(items[i]));
    Assoc(a.heads, HeadsAll(items[..i], |a.str|), Heads(items[i], |b.str|));
  }

  lemma {:induction false} ItemStep(items: seq<Value>, i: nat, from: nat)
    requires i < |items|
    ensures StringsAll(items[..i + 1]) == StringsAll(items[..i]) + Strings(items[i])
    ensures HeadsAll(items[..i + 1], from)
         == HeadsAll(items[..i], from) + Heads(items[i], from + |StringsAll(items[..i])|)
    ensures HeadTotal(HeadsAll(items[..i + 1], from))
         == HeadTotal(HeadsAll(items[..i], from)) + HeadTotal(Heads(items[i], from + |StringsAll(items[..i])|))
    ensures |EncodeAll(items[..i])| + |Encode(items[i])| <= |EncodeAll(items)|
  {
    assert items[..i + 1] == items[..i] + [items[i]];
    FlatSnoc(items[..i], items[i], from);
    HeadTotalConcat(HeadsAll(items[..i], from), Heads(items[i], from + |StringsAll(items[..i])|));
    EncodeAllSnoc(items[..i], items[i]);
    assert items == items[..i + 1] + items[i + 1..];
    EncodeAllConcat(items[..i + 1], items[i + 1..]);
  }

  lemma {:induction false} FlatSnoc(us: seq<Value>, v: Value, from: nat)
    ensures StringsAll(us + [v]) == StringsAll(us) + Strings(v)
    ensures HeadsAll(us + [v], from) == HeadsAll(us, from) + Heads(v, from + |StringsAll(us)|)
  {
    if us == [] {
      assert us + [v] == [v] && [v][1..] == [];
      hide Strings, Heads;
      assert StringsAll([v]) == Strings(v) + StringsAll([v][1..]);
      assert HeadsAll([v], from) == Heads(v, from) + HeadsAll([v][1..], from + |Strings(v)|);
    } else {
      hide Strings, Heads;
      var first := Strings(us[0]);
      assert (us + [v])[1..] == us[1..] + [v] && (us + [v])[0] == us[0];
      FlatSnoc(us[1..], v, from + |first|);
      Assoc(first, StringsAll(us[1..]), Strings(v));
      Assoc(Heads(us[0], from), HeadsAll(us[1..], from + |first|), Heads(v, from + |StringsAll(us)|));
    }
  }

  lemma {:induction false} SpliceLength(s: seq<byte>, from: nat, heads: seq<ListHead>)
    requires Ordered(heads, from, from + |s|)
    ensures |Splice(s, from, heads)| == |s| + HeadTotal(heads)
    decreases heads
  {
    if heads != [] {
      OrderedBounds(heads[1..], heads[0].offset, from + |s|);
      SpliceLength(s[heads[0].offset - from..], heads[0].offset, heads[1..]);
    }
  }

  lemma {:induction false} HeadSizes(v: Value, from: nat)
    ensures forall h :: h in Heads(v, from) ==> h.size <= |Encode(v)|
    decreases v, 1
  {
    match v
    case Bytes(_) =>
    case List(items) => HeadSizesAll(items, from);
  }

  lemma {:induction false} HeadSizesAll(vs: seq<Value>, from: nat)
    ensures forall h :: h in HeadsAll(vs, from) ==> h.size <= |EncodeAll(vs)|
    decreases vs, 0
  {
    if vs != [] {
      HeadSizes(vs[0], from);
      HeadSizesAll(vs[1..], from + |Strings(vs[0])|);
    }
  }

  /** EncodeToBytes: fill the buffer, allocate size() bytes, splice. The result is
      the recursive encoding for every value whose encoding fits in a Go slice. */
  method EncodeToBytes(v: Value) returns (out: seq<byte>)
    requires |Encode(v)| <= MAX_INT
    ensures out == Encode(v)
  {
    var buf := new EncBuffer();
    buf.WriteValue(v);
    assert buf.str == Strings(v) && buf.lheads == Heads(v, 0) && buf.lhsize == HeadTotal(Heads(v, 0));
    FlatLength(v, 0);
    HeadSizes(v, 0);
    SpliceIsEncode(v, [], 0, []);
    assert Heads(v, 0) + [] == Heads(v, 0) && Strings(v) + [] == Strings(v) && Encode(v) + [] == Encode(v);
    var dst := new byte[buf.Size()];
    buf.CopyTo(dst);
    out := dst[..];
  }
}
