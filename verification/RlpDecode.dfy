/** The streaming decoder of rlp/decode.go on untyped values. A stream reads tags and
    contents from a finite reader and keeps a stack of 64-bit counters, one for each
    list it is inside of; subtracting from a counter may wrap around. */
module RlpDecode {
  import opened Basics
  import opened RlpSpec

  datatype Error =
    | EOL | EOF | UnexpectedEOF | ExpectedString | ExpectedList | CanonSize
    | ElemTooLarge | ValueTooLarge | MoreThanOneValue | NotInList | NotAtEOL

  datatype Result<T> = Ok(value: T) | Err(error: Error)

  datatype Kind = Byte | String | ListKind

  // ---------------------------------------------------------------- headers

  /** A value's tag: its kind, the size of the content after it, and its own length.
      For a single byte the value is in the tag and the size is zero. */
  datatype Tag = Tag(kind: Kind, size: nat, len: nat)

  /** The tag at the front of s, if s begins with a canonical one. */
  function ReadTag(s: seq<byte>): Option<Tag> {
    if s == [] then None
    else if s[0] < 0x80 then Some(Tag(Byte, 0, 1))
    else if s[0] < 0xB8 then Some(Tag(String, s[0] - 0x80, 1))
    else if s[0] < 0xC0 then LongTag(String, s, s[0] - 0xB7)
    else if s[0] < 0xF8 then Some(Tag(ListKind, s[0] - 0xC0, 1))
    else LongTag(ListKind, s, s[0] - 0xF7)
  }

  function LongTag(kind: Kind, s: seq<byte>, n: nat): Option<Tag>
    requires 1 <= n <= 8 && s != []
  {
    if |s| < 1 + n || s[1] == 0 || FromBigEndian(s[1..1 + n]) < 56 then None
    else Some(Tag(kind, FromBigEndian(s[1..1 + n]), 1 + n))
  }

  /** The bytes a tag stands for, given the first byte of the input. */
  function TagBytes(t: Tag, first: byte): seq<byte> {
    match t.kind
    case Byte => [first]
    case String => StringHeader(t.size)
    case ListKind => ListHeader(t.size)
  }

  lemma {:induction false} LongTagSound(kind: Kind, s: seq<byte>, n: nat)
    requires 1 <= n <= 8 && s != [] && LongTag(kind, s, n).Some?
    ensures var size := LongTag(kind, s, n).value.size;
            56 <= size < TWO_64 && |s| >= 1 + n && BigEndian(size) == s[1..1 + n]
  {
    hide BigEndian, FromBigEndian;
    var t := s[1..1 + n];
    BigEndianCanonical(t);
    FromBigEndianBound(t);
    Pow256Monotone(n, 8);
    Pow256Of8();
  }

  lemma {:induction false} Pow256Monotone(a: nat, b: nat)
    requires a <= b
    ensures Pow256(a) <= Pow256(b)
  {
    if a < b { Pow256Monotone(a, b - 1); }
  }

  /** Only canonical headers are read as tags. */
  lemma {:induction false} ReadTagSound(s: seq<byte>)
    requires ReadTag(s).Some?
    ensures var t := ReadTag(s).value;
            && 1 <= t.len <= |s| && t.size < TWO_64
            && s[..t.len] == TagBytes(t, s[0])
            && (t.kind.Byte? <==> s[0] < 0x80) && (t.kind.Byte? ==> t.size == 0 && t.len == 1)
  {
    hide BigEndian, FromBigEndian;
    var t := ReadTag(s).value;
    var first := s[0] as int;
    if 0xB8 <= s[0] < 0xC0 {
      LongTagSound(String, s, s[0] - 0xB7);
      assert s[..t.len] == [s[0]] + s[1..t.len];
    } else if 0xF8 <= s[0] {
      LongTagSound(ListKind, s, s[0] - 0xF7);
      assert s[..t.len] == [s[0]] + s[1..t.len];
    }
  }

  /** Every header is read back, whatever follows it. */
  lemma {:induction false} ReadTagComplete(kind: Kind, size: nat, rest: seq<byte>)
    requires !kind.Byte? && size < TWO_64
    ensures var h := TagBytes(Tag(kind, size, 0), 0);
            ReadTag(h + rest) == Some(Tag(kind, size, |h|))
  {
    hide BigEndian, FromBigEndian, Header;
    var h := TagBytes(Tag(kind, size, 0), 0);
    if kind.String? { HeaderShape(0x80, 0xB7, size); } else { HeaderShape(0xC0, 0xF7, size); }
    var s := h + rest;
    assert s[0] == h[0];
    if size >= 56 {
      assert s[1..|h|] == h[1..];
      assert s[1] == h[1];
    }
  }

  /** The tag at the front of an encoded value, and the content it announces. */
  function Content(v: Value): seq<byte> {
    match v
    case Bytes(b) => if |b| == 1 && b[0] <= 0x7F then [] else b
    case List(items) => EncodeAll(items)
  }

  lemma {:induction false} ReadTagOfEncode(v: Value, rest: seq<byte>)
    requires |Encode(v)| < TWO_64
    ensures var t := ReadTag(Encode(v) + rest);
            && t.Some? && t.value.size == |Content(v)| && t.value.len + t.value.size == |Encode(v)|
            && Encode(v)[t.value.len..] == Content(v)
            && t.value.kind == (if v.List? then ListKind else if EncodesAsItself(v) then Byte else String)
  {
    hide Header;
    if EncodesAsItself(v) {
      assert (Encode(v) + rest)[0] == v.b[0];
    } else {
      var kind := if v.List? then ListKind else String;
      var h := TagBytes(Tag(kind, |Content(v)|, 0), 0);
      assert Encode(v) == h + Content(v);
      ReadTagComplete(kind, |Content(v)|, Content(v) + rest);
      assert Encode(v) + rest == h + (Content(v) + rest);
    }
  }

  predicate EncodesAsItself(v: Value) { v.Bytes? && |v.b| == 1 && v.b[0] <= 0x7F }

  /** No encoding is a proper prefix of another, so a concatenation of encodings
      can be taken apart in one way only. */
  lemma {:induction false} PrefixFree(u: Value, v: Value, s: seq<byte>, t: seq<byte>)
    requires Encode(u) + s == Encode(v) + t
    requires |Encode(u)| < TWO_64 && |Encode(v)| < TWO_64
    ensures u == v && s == t
    decreases u, 1
  {
    hide ReadTag, Encode;
    ReadTagOfEncode(u, s);
    ReadTagOfEncode(v, t);
    assert |Encode(u)| == |Encode(v)|;
    assert Encode(u) == (Encode(u) + s)[..|Encode(u)|] == Encode(v);
    assert s == (Encode(u) + s)[|Encode(u)|..] == t;
    assert Content(u) == Content(v);
    if u.List? {
      EncodeAllInjective(u.items, v.items);
    } else if EncodesAsItself(u) {
      assert Encode(u) == u.b && Encode(v) == v.b by { SingleByte(u); SingleByte(v); }
    }
  }

  lemma SingleByte(v: Value)
    requires EncodesAsItself(v)
    ensures Encode(v) == v.b
  {
  }

  lemma {:induction false} EncodeAllInjective(us: seq<Value>, vs: seq<Value>)
    requires EncodeAll(us) == EncodeAll(vs) && |EncodeAll(us)| < TWO_64
    ensures us == vs
    decreases us, 0
  {
    hide Encode;
    if us == [] || vs == [] {
      if us != [] { EncodeNonEmpty(us[0]); }
      if vs != [] { EncodeNonEmpty(vs[0]); }
    } else {
      PrefixFree(us[0], vs[0], EncodeAll(us[1..]), EncodeAll(vs[1..]));
      EncodeAllInjective(us[1..], vs[1..]);
      assert us == [us[0]] + us[1..] && vs == [vs[0]] + vs[1..];
    }
  }

  // ---------------------------------------------------------------- list counters

  type uint64 = x: int | 0 <= x < 0x1_0000_0000_0000_0000

  /** a - n in 64-bit arithmetic. */
  function Sub64(a: uint64, n: nat): uint64 {
    (a - n) % TWO_64
  }

  /** The stack after n more bytes of the innermost list went by. */
  function Consume(stack: seq<uint64>, n: nat): (r: seq<uint64>)
    ensures |r| == |stack|
  {
    if stack == [] then [] else stack[|stack| - 1 := Sub64(stack[|stack| - 1], n)]
  }

  lemma ConsumeTwice(stack: seq<uint64>, m: nat, n: nat)
    ensures Consume(Consume(stack, m), n) == Consume(stack, m + n)
  {
  }

  lemma ConsumeTop(stack: seq<uint64>, n: nat)
    requires stack != [] && n <= stack[|stack| - 1]
    ensures var r := Consume(stack, n);
            |r| == |stack| && r[|r| - 1] == stack[|stack| - 1] - n
  {
  }

  /** A counter that allows m bytes allows n more exactly if it allows both together. */
  lemma AllowedBoth(stack: seq<uint64>, m: nat, n: nat)
    requires stack != [] ==> m <= stack[|stack| - 1]
    ensures var after := Consume(stack, m);
            (after != [] ==> n <= after[|after| - 1]) <==> (stack != [] ==> m + n <= stack[|stack| - 1])
  {
    if stack != [] { ConsumeTop(stack, m); }
  }

  lemma ConsumeNothing(stack: seq<uint64>)
    ensures Consume(stack, 0) == stack
  {
    assert stack != [] ==> Sub64(stack[|stack| - 1], 0) == stack[|stack| - 1];
  }

  /** The counter of a list is back at zero only when exactly its size has been
      consumed, however often it wrapped on the way. */
  lemma CounterZero(size: uint64, n: uint64)
    ensures Sub64(size, n) == 0 <==> size == n
  {
  }

  // ---------------------------------------------------------------- the stream

  class Stream {
    const input: seq<byte>
    var pos: nat              // what the reader has handed out
    var remaining: uint64     // bytes left under the input limit
    const limited: bool       // an input limit is in effect
    var stack: seq<uint64>    // list counters
    var kind: Option<Kind>    // kind of the value ahead, if it is known
    var size: uint64          // size of the value ahead
    var kinderr: Option<Error>
    var byteval: byte

    ghost predicate Valid()
      reads this
    {
      pos <= |input| <= MAX_INT
    }

    /** Reset. The reader is a bytes.Reader, whose length is the limit when none is given. */
    constructor (b: seq<byte>, inputLimit: uint64)
      requires |b| <= MAX_INT
      ensures Valid() && input == b && pos == 0 && stack == [] && kind.None? && limited
      ensures remaining == if inputLimit > 0 then inputLimit else |b|
    {
      input, pos := b, 0;
      remaining := if inputLimit > 0 then inputLimit else |b|;
      limited, stack, kind, size, kinderr, byteval := true, [], None, 0, None, 0;
    }

    /** The limits allow n more bytes. */
    predicate Allowed(n: nat)
      reads this
    {
      && (stack != [] ==> n <= stack[|stack| - 1])
      && (limited ==> n <= remaining)
    }

    /** n bytes have been consumed since the given state. */
    ghost predicate Advanced(pos0: nat, stack0: seq<uint64>, remaining0: uint64, n: nat)
      reads this
    {
      && pos == pos0 + n
      && stack == Consume(stack0, n)
      && remaining0 >= (if limited then n else 0)
      && remaining == if limited then remaining0 - n else remaining0
    }

    method WillRead(n: nat) returns (err: Option<Error>)
      requires Valid()
      modifies `kind, `stack, `remaining
      ensures kind.None? && |stack| == old(|stack|)
      ensures err.None? <==> old(Allowed(n))
      ensures err.Some? ==> err.value in {ElemTooLarge, ValueTooLarge}
      ensures err.None? ==> stack == Consume(old(stack), n)
      ensures err.None? ==> remaining == if limited then old(remaining) - n else old(remaining)
    {
      kind := None;
      if stack != [] {
        var limit := stack[|stack| - 1];
        if n > limit { return Some(ElemTooLarge); }
        stack := stack[|stack| - 1 := limit - n];
      }
      if limited {
        if n > remaining { return Some(ValueTooLarge); }
        remaining := remaining - n;
      }
      return None;
    }

    /** readFull, and readByte for n == 1. */
    method Read(n: nat) returns (r: Result<seq<byte>>)
      requires Valid()
      modifies `kind, `stack, `remaining, `pos
      ensures Valid() && kind.None? && |stack| == old(|stack|)
      ensures r.Ok? <==> old(Allowed(n) && pos + n <= |input|)
      ensures r.Ok? ==> Advanced(old(pos), old(stack), old(remaining), n) && r.value == input[old(pos)..pos]
      ensures r.Err? ==> r.error in {ElemTooLarge, ValueTooLarge, UnexpectedEOF}
    {
      var err := WillRead(n);
      if err.Some? { return Err(err.value); }
      if pos + n > |input| {
        pos := |input|;
        return Err(UnexpectedEOF);
      }
      pos := pos + n;
      return Ok(input[pos - n..pos]);
    }

    /** readUint for the length bytes of a tag. */
    method ReadUint(n: nat) returns (r: Result<uint64>)
      requires Valid() && 1 <= n <= 8
      modifies `kind, `stack, `remaining, `pos
      ensures Valid() && kind.None? && |stack| == old(|stack|)
      ensures r.Ok? <==> old(Allowed(n) && pos + n <= |input|) && (n == 1 || input[old(pos)] != 0)
      ensures r.Ok? ==> Advanced(old(pos), old(stack), old(remaining), n)
      ensures r.Ok? ==> r.value == FromBigEndian(input[old(pos)..pos])
      ensures r.Err? ==> r.error != EOL
    {
      var b := Read(n);
      if b.Err? { return Err(b.error); }
      var s := b.value;
      FromBigEndianBound(s);
      Pow256Monotone(n, 8);
      Pow256Of8();
      if n > 1 && s[0] == 0 { return Err(CanonSize); }
      return Ok(FromBigEndian(s));
    }

    /** The tag of the next value, under the limits in force. */
    ghost function NextTag(): Option<Tag>
      requires Valid()
      reads this
    {
      ReadTag(input[pos..])
    }

    method ReadKind() returns (k: Kind, n: uint64, err: Option<Error>)
      requires Valid()
      modifies `kind, `stack, `remaining, `pos, `byteval
      ensures Valid() && kind.None? && |stack| == old(|stack|)
      ensures err.None? <==> old(NextTag().Some? && Allowed(NextTag().value.len))
      ensures err.None? ==>
                && Advanced(old(pos), old(stack), old(remaining), old(NextTag().value.len))
                && k == old(NextTag().value.kind) && n == old(NextTag().value.size)
                && (k.Byte? ==> byteval == input[old(pos)])
      ensures err.Some? ==> err.value != EOL
    {
      hide FromBigEndian;
      ghost var s := input[pos..];
      var first := Read(1);
      if first.Err? {
        var e := first.error;
        if stack == [] && e in {UnexpectedEOF, ValueTooLarge} { e := EOF; }
        if ReadTag(s).Some? { ReadTagSound(s); }
        return Byte, 0, Some(e);
      }
      var b := first.value[0];
      assert b == s[0];
      byteval := 0;
      if b < 0x80 {
        byteval := b;
        return Byte, 0, None;
      } else if b < 0xB8 {
        return String, b - 0x80, None;
      } else if 0xC0 <= b < 0xF8 {
        return ListKind, b - 0xC0, None;
      }
      k := if b < 0xC0 then String else ListKind;
      var len := if b < 0xC0 then b - 0xB7 else b - 0xF7;
      n, err := ReadLong(k, s, len, old(stack), old(remaining));
    }

    /** The long form: the size follows the first byte of the tag in `len` bytes. */
    method ReadLong(k: Kind, ghost s: seq<byte>, len: nat, ghost stack0: seq<uint64>, ghost remaining0: uint64)
        returns (n: uint64, err: Option<Error>)
      requires Valid() && 1 <= len <= 8 && pos >= 1
      requires s == input[pos - 1..] && Advanced(pos - 1, stack0, remaining0, 1)
      requires stack0 != [] ==> stack0[|stack0| - 1] >= 1
      modifies `kind, `stack, `remaining, `pos
      ensures Valid() && kind.None? && |stack| == old(|stack|)
      ensures err.None? <==>
                && LongTag(k, s, len).Some?
                && (stack0 != [] ==> 1 + len <= stack0[|stack0| - 1])
                && (limited ==> 1 + len <= remaining0)
      ensures err.None? ==> Advanced(old(pos) - 1, stack0, remaining0, 1 + len)
      ensures err.None? ==> n == LongTag(k, s, len).value.size
      ensures err.Some? ==> err.value != EOL
    {
      hide FromBigEndian;
      var r := ReadUint(len);
      if r.Err? { return 0, Some(r.error); }
      ConsumeTwice(stack0, 1, len);
      assert s[1] == input[old(pos)] && s[1..1 + len] == input[old(pos)..pos];
      if len == 1 && s[1] == 0 { FromBigEndianOfZero(s[1..2]); }
      if r.value < 56 { return r.value, Some(CanonSize); }
      return r.value, None;
    }

    predicate AtListEnd()
      reads this
    {
      stack != [] && stack[|stack| - 1] == 0
    }

    /** The size check of Kind: against the counter as it was before the tag was read. */
    predicate Admits(t: Tag)
      reads this
    {
      && Allowed(t.len)
      && (stack != [] ==> t.size <= stack[|stack| - 1])
      && (limited ==> t.len + t.size <= remaining)
    }

    method Kind() returns (k: Kind, n: uint64, err: Option<Error>)
      requires Valid()
      modifies this
      ensures Valid() && |stack| == old(|stack|)
      ensures old(kind.Some?) ==> unchanged(this) && kind == Some(k) && n == size && err == kinderr
      ensures old(kind.None? && AtListEnd()) ==> unchanged(this) && err == Some(EOL)
      ensures old(kind.None? && !AtListEnd()) ==>
                && (err.None? <==> old(NextTag().Some? && Admits(NextTag().value)))
                && (err.Some? ==> err.value != EOL)
                && (err.None? ==>
                      && Advanced(old(pos), old(stack), old(remaining), old(NextTag().value.len))
                      && Ahead(old(NextTag().value))
                      && k == kind.value && n == size
                      && (k.Byte? ==> byteval == input[old(pos)]))
    {
      if kind.Some? { return kind.value, size, kinderr; }
      var inList := stack != [];
      var listLimit := if inList then stack[|stack| - 1] else 0;
      if inList && listLimit == 0 { return Byte, 0, Some(EOL); }
      k, n, err := ReadKind();
      kind, size, kinderr := Some(k), n, err;
      if kinderr.None? {
        if inList && size > listLimit {
          kinderr := Some(ElemTooLarge);
        } else if limited && size > remaining {
          kinderr := Some(ValueTooLarge);
        }
      }
      return kind.value, size, kinderr;
    }

    /** Kind has read the tag t of the value ahead and found no fault. */
    ghost predicate Ahead(t: Tag)
      reads this
    {
      kind == Some(t.kind) && size == t.size && kinderr.None?
    }

    /** A string that the limits allow comes next, and is not a byte that should stand alone. */
    ghost predicate StringAhead()
      requires Valid()
      reads this
    {
      && NextTag().Some?
      && var t := NextTag().value;
         && Admits(t) && !t.kind.ListKind? && Allowed(t.len + t.size) && pos + t.len + t.size <= |input|
         && !(t.kind.String? && t.size == 1 && input[pos + t.len] < 128)
    }

    /** Bytes, whether or not the tag of the value ahead is known. */
    method Bytes() returns (r: Result<seq<byte>>)
      requires Valid()
      modifies this
      ensures Valid() && |stack| == old(|stack|)
      ensures old(kind.Some? && kinderr.Some?) ==> unchanged(this) && r == Err(kinderr.value)
      ensures old(kind.Some? && kinderr.None?) ==> TookBytes(old(kind.value), old(size), old(pos), old(stack), old(remaining), old(byteval), r)
      ensures old(kind.None? && AtListEnd()) ==> unchanged(this) && r == Err(EOL)
      ensures old(kind.None? && !AtListEnd()) ==>
                && (r.Ok? <==> old(StringAhead()))
                && (r.Err? ==> r.error != EOL)
                && (r.Ok? ==>
                      var t := old(NextTag().value);
                      && kind.None? && Advanced(old(pos), old(stack), old(remaining), t.len + t.size)
                      && r.value == input[old(pos) + (if t.kind.Byte? then 0 else t.len)..pos])
    {
      hide ReadTag, TagBytes, Consume;
      ghost var unread, tag := kind.None?, NextTag();
      var k, n, err := Kind();
      if err.Some? { return Err(err.value); }
      if unread {
        ReadTagSound(input[old(pos)..]);
        ConsumeTwice(old(stack), tag.value.len, tag.value.size);
        AllowedBoth(old(stack), tag.value.len, tag.value.size);
      }
      r := TakeBytes();
      assert unread && tag.value.kind.Byte? ==> r.value == input[old(pos)..old(pos) + 1];
    }

    /** The rest of Bytes, after Kind. */
    method TakeBytes() returns (r: Result<seq<byte>>)
      requires Valid() && kind.Some? && kinderr.None?
      modifies this
      ensures Valid() && |stack| == old(|stack|)
      ensures TookBytes(old(kind.value), old(size), old(pos), old(stack), old(remaining), old(byteval), r)
    {
      match kind.value
      case Byte =>
        ConsumeNothing(stack);
        kind := None;
        return Ok([byteval]);
      case String =>
        var n := size;
        var b := Read(n);
        if b.Err? { return Err(b.error); }
        if n == 1 && b.value[0] < 128 { return Err(CanonSize); }
        return b;
      case ListKind =>
        return Err(ExpectedString);
    }

    /** What Bytes makes of a value of kind k and size n whose tag has been read. */
    ghost predicate TookBytes(k: Kind, n: uint64, pos0: nat, stack0: seq<uint64>, remaining0: uint64, single: byte, r: Result<seq<byte>>)
      requires pos0 <= |input|
      reads this
    {
      && (r.Err? ==> r.error != EOL)
      && (r.Ok? ==> kind.None?)
      && match k
         case Byte => r == Ok([single]) && Advanced(pos0, stack0, remaining0, 0)
         case ListKind => r == Err(ExpectedString)
         case String =>
           && (r.Ok? <==> (stack0 != [] ==> n <= stack0[|stack0| - 1]) && (limited ==> n <= remaining0)
                          && pos0 + n <= |input| && !(n == 1 && input[pos0] < 128))
           && (r.Ok? ==> Advanced(pos0, stack0, remaining0, n) && r.value == input[pos0..pos])
    }

    /** List, whether or not the tag of the value ahead is known. The enclosing counter loses the size of the list in 64-bit arithmetic. */
    method List() returns (r: Result<uint64>)
      requires Valid()
      modifies this
      ensures Valid()
      ensures old(kind.Some?) ==> pos == old(pos) && remaining == old(remaining)
      ensures old(kind.Some? && kinderr.Some?) ==> unchanged(this) && r == Err(kinderr.value)
      ensures old(kind.Some? && kinderr.None?) ==>
                if old(kind.value.ListKind?) then
                  r == Ok(old(size)) && kind.None? && stack == Consume(old(stack), old(size)) + [old(size)]
                else
                  unchanged(this) && r == Err(ExpectedList)
      ensures old(kind.None? && AtListEnd()) ==> unchanged(this) && r == Err(EOL)
      ensures old(kind.None? && !AtListEnd()) ==>
                && (r.Ok? <==> old(NextTag().Some? && Admits(NextTag().value) && NextTag().value.kind.ListKind?))
                && (r.Err? ==> r.error != EOL)
                && (r.Ok? ==>
                      var t := old(NextTag().value);
                      && r.value == t.size && kind.None? && pos == old(pos) + t.len
                      && stack == Consume(Consume(old(stack), t.len), t.size) + [t.size])
    {
      hide ReadTag;
      var k, n, err := Kind();
      if err.Some? { return Err(err.value); }
      if !k.ListKind? { return Err(ExpectedList); }
      if stack != [] {
        stack := stack[|stack| - 1 := Sub64(stack[|stack| - 1], n)];
      }
      stack := stack + [n];
      kind, size := None, 0;
      return Ok(n);
    }

    method ListEnd() returns (err: Option<Error>)
      requires Valid()
      modifies this
      ensures Valid() && pos == old(pos) && remaining == old(remaining)
      ensures err.None? <==> old(AtListEnd())
      ensures err.None? ==> kind.None? && stack == old(stack)[..|old(stack)| - 1]
      ensures err.Some? ==> unchanged(this) && err.value in {NotInList, NotAtEOL}
    {
      if stack == [] { return Some(NotInList); }
      if stack[|stack| - 1] > 0 { return Some(NotAtEOL); }
      stack := stack[..|stack| - 1];
      kind, size := None, 0;
      return None;
    }

    /** The next bytes are e and the limits allow reading them. */
    ghost predicate Expects(e: seq<byte>)
      requires Valid()
      reads this
    {
      pos + |e| <= |input| && input[pos..pos + |e|] == e && Allowed(|e|)
    }

    /** Since the given state exactly the bytes e have been read. */
    ghost predicate Took(e: seq<byte>, pos0: nat, stack0: seq<uint64>, remaining0: uint64)
      requires Valid()
      reads this
    {
      Advanced(pos0, stack0, remaining0, |e|) && input[pos0..pos] == e && kind.None?
    }

    /** decodeInterface. What is accepted is an encoding of the result, whatever the list
        counters did; and an encoding that the limits allow is accepted. */
    method DecodeInterface(ghost want: Option<Value>) returns (r: Result<Value>)
      requires Valid() && kind.None?
      modifies this
      ensures Valid()
      ensures r == Err(EOL) <==> old(AtListEnd())
      ensures r == Err(EOL) ==> unchanged(this)
      ensures r.Ok? ==> Took(Encode(r.value), old(pos), old(stack), old(remaining))
      ensures want.Some? && old(Expects(Encode(want.value))) ==> r == Ok(want.value)
      decreases |input| - pos, 0
    {
      hide Encode, ReadTag, TagBytes;
      ghost var expected := want.Some? && Expects(Encode(want.value));
      ghost var s := input[pos..];
      if expected {
        ExpectedTag(want.value, s);
        ReadTagSound(s);
      }
      var k, n, err := Kind();
      if err.Some? { return Err(err.value); }
      ghost var tag := ReadTag(s).value;
      ReadTagSound(s);
      assert s[..tag.len] == input[old(pos)..pos];
      if k.ListKind? {
        r := DecodeList(tag, s, want, old(stack), old(remaining));
      } else {
        r := DecodeString(tag, s, want, old(stack), old(remaining));
      }
    }

    /** Kind has read the tag t at the front of s, which was all there was left to read. */
    ghost predicate AfterTag(t: Tag, s: seq<byte>, stack0: seq<uint64>, remaining0: uint64)
      reads this
    {
      && Valid() && kind == Some(t.kind) && size == t.size && kinderr.None?
      && 1 <= t.len <= pos && s == input[pos - t.len..]
      && ReadTag(s) == Some(t) && s[..t.len] == TagBytes(t, s[0])
      && Advanced(pos - t.len, stack0, remaining0, t.len)
      && (stack0 != [] ==> t.len <= stack0[|stack0| - 1])
    }

    lemma ContentAhead(tag: Tag, s: seq<byte>, v: Value, stack0: seq<uint64>, remaining0: uint64)
      requires AfterTag(tag, s, stack0, remaining0) && Expected(Encode(v), s, stack0, remaining0, limited)
      ensures Expects(Content(v)) && tag.size == |Content(v)|
      ensures tag.kind == (if v.List? then ListKind else if EncodesAsItself(v) then Byte else String)
      ensures EncodesAsItself(v) ==> v.b == [s[0]]
    {
      hide Encode, ReadTag, TagBytes, Content, EncodesAsItself, Consume;
      ExpectedTag(v, s);
      assert Allowed(tag.size) by {
        if stack0 != [] { ConsumeTop(stack0, tag.len); }
      }
      assert input[pos..pos + tag.size] == Content(v) by {
        SliceOfSuffix(input, pos - tag.len, tag.len, |Encode(v)|);
      }
    }

    method DecodeList(ghost tag: Tag, ghost s: seq<byte>, ghost want: Option<Value>,
                      ghost stack0: seq<uint64>, ghost remaining0: uint64) returns (r: Result<Value>)
      requires AfterTag(tag, s, stack0, remaining0) && tag.kind.ListKind?
      modifies this
      ensures Valid()
      ensures r != Err(EOL)
      ensures r.Ok? ==> Took(Encode(r.value), old(pos) - tag.len, stack0, remaining0)
      ensures want.Some? && Expected(Encode(want.value), s, stack0, remaining0, limited) ==> r == Ok(want.value)
      decreases |input| - pos, 3
    {
      hide Encode, ReadTag, TagBytes, Expected;
      ghost var expected := want.Some? && Expected(Encode(want.value), s, stack0, remaining0, limited);
      if expected { ContentAhead(tag, s, want.value, stack0, remaining0); }
      ghost var mid := pos;
      var items := DecodeListSlice(if expected then Some(want.value.items) else None);
      if items.Err? { return Err(items.error); }
      hide Consume;
      EncodeOfList(tag, s[0], items.value);
      TookBoth(s[..tag.len], EncodeAll(items.value), mid - tag.len, stack0, remaining0);
      return Ok(Value.List(items.value));
    }

    method DecodeString(ghost tag: Tag, ghost s: seq<byte>, ghost want: Option<Value>,
                       ghost stack0: seq<uint64>, ghost remaining0: uint64) returns (r: Result<Value>)
      requires AfterTag(tag, s, stack0, remaining0) && !tag.kind.ListKind? && (tag.kind.Byte? ==> byteval == s[0])
      modifies this
      ensures Valid()
      ensures r != Err(EOL)
      ensures r.Ok? ==> Took(Encode(r.value), old(pos) - tag.len, stack0, remaining0)
      ensures want.Some? && Expected(Encode(want.value), s, stack0, remaining0, limited) ==> r == Ok(want.value)
    {
      hide Encode, ReadTag, TagBytes, Expected, Content, EncodesAsItself, Consume, NextTag, StringAhead;
      ReadTagSound(s);
      ghost var expected := want.Some? && Expected(Encode(want.value), s, stack0, remaining0, limited);
      if expected {
        ContentAhead(tag, s, want.value, stack0, remaining0);
        BytesOfContent(want.value);
      }
      ghost var mid := pos;
      var b := Bytes();
      if b.Err? { return Err(b.error); }
      assert expected ==> b.value == want.value.b by {
        if expected { BytesOfContent(want.value); }
      }
      EncodeOfBytes(tag, s[0], b.value);
      ghost var content := if tag.kind.Byte? then [] else b.value;
      assert Took(content, mid, old(stack), old(remaining));
      TookBoth(s[..tag.len], content, mid - tag.len, stack0, remaining0);
      return Ok(Value.Bytes(b.value));
    }

    /** Reading `first` and then `second` is reading the two together. */
    lemma TookBoth(first: seq<byte>, second: seq<byte>, pos0: nat, stack0: seq<uint64>, remaining0: uint64)
      requires Valid() && pos0 + |first| <= |input| && input[pos0..pos0 + |first|] == first
      requires limited ==> |first| <= remaining0
      requires Took(second, pos0 + |first|, Consume(stack0, |first|), if limited then remaining0 - |first| else remaining0)
      ensures Took(first + second, pos0, stack0, remaining0)
    {
      hide Consume;
      ConsumeTwice(stack0, |first|, |second|);
      Join(input, pos0, pos0 + |first|, pos);
    }

    /** decodeListSlice, after Kind has announced a list. */
    method DecodeListSlice(ghost want: Option<seq<Value>>) returns (r: Result<seq<Value>>)
      requires Valid() && kind == Some(ListKind) && kinderr != Some(EOL)
      modifies this
      ensures Valid()
      ensures r.Err? ==> r.error != EOL
      ensures r.Ok? ==> |EncodeAll(r.value)| == old(size) && Took(EncodeAll(r.value), old(pos), old(stack), old(remaining))
      ensures want.Some? && old(kinderr.None? && Expects(EncodeAll(want.value))) && |EncodeAll(want.value)| == old(size)
              ==> r == Ok(want.value)
      decreases |input| - pos, 2
    {
      hide ReadTag, NextTag, Admits;
      var n := List();
      if n.Err? { return Err(n.error); }
      ghost var inner := stack;
      r := Ok([]);
      if n.value != 0 {
        r := DecodeSliceElems(want);
        if r.Err? { return; }
      } else {
        ConsumeNothing(inner);
        if want.Some? { EncodeAllEmpty(want.value); }
      }
      var err := ListEnd();
      ListCounter(old(stack), n.value, pos - old(pos));
      if err.Some? { return Err(err.value); }
    }

    /** decodeSliceElems: elements until the end of the list. */
    method DecodeSliceElems(ghost want: Option<seq<Value>>) returns (r: Result<seq<Value>>)
      requires Valid() && kind.None? && stack != []
      modifies this
      ensures Valid()
      ensures r.Err? ==> r.error != EOL
      ensures r.Ok? ==> Took(EncodeAll(r.value), old(pos), old(stack), old(remaining))
      ensures want.Some? && old(Expects(EncodeAll(want.value))) && |EncodeAll(want.value)| == old(stack[|stack| - 1])
              ==> r == Ok(want.value)
      decreases |input| - pos, 1
    {
      hide Encode, EncodeAll, Consume;
      var items := [];
      EncodeAllOfNone();
      ConsumeNothing(stack);
      ghost var expected := want.Some? && Expects(EncodeAll(want.value))
                            && |EncodeAll(want.value)| == stack[|stack| - 1];
      assert expected ==> want.value[0..] == want.value;
      while true
        invariant Valid() && stack != []
        invariant Took(EncodeAll(items), old(pos), old(stack), old(remaining))
        invariant expected ==> items <= want.value && ExpectsList(want.value[|items|..])
        decreases |input| - pos
      {
        ghost var more := if expected then want.value[|items|..] else [];
        if more != [] {
          FirstOfMany(input, pos, more);
          ConsumeTop(stack, |Encode(more[0])|);
        }
        ghost var next := if more != [] then Some(more[0]) else None;
        var v := DecodeInterface(next);
        if v == Err(EOL) {
          assert expected ==> items == want.value;
          break;
        }
        if v.Err? { return Err(v.error); }
        EncodeNonEmpty(v.value);
        EncodeAllSnoc(items, v.value);
        TookBoth(EncodeAll(items), Encode(v.value), old(pos), old(stack), old(remaining));
        items := items + [v.value];
        assert expected ==> want.value[|items|..] == more[1..];
      }
      return Ok(items);
    }

    /** The rest of the current list is the encodings of vs. */
    ghost predicate ExpectsList(vs: seq<Value>)
      requires Valid()
      reads this
    {
      Expects(EncodeAll(vs)) && stack != [] && |EncodeAll(vs)| == stack[|stack| - 1]
    }
  }

  lemma SliceOfSuffix<T>(s: seq<T>, a: nat, i: nat, j: nat)
    requires i <= j && a + j <= |s|
    ensures s[a..][i..j] == s[a + i..a + j]
  {
  }

  /** The first bytes of s are e, and the limits in front of s allow reading them. */
  ghost predicate Expected(e: seq<byte>, s: seq<byte>, stack: seq<uint64>, remaining: uint64, limited: bool) {
    && |e| <= |s| <= MAX_INT && s[..|e|] == e
    && (stack != [] ==> |e| <= stack[|stack| - 1])
    && (limited ==> |e| <= remaining)
  }

  lemma BytesOfContent(v: Value)
    ensures v.Bytes? && !EncodesAsItself(v) ==> Content(v) == v.b && !(|v.b| == 1 && v.b[0] < 128)
    ensures EncodesAsItself(v) ==> v.Bytes? && Content(v) == []
  {
  }

  lemma EncodeAllOfNone()
    ensures EncodeAll([]) == []
  {
  }

  lemma {:induction false} FirstOfMany(input: seq<byte>, pos: nat, vs: seq<Value>)
    requires vs != [] && pos + |EncodeAll(vs)| <= |input|
    requires input[pos..pos + |EncodeAll(vs)|] == EncodeAll(vs)
    ensures var n, all := |Encode(vs[0])|, |EncodeAll(vs)|;
            && 1 <= n && n + |EncodeAll(vs[1..])| == all
            && input[pos..pos + n] == Encode(vs[0])
            && input[pos + n..pos + all] == EncodeAll(vs[1..])
  {
    hide Encode;
    EncodeNonEmpty(vs[0]);
    var n, s := |Encode(vs[0])|, EncodeAll(vs);
    assert s[..n] == Encode(vs[0]) && s[n..] == EncodeAll(vs[1..]);
    assert input[pos..pos + n] == input[pos..pos + |s|][..n];
    assert input[pos + n..pos + |s|] == input[pos..pos + |s|][n..];
  }

  lemma {:induction false} ExpectedTag(v: Value, s: seq<byte>)
    requires |Encode(v)| < TWO_64 && |Encode(v)| <= |s| && s[..|Encode(v)|] == Encode(v)
    ensures var t := ReadTag(s);
            && t.Some? && t.value.size == |Content(v)| && t.value.len + t.value.size == |Encode(v)|
            && s[t.value.len..|Encode(v)|] == Content(v)
            && t.value.kind == (if v.List? then ListKind else if EncodesAsItself(v) then Byte else String)
            && (EncodesAsItself(v) ==> v.b == [s[0]])
  {
    hide ReadTag, Encode;
    ReadTagOfEncode(v, s[|Encode(v)|..]);
    assert s == Encode(v) + s[|Encode(v)|..];
    if EncodesAsItself(v) { SingleByte(v); }
  }

  lemma {:induction false} EncodeOfBytes(t: Tag, first: byte, b: seq<byte>)
    requires !t.kind.ListKind?
    requires t.kind.Byte? ==> first < 0x80 && b == [first]
    requires t.kind.String? ==> |b| == t.size && !(|b| == 1 && b[0] < 128)
    ensures TagBytes(t, first) + (if t.kind.Byte? then [] else b) == Encode(Value.Bytes(b))
  {
  }

  lemma {:induction false} EncodeOfList(t: Tag, first: byte, items: seq<Value>)
    requires t.kind.ListKind? && |EncodeAll(items)| == t.size
    ensures TagBytes(t, first) + EncodeAll(items) == Encode(Value.List(items))
  {
  }

  lemma {:induction false} EncodeAllEmpty(vs: seq<Value>)
    ensures EncodeAll(vs) == [] ==> vs == []
  {
    if vs != [] { EncodeNonEmpty(vs[0]); }
  }

  /** Opening a list of size n, consuming c bytes of it and closing it again succeeds
      only if c is n, and then leaves the enclosing counter short of n bytes. */
  lemma {:induction false} ListCounter(stack: seq<uint64>, n: uint64, c: uint64)
    ensures var inner := Consume(Consume(stack, n) + [n], c);
            && inner[..|inner| - 1] == Consume(stack, n)
            && (inner[|inner| - 1] == 0 <==> c == n)
  {
    CounterZero(n, c);
  }

  lemma FromBigEndianOfZero(s: seq<byte>)
    requires |s| == 1 && s[0] == 0
    ensures FromBigEndian(s) == 0
  {
    assert s[..0] == [];
  }

  lemma {:induction false} EncodeInjective(u: Value, v: Value)
    requires Encode(u) == Encode(v) && |Encode(u)| < TWO_64
    ensures u == v
  {
    PrefixFree(u, v, [], []);
  }

  /** DecodeBytes accepts exactly the encodings, and returns the value encoded. */
  method DecodeBytes(b: seq<byte>) returns (r: Result<Value>)
    requires |b| <= MAX_INT
    ensures r.Ok? ==> Encode(r.value) == b
    ensures forall v :: Encode(v) == b ==> r == Ok(v)
  {
    hide Encode;
    ghost var want := if exists v :: Encode(v) == b then var v :| Encode(v) == b; Some(v) else None;
    forall v | Encode(v) == b ensures want == Some(v) { EncodeInjective(v, want.value); }
    var stream := new Stream(b, |b|);
    assert b[..|b|] == b && b[0..] == b;
    r := stream.DecodeInterface(want);
    if r.Err? { return; }
    if |b| - stream.pos > 0 { return Err(MoreThanOneValue); }
  }
}
