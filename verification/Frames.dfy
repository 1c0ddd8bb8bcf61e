/** The frame assembler of tcpip/peerHandle.go: length-delimited messages out of a byte
    stream that arrives in arbitrary chunks. */
module Frames {
  import opened Basics
  import opened Wire

  const HEADER_LEN := 8

  /** Four marker bytes and the size cap of the topic. */
  datatype Format = Format(marker: seq<byte>, cap: nat) {
    predicate Valid() { |marker| == 4 && cap < TWO_32 }
  }

  function EncodeFrame(f: Format, body: seq<byte>): seq<byte> {
    f.marker + PutUint32(|body|) + body
  }

  datatype State = State(buf: seq<byte>, skip: nat, broken: bool)

  /** What a piece of input produces: messages, whether a violation was seen, and the state
      it leaves behind. */
  datatype Output = Output(payloads: seq<seq<byte>>, violation: bool, state: State)

  function After(payload: seq<seq<byte>>, violation: bool, rest: Output): Output {
    Output(payload + rest.payloads, violation || rest.violation, rest.state)
  }

  /** Taking frames off a buffer as long as they are complete. */
  function Drain(f: Format, buf: seq<byte>): Output
    requires f.Valid()
    decreases |buf|
  {
    if |buf| < HEADER_LEN then Output([], false, State(buf, 0, false))
    else if buf[..4] != f.marker then Output([], true, State([], 0, true))
    else
      var size := Uint32(buf[4..HEADER_LEN]);
      var rest := buf[HEADER_LEN..];
      if size > f.cap then
        if size >= |rest| then Output([], true, State([], size - |rest|, false))
        else After([], true, Drain(f, rest[size..]))
      else if size == 0 then After([], true, Drain(f, rest))
      else if |rest| < size then Output([], false, State(buf, 0, false))
      else After([rest[..size]], false, Drain(f, rest[size..]))
  }

  /** One chunk of input to a state. */
  function Feed(f: Format, s: State, r: seq<byte>): Output
    requires f.Valid()
  {
    if s.broken then Output([], true, s)
    else if s.skip > |r| then Output([], false, s.(skip := s.skip - |r|))
    else Drain(f, s.buf + r[s.skip..])
  }

  /** The states that Drain leaves behind: nothing more can be taken off the buffer, it is
      bounded, and while bytes are being skipped nothing is buffered. */
  predicate Settled(f: Format, s: State)
    requires f.Valid()
  {
    && (s.broken || s.skip > 0 ==> s.buf == []) && !(s.broken && s.skip > 0)
    && |s.buf| < HEADER_LEN + f.cap
    && Drain(f, s.buf) == Output([], false, State(s.buf, 0, false))
  }

  lemma {:induction false} DrainSettles(f: Format, buf: seq<byte>)
    requires f.Valid()
    ensures Settled(f, Drain(f, buf).state)
    ensures Drain(f, buf).state.broken ==> Drain(f, buf).violation
    decreases |buf|
  {
    if |buf| >= HEADER_LEN && buf[..4] == f.marker {
      var size := Uint32(buf[4..HEADER_LEN]);
      var rest := buf[HEADER_LEN..];
      if size > f.cap {
        if size < |rest| { DrainSettles(f, rest[size..]); }
      } else if size == 0 {
        DrainSettles(f, rest);
      } else if |rest| >= size {
        DrainSettles(f, rest[size..]);
      }
    }
  }

  lemma {:induction false} FeedSettles(f: Format, s: State, r: seq<byte>)
    requires f.Valid() && Settled(f, s)
    ensures Settled(f, Feed(f, s, r).state)
    ensures Feed(f, s, r).state.broken ==> Feed(f, s, r).violation
  {
    if !s.broken && s.skip <= |r| { DrainSettles(f, s.buf + r[s.skip..]); }
  }

  /** One frame off the front of a buffer, if it is complete there. */
  datatype Front = Short | Bad | Overlong(left: nat) | Dropped(next: seq<byte>) | Message(body: seq<byte>, next: seq<byte>)

  function TakeFront(f: Format, buf: seq<byte>): (r: Front)
    requires f.Valid()
    ensures r.Dropped? || r.Message? ==> |r.next| < |buf|
  {
    if |buf| < HEADER_LEN then Short
    else if buf[..4] != f.marker then Bad
    else
      var size := Uint32(buf[4..HEADER_LEN]);
      var rest := buf[HEADER_LEN..];
      if size > f.cap then (if size >= |rest| then Overlong(size - |rest|) else Dropped(rest[size..]))
      else if size == 0 then Dropped(rest)
      else if |rest| < size then Short
      else Message(rest[..size], rest[size..])
  }

  lemma {:induction false} DrainFront(f: Format, buf: seq<byte>)
    requires f.Valid()
    ensures Drain(f, buf) ==
            match TakeFront(f, buf)
            case Short => Output([], false, State(buf, 0, false))
            case Bad => Output([], true, State([], 0, true))
            case Overlong(left) => Output([], true, State([], left, false))
            case Dropped(next) => After([], true, Drain(f, next))
            case Message(body, next) => After([body], false, Drain(f, next))
  {
    hide Uint32;
  }

  /** More input behind a complete front leaves the front as it is. */
  lemma {:induction false} FrontSplit(f: Format, x: seq<byte>, y: seq<byte>)
    requires f.Valid()
    ensures var r := TakeFront(f, x);
            match r
            case Short => true
            case Bad => TakeFront(f, x + y).Bad?
            case Overlong(left) =>
              TakeFront(f, x + y) == if left >= |y| then Overlong(left - |y|) else Dropped(y[left..])
            case Dropped(next) => TakeFront(f, x + y) == Dropped(next + y)
            case Message(body, next) => TakeFront(f, x + y) == Message(body, next + y)
  {
    hide Uint32;
    if |x| >= HEADER_LEN {
      var z := x + y;
      assert z[..4] == x[..4] && z[4..HEADER_LEN] == x[4..HEADER_LEN];
      if x[..4] == f.marker {
        var size := Uint32(x[4..HEADER_LEN]);
        var rest := x[HEADER_LEN..];
        assert z[HEADER_LEN..] == rest + y;
        if size <= |rest| {
          assert (rest + y)[..size] == rest[..size] && (rest + y)[size..] == rest[size..] + y;
        } else if size < |rest| + |y| {
          assert (rest + y)[size..] == y[size - |rest|..];
        }
      }
    }
  }

  /** Input that comes later continues where the buffer was left. */
  lemma {:induction false} DrainSplit(f: Format, x: seq<byte>, y: seq<byte>)
    requires f.Valid()
    ensures var first := Drain(f, x);
            Drain(f, x + y) == After(first.payloads, first.violation, Feed(f, first.state, y))
    decreases |x|
  {
    hide TakeFront, Drain;
    DrainFront(f, x);
    DrainFront(f, x + y);
    FrontSplit(f, x, y);
    assert y[0..] == y;
    match TakeFront(f, x)
    case Short =>
    case Bad =>
    case Overlong(left) =>
      DrainFront(f, []);
      FrontOfNothing(f);
      if left <= |y| { assert [] + y[left..] == y[left..]; }
    case Dropped(next) =>
      DrainSplit(f, next, y);
    case Message(body, next) =>
      DrainSplit(f, next, y);
  }

  lemma FrontOfNothing(f: Format)
    requires f.Valid()
    ensures TakeFront(f, []).Short?
  {
  }

  // ---------------------------------------------------------------- any way of cutting the stream

  /** Two chunks are as good as their concatenation. */
  lemma {:induction false} FeedTwice(f: Format, s: State, a: seq<byte>, b: seq<byte>)
    requires f.Valid() && Settled(f, s)
    ensures var first := Feed(f, s, a);
            Feed(f, s, a + b) == After(first.payloads, first.violation, Feed(f, first.state, b))
  {
    hide Drain;
    if s.broken {
    } else if s.skip > |a| {
      if s.skip <= |a| + |b| { assert (a + b)[s.skip..] == b[s.skip - |a|..]; }
    } else {
      DrainSplit(f, s.buf + a[s.skip..], b);
      assert (a + b)[s.skip..] == a[s.skip..] + b;
      Assoc(s.buf, a[s.skip..], b);
    }
  }

  function FeedAll(f: Format, s: State, chunks: seq<seq<byte>>): Output
    requires f.Valid()
    decreases |chunks|
  {
    if chunks == [] then Output([], false, s)
    else
      var first := Feed(f, s, chunks[0]);
      After(first.payloads, first.violation, FeedAll(f, first.state, chunks[1..]))
  }

  /** However a stream is cut into chunks, the messages, the verdict and the final state are
      those of one push of the whole. */
  lemma {:induction false} CutAnywhere(f: Format, s: State, chunks: seq<seq<byte>>)
    requires f.Valid() && Settled(f, s) && !s.broken
    ensures FeedAll(f, s, chunks) == Feed(f, s, Concat(chunks))
    decreases |chunks|
  {
    hide Drain;
    if chunks == [] {
      FeedNothing(f, s);
    } else {
      CutFrom(f, s, chunks);
    }
  }

  lemma {:induction false} CutFrom(f: Format, s: State, chunks: seq<seq<byte>>)
    requires f.Valid() && Settled(f, s) && chunks != []
    ensures FeedAll(f, s, chunks) == Feed(f, s, Concat(chunks))
    decreases |chunks|
  {
    hide Drain, Settled;
    var first := Feed(f, s, chunks[0]);
    FeedTwice(f, s, chunks[0], Concat(chunks[1..]));
    FeedSettles(f, s, chunks[0]);
    if |chunks| > 1 {
      CutFrom(f, first.state, chunks[1..]);
    } else {
      assert chunks[1..] == [] && Concat(chunks[1..]) == [] && chunks[0] + [] == chunks[0];
      assert FeedAll(f, first.state, chunks[1..]) == Output([], false, first.state);
    }
  }

  lemma {:induction false} FeedNothing(f: Format, s: State)
    requires f.Valid() && Settled(f, s) && !s.broken
    ensures Feed(f, s, []) == Output([], false, s)
  {
    if s.skip == 0 { assert s.buf + [][s.skip..] == s.buf; }
  }

  // ---------------------------------------------------------------- frames come back

  function Encoded(f: Format, bodies: seq<seq<byte>>): seq<byte> {
    if bodies == [] then [] else EncodeFrame(f, bodies[0]) + Encoded(f, bodies[1..])
  }

  lemma {:induction false} FrontOfFrame(f: Format, body: seq<byte>, rest: seq<byte>)
    requires f.Valid() && 0 < |body| <= f.cap
    ensures TakeFront(f, EncodeFrame(f, body) + rest) == Message(body, rest)
  {
    hide Uint32, PutUint32;
    var buf := EncodeFrame(f, body) + rest;
    Uint32RoundTrip(|body|);
    assert buf[..4] == f.marker && buf[4..HEADER_LEN] == PutUint32(|body|);
    assert buf[HEADER_LEN..] == body + rest;
    assert (body + rest)[..|body|] == body && (body + rest)[|body|..] == rest;
  }

  /** Bodies within the cap come back exactly, in order, without a violation, from a stream
      that is cut anywhere; an incomplete frame behind them is kept for later. */
  lemma {:induction false} FramesComeBack(f: Format, bodies: seq<seq<byte>>)
    requires f.Valid() && forall i :: 0 <= i < |bodies| ==> 0 < |bodies[i]| <= f.cap
    ensures Drain(f, Encoded(f, bodies)) == Output(bodies, false, State([], 0, false))
    decreases |bodies|
  {
    hide TakeFront, Drain;
    DrainFront(f, Encoded(f, bodies));
    if bodies == [] {
      FrontOfNothing(f);
    } else {
      FrontOfFrame(f, bodies[0], Encoded(f, bodies[1..]));
      FramesComeBack(f, bodies[1..]);
      assert [bodies[0]] + bodies[1..] == bodies;
    }
  }

  /** Exactly the empty bodies and those over the cap are lost, and they are reported. */
  lemma {:induction false} LostFrame(f: Format, body: seq<byte>)
    requires f.Valid() && |body| < TWO_32 && (|body| == 0 || |body| > f.cap)
    ensures Drain(f, EncodeFrame(f, body)) == Output([], true, State([], 0, false))
  {
    hide Uint32, PutUint32;
    var buf := EncodeFrame(f, body);
    Uint32RoundTrip(|body|);
    assert buf[..4] == f.marker && buf[4..HEADER_LEN] == PutUint32(|body|) && buf[HEADER_LEN..] == body;
  }

  // ---------------------------------------------------------------- the assembler

  lemma AfterTwice(p: seq<seq<byte>>, v: bool, q: seq<seq<byte>>, w: bool, out: Output)
    ensures After(p, v, After(q, w, out)) == After(p + q, v || w, out)
  {
    Assoc(p, q, out.payloads);
  }

  lemma AfterEnd(p: seq<seq<byte>>, v: bool, w: bool, s: State)
    ensures After(p, v, Output([], w, s)) == Output(p, v || w, s)
  {
  }

  class FrameAssembler {
    const format: Format
    var buf: seq<byte>
    var skip: nat
    var broken: bool

    function Value(): State
      reads this
    {
      State(buf, skip, broken)
    }

    ghost predicate Valid()
      reads this
    {
      format.Valid() && Settled(format, Value())
    }

    constructor (format: Format)
      requires format.Valid()
      ensures Valid() && this.format == format && Value() == State([], 0, false)
    {
      this.format := format;
      buf, skip, broken := [], 0, false;
    }

    /** push. The buffer never reaches header plus cap, and is empty while skipping. */
    method Push(r: seq<byte>) returns (payloads: seq<seq<byte>>, violation: bool)
      requires Valid()
      modifies this
      ensures Valid() && |buf| < HEADER_LEN + format.cap && (skip > 0 ==> buf == [])
      ensures Output(payloads, violation, Value()) == Feed(format, old(Value()), r)
    {
      hide Drain, Uint32, After, Settled;
      FeedSettles(format, Value(), r);
      SettledMeans(format, Feed(format, Value(), r).state);
      SettledMeans(format, Value());
      payloads, violation := [], false;
      if broken { return [], true; }
      ghost var all := Feed(format, Value(), r);
      var n := if skip < |r| then skip else |r|;
      skip := skip - n;
      buf := buf + r[n..];
      if skip > 0 {
        assert r[n..] == [];
        return;
      }
      AfterNothing(all);
      while |buf| >= HEADER_LEN
        invariant !broken && (skip > 0 ==> buf == [])
        invariant all == After(payloads, violation, if skip > 0 then Output([], false, Value()) else Drain(format, buf))
        decreases |buf|
      {
        DrainFront(format, buf);
        if buf[..4] != format.marker {
          AfterEnd(payloads, violation, true, State([], 0, true));
          broken, buf := true, [];
          return payloads, true;
        }
        var size := Uint32(buf[4..HEADER_LEN]);
        var rest := buf[HEADER_LEN..];
        if size > format.cap {
          OverlongStep(format, payloads, violation, buf, size);
          violation := true;
          var m := if size < |rest| then size else |rest|;
          skip := size - m;
          buf := rest[m..];
        } else if size == 0 {
          AfterTwice(payloads, violation, [], true, Drain(format, rest));
          assert payloads + [] == payloads;
          violation := true;
          buf := rest;
        } else if |rest| < size {
          break;
        } else {
          AfterTwice(payloads, violation, [rest[..size]], false, Drain(format, rest[size..]));
          payloads := payloads + [rest[..size]];
          buf := rest[size..];
        }
      }
      if skip == 0 { DrainFront(format, buf); }
      AfterEnd(payloads, violation, false, Value());
    }
  }

  lemma AfterNothing(out: Output)
    ensures After([], false, out) == out
  {
  }

  lemma SettledMeans(f: Format, s: State)
    requires f.Valid() && Settled(f, s)
    ensures (s.broken || s.skip > 0 ==> s.buf == []) && |s.buf| < HEADER_LEN + f.cap && !(s.broken && s.skip > 0)
  {
  }

  /** An over-long frame is counted off: what is there at once, the rest as it comes. */
  lemma {:induction false} OverlongStep(f: Format, payloads: seq<seq<byte>>, violation: bool, buf: seq<byte>, size: nat)
    requires f.Valid() && |buf| >= HEADER_LEN && buf[..4] == f.marker && size == Uint32(buf[4..HEADER_LEN]) > f.cap
    ensures var rest := buf[HEADER_LEN..];
            var m := if size < |rest| then size else |rest|;
            var next := if size > m then Output([], false, State(rest[m..], size - m, false)) else Drain(f, rest[m..]);
            After(payloads, violation, Drain(f, buf)) == After(payloads, true, next)
  {
    hide Uint32;
    var rest := buf[HEADER_LEN..];
    DrainFront(f, buf);
    if size < |rest| {
      AfterTwice(payloads, violation, [], true, Drain(f, rest[size..]));
      assert payloads + [] == payloads;
    } else {
      DrainFront(f, []);
      assert rest[|rest|..] == [];
    }
  }
}
