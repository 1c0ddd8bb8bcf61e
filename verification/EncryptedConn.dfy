/** The encrypted connection of tcpip/encryptedconn.go: one side cuts what it writes into
    sealed records, the other puts them together again from short reads and timeouts. The
    AEAD is a pair of functions, sealing and opening under a 64-bit counter; opening undoes
    sealing and sealing adds a tag of sixteen bytes (section 2.8 of RFC 8439). */
module EncryptedConn {
  import opened Basics
  import opened Wire

  const MAX_RECORD_PAYLOAD := 16 * 1024
  const OVERHEAD := 16

  datatype Aead = Aead(seal: (nat, seq<byte>) -> seq<byte>, open: (nat, seq<byte>) -> Option<seq<byte>>) {
    ghost predicate Correct() {
      forall n: nat, p: seq<byte> ::
        |seal(n, p)| == |p| + OVERHEAD && open(n, seal(n, p)) == Some(p)
    }
  }

  /** recordNonce: eight bytes of the counter. */
  function Nonce(ctr: nat): nat { ctr % TWO_64 }

  /** Header and ciphertext of the record that seals `chunk` under counter `ctr`. */
  function Record(a: Aead, ctr: nat, chunk: seq<byte>): seq<byte> {
    PutUint32(|a.seal(Nonce(ctr), chunk)|) + a.seal(Nonce(ctr), chunk)
  }

  /** The bytes that carry the first records. */
  function Stream(a: Aead, chunks: seq<seq<byte>>): seq<byte> {
    if chunks == [] then []
    else Stream(a, chunks[..|chunks| - 1]) + Record(a, |chunks| - 1, chunks[|chunks| - 1])
  }

  /** What Write cuts its argument into. */
  predicate ProperChunk(chunk: seq<byte>) {
    0 < |chunk| <= MAX_RECORD_PAYLOAD
  }

  predicate ProperChunks(chunks: seq<seq<byte>>) {
    forall i :: 0 <= i < |chunks| ==> ProperChunk(chunks[i])
  }

  lemma StreamSnoc(a: Aead, chunks: seq<seq<byte>>, chunk: seq<byte>)
    ensures Stream(a, chunks + [chunk]) == Stream(a, chunks) + Record(a, |chunks|, chunk)
  {
    assert (chunks + [chunk])[..|chunks|] == chunks;
  }

  /** A record that Write makes passes the length check of Read. */
  lemma RecordLength(a: Aead, ctr: nat, chunk: seq<byte>)
    requires a.Correct() && ProperChunk(chunk)
    ensures var ct := a.seal(Nonce(ctr), chunk);
            && OVERHEAD < |ct| <= MAX_RECORD_PAYLOAD + OVERHEAD
            && Uint32(PutUint32(|ct|)) == |ct|
            && a.open(Nonce(ctr), ct) == Some(chunk)
  {
    hide Uint32, PutUint32;
    var ct := a.seal(Nonce(ctr), chunk);
    assert |ct| == |chunk| + OVERHEAD && a.open(Nonce(ctr), ct) == Some(chunk);
    Uint32RoundTrip(|ct|);
  }

  // ---------------------------------------------------------------- writing

  class Writer {
    const aead: Aead
    var ctr: nat
    var sent: seq<byte>                  // what the raw connection accepted
    var failed: bool                     // a raw write has failed
    ghost var chunks: seq<seq<byte>>     // the plaintext of the records begun

    ghost predicate Valid()
      reads this
    {
      && aead.Correct() && ctr == |chunks| && ProperChunks(chunks)
      && (!failed ==> sent == Stream(aead, chunks))
    }

    constructor (aead: Aead)
      requires aead.Correct()
      ensures Valid() && this.aead == aead && chunks == [] && !failed
    {
      this.aead := aead;
      ctr, sent, failed, chunks := 0, [], false, [];
    }

    /** Write: records of at most 16 KiB, each under its own counter. `room` is how much the raw
        connection will still take before it fails, or None if it does not fail. What went out is
        a prefix of the records up to and including the first failure; after it, Write goes on
        with the next counter. */
    method Write(p: seq<byte>, room: Option<nat>) returns (total: nat, ok: bool)
      requires Valid()
      modifies this
      ensures Valid() && total <= |p|
      ensures old(chunks) <= chunks && Concat(chunks[|old(chunks)|..]) <= p && p[..total] <= Concat(chunks[|old(chunks)|..])
      ensures ok ==> failed == old(failed) && total == |p| && Concat(chunks[|old(chunks)|..]) == p
      ensures room.None? ==> ok
      ensures !old(failed) ==> sent <= Stream(aead, chunks)
    {
      hide Stream, Concat, Record;
      total, ok := 0, true;
      var rest, left := p, room;
      ghost var base := |chunks|;
      assert chunks[base..] == [] && Concat([]) == [] by { ConcatNone(); }
      while |rest| > 0
        invariant Valid() && failed == old(failed) && ok && total <= |p| && rest == p[total..]
        invariant base <= |chunks| && chunks[..base] == old(chunks)
        invariant Concat(chunks[base..]) == p[..total]
        invariant room.None? ==> left.None?
        decreases |rest|
      {
        var chunk := if |rest| > MAX_RECORD_PAYLOAD then rest[..MAX_RECORD_PAYLOAD] else rest;
        ConcatAppend(chunks[base..], [chunk]);
        ConcatOne(chunk);
        assert (chunks + [chunk])[base..] == chunks[base..] + [chunk];
        assert p[..total] + chunk == p[..total + |chunk|];
        ok, left := Emit(chunk, left);
        if !ok { return; }
        total, rest := total + |chunk|, rest[|chunk|..];
      }
    }

    /** One record: header and ciphertext, as far as the raw connection takes them. */
    method Emit(chunk: seq<byte>, room: Option<nat>) returns (ok: bool, left: Option<nat>)
      requires Valid() && ProperChunk(chunk)
      modifies this
      ensures Valid() && chunks == old(chunks) + [chunk] && failed == (old(failed) || !ok)
      ensures room.None? ==> ok && left.None?
      ensures !old(failed) ==> sent <= Stream(aead, chunks)
    {
      hide Stream, Record;
      var record := Record(aead, ctr, chunk);
      StreamSnoc(aead, chunks, chunk);
      ctr, chunks := ctr + 1, chunks + [chunk];
      if room.Some? && room.value < |record| {
        sent := sent + record[..room.value];
        failed := true;
        return false, None;
      }
      sent := sent + record;
      return true, if room.Some? then Some(room.value - |record|) else None;
    }
  }

  lemma ConcatNone()
    ensures Concat([]) == []
  {
  }

  // ---------------------------------------------------------------- reading

  datatype Error = Timeout | EOF | UnexpectedEOF | BadLength | DecryptFailed

  /** One answer of the raw connection: how many bytes at most, and an error besides. */
  datatype Answer = Answer(n: nat, err: Option<Error>)

  /** The record under way: its length and the ciphertext so far. */
  datatype Partial = Partial(need: nat, got: seq<byte>)

  /** Where record i begins. */
  ghost function Start(a: Aead, chunks: seq<seq<byte>>, i: nat): nat
    requires i <= |chunks|
  {
    |Stream(a, chunks[..i])|
  }

  lemma {:induction false} RecordAt(a: Aead, chunks: seq<seq<byte>>, i: nat)
    requires i < |chunks|
    ensures var s, r := Stream(a, chunks), Record(a, i, chunks[i]);
            && Start(a, chunks, i + 1) == Start(a, chunks, i) + |r| <= |s|
            && s[Start(a, chunks, i)..Start(a, chunks, i + 1)] == r
    decreases |chunks|
  {
    hide Record;
    var front := chunks[..|chunks| - 1];
    if i == |chunks| - 1 {
      assert chunks[..i + 1] == chunks && chunks[..i] == front;
    } else {
      RecordAt(a, front, i);
      assert front[..i] == chunks[..i] && front[..i + 1] == chunks[..i + 1];
      assert Stream(a, chunks)[..|Stream(a, front)|] == Stream(a, front);
    }
  }

  lemma StartAtEnd(a: Aead, chunks: seq<seq<byte>>)
    ensures Start(a, chunks, |chunks|) == |Stream(a, chunks)|
    ensures Start(a, chunks, 0) == 0
  {
    assert chunks[..|chunks|] == chunks && chunks[..0] == [];
  }

  /** The records that opened, in order, all before `ctr`. */
  ghost predicate InOrder(good: seq<nat>, ctr: nat, count: nat) {
    && (forall i, j :: 0 <= i < j < |good| ==> good[i] < good[j])
    && (forall i :: 0 <= i < |good| ==> good[i] < ctr && good[i] < count)
  }

  /** What those records carry. */
  ghost function Picked(chunks: seq<seq<byte>>, good: seq<nat>): seq<byte>
    requires forall i :: 0 <= i < |good| ==> good[i] < |chunks|
  {
    if good == [] then [] else Picked(chunks, good[..|good| - 1]) + chunks[good[|good| - 1]]
  }

  lemma {:induction false} PickedNext(chunks: seq<seq<byte>>, good: seq<nat>, ctr: nat)
    requires InOrder(good, ctr, |chunks|) && ctr < |chunks|
    ensures InOrder(good + [ctr], ctr + 1, |chunks|)
    ensures Picked(chunks, good + [ctr]) == Picked(chunks, good) + chunks[ctr]
  {
    assert (good + [ctr])[..|good|] == good;
  }

  /** Nothing has opened after a record that did not. */
  predicate Unbroken(good: seq<nat>) {
    good == [] || good[|good| - 1] == |good| - 1
  }

  lemma {:induction false} AtLeastIndex(good: seq<nat>, k: nat)
    requires k < |good| && forall i, j :: 0 <= i < j < |good| ==> good[i] < good[j]
    ensures good[k] >= k
  {
    if k > 0 { AtLeastIndex(good, k - 1); }
  }

  /** The records that opened are then the first ones, and only then. */
  lemma {:induction false} UnbrokenMeans(good: seq<nat>, ctr: nat, count: nat)
    requires InOrder(good, ctr, count)
    ensures Unbroken(good) <==> forall i :: 0 <= i < |good| ==> good[i] == i
    ensures good != [] && Unbroken(good) ==> Unbroken(good[..|good| - 1])
  {
    if good != [] {
      var front := good[..|good| - 1];
      AtLeastIndex(good, |good| - 1);
      UnbrokenMeans(front, ctr, count);
      if Unbroken(good) && front != [] {
        AtLeastIndex(good, |front| - 1);
      }
      assert forall i :: 0 <= i < |front| ==> good[i] == front[i];
    }
  }

  /** What they carry is then what was written first. */
  lemma {:induction false} FirstOpened(chunks: seq<seq<byte>>, good: seq<nat>, ctr: nat)
    requires InOrder(good, ctr, |chunks|) && Unbroken(good)
    ensures |good| <= |chunks| && Picked(chunks, good) == Concat(chunks[..|good|])
    decreases |good|
  {
    var n := |good|;
    UnbrokenMeans(good, ctr, |chunks|);
    if n == 0 {
      assert chunks[..0] == [];
    } else {
      FirstOpened(chunks, good[..n - 1], ctr);
      ConcatNext(chunks, n - 1);
    }
  }

  lemma ConcatNext(chunks: seq<seq<byte>>, i: nat)
    requires i < |chunks|
    ensures Concat(chunks[..i + 1]) == Concat(chunks[..i]) + chunks[i]
  {
    hide Concat;
    assert chunks[..i + 1] == chunks[..i] + [chunks[i]];
    ConcatAppend(chunks[..i], [chunks[i]]);
    ConcatOne(chunks[i]);
  }

  lemma ConcatFirst(chunks: seq<seq<byte>>, i: nat)
    requires i <= |chunks|
    ensures Concat(chunks[..i]) <= Concat(chunks)
  {
    assert chunks == chunks[..i] + chunks[i..];
    ConcatAppend(chunks[..i], chunks[i..]);
  }

  lemma {:induction false} PickedFirst(chunks: seq<seq<byte>>, good: seq<nat>, i: nat)
    requires i <= |good| && forall j :: 0 <= j < |good| ==> good[j] < |chunks|
    ensures Picked(chunks, good[..i]) <= Picked(chunks, good)
    decreases |good|
  {
    if i == |good| {
      assert good[..i] == good;
    } else {
      var front := good[..|good| - 1];
      PickedFirst(chunks, front, i);
      assert front[..i] == good[..i];
    }
  }

  /** The first record that stands where another should. */
  lemma {:induction false} FirstGap(good: seq<nat>, ctr: nat, count: nat) returns (i: nat)
    requires InOrder(good, ctr, count) && !Unbroken(good)
    ensures i < |good| && i < good[i] && Unbroken(good[..i])
  {
    var front := good[..|good| - 1];
    AtLeastIndex(good, |good| - 1);
    if Unbroken(front) {
      i := |good| - 1;
    } else {
      i := FirstGap(front, ctr, count);
      assert front[..i] == good[..i];
    }
  }

  /** If it begins with another byte, what has been read is no prefix of what was written. */
  lemma {:induction false} GapShows(chunks: seq<seq<byte>>, good: seq<nat>, ctr: nat, i: nat)
    requires ProperChunks(chunks) && InOrder(good, ctr, |chunks|)
    requires i < |good| && i < good[i] && Unbroken(good[..i]) && chunks[i][0] != chunks[good[i]][0]
    ensures !(Picked(chunks, good) <= Concat(chunks))
  {
    hide Concat, Unbroken;
    FirstOpened(chunks, good[..i], ctr);
    ConcatNext(chunks, i);
    ConcatFirst(chunks, i + 1);
    PickedFirst(chunks, good, i + 1);
    assert good[..i + 1][..i] == good[..i];
    var n := |Concat(chunks[..i])|;
    assert Picked(chunks, good[..i + 1])[n] == chunks[good[i]][0];
    assert Concat(chunks[..i + 1])[n] == chunks[i][0];
  }

  /** No record begins like the one that is read in its place. */
  predicate TellApart(chunks: seq<seq<byte>>, good: seq<nat>)
    requires ProperChunks(chunks) && forall j :: 0 <= j < |good| ==> good[j] < |chunks|
  {
    forall i :: 0 <= i < |good| && i < good[i] ==> chunks[i][0] != chunks[good[i]][0]
  }

  /** What has been read is a prefix of what was written exactly when nothing has opened after a
      record that did not. */
  lemma {:induction false} PrefixExactly(chunks: seq<seq<byte>>, good: seq<nat>, ctr: nat)
    requires ProperChunks(chunks) && InOrder(good, ctr, |chunks|) && TellApart(chunks, good)
    ensures Picked(chunks, good) <= Concat(chunks) <==> Unbroken(good)
  {
    hide Concat, Picked;
    if Unbroken(good) {
      FirstOpened(chunks, good, ctr);
      ConcatFirst(chunks, |good|);
    } else {
      var i := FirstGap(good, ctr, |chunks|);
      GapShows(chunks, good, ctr, i);
    }
  }

  /** Whatever was written, that is: only then is it so for every content. */
  lemma {:induction false} PrefixForAllContents(good: seq<nat>, ctr: nat, count: nat)
    requires InOrder(good, ctr, count)
    ensures Unbroken(good) <==>
            forall chunks :: |chunks| == count && ProperChunks(chunks) ==> Picked(chunks, good) <= Concat(chunks)
  {
    hide Concat, Picked;
    if Unbroken(good) {
      forall chunks: seq<seq<byte>> | |chunks| == count && ProperChunks(chunks) ensures Picked(chunks, good) <= Concat(chunks) {
        FirstOpened(chunks, good, ctr);
        ConcatFirst(chunks, |good|);
      }
    } else {
      var i := FirstGap(good, ctr, count);
      var chunks: seq<seq<byte>> := seq(count, j => if j == i then [0] else [1]);
      GapShows(chunks, good, ctr, i);
    }
  }

  /** What opened had been sealed under that nonce. */
  ghost predicate Genuine(a: Aead, chunks: seq<seq<byte>>, ctr: nat, ct: seq<byte>) {
    exists i :: 0 <= i < |chunks| && Nonce(i) == Nonce(ctr) && ct == a.seal(Nonce(ctr), chunks[i])
  }

  /** Before the counters wrap, the only genuine record under a counter is its own. */
  lemma OpensItsOwn(a: Aead, chunks: seq<seq<byte>>, ctr: nat, ct: seq<byte>)
    requires a.Correct() && |chunks| <= TWO_64 && ctr < TWO_64 && Genuine(a, chunks, ctr, ct)
    ensures ctr < |chunks| && a.open(Nonce(ctr), ct) == Some(chunks[ctr])
  {
    var i :| 0 <= i < |chunks| && Nonce(i) == Nonce(ctr) && ct == a.seal(Nonce(ctr), chunks[i]);
    assert i == ctr;
  }

  class Reader {
    const aead: Aead
    const wire: seq<byte>                 // all that will ever arrive, whoever sent it
    ghost const chunks: seq<seq<byte>>    // what the other side wrote
    var taken: nat                        // how much the raw connection has handed out
    var schedule: seq<Answer>             // how it will answer
    var ctr: nat
    var readBuf: seq<byte>
    var hdr: seq<byte>
    var ct: Option<Partial>
    ghost var delivered: seq<byte>        // all that Read has returned
    ghost var good: seq<nat>              // the records that opened
    ghost var failures: nat               // how many did not
    ghost var genuine: bool               // all that opened had been sealed under that nonce

    /** The cipher has not been forged and no nonce has come twice. */
    ghost predicate Trusted()
      reads this
    {
      genuine && |chunks| <= TWO_64 && ctr <= TWO_64
    }

    /** What holds of any wire. */
    ghost predicate Valid()
      reads this
    {
      && aead.Correct() && ProperChunks(chunks) && taken <= |wire| && |hdr| <= 4
      && (ct.Some? ==> hdr == [] && OVERHEAD < ct.value.need <= MAX_RECORD_PAYLOAD + OVERHEAD && |ct.value.got| <= ct.value.need)
      && |good| + failures == ctr
      && (Trusted() ==> InOrder(good, ctr, |chunks|) && delivered + readBuf == Picked(chunks, good))
    }

    /** What holds besides if the wire carries what the other side sent. */
    ghost predicate Honest()
      reads this
    {
      && wire <= Stream(aead, chunks) && taken <= |wire|
      && ctr <= |chunks| && Start(aead, chunks, ctr) <= taken
      && UnderWay()
      && delivered + readBuf == Concat(chunks[..ctr])
    }

    /** The bytes taken since the last complete record are kept, as header or ciphertext. */
    ghost predicate UnderWay()
      requires ctr <= |chunks| && Start(aead, chunks, ctr) <= taken <= |wire|
      reads `taken, `ctr, `hdr, `ct
    {
      var part := wire[Start(aead, chunks, ctr)..taken];
      if ct.None? then hdr == part && |hdr| <= 4
      else
        && ctr < |chunks| && hdr == []
        && ct.value.need == |aead.seal(Nonce(ctr), chunks[ctr])| && |ct.value.got| <= ct.value.need
        && part == PutUint32(ct.value.need) + ct.value.got
    }

    constructor (aead: Aead, ghost chunks: seq<seq<byte>>, wire: seq<byte>, schedule: seq<Answer>)
      requires aead.Correct() && ProperChunks(chunks)
      ensures Valid() && this.aead == aead && this.chunks == chunks && this.wire == wire && this.schedule == schedule
      ensures taken == 0 && ctr == 0 && readBuf == [] && hdr == [] && ct == None
      ensures delivered == [] && good == [] && failures == 0 && genuine
      ensures wire <= Stream(aead, chunks) ==> Honest()
    {
      this.aead, this.chunks, this.wire, this.schedule := aead, chunks, wire, schedule;
      taken, ctr, readBuf, hdr, ct := 0, 0, [], [], None;
      delivered, good, failures, genuine := [], [], 0, true;
      new;
      StartAtEnd(aead, chunks);
      assert chunks[..0] == [];
    }

    /** readMore: what has arrived is kept whatever happens. */
    method ReadMore(have: seq<byte>, need: nat) returns (buf: seq<byte>, err: Option<Error>)
      requires taken <= |wire| && |have| <= need
      modifies `taken, `schedule
      ensures old(taken) <= taken <= |wire|
      ensures buf == have + wire[old(taken)..taken] && |buf| <= need
      ensures err.None? ==> |buf| == need
      ensures err.Some? ==> err.value in {Timeout, EOF, UnexpectedEOF}
      ensures |have| < need && old(AtOnce(need - |have|)) ==> err.None? && schedule == old(schedule)[1..]
    {
      buf := have;
      assert wire[taken..taken] == [] && have + [] == have;
      while |buf| < need
        invariant old(taken) <= taken <= |wire|
        invariant buf == have + wire[old(taken)..taken] && |buf| <= need
        invariant (buf == have && taken == old(taken) && schedule == old(schedule))
                  || (old(AtOnce(need - |have|)) ==> |buf| == need && schedule == old(schedule)[1..])
        decreases |schedule|
      {
        if schedule == [] { return buf, Some(Timeout); }
        var answer := schedule[0];
        schedule := schedule[1..];
        var room := if need - |buf| < |wire| - taken then need - |buf| else |wire| - taken;
        var n := if answer.n < room then answer.n else room;
        Join(wire, old(taken), taken, taken + n);
        Assoc(have, wire[old(taken)..taken], wire[taken..taken + n]);
        buf := buf + wire[taken..taken + n];
        taken := taken + n;
        if answer.err.Some? {
          if answer.err.value.EOF? {
            if |buf| == need { return buf, None; }
            return buf, Some(if |buf| > 0 then UnexpectedEOF else EOF);
          }
          return buf, Some(Timeout);
        }
      }
      return buf, None;
    }

    /** The next answer brings the next `n` bytes, without an error. */
    ghost predicate AtOnce(n: nat)
      reads this
    {
      taken + n <= |wire| && |schedule| > 0 && schedule[0].err.None? && schedule[0].n >= n
    }

    /** The whole record that the next two answers bring, if they do. */
    ghost function Ahead(): (c: Option<seq<byte>>)
      reads this
      ensures c.Some? ==> readBuf == [] && hdr == [] && ct.None? && |schedule| > 1
    {
      if readBuf == [] && hdr == [] && ct.None? && AtOnce(4) && |schedule| > 1 then
        var n := Uint32(wire[taken..taken + 4]);
        if OVERHEAD < n <= MAX_RECORD_PAYLOAD + OVERHEAD && taken + 4 + n <= |wire| && schedule[1].err.None? && schedule[1].n >= n
        then Some(wire[taken + 4..taken + 4 + n]) else None
      else None
    }

    /** The header of c has been read and c comes at once. */
    ghost predicate Announced(c: seq<byte>)
      reads this
    {
      && ct == Some(Partial(|c|, [])) && hdr == [] && readBuf == []
      && AtOnce(|c|) && wire[taken..taken + |c|] == c
    }

    /** Read, on any wire and for every schedule of short reads and errors. Unless the cipher has
        been forged, what has been read is a prefix of what was written exactly as long as nothing
        has opened after a record that did not: a record that opens keeps it so exactly when none
        has failed before. On a wire that carries what was sent, every record opens. A record
        that is there is opened under the next counter, whatever came before it. */
    method Read(max: nat) returns (out: seq<byte>, err: Option<Error>)
      requires Valid()
      modifies this
      ensures Valid() && delivered == old(delivered) + out && |out| <= max
      ensures (err.Some? ==> out == []) && (readBuf == [] || |out| == max)
      ensures failures == old(failures) + (if err == Some(DecryptFailed) then 1 else 0)
      ensures good == if old(readBuf == []) && err.None? then old(good) + [old(ctr)] else old(good)
      ensures Unbroken(good) <==> if old(readBuf == []) && err.None? then failures == 0 else old(Unbroken(good))
      ensures Trusted() && Unbroken(good) ==> delivered <= delivered + readBuf <= Concat(chunks)
      ensures Trusted() && !Unbroken(good) && TellApart(chunks, good) ==> !(delivered + readBuf <= Concat(chunks))
      ensures old(Honest()) ==> Honest() && delivered <= Concat(chunks) && (err.Some? ==> err.value in {Timeout, EOF, UnexpectedEOF})
      ensures (old(Honest()) || Trusted()) && old(readBuf == []) && err.None? && max > 0 ==> out != []
      ensures old(readBuf) != [] ==> err.None? && out + readBuf == old(readBuf) && (max > 0 ==> out != [])
      ensures old(Ahead()).Some? ==>
                var c := old(Ahead()).value;
                && taken == old(taken) + 4 + |c| && schedule == old(schedule)[2..] && ct == None && hdr == []
                && OpenedOne(c, old(ctr), old(good), old(genuine), out + readBuf, err)
    {
      hide Valid, Honest, Ahead, OpenedOne, Trusted, Concat;
      DeliveredSoFar();
      out, err := [], None;
      if readBuf == [] {
        err := Fill();
        assert [] + readBuf == readBuf;
      }
      if err.None? { out := Copy(max); }
      DeliveredSoFar();
    }

    /** Hands out what is in the buffer. */
    method Copy(max: nat) returns (out: seq<byte>)
      requires Valid()
      modifies `delivered, `readBuf
      ensures Valid() && (old(Honest()) ==> Honest()) && Trusted() == old(Trusted())
      ensures delivered == old(delivered) + out && out + readBuf == old(readBuf) && |out| <= max && (readBuf == [] || |out| == max)
    {
      hide Stream, Concat, Picked, InOrder, UnderWay;
      var n := if max < |readBuf| then max else |readBuf|;
      out := readBuf[..n];
      assert readBuf == out + readBuf[n..];
      delivered, readBuf := delivered + out, readBuf[n..];
      Assoc(old(delivered), out, readBuf);
    }

    /** Reads until a record is complete, or as far as it gets. */
    method Fill() returns (err: Option<Error>)
      requires Valid() && readBuf == []
      modifies this
      ensures Valid() && delivered == old(delivered) && (err.Some? ==> readBuf == [])
      ensures failures == old(failures) + (if err == Some(DecryptFailed) then 1 else 0)
      ensures old(Honest()) ==> Honest() && (err.Some? ==> err.value in {Timeout, EOF, UnexpectedEOF})
      ensures (old(Honest()) || Trusted()) && err.None? ==> readBuf != []
      ensures good == (if err.None? then old(good) + [old(ctr)] else old(good))
      ensures old(Ahead()).Some? ==>
                var c := old(Ahead()).value;
                && taken == old(taken) + 4 + |c| && schedule == old(schedule)[2..] && ct == None && hdr == []
                && OpenedOne(c, old(ctr), old(good), old(genuine), readBuf, err)
    {
      hide Valid, Honest, Ahead, OpenedOne, Announced, Trusted;
      ghost var ahead := Ahead();
      while ct.None?
        invariant Valid() && readBuf == [] && delivered == old(delivered) && failures == old(failures)
        invariant ctr == old(ctr) && good == old(good) && genuine == old(genuine)
        invariant old(Honest()) ==> Honest()
        invariant ct.None? ==> unchanged(this)
        invariant ct.Some? && ahead.Some? ==> Announced(ahead.value) && taken == old(taken) + 4 && schedule == old(schedule)[1..]
        decreases ct.None?
      {
        err := ReadHeader();
        if err.Some? { return; }
      }
      err := ReadRecord();
    }

    /** c was tried under the counter k. */
    ghost predicate OpenedOne(c: seq<byte>, k: nat, before: seq<nat>, trusted: bool, plain: seq<byte>, err: Option<Error>)
      reads `ctr, `good, `genuine
    {
      && ctr == k + 1
      && match aead.open(Nonce(k), c)
         case None => err == Some(DecryptFailed) && plain == [] && good == before && genuine == trusted
         case Some(p) => err == None && plain == p && good == before + [k] && genuine == (trusted && Genuine(aead, chunks, k, c))
    }

    lemma DeliveredSoFar()
      requires Valid()
      ensures |good| + failures == ctr && (Trusted() ==> InOrder(good, ctr, |chunks|))
      ensures Trusted() && Unbroken(good) ==> delivered + readBuf <= Concat(chunks)
      ensures Trusted() && !Unbroken(good) && TellApart(chunks, good) ==> !(delivered + readBuf <= Concat(chunks))
      ensures Honest() ==> delivered <= Concat(chunks)
    {
      hide Stream, UnderWay, Concat, Picked, Unbroken, TellApart;
      if Honest() { ConcatFirst(chunks, ctr); }
      if Trusted() {
        if Unbroken(good) {
          FirstOpened(chunks, good, ctr);
          ConcatFirst(chunks, |good|);
        } else if TellApart(chunks, good) {
          PrefixExactly(chunks, good, ctr);
        }
      }
    }

    /** Four bytes that announce the next record. */
    method ReadHeader() returns (err: Option<Error>)
      requires Valid() && ct.None? && readBuf == []
      modifies this
      ensures Valid() && readBuf == [] && delivered == old(delivered) && failures == old(failures)
      ensures ctr == old(ctr) && good == old(good) && genuine == old(genuine)
      ensures err.None? ==> ct.Some?
      ensures err.Some? ==> ct.None? && err.value in {Timeout, EOF, UnexpectedEOF, BadLength}
      ensures old(Honest()) ==> Honest() && err != Some(BadLength)
      ensures old(Ahead()).Some? ==> err.None? && Announced(old(Ahead()).value) && taken == old(taken) + 4 && schedule == old(schedule)[1..]
    {
      hide Stream, Concat, Record, Uint32, PutUint32, Picked, InOrder, Aead.Correct, ProperChunks;
      ghost var honest, before := Honest(), taken;
      hdr, err := ReadMore(hdr, 4);
      if honest { Join(wire, Start(aead, chunks, ctr), before, taken); }
      if err.Some? { return; }
      if honest { HeaderAhead(hdr); }
      assert [] + wire[before..taken] == wire[before..taken];
      var n := Uint32(hdr);
      hdr := [];
      if n <= OVERHEAD || n > MAX_RECORD_PAYLOAD + OVERHEAD { return Some(BadLength); }
      if honest { assert wire[Start(aead, chunks, ctr)..taken] == PutUint32(n) + []; }
      ct := Some(Partial(n, []));
    }

    lemma HeaderAhead(h: seq<byte>)
      requires aead.Correct() && ProperChunks(chunks) && wire <= Stream(aead, chunks) && ctr <= |chunks|
      requires |h| == 4 && Start(aead, chunks, ctr) + 4 == taken <= |wire| && wire[Start(aead, chunks, ctr)..taken] == h
      ensures ctr < |chunks|
      ensures var n := |aead.seal(Nonce(ctr), chunks[ctr])|;
              h == PutUint32(n) && Uint32(h) == n && OVERHEAD < n <= MAX_RECORD_PAYLOAD + OVERHEAD
    {
      hide Stream, Uint32, PutUint32;
      StartAtEnd(aead, chunks);
      assert ctr < |chunks|;
      RecordAt(aead, chunks, ctr);
      RecordLength(aead, ctr, chunks[ctr]);
      var start, s := Start(aead, chunks, ctr), Stream(aead, chunks);
      assert wire[start..taken] == s[start..taken];
      assert s[start..Start(aead, chunks, ctr + 1)][..4] == s[start..taken];
    }

    /** The rest of the record; when it is complete it is opened. */
    method ReadRecord() returns (err: Option<Error>)
      requires Valid() && ct.Some? && readBuf == []
      modifies this
      ensures Valid() && delivered == old(delivered)
      ensures failures == old(failures) + (if err == Some(DecryptFailed) then 1 else 0)
      ensures err.Some? ==> readBuf == [] && err.value in {Timeout, EOF, UnexpectedEOF, DecryptFailed}
      ensures (old(Honest()) || Trusted()) && err.None? ==> readBuf != []
      ensures good == (if err.None? then old(good) + [old(ctr)] else old(good))
      ensures old(Honest()) ==> Honest() && err != Some(DecryptFailed)
      ensures forall c :: old(Announced(c)) ==>
                && taken == old(taken) + |c| && schedule == old(schedule)[1..] && ct == None && hdr == []
                && OpenedOne(c, old(ctr), old(good), old(genuine), readBuf, err)
    {
      hide Stream, Concat, Record, Uint32, PutUint32, Picked, InOrder, Genuine;
      ghost var honest, before := Honest(), taken;
      var need := ct.value.need;
      var got;
      got, err := ReadMore(ct.value.got, need);
      if honest { StillUnderWay(before, got); }
      assert [] + wire[before..taken] == wire[before..taken];
      ct := Some(Partial(need, got));
      if err.Some? { return; }
      if honest { CiphertextAhead(got); }
      err := Open(got, honest);
    }

    lemma StillUnderWay(before: nat, got: seq<byte>)
      requires ct.Some? && ctr < |chunks| && Start(aead, chunks, ctr) <= before <= taken <= |wire|
      requires wire[Start(aead, chunks, ctr)..before] == PutUint32(ct.value.need) + ct.value.got
      requires got == ct.value.got + wire[before..taken]
      ensures wire[Start(aead, chunks, ctr)..taken] == PutUint32(ct.value.need) + got
    {
      hide Stream, PutUint32;
      Join(wire, Start(aead, chunks, ctr), before, taken);
      Assoc(PutUint32(ct.value.need), ct.value.got, wire[before..taken]);
    }

    lemma CiphertextAhead(got: seq<byte>)
      requires aead.Correct() && ProperChunks(chunks) && wire <= Stream(aead, chunks) && ctr < |chunks|
      requires |got| == |aead.seal(Nonce(ctr), chunks[ctr])|
      requires Start(aead, chunks, ctr) + 4 + |got| == taken <= |wire|
      requires wire[Start(aead, chunks, ctr)..taken] == PutUint32(|got|) + got
      ensures got == aead.seal(Nonce(ctr), chunks[ctr]) && aead.open(Nonce(ctr), got) == Some(chunks[ctr])
      ensures chunks[ctr] != [] && Start(aead, chunks, ctr + 1) == taken
    {
      hide Stream, Uint32, PutUint32;
      RecordAt(aead, chunks, ctr);
      RecordLength(aead, ctr, chunks[ctr]);
      var start, s := Start(aead, chunks, ctr), Stream(aead, chunks);
      assert wire[start..taken] == s[start..taken];
      assert got == (PutUint32(|got|) + got)[4..];
    }

    /** A complete record: the counter moves on whether or not it opens. */
    method Open(c: seq<byte>, ghost honest: bool) returns (err: Option<Error>)
      requires Valid() && ct.Some? && readBuf == []
      requires honest ==> ctr < |chunks| && wire <= Stream(aead, chunks) && delivered == Concat(chunks[..ctr])
      requires honest ==> aead.open(Nonce(ctr), c) == Some(chunks[ctr]) && Start(aead, chunks, ctr + 1) == taken
      modifies this
      ensures Valid() && delivered == old(delivered) && taken == old(taken) && schedule == old(schedule) && ct == None && hdr == []
      ensures failures == old(failures) + (if err == Some(DecryptFailed) then 1 else 0)
      ensures (honest || Trusted()) && err.None? ==> readBuf != []
      ensures honest ==> Honest()
      ensures OpenedOne(c, old(ctr), old(good), old(genuine), readBuf, err)
    {
      hide Stream, Concat, Picked, InOrder, Genuine;
      var plain := aead.open(Nonce(ctr), c);
      ct := None;
      if honest {
        assert chunks[..ctr + 1] == chunks[..ctr] + [chunks[ctr]];
        ConcatAppend(chunks[..ctr], [chunks[ctr]]);
        ConcatOne(chunks[ctr]);
        assert wire[taken..taken] == [];
      }
      if plain.Some? { genuine := genuine && Genuine(aead, chunks, ctr, c); }
      ctr := ctr + 1;
      if plain.None? {
        failures := failures + 1;
        LaterStillInOrder();
        return Some(DecryptFailed);
      }
      if Trusted() {
        OpensItsOwn(aead, chunks, ctr - 1, c);
        PickedNext(chunks, good, ctr - 1);
      }
      readBuf, good := plain.value, good + [ctr - 1];
      return None;
    }

    lemma LaterStillInOrder()
      ensures ctr > 0 && InOrder(good, ctr - 1, |chunks|) ==> InOrder(good, ctr, |chunks|)
    {
    }
  }

  /** A record that does not open is skipped, and what comes after it is delivered: the bytes
      returned are then no longer a prefix of those written. */
  method SkipsARecord(aead: Aead, first: seq<byte>, second: seq<byte>, junk: seq<byte>) returns (r: Reader)
    requires aead.Correct() && ProperChunk(first) && ProperChunk(second) && first[0] != second[0]
    requires OVERHEAD < |junk| <= MAX_RECORD_PAYLOAD + OVERHEAD && aead.open(0, junk).None?
    ensures fresh(r) && r.Valid() && r.Trusted() && r.failures == 1
    ensures r.chunks == [first, second] && r.delivered == second && !(r.delivered <= Concat(r.chunks))
  {
    hide Concat, PutUint32, Uint32, Reader.Valid, Reader.Honest, Reader.Ahead, Aead.Correct;
    var record := Record(aead, 1, second);
    var wire := PutUint32(|junk|) + junk + record;
    var prompt := Answer(MAX_RECORD_PAYLOAD + OVERHEAD, None);
    r := new Reader(aead, [first, second], wire, [prompt, prompt, prompt, prompt]);
    WholeRecord(r, [], junk, record);
    var out, err := r.Read(MAX_RECORD_PAYLOAD);
    RecordLength(aead, 1, second);
    var c := aead.seal(1, second);
    assert wire == PutUint32(|junk|) + junk + PutUint32(|c|) + c + [];
    WholeRecord(r, PutUint32(|junk|) + junk, c, []);
    assert r.chunks[1] == second && Genuine(aead, r.chunks, 1, c);
    out, err := r.Read(MAX_RECORD_PAYLOAD);
    NotAPrefix(first, second);
  }

  /** A whole record after the bytes taken is the one ahead. */
  lemma WholeRecord(r: Reader, before: seq<byte>, c: seq<byte>, after: seq<byte>)
    requires r.taken == |before| && r.wire == before + PutUint32(|c|) + c + after
    requires r.readBuf == [] && r.hdr == [] && r.ct == None && OVERHEAD < |c| <= MAX_RECORD_PAYLOAD + OVERHEAD
    requires |r.schedule| > 1 && forall i :: 0 <= i < 2 ==> r.schedule[i] == Answer(MAX_RECORD_PAYLOAD + OVERHEAD, None)
    ensures r.Ahead() == Some(c)
  {
    hide Uint32, PutUint32;
    var pos := |before|;
    assert r.wire[pos..pos + 4] == PutUint32(|c|) && r.wire[pos + 4..pos + 4 + |c|] == c;
    Uint32RoundTrip(|c|);
  }

  lemma NotAPrefix(first: seq<byte>, second: seq<byte>)
    requires first != [] && second != [] && first[0] != second[0]
    ensures !(second <= Concat([first, second]))
  {
    assert Concat([first, second])[0] == first[0];
  }

  /** Nothing is lost: once everything has arrived and nothing is under way, all that was
      written has been returned or is in the buffer. */
  lemma {:induction false} AllArrives(r: Reader)
    requires r.Valid() && r.Honest() && r.wire == Stream(r.aead, r.chunks) && r.taken == |r.wire| && r.ct.None? && r.hdr == []
    ensures r.ctr == |r.chunks| && r.delivered + r.readBuf == Concat(r.chunks)
  {
    hide Stream, Concat;
    if r.ctr < |r.chunks| {
      RecordAt(r.aead, r.chunks, r.ctr);
    }
    assert r.chunks[..|r.chunks|] == r.chunks;
  }
}
