/** The price of a block: from signed submissions to price data, and from price data to one
    price (blocks/oracleProofs.go, oracles/oraclesDefinition.go). */
module Oracle {
  import opened Basics
  import opened Sums
  import opened Wire
  import opened Nonces

  const HEIGHT_DISTANCE := 6
  const ENTRY_LENGTH := 17

  // ---------------------------------------------------------------- price data

  datatype PriceEntry = PriceEntry(id: byte, height: int64, price: int64)

  function EncodeEntry(e: PriceEntry): (s: seq<byte>)
    ensures |s| == ENTRY_LENGTH
  {
    [e.id] + PutInt64(e.height) + PutInt64(e.price)
  }

  function EncodeEntries(l: seq<PriceEntry>): seq<byte> {
    if l == [] then [] else EncodeEntry(l[0]) + EncodeEntries(l[1..])
  }

  /** Ascending ids above `prev`, positive prices. */
  predicate Canonical(l: seq<PriceEntry>, prev: int) {
    l == [] || (l[0].id > prev && l[0].price > 0 && Canonical(l[1..], l[0].id))
  }

  function DecodeEntry(s: seq<byte>): PriceEntry
    requires |s| == ENTRY_LENGTH
  {
    PriceEntry(s[0], Int64(s[1..9]), Int64(s[9..17]))
  }

  /** An entry is one byte of id, then height and price in eight bytes each, the lowest first. */
  lemma {:induction false} EntryLayout(e: PriceEntry, i: nat)
    requires e.height >= 0 && e.price >= 0 && i < 8
    ensures var s := EncodeEntry(e);
            s[0] == e.id && s[1 + i] == e.height / Pow256(i) % 256 && s[9 + i] == e.price / Pow256(i) % 256
  {
    hide LittleEndian;
    LittleEndianAt(e.height, 8, i);
    LittleEndianAt(e.price, 8, i);
  }

  lemma EntryRoundTrip(e: PriceEntry)
    ensures DecodeEntry(EncodeEntry(e)) == e
  {
    hide LittleEndian, FromLittleEndian;
    var s := EncodeEntry(e);
    assert s[1..9] == PutInt64(e.height) && s[9..17] == PutInt64(e.price);
    Int64RoundTrip(e.height);
    Int64RoundTrip(e.price);
  }

  lemma BytesRoundTrip(s: seq<byte>)
    requires |s| == ENTRY_LENGTH
    ensures EncodeEntry(DecodeEntry(s)) == s
  {
    hide LittleEndian, FromLittleEndian;
    Int64BytesBack(s[1..9]);
    Int64BytesBack(s[9..17]);
    assert s == [s[0]] + s[1..9] + s[9..17];
  }

  /** What the data says, entry by entry. */
  function Parse(data: seq<byte>, prev: int): Result<seq<PriceEntry>> {
    if data == [] then Ok([])
    else if |data| < ENTRY_LENGTH then Err
    else
      var e := DecodeEntry(data[..ENTRY_LENGTH]);
      if e.id <= prev || e.price <= 0 then Err else Cons(e, Parse(data[ENTRY_LENGTH..], e.id))
  }

  function Cons(e: PriceEntry, r: Result<seq<PriceEntry>>): Result<seq<PriceEntry>> {
    if r.Err? then Err else Ok([e] + r.value)
  }

  /** Price data is accepted exactly when it is the encoding of a canonical list. */
  lemma {:induction false} ParseSound(data: seq<byte>, prev: int)
    requires Parse(data, prev).Ok?
    ensures Canonical(Parse(data, prev).value, prev)
    ensures EncodeEntries(Parse(data, prev).value) == data
    decreases |data|
  {
    hide EncodeEntry, DecodeEntry;
    if data != [] {
      var e := DecodeEntry(data[..ENTRY_LENGTH]);
      ParseSound(data[ENTRY_LENGTH..], e.id);
      BytesRoundTrip(data[..ENTRY_LENGTH]);
      var rest := Parse(data[ENTRY_LENGTH..], e.id).value;
      assert ([e] + rest)[1..] == rest;
      assert data == data[..ENTRY_LENGTH] + data[ENTRY_LENGTH..];
    }
  }

  lemma {:induction false} ParseComplete(l: seq<PriceEntry>, prev: int)
    requires Canonical(l, prev)
    ensures Parse(EncodeEntries(l), prev) == Ok(l)
  {
    hide EncodeEntry, DecodeEntry;
    if l != [] {
      ParseComplete(l[1..], l[0].id);
      EntryRoundTrip(l[0]);
      var data := EncodeEntries(l);
      assert data[..ENTRY_LENGTH] == EncodeEntry(l[0]) && data[ENTRY_LENGTH..] == EncodeEntries(l[1..]);
      assert l == [l[0]] + l[1..];
    }
  }

  function Prices(l: seq<PriceEntry>): seq<int> {
    if l == [] then [] else Prices(l[..|l| - 1]) + [l[|l| - 1].price]
  }

  /** Stake behind the listed accounts. */
  function StakeOf(l: seq<PriceEntry>, stake: nat -> int): int {
    if l == [] then 0 else StakeOf(l[..|l| - 1], stake) + stake(l[|l| - 1].id)
  }

  function Entries(l: seq<PriceEntry>): map<byte, Submission> {
    if l == [] then map[]
    else
      var e := l[|l| - 1];
      Entries(l[..|l| - 1])[e.id := Submission(e.height, e.price)]
  }

  function Prefixed(l: seq<PriceEntry>, r: Result<seq<PriceEntry>>): Result<seq<PriceEntry>> {
    if r.Err? then Err else Ok(l + r.value)
  }

  /** ParsePriceData. */
  method ParsePriceData(data: seq<byte>, stake: nat -> int)
      returns (ok: bool, parsed: map<byte, Submission>, prices: seq<int>, staked: int, ghost l: seq<PriceEntry>)
    ensures ok <==> Parse(data, -1).Ok?
    ensures ok ==> Parse(data, -1) == Ok(l) && parsed == Entries(l) && prices == Prices(l) && staked == StakeOf(l, stake)
  {
    hide DecodeEntry;
    parsed, prices, staked, l := map[], [], 0, [];
    if |data| % ENTRY_LENGTH != 0 {
      OddLength(data, -1);
      return false, parsed, prices, staked, l;
    }
    var prev: int, i := -1, 0;
    assert data[0..] == data;
    PrefixedNone(Parse(data, -1));
    while i < |data|
      invariant 0 <= i <= |data| && (|data| - i) % ENTRY_LENGTH == 0
      invariant Parse(data, -1) == Prefixed(l, Parse(data[i..], prev))
      invariant parsed == Entries(l) && prices == Prices(l) && staked == StakeOf(l, stake)
    {
      var e := DecodeEntry(data[i..i + ENTRY_LENGTH]);
      assert data[i..][..ENTRY_LENGTH] == data[i..i + ENTRY_LENGTH];
      assert data[i..][ENTRY_LENGTH..] == data[i + ENTRY_LENGTH..];
      if e.id <= prev || e.price <= 0 { return false, parsed, prices, staked, l; }
      PrefixedNext(l, e, Parse(data[i + ENTRY_LENGTH..], e.id));
      prices := prices + [e.price];
      staked := staked + stake(e.id);
      parsed := parsed[e.id := Submission(e.height, e.price)];
      assert (l + [e])[..|l|] == l;
      l := l + [e];
      prev, i := e.id, i + ENTRY_LENGTH;
    }
    assert l + [] == l;
    return true, parsed, prices, staked, l;
  }

  lemma PrefixedNone(r: Result<seq<PriceEntry>>)
    ensures Prefixed([], r) == r
  {
    if r.Ok? { assert [] + r.value == r.value; }
  }

  lemma PrefixedNext(l: seq<PriceEntry>, e: PriceEntry, r: Result<seq<PriceEntry>>)
    ensures Prefixed(l, Cons(e, r)) == Prefixed(l + [e], r)
  {
    if r.Ok? { assert l + ([e] + r.value) == l + [e] + r.value; }
  }

  lemma {:induction false} OddLength(data: seq<byte>, prev: int)
    requires |data| % ENTRY_LENGTH != 0
    ensures Parse(data, prev).Err?
    decreases |data|
  {
    hide DecodeEntry;
    if |data| >= ENTRY_LENGTH {
      OddLength(data[ENTRY_LENGTH..], DecodeEntry(data[..ENTRY_LENGTH]).id);
    }
  }

  // ---------------------------------------------------------------- submissions

  /** The priced submissions of the ids from `from` on, in ascending order. */
  ghost function Listed(subs: map<byte, Submission>, from: nat): seq<PriceEntry>
    requires from <= 256
    decreases 256 - from
  {
    if from == 256 then []
    else if from in subs && subs[from].price > 0
    then [PriceEntry(from, subs[from].height, subs[from].price)] + Listed(subs, from + 1)
    else Listed(subs, from + 1)
  }

  lemma {:induction false} ListedIsCanonical(subs: map<byte, Submission>, from: nat, prev: int)
    requires prev < from <= 256
    ensures Canonical(Listed(subs, from), prev)
    decreases 256 - from
  {
    if from < 256 {
      if from in subs && subs[from].price > 0 {
        ListedIsCanonical(subs, from + 1, from);
        assert Listed(subs, from)[1..] == Listed(subs, from + 1);
      } else {
        ListedIsCanonical(subs, from + 1, prev);
      }
    }
  }

  /** Exactly the submissions with a price are listed. */
  lemma {:induction false} ListedMembers(subs: map<byte, Submission>, from: nat, e: PriceEntry)
    requires from <= 256
    ensures e in Listed(subs, from) <==>
            e.id >= from && e.id in subs && subs[e.id] == Submission(e.height, e.price) && e.price > 0
    decreases 256 - from
  {
    if from < 256 { ListedMembers(subs, from + 1, e); }
  }

  /** The canonical data of a set of submissions. */
  ghost function DataOf(subs: map<byte, Submission>): seq<byte> {
    EncodeEntries(Listed(subs, 0))
  }

  /** Price data parses back to the submissions it was made from. */
  lemma {:induction false} DataComesBack(subs: map<byte, Submission>)
    ensures Parse(DataOf(subs), -1) == Ok(Listed(subs, 0))
  {
    ListedIsCanonical(subs, 0, -1);
    ParseComplete(Listed(subs, 0), -1);
  }

  /** encodeOracleData, going through the ids in ascending order. */
  method EncodeOracleData(subs: map<byte, Submission>) returns (data: seq<byte>)
    ensures data == DataOf(subs)
  {
    hide EncodeEntry;
    data := [];
    for id := 0 to 256
      invariant data + EncodeEntries(Listed(subs, id)) == DataOf(subs)
    {
      if id in subs && subs[id].price > 0 {
        var e := PriceEntry(id, subs[id].height, subs[id].price);
        assert Listed(subs, id)[1..] == Listed(subs, id + 1);
        Assoc(data, EncodeEntry(e), EncodeEntries(Listed(subs, id + 1)));
        data := data + EncodeEntry(e);
      }
    }
    assert data + [] == data;
  }

  // ---------------------------------------------------------------- proofs

  /** The submissions of decoded proofs; an error when one cannot be read or an id repeats. */
  function SubmissionsOf(proofs: seq<Result<Nonce>>): Result<map<byte, Submission>> {
    if proofs == [] then Ok(map[]) else WithProof(SubmissionsOf(proofs[..|proofs| - 1]), proofs[|proofs| - 1])
  }

  function WithProof(before: Result<map<byte, Submission>>, p: Result<Nonce>): Result<map<byte, Submission>> {
    if before.Err? || p.Err? || Extract(p.value).Err? || Extract(p.value).value.0 in before.value then Err
    else Ok(before.value[Extract(p.value).value.0 := Extract(p.value).value.1])
  }

  lemma {:induction false} ErrStays(proofs: seq<Result<Nonce>>, i: nat)
    requires i <= |proofs| && SubmissionsOf(proofs[..i]).Err?
    ensures SubmissionsOf(proofs).Err?
    decreases |proofs|
  {
    hide WithProof;
    if i == |proofs| {
      assert proofs[..i] == proofs;
    } else {
      var before := proofs[..|proofs| - 1];
      assert before[..i] == proofs[..i];
      ErrStays(before, i);
      ErrThrough(proofs[|proofs| - 1]);
    }
  }

  lemma ErrThrough(p: Result<Nonce>)
    ensures WithProof(Err, p) == Err
  {
  }

  /** The proofs give submissions exactly when each can be read and no account comes twice; and then the
      submission of each is that of its proof. */
  lemma {:induction false} SubmissionsMean(proofs: seq<Result<Nonce>>)
    ensures SubmissionsOf(proofs).Ok? <==> AllRead(proofs) && forall i, j :: 0 <= i < j < |proofs| ==> IdOf(proofs[i]) != IdOf(proofs[j])
    ensures SubmissionsOf(proofs).Ok? ==> Collected(proofs, SubmissionsOf(proofs).value)
  {
    hide Extract, WithProof, IdOf, Readable;
    if proofs != [] {
      var front, p := proofs[..|proofs| - 1], proofs[|proofs| - 1];
      SubmissionsMean(front);
      OneMoreProof(SubmissionsOf(front), p);
      assert proofs == front + [p];
      if SubmissionsOf(front).Ok? {
        assert IdOf(p) in SubmissionsOf(front).value <==> exists i :: 0 <= i < |front| && IdOf(front[i]) == IdOf(p);
      }
    }
  }

  predicate Readable(p: Result<Nonce>) {
    p.Ok? && Extract(p.value).Ok?
  }

  predicate AllRead(proofs: seq<Result<Nonce>>) {
    forall i :: 0 <= i < |proofs| ==> Readable(proofs[i])
  }

  /** Exactly the submissions of the proofs. */
  ghost predicate Collected(proofs: seq<Result<Nonce>>, subs: map<byte, Submission>) {
    && (forall i :: 0 <= i < |proofs| ==>
          Readable(proofs[i]) && IdOf(proofs[i]) in subs && subs[IdOf(proofs[i])] == Extract(proofs[i].value).value.1)
    && (forall id :: id in subs ==> exists i :: 0 <= i < |proofs| && IdOf(proofs[i]) == id)
  }

  lemma OneMoreProof(before: Result<map<byte, Submission>>, p: Result<Nonce>)
    ensures WithProof(before, p).Ok? <==> before.Ok? && Readable(p) && IdOf(p) !in before.value
    ensures WithProof(before, p).Ok? ==> WithProof(before, p).value == before.value[IdOf(p) := Extract(p.value).value.1]
  {
    hide Extract;
  }

  function IdOf(p: Result<Nonce>): nat {
    if p.Ok? && Extract(p.value).Ok? then Extract(p.value).value.0 else 0
  }

  predicate Fresh(p: Result<Nonce>, blockHeight: int) {
    p.Ok? && p.value.height <= blockHeight <= p.value.height + HEIGHT_DISTANCE
  }

  /** oracleDataFromProofs: what the producer puts next to its proofs. */
  method OracleDataFromProofs(proofs: seq<Result<Nonce>>) returns (r: Result<seq<byte>>)
    ensures r == if SubmissionsOf(proofs).Ok? then Ok(DataOf(SubmissionsOf(proofs).value)) else Err
  {
    hide Extract, DataOf;
    var subs: map<byte, Submission> := map[];
    for i := 0 to |proofs|
      invariant SubmissionsOf(proofs[..i]) == Ok(subs)
    {
      assert proofs[..i + 1][..i] == proofs[..i];
      var next := WithProof(Ok(subs), proofs[i]);
      if next.Err? {
        ErrStays(proofs, i + 1);
        return Err;
      }
      subs := next.value;
    }
    assert proofs[..|proofs|] == proofs;
    var data := EncodeOracleData(subs);
    return Ok(data);
  }

  /** matchOracleData: every entry of the data is backed by a submission. */
  method Matches(subs: map<byte, Submission>, data: seq<byte>, stake: nat -> int) returns (ok: bool)
    ensures ok <==> Parse(data, -1).Ok? && forall e :: e in Parse(data, -1).value ==>
              e.id in subs && subs[e.id] == Submission(e.height, e.price)
  {
    var parsedOk, parsed, _, _, l := ParsePriceData(data, stake);
    if !parsedOk { return false; }
    ParseSound(data, -1);
    EntriesOfCanonical(l, -1);
    ok := forall id :: id in parsed ==> id in subs && subs[id] == parsed[id];
    if ok {
      forall e | e in l ensures e.id in subs && subs[e.id] == Submission(e.height, e.price) { assert e.id in parsed; }
    } else {
      ghost var id :| id in parsed && !(id in subs && subs[id] == parsed[id]);
      assert PriceEntry(id, parsed[id].height, parsed[id].price) in l;
    }
  }

  lemma {:induction false} CanonicalIds(l: seq<PriceEntry>, prev: int, i: nat, j: nat)
    requires Canonical(l, prev) && i < j < |l|
    ensures prev < l[i].id < l[j].id
  {
    if i > 0 {
      CanonicalIds(l[1..], l[0].id, i - 1, j - 1);
    } else if j > 1 {
      CanonicalIds(l[1..], l[0].id, 0, j - 1);
    }
  }

  /** Ids do not repeat, so the map has one value per listed entry. */
  lemma {:induction false} EntriesOfCanonical(l: seq<PriceEntry>, prev: int)
    requires Canonical(l, prev)
    ensures forall id :: id in Entries(l) <==> exists e :: e in l && e.id == id
    ensures forall e :: e in l ==> e.id in Entries(l) && Entries(l)[e.id] == Submission(e.height, e.price)
    ensures forall id :: id in Entries(l) ==> PriceEntry(id, Entries(l)[id].height, Entries(l)[id].price) in l
  {
    forall i, j | 0 <= i < j < |l| ensures l[i].id < l[j].id { CanonicalIds(l, prev, i, j); }
    EntriesOfDistinct(l);
  }

  lemma {:induction false} EntriesOfDistinct(l: seq<PriceEntry>)
    requires forall i, j :: 0 <= i < j < |l| ==> l[i].id < l[j].id
    ensures forall id :: id in Entries(l) <==> exists e :: e in l && e.id == id
    ensures forall e :: e in l ==> e.id in Entries(l) && Entries(l)[e.id] == Submission(e.height, e.price)
    ensures forall id :: id in Entries(l) ==> PriceEntry(id, Entries(l)[id].height, Entries(l)[id].price) in l
  {
    if l != [] {
      var front, e := l[..|l| - 1], l[|l| - 1];
      assert l == front + [e];
      EntriesOfDistinct(front);
    }
  }

  /** authenticateOracleProofs accepts exactly fresh, readable proofs of different accounts
      with the data that follows from them. */
  method Authenticate(blockHeight: int, proofs: seq<Result<Nonce>>, data: seq<byte>, stake: nat -> int) returns (ok: bool)
    ensures ok <==>
      && (forall i :: 0 <= i < |proofs| ==> proofs[i].Ok? && 0 <= blockHeight - proofs[i].value.height <= 6)
      && SubmissionsOf(proofs).Ok? && data == DataOf(SubmissionsOf(proofs).value)
  {
    hide Extract, Parse, Listed;
    var subs: map<byte, Submission> := map[];
    for i := 0 to |proofs|
      invariant SubmissionsOf(proofs[..i]) == Ok(subs)
      invariant forall j :: 0 <= j < i ==> Fresh(proofs[j], blockHeight)
    {
      if !Fresh(proofs[i], blockHeight) { return false; }
      assert proofs[..i + 1][..i] == proofs[..i];
      var next := WithProof(Ok(subs), proofs[i]);
      if next.Err? {
        ErrStays(proofs, i + 1);
        return false;
      }
      subs := next.value;
    }
    assert proofs[..|proofs|] == proofs;
    DataComesBack(subs);
    forall e ensures e in Listed(subs, 0) ==> e.id in subs && subs[e.id] == Submission(e.height, e.price) {
      ListedMembers(subs, 0, e);
    }
    var matching := Matches(subs, data, stake);
    if !matching { return false; }
    var expected := EncodeOracleData(subs);
    return data == expected;
  }

  /** The producer's data authenticates in a block that its proofs are fresh for, and parses
      back to the priced submissions. */
  method ProducedDataAuthenticates(blockHeight: int, proofs: seq<Result<Nonce>>, stake: nat -> int) returns (ok: bool, data: seq<byte>)
    requires SubmissionsOf(proofs).Ok? && forall i :: 0 <= i < |proofs| ==> Fresh(proofs[i], blockHeight)
    ensures ok && Parse(data, -1) == Ok(Listed(SubmissionsOf(proofs).value, 0))
  {
    var r := OracleDataFromProofs(proofs);
    data := r.value;
    ok := Authenticate(blockHeight, proofs, data, stake);
    DataComesBack(SubmissionsOf(proofs).value);
  }

  // ---------------------------------------------------------------- the price

  predicate Ascending(s: seq<int>) {
    forall i, j :: 0 <= i < j < |s| ==> s[i] <= s[j]
  }

  function Insert(x: int, s: seq<int>): seq<int> {
    if s == [] || x <= s[0] then [x] + s else [s[0]] + Insert(x, s[1..])
  }

  /** sort.Slice: numbers have only one ascending order. */
  function Sorted(s: seq<int>): seq<int> {
    if s == [] then [] else Insert(s[0], Sorted(s[1..]))
  }

  lemma ConsAscends(x: int, s: seq<int>)
    requires Ascending(s) && (s == [] || x <= s[0])
    ensures Ascending([x] + s)
  {
  }

  lemma {:induction false} InsertAscends(x: int, s: seq<int>)
    requires Ascending(s)
    ensures Ascending(Insert(x, s))
    ensures |Insert(x, s)| == |s| + 1 && Insert(x, s)[0] == if s == [] || x <= s[0] then x else s[0]
  {
    hide Ascending;
    if s == [] || x <= s[0] {
      ConsAscends(x, s);
    } else {
      TailAscends(s);
      InsertAscends(x, s[1..]);
      ConsAscends(s[0], Insert(x, s[1..]));
    }
  }

  lemma TailAscends(s: seq<int>)
    requires Ascending(s) && s != []
    ensures Ascending(s[1..]) && (|s| > 1 ==> s[0] <= s[1])
  {
  }

  lemma {:induction false} InsertAdds(x: int, s: seq<int>)
    ensures multiset(Insert(x, s)) == multiset(s) + multiset{x}
  {
    if s != [] && x > s[0] {
      InsertAdds(x, s[1..]);
      assert s == [s[0]] + s[1..];
    }
  }

  lemma {:induction false} SortedAscends(s: seq<int>)
    ensures Ascending(Sorted(s)) && multiset(Sorted(s)) == multiset(s) && |Sorted(s)| == |s|
  {
    if s != [] {
      SortedAscends(s[1..]);
      InsertAscends(s[0], Sorted(s[1..]));
      InsertAdds(s[0], Sorted(s[1..]));
      assert s == [s[0]] + s[1..];
    }
  }

  /** Go's division by two, towards zero. */
  function Half(x: int): int {
    if x >= 0 then x / 2 else -(-x / 2)
  }

  /** Median, which takes its argument as it comes. */
  function Median(s: seq<int>): int
    requires s != []
  {
    var mid := |s| / 2;
    if |s| % 2 == 0 then s[mid - 1] + Half(s[mid] - s[mid - 1]) else s[mid]
  }

  /** More than two prices are sorted and lose the lowest and the highest. */
  function Trimmed(s: seq<int>): (r: seq<int>)
    ensures s != [] ==> r != []
  {
    if |s| > 2 then
      SortedAscends(s);
      Sorted(s)[1..|s| - 1]
    else s
  }

  /** Trimming does not move the median. */
  lemma TrimmingKeepsMedian(s: seq<int>)
    requires |s| > 2
    ensures |Sorted(s)| == |s| && Median(Trimmed(s)) == Median(Sorted(s))
  {
    SortedAscends(s);
  }

  /** How many prices lie outside an interval. */
  function Outside(s: seq<int>, low: int, high: int): nat {
    if s == [] then 0 else (if low <= s[0] <= high then 0 else 1) + Outside(s[1..], low, high)
  }

  lemma {:induction false} OutsideInsert(x: int, s: seq<int>, low: int, high: int)
    ensures Outside(Insert(x, s), low, high) == Outside(s, low, high) + if low <= x <= high then 0 else 1
  {
    if s == [] || x <= s[0] {
      assert ([x] + s)[1..] == s;
    } else {
      OutsideInsert(x, s[1..], low, high);
      assert Insert(x, s)[1..] == Insert(x, s[1..]);
    }
  }

  lemma {:induction false} OutsideSorted(s: seq<int>, low: int, high: int)
    ensures Outside(Sorted(s), low, high) == Outside(s, low, high)
  {
    if s != [] {
      OutsideSorted(s[1..], low, high);
      OutsideInsert(s[0], Sorted(s[1..]), low, high);
    }
  }

  lemma {:induction false} OutsideParts(s: seq<int>, i: nat, low: int, high: int)
    requires i <= |s|
    ensures Outside(s, low, high) == Outside(s[..i], low, high) + Outside(s[i..], low, high)
  {
    if i > 0 {
      OutsideParts(s[1..], i - 1, low, high);
      assert s[..i][1..] == s[1..][..i - 1] && s[i..] == s[1..][i - 1..];
    } else {
      assert s[..0] == [] && s[0..] == s;
    }
  }

  lemma {:induction false} AllOutside(s: seq<int>, low: int, high: int)
    requires forall i :: 0 <= i < |s| ==> s[i] < low || s[i] > high
    ensures Outside(s, low, high) == |s|
  {
    if s != [] { AllOutside(s[1..], low, high); }
  }

  /** With fewer than half of the sorted prices outside, those in the middle are inside. */
  lemma {:induction false} MiddleIsInside(s: seq<int>, i: nat, low: int, high: int)
    requires Ascending(s) && i < |s| && 2 * Outside(s, low, high) < |s|
    ensures 2 * (i + 1) >= |s| ==> low <= s[i]
    ensures 2 * i <= |s| ==> s[i] <= high
  {
    if s[i] < low {
      OutsideParts(s, i + 1, low, high);
      AllOutside(s[..i + 1], low, high);
    }
    if s[i] > high {
      OutsideParts(s, i, low, high);
      AllOutside(s[i..], low, high);
    }
  }

  /** Fewer than half of the submitters cannot move the price out of an interval that holds
      all other prices. */
  lemma {:induction false} PriceIsInside(s: seq<int>, low: int, high: int)
    requires |s| > 2 && 2 * Outside(s, low, high) < |s|
    ensures low <= Median(Trimmed(s)) <= high
  {
    hide Outside, Sorted;
    TrimmingKeepsMedian(s);
    SortedAscends(s);
    OutsideSorted(s, low, high);
    var t, mid := Sorted(s), |s| / 2;
    MiddleIsInside(t, mid, low, high);
    if |s| % 2 == 0 { MiddleIsInside(t, mid - 1, low, high); }
  }

  /** Two prices are not sorted: the account with the lower id draws the rounding to its side. */
  lemma TwoPrices(a: int, b: int)
    ensures Median(Trimmed([a, b])) == Median(Trimmed([b, a])) <==> (a - b) % 2 == 0
  {
  }

  /** The listed prices are those of the entries, in order. */
  lemma {:induction false} PricesAt(l: seq<PriceEntry>)
    ensures |Prices(l)| == |l| && forall i :: 0 <= i < |l| ==> Prices(l)[i] == l[i].price
  {
    if l != [] { PricesAt(l[..|l| - 1]); }
  }

  ghost function Submitters(l: seq<PriceEntry>): set<nat> {
    set e | e in l :: e.id
  }

  /** The stake of the accounts that submitted. */
  ghost function Backing(l: seq<PriceEntry>, stake: nat -> int): int {
    BackingBy(Submitters(l), stake)
  }

  ghost function BackingBy(ids: set<nat>, stake: nat -> int): int {
    Sum(map id: nat | id in ids :: stake(id))
  }

  lemma {:induction false} BackingNext(ids: set<nat>, id: nat, stake: nat -> int)
    requires id !in ids
    ensures BackingBy(ids + {id}, stake) == BackingBy(ids, stake) + stake(id)
  {
    var before := map j: nat | j in ids :: stake(j);
    assert (map j: nat | j in ids + {id} :: stake(j)) == before[id := stake(id)];
    SumUpdate<nat>(before, id, stake(id));
  }

  lemma BackingByNobody(stake: nat -> int)
    ensures BackingBy({}, stake) == 0
  {
    SumEmpty<nat>();
    assert (map id: nat | id in {} :: stake(id)) == map[];
  }

  lemma {:induction false} SubmittersNext(l: seq<PriceEntry>)
    requires l != [] && forall i, j :: 0 <= i < j < |l| ==> l[i].id < l[j].id
    ensures var front, e := l[..|l| - 1], l[|l| - 1];
            Submitters(l) == Submitters(front) + {e.id} && e.id !in Submitters(front)
  {
    assert l == l[..|l| - 1] + [l[|l| - 1]];
  }

  lemma {:induction false} StakeIsSum(l: seq<PriceEntry>, stake: nat -> int)
    requires forall i, j :: 0 <= i < j < |l| ==> l[i].id < l[j].id
    ensures StakeOf(l, stake) == Backing(l, stake)
  {
    hide BackingBy, Submitters;
    if l == [] {
      assert Submitters(l) == {} by { NoSubmitters(); }
      BackingByNobody(stake);
    } else {
      StakeIsSum(l[..|l| - 1], stake);
      SubmittersNext(l);
      BackingNext(Submitters(l[..|l| - 1]), l[|l| - 1].id, stake);
    }
  }

  lemma NoSubmitters()
    ensures Submitters([]) == {}
  {
  }

  /** The entries whose price lies outside an interval. */
  ghost function Outsiders(l: seq<PriceEntry>, low: int, high: int): set<nat> {
    set i: nat | i < |l| && !(low <= l[i].price <= high)
  }

  lemma {:induction false} OutsideCounts(l: seq<PriceEntry>, low: int, high: int)
    ensures Outside(Prices(l), low, high) == |Outsiders(l, low, high)|
  {
    hide Outsiders, Outside;
    if l == [] {
      NoOutsiders(low, high);
    } else {
      var front, e := l[..|l| - 1], l[|l| - 1];
      OutsideCounts(front, low, high);
      OutsideSnoc(Prices(front), e.price, low, high);
      OutsidersSnoc(front, e, low, high);
      assert l == front + [e];
    }
  }

  lemma NoOutsiders(low: int, high: int)
    ensures Outsiders([], low, high) == {} && Outside([], low, high) == 0
  {
  }

  lemma OutsideSnoc(s: seq<int>, x: int, low: int, high: int)
    ensures Outside(s + [x], low, high) == Outside(s, low, high) + if low <= x <= high then 0 else 1
  {
    OutsideParts(s + [x], |s|, low, high);
    assert (s + [x])[..|s|] == s && (s + [x])[|s|..] == [x];
  }

  lemma OutsidersSnoc(l: seq<PriceEntry>, e: PriceEntry, low: int, high: int)
    ensures |Outsiders(l + [e], low, high)| == |Outsiders(l, low, high)| + if low <= e.price <= high then 0 else 1
  {
    var more := l + [e];
    assert forall i: nat :: i < |l| ==> more[i] == l[i];
    if low <= e.price <= high {
      assert Outsiders(more, low, high) == Outsiders(l, low, high);
    } else {
      assert Outsiders(more, low, high) == Outsiders(l, low, high) + {|l|};
    }
  }

  /** One price stands for the entries: it is the only one, half way between two, and else inside
      every interval that holds more than half of them. */
  ghost predicate Represents(l: seq<PriceEntry>, price: int) {
    && l != []
    && (|l| == 1 ==> price == l[0].price)
    && (|l| == 2 ==> -1 <= 2 * price - (l[0].price + l[1].price) <= 1)
    && (|l| > 2 ==> forall low, high :: 2 * |Outsiders(l, low, high)| < |l| ==> low <= price <= high)
  }

  lemma {:induction false} MedianRepresents(l: seq<PriceEntry>)
    requires l != []
    ensures Trimmed(Prices(l)) != [] && Represents(l, Median(Trimmed(Prices(l))))
  {
    hide Outsiders, Outside, Sorted;
    PricesAt(l);
    var s := Prices(l);
    if |l| > 2 {
      forall low, high | 2 * |Outsiders(l, low, high)| < |l| ensures low <= Median(Trimmed(s)) <= high {
        OutsideCounts(l, low, high);
        PriceIsInside(s, low, high);
      }
    }
  }

  /** Of an even number of prices the median is the mean of the two in the middle, rounded down. */
  lemma MedianOfEven(s: seq<int>)
    requires |s| > 2 && |s| % 2 == 0
    ensures |Sorted(s)| == |s|
    ensures var t, mid := Sorted(s), |s| / 2;
            2 * Median(Trimmed(s)) <= t[mid - 1] + t[mid] <= 2 * Median(Trimmed(s)) + 1
  {
    TrimmingKeepsMedian(s);
    SortedAscends(s);
  }

  /** PriceFromData, on parsed data. */
  function PriceFrom(l: seq<PriceEntry>, total: nat, stake: nat -> int): Result<int> {
    if StakeOf(l, stake) <= 2 * total / 3 then Err
    else if Trimmed(Prices(l)) == [] then Err
    else Ok(Median(Trimmed(Prices(l))))
  }

  /** The stake behind parsed data is that of its accounts, each counted once. */
  lemma {:induction false} BackingIs(l: seq<PriceEntry>, stake: nat -> int)
    requires Canonical(l, -1)
    ensures StakeOf(l, stake) == Backing(l, stake)
  {
    forall i, j | 0 <= i < j < |l| ensures l[i].id < l[j].id { CanonicalIds(l, -1, i, j); }
    StakeIsSum(l, stake);
  }

  method PriceFromData(data: seq<byte>, total: nat, stake: nat -> int) returns (r: Result<int>)
    ensures r == if Parse(data, -1).Ok? then PriceFrom(Parse(data, -1).value, total, stake) else Err
    ensures r.Ok? ==> Parse(data, -1).Ok? && Represents(Parse(data, -1).value, r.value)
    ensures r.Ok? <==> Parse(data, -1).Ok? && Parse(data, -1).value != [] && 3 * Backing(Parse(data, -1).value, stake) > 2 * total
  {
    hide Trimmed, Median, Represents, Parse;
    var ok, _, prices, staked, l := ParsePriceData(data, stake);
    if !ok { return Err; }
    ParseSound(data, -1);
    BackingIs(l, stake);
    NoPricesNoStake(l, stake);
    if l != [] { MedianRepresents(l); }
    if staked <= 2 * total / 3 { return Err; }
    var kept := Trimmed(prices);
    if |kept| == 0 { return Err; }
    return Ok(Median(kept));
  }

  /** The price a producer puts into its block: the parent's when there is none. */
  function ProducedPrice(l: seq<PriceEntry>, total: nat, stake: nat -> int, parentPrice: int): int {
    var p := PriceFrom(l, total, stake);
    if p.Ok? then p.value else parentPrice
  }

  lemma {:induction false} NoPricesNoStake(l: seq<PriceEntry>, stake: nat -> int)
    ensures |Prices(l)| == |l|
    ensures Trimmed(Prices(l)) == [] ==> StakeOf(l, stake) == 0
  {
    hide Sorted;
    if l != [] { NoPricesNoStake(l[..|l| - 1], stake); }
  }

  /** VerifyPriceOracle accepts the producer's price for readable data, and no other. */
  method VerifyPriceOracle(total: nat, price: int, data: seq<byte>, fallback: int, stake: nat -> int) returns (ok: bool)
    ensures ok <==> Parse(data, -1).Ok? && price == ProducedPrice(Parse(data, -1).value, total, stake, fallback)
    ensures ok ==>
              Parse(data, -1).Ok? && var l := Parse(data, -1).value;
              if l != [] && 3 * Backing(l, stake) > 2 * total then Represents(l, price) else price == fallback
  {
    hide Median, Parse, StakeOf, Represents, Backing;
    var parsedOk, _, prices, staked, l := ParsePriceData(data, stake);
    if !parsedOk { return false; }
    ParseSound(data, -1);
    BackingIs(l, stake);
    if l != [] { MedianRepresents(l); }
    if staked <= 2 * total / 3 { return price == fallback; }
    NoPricesNoStake(l, stake);
    var kept := Trimmed(prices);
    if |kept| == 0 { return false; }
    return price == Median(kept);
  }
}
