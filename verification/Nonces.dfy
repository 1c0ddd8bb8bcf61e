/** Oracle nonces: what a validator signs into its nonce transaction, and how blocks read it
    (blocks/oracleProofs.go, blocks/encryptionVote.go, common/helper.go). */
module Nonces {
  import opened Basics
  import opened Wire
  import Staking

  /** 8 bytes of height, 32 of the parent hash, 8 of price and 8 no longer used. */
  const PRICE_OFFSET := 40
  const ORACLE_DATA_LENGTH := 56

  datatype Result<T> = Ok(value: T) | Err

  /** The parts of a decoded nonce transaction that are read here. */
  datatype Nonce = Nonce(recipient: Staking.Address, sender: Staking.Address, amount: int, height: int64, optData: seq<byte>)

  datatype Submission = Submission(height: int64, price: int64)

  /** extractOracleSubmission. */
  function Extract(tx: Nonce): Result<(nat, Submission)> {
    var id := Staking.DelegatedNumber(tx.recipient);
    if id == 0 || id >= 256 then Err
    else if tx.amount != 0 then Err
    else if |tx.optData| < ORACLE_DATA_LENGTH then Err
    else Ok((id, Submission(tx.height, Int64(tx.optData[PRICE_OFFSET..PRICE_OFFSET + 8]))))
  }

  /** A submission is read exactly from a nonce without amount, sent to a delegated account, with room
      for the oracle values; the price stands after height and parent hash. */
  lemma ExtractMeans(tx: Nonce, id: nat, s: Submission)
    ensures Extract(tx) == Ok((id, s)) <==>
              && 0 < id < 256 && tx.recipient == Staking.DelegatedAddress(id) && tx.amount == 0 && |tx.optData| >= 56
              && s.height == tx.height && s.price == Int64(tx.optData[40..48])
  {
    hide Staking.DelegatedNumber, Staking.DelegatedAddress, Int64;
    var n := Staking.DelegatedNumber(tx.recipient);
    if n > 0 { Staking.DelegatedExactly(tx.recipient, n); }
    if id > 0 { Staking.DelegatedExactly(tx.recipient, id); }
  }

  /** BytesToLenAndBytes. */
  function WithLength(b: seq<byte>): seq<byte> {
    PutUint32(|b|) + b
  }

  /** BytesWithLenToBytes: the bytes announced by the length in front, and what follows. */
  function SplitLength(b: seq<byte>): Result<(seq<byte>, seq<byte>)> {
    if |b| < 4 then Err
    else
      var n := Uint32(b[..4]);
      if n > |b| - 4 then Err else Ok((b[4..4 + n], b[4 + n..]))
  }

  /** proofVotes: one vote per slot, after the oracle values. */
  function Votes(tx: Nonce): Result<(seq<byte>, seq<byte>)> {
    if |tx.optData| < ORACLE_DATA_LENGTH then Err
    else
      var first := SplitLength(tx.optData[ORACLE_DATA_LENGTH..]);
      if first.Err? then Err
      else
        var second := SplitLength(first.value.1);
        if second.Err? then Err else Ok((first.value.0, second.value.0))
  }

  lemma SplitsWhatWasJoined(b: seq<byte>, rest: seq<byte>)
    requires |b| < TWO_32
    ensures SplitLength(WithLength(b) + rest) == Ok((b, rest))
  {
    var s := WithLength(b) + rest;
    assert s[..4] == PutUint32(|b|);
    Uint32RoundTrip(|b|);
    assert s[4..4 + |b|] == b && s[4 + |b|..] == rest;
  }

  /** A nonce written with two votes is read back with these votes and its price. */
  lemma VotesComeBack(tx: Nonce, head: seq<byte>, price: int64, unused: seq<byte>, v1: seq<byte>, v2: seq<byte>)
    requires |head| == PRICE_OFFSET && |unused| == 8 && |v1| < TWO_32 && |v2| < TWO_32
    requires tx.optData == head + PutInt64(price) + unused + (WithLength(v1) + WithLength(v2))
    requires 0 < Staking.DelegatedNumber(tx.recipient) < 256 && tx.amount == 0
    ensures Votes(tx) == Ok((v1, v2))
    ensures Extract(tx) == Ok((Staking.DelegatedNumber(tx.recipient), Submission(tx.height, price)))
  {
    hide LittleEndian, FromLittleEndian;
    var front := head + PutInt64(price) + unused;
    assert tx.optData[PRICE_OFFSET..PRICE_OFFSET + 8] == PutInt64(price);
    Int64RoundTrip(price);
    assert tx.optData[ORACLE_DATA_LENGTH..] == WithLength(v1) + WithLength(v2);
    SplitsWhatWasJoined(v1, WithLength(v2));
    SplitsWhatWasJoined(v2, []);
    assert WithLength(v2) + [] == WithLength(v2);
  }
}
