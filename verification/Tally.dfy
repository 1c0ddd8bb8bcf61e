/** Weighing scheme votes by stake: the proofs of a block, who may sign them, and the two
    quorums of a scheme change (blocks/encryptionVote.go, blocks/oracleProofs.go). */
module Tally {
  import opened Basics
  import opened Sums
  import Staking
  import opened Nonces
  import opened Operators
  import opened Schemes
  import Wire

  /** A proof as decoding gives it. */
  type Proof = Result<Nonce>

  // ---------------------------------------------------------------- stake of a set of accounts

  ghost function Stakes(s: Snapshot, ids: set<nat>): map<nat, int>
    requires s.standings.Valid()
  {
    map n: nat | n in ids && n < 256 :: s.standings.total[n]
  }

  ghost function Weight(s: Snapshot, ids: set<nat>): int
    requires s.standings.Valid()
  {
    Sum(Stakes(s, ids))
  }

  lemma {:induction false} WeightAdd(s: Snapshot, ids: set<nat>, n: nat)
    requires s.standings.Valid() && n !in ids && n < 256
    ensures Weight(s, ids + {n}) == Weight(s, ids) + s.standings.total[n]
  {
    assert Stakes(s, ids + {n}) == Stakes(s, ids)[n := s.standings.total[n]];
    SumUpdate<nat>(Stakes(s, ids), n, s.standings.total[n]);
  }

  lemma WeightNone(s: Snapshot)
    requires s.standings.Valid()
    ensures Weight(s, {}) == 0
  {
    assert Stakes(s, {}) == map[];
    SumEmpty<nat>();
  }

  ghost predicate Accounts(s: Snapshot, ids: set<nat>) {
    s.standings.Valid() && forall n :: n in ids ==> n < 256 && s.standings.total[n] >= 0
  }

  lemma Smaller(s: Snapshot, a: set<nat>, b: set<nat>)
    requires a <= b && Accounts(s, b)
    ensures Accounts(s, a) && s.standings.Valid() && forall n :: n in b ==> n < 256
  {
  }

  lemma {:induction false} WeightUnion(s: Snapshot, a: set<nat>, b: set<nat>)
    requires Accounts(s, a) && Accounts(s, b)
    ensures Weight(s, a + b) + Weight(s, a * b) == Weight(s, a) + Weight(s, b)
    decreases |b|
  {
    hide Weight;
    if b == {} {
      assert a + b == a && a * b == {};
      WeightNone(s);
    } else {
      var n :| n in b;
      WeightUnion(s, a, b - {n});
      UnionStep(s, a, b - {n}, n);
      assert b - {n} + {n} == b;
    }
  }

  lemma {:induction false} UnionStep(s: Snapshot, a: set<nat>, b: set<nat>, n: nat)
    requires s.standings.Valid() && n < 256 && n !in b
    requires Weight(s, a + b) + Weight(s, a * b) == Weight(s, a) + Weight(s, b)
    ensures Weight(s, a + (b + {n})) + Weight(s, a * (b + {n})) == Weight(s, a) + Weight(s, b + {n})
  {
    hide Weight;
    WeightAdd(s, b, n);
    if n in a {
      assert a + (b + {n}) == a + b && a * (b + {n}) == a * b + {n};
      WeightAdd(s, a * b, n);
    } else {
      assert a + (b + {n}) == a + b + {n} && a * (b + {n}) == a * b;
      WeightAdd(s, a + b, n);
    }
  }

  lemma {:induction false} WeightNonNegative(s: Snapshot, a: set<nat>)
    requires Accounts(s, a)
    ensures Weight(s, a) >= 0
  {
    SumNonNegative<nat>(Stakes(s, a));
  }

  lemma {:induction false} WeightWithin(s: Snapshot, a: set<nat>, b: set<nat>)
    requires a <= b && Accounts(s, b)
    ensures Weight(s, a) <= Weight(s, b)
  {
    hide Weight;
    WeightUnion(s, a, b - a);
    assert a + (b - a) == b && a * (b - a) == {};
    WeightNone(s);
    WeightNonNegative(s, b - a);
  }

  /** GetStakedInEligibleDelegatedAccounts: the stake that can vote. */
  method EligibleTotal(s: Snapshot) returns (sum: int)
    requires s.Valid()
    ensures sum == Weight(s, EligibleSet(s))
  {
    hide Weight, Eligible, StakedIn;
    sum := 0;
    ghost var done: set<nat> := {};
    WeightNone(s);
    for id := 1 to 256
      invariant sum == Weight(s, done)
      invariant done == set n: nat | n < id && n < 256 && n > 0 && Eligible(s, n)
    {
      var _, ok := EligibleOperator(s, id);
      if ok {
        WeightAdd(s, done, id);
        sum := sum + s.standings.total[id];
        done := done + {id};
      }
    }
    assert done == EligibleSet(s) by { NotZero(s); }
  }

  lemma NotZero(s: Snapshot)
    requires s.Valid()
    ensures !Eligible(s, 0)
  {
  }

  // ---------------------------------------------------------------- signers

  /** The delegated accounts named by the proofs. */
  ghost function Ids(proofs: seq<Proof>): set<nat> {
    if proofs == [] then {}
    else
      var p := proofs[|proofs| - 1];
      Ids(proofs[..|proofs| - 1]) + (if p.Ok? && Extract(p.value).Ok? then {Extract(p.value).value.0} else {})
  }

  /** A proof that names an eligible account and is sent by its operator. */
  ghost predicate Signed(s: Snapshot, p: Proof)
    requires s.Valid()
  {
    p.Ok? && Extract(p.value).Ok? && Eligible(s, Extract(p.value).value.0) &&
    IsBest(s.entries, Extract(p.value).value.0, p.value.sender)
  }

  /** authorizeOracleProofSigners. */
  method AuthorizeSigners(s: Snapshot, proofs: seq<Proof>) returns (ok: bool)
    requires s.Valid()
    ensures ok <==> forall i :: 0 <= i < |proofs| ==> Signed(s, proofs[i])
  {
    hide Eligible, IsBest, Extract;
    for i := 0 to |proofs|
      invariant forall j :: 0 <= j < i ==> Signed(s, proofs[j])
    {
      if proofs[i].Err? { return false; }
      var e := Extract(proofs[i].value);
      if e.Err? { return false; }
      var top := IsTop128(s, e.value.0, proofs[i].value.sender);
      if !top { return false; }
    }
    return true;
  }

  /** filterAuthorizedOracleProofs: what a producer keeps, so that its block is not refused. */
  method KeepSigned(s: Snapshot, proofs: seq<Proof>) returns (kept: seq<Proof>)
    requires s.Valid()
    ensures forall i :: 0 <= i < |kept| ==> Signed(s, kept[i])
    ensures forall p :: p in kept <==> p in proofs && Signed(s, p)
  {
    hide Eligible, IsBest, Extract;
    kept := [];
    for i := 0 to |proofs|
      invariant forall p :: p in kept <==> p in proofs[..i] && Signed(s, p)
    {
      assert proofs[..i + 1] == proofs[..i] + [proofs[i]];
      if proofs[i].Ok? && Extract(proofs[i].value).Ok? {
        var top := IsTop128(s, Extract(proofs[i].value).value.0, proofs[i].value.sender);
        if top { kept := kept + [proofs[i]]; }
      }
    }
    assert proofs[..|proofs|] == proofs;
  }

  lemma {:induction false} SignedAreEligible(s: Snapshot, proofs: seq<Proof>)
    requires s.Valid() && forall i :: 0 <= i < |proofs| ==> Signed(s, proofs[i])
    ensures Ids(proofs) <= EligibleSet(s)
  {
    hide IsBest, Extract;
    if proofs != [] {
      assert Signed(s, proofs[|proofs| - 1]);
      SignedAreEligible(s, proofs[..|proofs| - 1]);
    }
  }

  // ---------------------------------------------------------------- votes

  /** What a proof votes for in a slot; nothing when its data cannot be read. */
  function VoteOf(tx: Nonce, primary: bool): seq<byte> {
    var v := Votes(tx);
    if v.Err? then [] else if primary then v.value.0 else v.value.1
  }

  /** The accounts whose first proof votes for `want`. */
  ghost function Voters(proofs: seq<Proof>, primary: bool, want: seq<byte>): set<nat> {
    if proofs == [] then {}
    else
      var before, p := proofs[..|proofs| - 1], proofs[|proofs| - 1];
      Voters(before, primary, want) +
      (if p.Ok? && Extract(p.value).Ok? && Extract(p.value).value.0 !in Ids(before) &&
          VoteOf(p.value, primary) != [] && VoteOf(p.value, primary) == want
       then {Extract(p.value).value.0} else {})
  }

  /** A nonce written with two votes votes with the first for the primary slot, with the second for the
      other. */
  lemma VotesAreRead(tx: Nonce, head: seq<byte>, price: Wire.int64, unused: seq<byte>, v1: seq<byte>, v2: seq<byte>)
    requires |head| == PRICE_OFFSET && |unused| == 8 && |v1| < Wire.TWO_32 && |v2| < Wire.TWO_32
    requires tx.optData == head + Wire.PutInt64(price) + unused + (WithLength(v1) + WithLength(v2))
    requires 0 < Staking.DelegatedNumber(tx.recipient) < 256 && tx.amount == 0
    ensures VoteOf(tx, true) == v1 && VoteOf(tx, false) == v2
  {
    hide Votes, Extract;
    VotesComeBack(tx, head, price, unused, v1, v2);
  }

  predicate Naming(p: Proof, n: nat) {
    p.Ok? && Extract(p.value).Ok? && Extract(p.value).value.0 == n
  }

  /** n votes for `want` exactly if the first proof that names it does. */
  lemma {:induction false} VotersMean(proofs: seq<Proof>, primary: bool, want: seq<byte>, n: nat)
    ensures n in Ids(proofs) <==> exists i :: 0 <= i < |proofs| && Naming(proofs[i], n)
    ensures n in Voters(proofs, primary, want) <==>
              exists i :: 0 <= i < |proofs| && Naming(proofs[i], n) && want != [] && VoteOf(proofs[i].value, primary) == want
                          && forall j :: 0 <= j < i ==> !Naming(proofs[j], n)
  {
    hide Extract, VoteOf;
    if proofs != [] {
      var front, last := proofs[..|proofs| - 1], |proofs| - 1;
      VotersMean(front, primary, want, n);
      assert forall i :: 0 <= i < last ==> front[i] == proofs[i];
      if n in Ids(front) {
        var i :| 0 <= i < last && Naming(front[i], n);
        assert Naming(proofs[i], n);
      }
    }
  }

  /** An account votes for one config only, and only accounts with a proof vote. */
  lemma {:induction false} OneVoteEach(proofs: seq<Proof>, primary: bool, a: seq<byte>, b: seq<byte>)
    requires a != b
    ensures Voters(proofs, primary, a) !! Voters(proofs, primary, b)
    ensures Voters(proofs, primary, a) <= Ids(proofs) && Voters(proofs, primary, b) <= Ids(proofs)
  {
    hide Extract, VoteOf;
    if proofs != [] { OneVoteEach(proofs[..|proofs| - 1], primary, a, b); }
  }

  /** tallyEncryptionVotes. */
  method TallyVotes(s: Snapshot, proofs: seq<Proof>, primary: bool, want: seq<byte>) returns (r: Result<int>)
    requires s.Valid()
    ensures r.Err? <==> exists i :: 0 <= i < |proofs| && (proofs[i].Err? || Extract(proofs[i].value).Err?)
    ensures r.Ok? ==> r.value == Weight(s, Voters(proofs, primary, want))
  {
    hide Weight, Extract, VoteOf, StakedIn, Voters, Ids;
    var staked := 0;
    NoProofs(primary, want);
    var seen: set<nat> := {};
    WeightNone(s);
    for i := 0 to |proofs|
      invariant seen == Ids(proofs[..i])
      invariant staked == Weight(s, Voters(proofs[..i], primary, want))
      invariant forall j :: 0 <= j < i ==> proofs[j].Ok? && Extract(proofs[j].value).Ok?
    {
      if proofs[i].Err? { return Err; }
      var e := Extract(proofs[i].value);
      if e.Err? { return Err; }
      ExtractedId(proofs[i].value);
      var id := e.value.0;
      VotersAreIds(proofs[..i], primary, want);
      NextProof(proofs, i, primary, want);
      if id !in seen {
        seen := seen + {id};
        var v := VoteOf(proofs[i].value, primary);
        if |v| > 0 && v == want {
          WeightAdd(s, Voters(proofs[..i], primary, want), id);
          staked := staked + s.standings.total[id];
        }
      }
    }
    assert proofs[..|proofs|] == proofs;
    return Ok(staked);
  }

  lemma NoProofs(primary: bool, want: seq<byte>)
    ensures Voters([], primary, want) == {} && Ids([]) == {}
  {
  }

  lemma NextProof(proofs: seq<Proof>, i: nat, primary: bool, want: seq<byte>)
    requires i < |proofs| && proofs[i].Ok? && Extract(proofs[i].value).Ok?
    ensures var id, v := Extract(proofs[i].value).value.0, VoteOf(proofs[i].value, primary);
            && Ids(proofs[..i + 1]) == Ids(proofs[..i]) + {id}
            && Voters(proofs[..i + 1], primary, want) ==
                 if id !in Ids(proofs[..i]) && v != [] && v == want then Voters(proofs[..i], primary, want) + {id}
                 else Voters(proofs[..i], primary, want)
  {
    hide Extract, VoteOf;
    assert proofs[..i + 1][..i] == proofs[..i];
  }

  lemma ExtractedId(tx: Nonce)
    ensures Extract(tx).Ok? ==> 0 < Extract(tx).value.0 < 256
  {
  }

  lemma {:induction false} VotersAreIds(proofs: seq<Proof>, primary: bool, want: seq<byte>)
    ensures Voters(proofs, primary, want) <= Ids(proofs)
  {
    OneVoteEach(proofs, primary, want, want + [0]);
  }

  /** voteThresholdMet. */
  predicate ThresholdMet(parent: Config, next: Config, staked: int, total: int) {
    && staked > 0 && total > 0
    && (if next.name == parent.name && next.paused && !parent.paused then staked * 3 >= total
        else staked * 3 >= total * 2)
  }

  predicate TwoThirds(staked: int, total: int) {
    staked > 0 && total > 0 && staked * 3 >= total * 2
  }

  lemma {:induction false} EligibleAccounts(s: Snapshot)
    requires s.Valid()
    ensures Accounts(s, EligibleSet(s))
  {
    hide StakedIn, AheadOf;
  }

  /** What signed proofs vote for never exceeds the stake that can vote. */
  lemma {:induction false} VotesWithinTotal(s: Snapshot, proofs: seq<Proof>, primary: bool, want: seq<byte>)
    requires s.Valid() && forall i :: 0 <= i < |proofs| ==> Signed(s, proofs[i])
    ensures Voters(proofs, primary, want) <= EligibleSet(s)
    ensures 0 <= Weight(s, Voters(proofs, primary, want)) <= Weight(s, EligibleSet(s))
  {
    hide Weight, Signed, Voters, Ids, Eligible, Accounts, EligibleSet;
    SignedAreEligible(s, proofs);
    VotersAreIds(proofs, primary, want);
    EligibleAccounts(s);
    WeightWithin(s, Voters(proofs, primary, want), EligibleSet(s));
    WeightWithin(s, {}, Voters(proofs, primary, want)) by { Smaller(s, Voters(proofs, primary, want), EligibleSet(s)); }
    WeightNone(s);
  }

  /** Two configs cannot both win one slot of one block. */
  lemma {:induction false} NoTwoMajorities(s: Snapshot, proofs: seq<Proof>, primary: bool, a: seq<byte>, b: seq<byte>)
    requires s.Valid() && a != b
    requires forall i :: 0 <= i < |proofs| ==> Signed(s, proofs[i])
    ensures !(TwoThirds(Weight(s, Voters(proofs, primary, a)), Weight(s, EligibleSet(s))) &&
              TwoThirds(Weight(s, Voters(proofs, primary, b)), Weight(s, EligibleSet(s))))
  {
    hide Weight, Signed, Voters, Ids, Eligible, Accounts, EligibleSet;
    var va, vb, all := Voters(proofs, primary, a), Voters(proofs, primary, b), EligibleSet(s);
    OneVoteEach(proofs, primary, a, b);
    VotesWithinTotal(s, proofs, primary, a);
    VotesWithinTotal(s, proofs, primary, b);
    EligibleAccounts(s);
    Smaller(s, va, all);
    Smaller(s, vb, all);
    WeightUnion(s, va, vb);
    assert va * vb == {};
    WeightNone(s);
    WeightWithin(s, va + vb, all);
  }

  // ---------------------------------------------------------------- the un-pause quorum

  /** The operator GetStakedInDelegatedAccount names. */
  ghost function KeyOperator(s: Snapshot, n: nat): Staking.Address {
    if exists a: Staking.Address :: IsBest(s.entries, n, a) && s.entries[(n, a)].staked > 0
    then var a: Staking.Address :| IsBest(s.entries, n, a) && s.entries[(n, a)].staked > 0; a
    else Staking.ZERO_ADDRESS
  }

  /** Eligible accounts whose operator has registered a key of the scheme. */
  ghost function Holders(s: Snapshot, hasKey: KeyTest, primary: bool, keyLength: nat): set<nat>
    requires s.Valid()
  {
    set n: nat | n < 256 && Eligible(s, n) && hasKey(KeyOperator(s, n), primary, keyLength)
  }

  /** stakeAndOperatorOfDelegated. */
  method StakeAndOperator(s: Snapshot, n: nat) returns (staked: int, operator: Staking.Address)
    requires s.Valid() && 0 < n < 256
    ensures Eligible(s, n) ==> staked == s.standings.total[n] > 0 && operator == KeyOperator(s, n)
    ensures !Eligible(s, n) ==> staked == 0
  {
    hide AheadOf, StakedIn;
    var best, ok := EligibleOperator(s, n);
    if !ok { return 0, Staking.ZERO_ADDRESS; }
    var _, sum, named := StakedInDelegatedAccount(s.entries, n);
    SecondSelection(s, n, best, named);
    return sum, named;
  }

  lemma {:induction false} SecondSelection(s: Snapshot, n: nat, best: Staking.Address, named: Staking.Address)
    requires IsBest(s.entries, n, best)
    requires forall k :: k in s.entries ==> s.entries[k].staked >= 0
    requires forall a: Staking.Address :: IsBest(s.entries, n, a) && s.entries[(n, a)].staked > 0 ==> named == a
    requires (forall a: Staking.Address :: Operates(s.entries, n, a) ==> s.entries[(n, a)].staked == 0) ==> named == Staking.ZERO_ADDRESS
    ensures named == KeyOperator(s, n)
  {
    if s.entries[(n, best)].staked == 0 {
      forall a: Staking.Address | Operates(s.entries, n, a) ensures s.entries[(n, a)].staked == 0 {
        if a != best { assert Better(CandidateOf(s.entries, (n, best)), CandidateOf(s.entries, (n, a))); }
      }
    }
  }

  /** The summing loop of checkUnpauseKeyQuorum. */
  method StakeWithKeys(s: Snapshot, hasKey: KeyTest, primary: bool, keyLength: nat) returns (withKeys: int)
    requires s.Valid()
    ensures withKeys == Weight(s, Holders(s, hasKey, primary, keyLength))
  {
    hide Weight, Eligible, StakedIn, KeyOperator;
    withKeys := 0;
    ghost var done: set<nat> := {};
    WeightNone(s);
    for id := 1 to 256
      invariant withKeys == Weight(s, done)
      invariant done == set n: nat | 0 < n < id && n < 256 && Eligible(s, n) && hasKey(KeyOperator(s, n), primary, keyLength)
    {
      var staked, operator := StakeAndOperator(s, id);
      if staked > 0 && hasKey(operator, primary, keyLength) {
        WeightAdd(s, done, id);
        withKeys := withKeys + staked;
        done := done + {id};
      }
    }
    assert done == Holders(s, hasKey, primary, keyLength) by { NotZero(s); }
  }

  /** Two sets of two thirds share a third. */
  lemma {:induction false} Overlap(s: Snapshot, a: set<nat>, b: set<nat>, all: set<nat>)
    requires Accounts(s, all) && a <= all && b <= all
    requires Weight(s, a) * 3 >= Weight(s, all) * 2 && Weight(s, b) * 3 >= Weight(s, all) * 2
    ensures Weight(s, a * b) * 3 >= Weight(s, all)
  {
    hide Weight;
    WeightUnion(s, a, b);
    WeightWithin(s, a + b, all);
  }

  // ---------------------------------------------------------------- the whole check

  /** What one slot of an accepted block owes: nothing, or a change with its quorum. */
  ghost predicate SlotJustified(r: Reader, s: Snapshot, proofs: seq<Proof>, hasKey: KeyTest,
                                parent: Header, child: Header, primary: bool)
    requires s.Valid()
  {
    var want, total := Slot(child, primary), Weight(s, EligibleSet(s));
    CheckShape(r, want, parent, primary).Ok? &&
    (Changed(r, parent, child, primary) ==>
      && r.parse(want).Ok? && SlotConfig(r, parent, primary).Ok?
      && ThresholdMet(SlotConfig(r, parent, primary).value, r.parse(want).value,
                      Weight(s, Voters(proofs, primary, want)), total)
      && (IsUnpause(SlotConfig(r, parent, primary).value, r.parse(want).value) ==>
            total > 0 && Weight(s, Holders(s, hasKey, primary, r.parse(want).value.keyLength)) * 3 >= total * 2))
  }

  /** encryptionChangeAuthorised and checkUnpauseKeyQuorum for one slot. */
  method VerifySlot(r: Reader, s: Snapshot, proofs: seq<Proof>, hasKey: KeyTest, parent: Header, child: Header, primary: bool)
      returns (ok: bool)
    requires s.Valid() && forall i :: 0 <= i < |proofs| ==> Signed(s, proofs[i])
    ensures ok <==> SlotJustified(r, s, proofs, hasKey, parent, child, primary)
  {
    hide Weight, Eligible, EligibleSet, Voters, Holders, IsBest, Extract;
    var want := Slot(child, primary);
    var changed := CheckShape(r, want, parent, primary);
    if changed.Err? { return false; }
    if !changed.value { return true; }
    var next, cur := r.parse(want), SlotConfig(r, parent, primary);
    if next.Err? || cur.Err? { return false; }
    var staked := TallyVotes(s, proofs, primary, want);
    if staked.Err? { return false; }
    var total := EligibleTotal(s);
    if !ThresholdMet(cur.value, next.value, staked.value, total) { return false; }
    if !IsUnpause(cur.value, next.value) { return true; }
    if total <= 0 { return false; }
    var withKeys := StakeWithKeys(s, hasKey, primary, next.value.keyLength);
    return withKeys * 3 >= total * 2;
  }

  /** The slot pauses its live scheme under its own name. */
  predicate Pauses(r: Reader, parent: Header, child: Header, primary: bool) {
    var next, cur := r.parse(Slot(child, primary)), SlotConfig(r, parent, primary);
    next.Ok? && cur.Ok? && next.value.name == cur.value.name && next.value.paused && !cur.value.paused
  }

  /** Every change that is not a pause has two thirds of the stake behind it, a pause one third. */
  lemma ChangeIsBacked(r: Reader, s: Snapshot, proofs: seq<Proof>, hasKey: KeyTest, parent: Header, child: Header, primary: bool)
    requires s.Valid() && SlotJustified(r, s, proofs, hasKey, parent, child, primary) && Changed(r, parent, child, primary)
    ensures var staked, total := Weight(s, Voters(proofs, primary, Slot(child, primary))), Weight(s, EligibleSet(s));
            && staked > 0 && total > 0 && 3 * staked >= total
            && (!Pauses(r, parent, child, primary) ==> 3 * staked >= 2 * total)
  {
    hide Weight, Voters, EligibleSet, Holders;
  }

  /** A pause that a third of the stake votes for is justified, whoever holds which key. */
  lemma PauseNeedsAThird(r: Reader, s: Snapshot, proofs: seq<Proof>, hasKey: KeyTest, parent: Header, child: Header, primary: bool)
    requires s.Valid() && Changed(r, parent, child, primary) && Pauses(r, parent, child, primary)
    requires Weight(s, EligibleSet(s)) > 0 && 3 * Weight(s, Voters(proofs, primary, Slot(child, primary))) >= Weight(s, EligibleSet(s))
    ensures SlotJustified(r, s, proofs, hasKey, parent, child, primary)
  {
    hide Weight, Voters, EligibleSet, Holders;
  }

  /** Any other change that two thirds vote for is justified, an un-pause if two thirds have its key. */
  lemma OthersNeedTwoThirds(r: Reader, s: Snapshot, proofs: seq<Proof>, hasKey: KeyTest, parent: Header, child: Header, primary: bool)
    requires s.Valid() && Changed(r, parent, child, primary)
    requires var total, next := Weight(s, EligibleSet(s)), r.parse(Slot(child, primary));
             && total > 0 && 3 * Weight(s, Voters(proofs, primary, Slot(child, primary))) >= 2 * total
             && (next.Ok? && !next.value.paused ==> 3 * Weight(s, Holders(s, hasKey, primary, next.value.keyLength)) >= 2 * total)
    ensures SlotJustified(r, s, proofs, hasKey, parent, child, primary)
  {
    hide Weight, Voters, EligibleSet, Holders;
  }

  /** The same proofs do not justify two different changes of one slot, unless both are pauses. */
  lemma {:induction false} OneChangeEach(r: Reader, s: Snapshot, proofs: seq<Proof>, hasKey: KeyTest, parent: Header,
                                         one: Header, other: Header, primary: bool)
    requires s.Valid() && forall i :: 0 <= i < |proofs| ==> Signed(s, proofs[i])
    requires Slot(one, primary) != Slot(other, primary)
    requires SlotJustified(r, s, proofs, hasKey, parent, one, primary) && Changed(r, parent, one, primary)
    requires SlotJustified(r, s, proofs, hasKey, parent, other, primary) && Changed(r, parent, other, primary)
    ensures Pauses(r, parent, one, primary) && Pauses(r, parent, other, primary)
  {
    hide SlotJustified, Signed, Weight, Voters, Changed, EligibleSet, Pauses;
    LiveIsPaused(r, parent, one, primary);
    LiveIsPaused(r, parent, other, primary);
    if !Pauses(r, parent, one, primary) {
      ChangeIsBacked(r, s, proofs, hasKey, parent, one, primary);
      ChangeIsBacked(r, s, proofs, hasKey, parent, other, primary);
      NoTwoMajorities(s, proofs, primary, Slot(one, primary), Slot(other, primary));
    }
  }

  /** A live slot can only be paused, and only a live one can be. */
  lemma LiveIsPaused(r: Reader, parent: Header, child: Header, primary: bool)
    requires Changed(r, parent, child, primary)
    ensures SlotConfig(r, parent, primary).Ok?
    ensures Pauses(r, parent, child, primary) <==> !SlotConfig(r, parent, primary).value.paused
  {
  }

  /** AuthorizeOracleProofSigners, then VerifyEncryptionVotes over both slots. */
  method VerifyVotes(r: Reader, s: Snapshot, proofs: seq<Proof>, hasKey: KeyTest, parent: Header, child: Header)
      returns (ok: bool)
    requires s.Valid()
    ensures ok <==>
      && (forall i :: 0 <= i < |proofs| ==> Signed(s, proofs[i]))
      && SlotJustified(r, s, proofs, hasKey, parent, child, true)
      && SlotJustified(r, s, proofs, hasKey, parent, child, false)
    ensures ok ==> Follows(r, parent, child)
  {
    hide Signed;
    ok := AuthorizeSigners(s, proofs);
    if ok { ok := VerifySlot(r, s, proofs, hasKey, parent, child, true); } else { return; }
    if ok { ok := VerifySlot(r, s, proofs, hasKey, parent, child, false); }
  }

  /** In an accepted un-pause, a third of the stake that can vote both votes for the scheme and
      has registered a key of it. */
  lemma {:induction false} UnpauseIsBacked(r: Reader, s: Snapshot, proofs: seq<Proof>, hasKey: KeyTest,
                                           parent: Header, child: Header, primary: bool)
    requires s.Valid() && forall i :: 0 <= i < |proofs| ==> Signed(s, proofs[i])
    requires SlotJustified(r, s, proofs, hasKey, parent, child, primary) && Changed(r, parent, child, primary)
    requires IsUnpause(SlotConfig(r, parent, primary).value, r.parse(Slot(child, primary)).value)
    ensures var want := Slot(child, primary);
            var both := Voters(proofs, primary, want) * Holders(s, hasKey, primary, r.parse(want).value.keyLength);
            both <= EligibleSet(s) && Weight(s, both) * 3 >= Weight(s, EligibleSet(s)) > 0
  {
    hide Weight, Signed, Voters, Eligible, Accounts;
    var want := Slot(child, primary);
    VotesWithinTotal(s, proofs, primary, want);
    EligibleAccounts(s);
    Overlap(s, Voters(proofs, primary, want), Holders(s, hasKey, primary, r.parse(want).value.keyLength), EligibleSet(s));
  }

  /** For a block that pauses the primary and renames the spare, it makes no difference to the votes
      who holds a key of anything. */
  lemma {:induction false} NobodyNeedsTheKey(r: Reader, s: Snapshot, proofs: seq<Proof>, one: KeyTest, other: KeyTest,
                                             parent: Header, child: Header, primary: bool)
    requires s.Valid() && ValidReader(r) && Readable(r, parent) && Follows(r, parent, child) && Readable(r, child)
    requires PausesAndRenames(r, parent, child)
    ensures SlotJustified(r, s, proofs, one, parent, child, primary) <==> SlotJustified(r, s, proofs, other, parent, child, primary)
  {
    hide Weight, Voters, Holders, EligibleSet, ThresholdMet;
    LiveSchemeIsKnown(r, parent, child);
  }
}
