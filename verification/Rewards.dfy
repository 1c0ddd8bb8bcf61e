/** The block reward of account/reward.go and its distribution in blocks/processBlock.go. */
module Rewards {
  import opened Basics
  import opened Staking
  import opened Operators

  const MAX_TOTAL_SUPPLY := 230_000_000_000_000_000
  const SCALE := 10_000_000_000

  /** bits.Mul64: the 128-bit product as high and low word. */
  function Mul64(x: nat, y: nat): (nat, nat) {
    Words(x * y)
  }

  function Words(p: nat): (nat, nat) {
    (p / TWO_64, p % TWO_64)
  }

  /** bits.Add64 without an incoming carry: the sum and the carry. */
  function Add64(x: nat, y: nat): (nat, nat) {
    ((x + y) % TWO_64, (x + y) / TWO_64)
  }

  /** bits.Div64: the quotient of a 128-bit number. It panics unless y > hi. */
  function Div64(hi: nat, lo: nat, y: nat): nat
    requires y > hi && lo < TWO_64
  {
    (hi * TWO_64 + lo) / y
  }

  /** GetReward, with the reward ratio in units of 1e-10 as set at genesis. The reward is
      the remaining supply times the ratio, rounded half up; it never exceeds what remains. */
  function GetReward(supply: int, ratioE10: int): (r: nat)
    requires 0 <= supply && ratioE10 < SCALE
    ensures supply < MAX_TOTAL_SUPPLY && ratioE10 > 0 ==>
              2 * SCALE * r <= 2 * ((MAX_TOTAL_SUPPLY - supply) * ratioE10) + SCALE < 2 * SCALE * (r + 1)
    ensures supply >= MAX_TOTAL_SUPPLY || ratioE10 <= 0 ==> r == 0
    ensures supply <= MAX_TOTAL_SUPPLY ==> supply + r <= MAX_TOTAL_SUPPLY
  {
    var remaining := MAX_TOTAL_SUPPLY - supply;
    if remaining <= 0 || ratioE10 <= 0 then 0
    else
      ProductBound(remaining, ratioE10);
      var (hi, lo) := Mul64(remaining, ratioE10);
      var (lo', carry) := Add64(lo, SCALE / 2);
      WideSum(remaining * ratioE10);
      RoundHalfUp(remaining * ratioE10, remaining);
      Div64(hi + carry, lo', SCALE)
  }

  lemma ProductBound(remaining: int, ratio: int)
    requires 0 < remaining <= MAX_TOTAL_SUPPLY && 0 < ratio < SCALE
    ensures 0 < remaining * ratio <= remaining * SCALE <= MAX_TOTAL_SUPPLY * SCALE
  {
  }

  lemma WideSum(p: nat)
    requires p <= MAX_TOTAL_SUPPLY * SCALE
    ensures var (hi, lo) := Words(p);
            var (lo', carry) := Add64(lo, SCALE / 2);
            hi + carry < SCALE && lo' < TWO_64 && (hi + carry) * TWO_64 + lo' == p + SCALE / 2
  {
  }

  lemma RoundHalfUp(p: nat, remaining: nat)
    requires p <= remaining * SCALE
    ensures var r := (p + SCALE / 2) / SCALE;
            2 * SCALE * r <= 2 * p + SCALE < 2 * SCALE * (r + 1) && r <= remaining
  {
  }

  // ---------------------------------------------------------------- shares

  /** A staker's part of the reward, rounded down. */
  function Share(reward: int, sum: nat, stake: int): int
    requires sum > 0
  {
    if stake > 0 then reward * stake / sum else 0
  }

  /** What the loop over the stakers pays out in all. */
  function Shares(reward: int, sum: nat, accs: seq<(Address, int)>): int
    requires sum > 0
  {
    if accs == [] then 0
    else Shares(reward, sum, accs[..|accs| - 1]) + Share(reward, sum, accs[|accs| - 1].1)
  }

  lemma ShareBound(reward: nat, sum: nat, stake: int)
    requires sum > 0
    ensures 0 <= Share(reward, sum, stake)
    ensures stake >= 0 ==> sum * Share(reward, sum, stake) <= reward * stake
  {
    if stake > 0 { DivBound(reward * stake, sum); }
  }

  /** A share is the staker's exact part of the reward rounded down. */
  lemma ShareIsFloor(reward: nat, sum: nat, stake: int)
    requires sum > 0
    ensures stake > 0 ==> sum * Share(reward, sum, stake) <= reward * stake < sum * (Share(reward, sum, stake) + 1)
    ensures stake <= 0 ==> Share(reward, sum, stake) == 0
  {
    if stake > 0 { FloorBound(reward * stake, sum); }
  }

  lemma FloorBound(x: int, y: int)
    requires 0 < y
    ensures y * (x / y) <= x < y * (x / y + 1)
  {
  }

  lemma DivBound(x: int, y: int)
    requires 0 < y
    ensures y * (x / y) <= x
    ensures 0 <= x <==> 0 <= x / y
  {
  }

  lemma NegativeShare(reward: int, sum: nat, stake: int)
    requires sum > 0 && stake > 0 && reward < 0
    ensures Share(reward, sum, stake) < 0
  {
    assert reward * stake < 0;
    DivBound(reward * stake, sum);
  }

  /** Rounding down never pays out more than there is. */
  lemma {:induction false} SharesBound(reward: nat, sum: nat, accs: seq<(Address, int)>)
    requires sum > 0 && forall i :: 0 <= i < |accs| ==> accs[i].1 >= 0
    ensures 0 <= Shares(reward, sum, accs) && sum * Shares(reward, sum, accs) <= reward * ListTotal(accs)
  {
    if accs != [] {
      var front, last := accs[..|accs| - 1], accs[|accs| - 1].1;
      SharesBound(reward, sum, front);
      ShareBound(reward, sum, last);
      Distribute(sum, Shares(reward, sum, front), Share(reward, sum, last));
      Distribute(reward, ListTotal(front), last);
    }
  }

  lemma Distribute(a: int, b: int, c: int)
    ensures a * (b + c) == a * b + a * c
  {
  }

  /** So the remainder that goes to the operator is never negative. */
  lemma {:induction false} SharesWithin(reward: nat, sum: nat, accs: seq<(Address, int)>)
    requires sum > 0 && forall i :: 0 <= i < |accs| ==> accs[i].1 >= 0
    requires ListTotal(accs) == sum
    ensures 0 <= Shares(reward, sum, accs) <= reward
  {
    hide Shares, ListTotal;
    SharesBound(reward, sum, accs);
    CancelFactor(sum, Shares(reward, sum, accs), reward);
  }

  /** Rounding down loses less than one unit for each staker. */
  lemma {:induction false} SharesShort(reward: nat, sum: nat, accs: seq<(Address, int)>)
    requires sum > 0 && forall i :: 0 <= i < |accs| ==> accs[i].1 >= 0
    ensures reward * ListTotal(accs) <= sum * (Shares(reward, sum, accs) + |accs|)
    ensures accs != [] ==> reward * ListTotal(accs) < sum * (Shares(reward, sum, accs) + |accs|)
  {
    hide Share;
    if accs != [] {
      var front, last := accs[..|accs| - 1], accs[|accs| - 1].1;
      SharesShort(reward, sum, front);
      ShareIsFloor(reward, sum, last);
      Distribute(sum, Shares(reward, sum, front) + |front|, Share(reward, sum, last) + 1);
      Distribute(reward, ListTotal(front), last);
    }
  }

  /** So the remainder is smaller than the number of stakers. */
  lemma {:induction false} RemainderIsSmall(reward: nat, sum: nat, accs: seq<(Address, int)>)
    requires sum > 0 && forall i :: 0 <= i < |accs| ==> accs[i].1 >= 0
    requires ListTotal(accs) == sum
    ensures reward - Shares(reward, sum, accs) < |accs|
  {
    hide Shares;
    SharesShort(reward, sum, accs);
    assert accs != [];
    if reward >= Shares(reward, sum, accs) + |accs| { Multiples(sum, Shares(reward, sum, accs) + |accs|, reward); }
  }

  lemma Multiples(a: int, b: int, c: int)
    requires a >= 0 && b <= c
    ensures a * b <= c * a
  {
  }

  lemma CancelFactor(a: int, b: int, c: int)
    requires a > 0 && a * b <= c * a
    ensures b <= c
  {
  }

  lemma SharesSnoc(reward: int, sum: nat, accs: seq<(Address, int)>, i: nat)
    requires sum > 0 && i < |accs|
    ensures Shares(reward, sum, accs[..i + 1]) == Shares(reward, sum, accs[..i]) + Share(reward, sum, accs[i].1)
    ensures Names(accs[..i + 1]) == Names(accs[..i]) + {accs[i].0}
  {
    assert accs[..i + 1][..i] == accs[..i];
  }

  // ---------------------------------------------------------------- distribution

  /** Go's division, which truncates toward zero. */
  function TruncDiv(x: int, y: int): int
    requires y > 0
  {
    if x >= 0 then x / y else -(-x / y)
  }

  /** The operator's part: a percentage in tenths, computed in int64. */
  function OperatorPart(reward: int, perc: int): int {
    TruncDiv(Wrap64(reward * perc), 1000)
  }

  /** The operator's part is its percentage of the reward rounded down, as long as the product fits. */
  lemma PartIsFloor(reward: nat, perc: nat)
    requires reward * perc < TWO_63
    ensures 1000 * OperatorPart(reward, perc) <= reward * perc < 1000 * (OperatorPart(reward, perc) + 1)
    ensures perc <= 500 ==> 0 <= 2 * OperatorPart(reward, perc) <= reward
  {
    hide Wrap64, TruncDiv;
    Thousandth(reward * perc);
    if perc <= 500 { Multiples(reward, perc, 500); }
  }

  lemma Thousandth(p: nat)
    requires p < TWO_63
    ensures var t := TruncDiv(Wrap64(p), 1000); 0 <= 1000 * t <= p < 1000 * (t + 1)
  {
    hide Wrap64;
    WrapOnce(p);
  }

  /** What entry k is owed once the stakers in `paid` have had their share and the operator
      `extra` besides. */
  ghost function Due(before: map<Key, Entry>, k: Key, n: nat, paid: set<Address>, net: int, sum: nat,
                     operator: Address, extra: int): int
    requires sum > 0
  {
    if k.0 != n then 0
    else
      (if k in before && k.1 in paid then Share(net, sum, before[k].staked) else 0)
      + (if k.1 == operator then extra else 0)
  }

  /** Exactly the amounts due were added to the rewards, and nothing else but the log changed. */
  ghost predicate Paid(before: map<Key, Entry>, after: map<Key, Entry>, n: nat, paid: set<Address>, net: int, sum: nat,
                       operator: Address, extra: int)
    requires sum > 0
  {
    && (forall k :: k in before ==> k in after)
    && (forall k :: k in after && k !in before ==> k == (n, operator))
    && forall k :: k in after ==>
         var e := if k in before then before[k] else EMPTY_ENTRY;
         after[k] == e.(rewards := e.rewards + Due(before, k, n, paid, net, sum, operator, extra), details := after[k].details)
  }

  /** Every staker of n has gained its exact part of `net` rounded down, the operator `extra` besides,
      and nobody else anything. */
  ghost predicate Divided(before: map<Key, Entry>, after: map<Key, Entry>, n: nat, net: int, sum: nat, operator: Address, extra: int) {
    forall k :: k in before ==>
      && k in after
      && var gain := after[k].rewards - before[k].rewards - (if k == (n, operator) then extra else 0);
         if k.0 == n && before[k].staked > 0 then sum * gain <= net * before[k].staked < sum * (gain + 1) else gain == 0
  }

  lemma {:induction false} PaidIsDivided(before: map<Key, Entry>, after: map<Key, Entry>, n: nat, net: nat, sum: nat, operator: Address, extra: int)
    requires sum > 0 && Paid(before, after, n, set k | k in KeysOf(before, n) :: k.1, net, sum, operator, extra)
    ensures Divided(before, after, n, net, sum, operator, extra)
  {
    hide Share;
    forall k | k in before
      ensures k in after
      ensures var gain := after[k].rewards - before[k].rewards - (if k == (n, operator) then extra else 0);
              if k.0 == n && before[k].staked > 0 then sum * gain <= net * before[k].staked < sum * (gain + 1) else gain == 0
    {
      ShareIsFloor(net, sum, before[k].staked);
      if k.0 == n { assert k in KeysOf(before, n); }
    }
  }

  lemma {:induction false} NamesSize(accs: seq<(Address, int)>)
    requires forall x, y :: 0 <= x < y < |accs| ==> accs[x].0 != accs[y].0
    ensures |Names(accs)| == |accs|
  {
    if accs != [] {
      NamesSize(accs[..|accs| - 1]);
      NotNamed(accs, |accs| - 1, |accs| - 1);
    }
  }

  lemma PaidOperator(before: map<Key, Entry>, mid: map<Key, Entry>, after: map<Key, Entry>, n: nat, paid: set<Address>,
                     net: int, sum: nat, operator: Address, extra: int, more: int)
    requires sum > 0 && Paid(before, mid, n, paid, net, sum, operator, extra)
    requires (n, operator) in after && after == mid[(n, operator) := after[(n, operator)]]
    requires var e := if (n, operator) in mid then mid[(n, operator)] else EMPTY_ENTRY;
             after[(n, operator)] == e.(rewards := e.rewards + more, details := after[(n, operator)].details)
    requires (n, operator) !in mid ==> extra == 0
    ensures Paid(before, after, n, paid, net, sum, operator, extra + more)
  {
    hide Share;
  }

  lemma PaidStaker(before: map<Key, Entry>, mid: map<Key, Entry>, after: map<Key, Entry>, n: nat, paid: set<Address>,
                   net: int, sum: nat, operator: Address, extra: int, a: Address)
    requires sum > 0 && Paid(before, mid, n, paid, net, sum, operator, extra)
    requires (n, a) in before && a !in paid
    requires (n, a) in after && after == mid[(n, a) := after[(n, a)]]
    requires var e := mid[(n, a)];
             after[(n, a)] == e.(rewards := e.rewards + Share(net, sum, before[(n, a)].staked), details := after[(n, a)].details)
    ensures Paid(before, after, n, paid + {a}, net, sum, operator, extra)
  {
    hide Share;
  }

  lemma PaidNothing(before: map<Key, Entry>, mid: map<Key, Entry>, n: nat, paid: set<Address>, net: int, sum: nat,
                    operator: Address, extra: int, a: Address)
    requires sum > 0 && Paid(before, mid, n, paid, net, sum, operator, extra)
    requires (n, a) in before && Share(net, sum, before[(n, a)].staked) == 0
    ensures Paid(before, mid, n, paid + {a}, net, sum, operator, extra)
  {
  }

  lemma PaidToNobody(before: map<Key, Entry>, n: nat, net: int, sum: nat, operator: Address)
    requires sum > 0
    ensures Paid(before, before, n, {}, net, sum, operator, 0)
  {
  }

  lemma PaidKeeps(before: map<Key, Entry>, mid: map<Key, Entry>, n: nat, paid: set<Address>, net: int, sum: nat,
                  operator: Address, extra: int)
    requires sum > 0 && Paid(before, mid, n, paid, net, sum, operator, extra)
    ensures forall k :: k in before ==> k in mid
  {
  }

  lemma SharesOfNobody(net: int, sum: nat)
    requires sum > 0
    ensures Shares(net, sum, []) == 0 && Names([]) == {}
  {
  }

  lemma NoShare(net: int, sum: nat, stake: int)
    requires sum > 0 && stake <= 0
    ensures Share(net, sum, stake) == 0
  {
  }

  /** Each entry is listed once, so it has not been paid before its turn. */
  lemma {:induction false} NotNamed(accs: seq<(Address, int)>, i: nat, j: nat)
    requires i <= j < |accs|
    requires forall x, y :: 0 <= x < y < |accs| ==> accs[x].0 != accs[y].0
    ensures accs[j].0 !in Names(accs[..i])
    decreases i
  {
    if i > 0 {
      NotNamed(accs, i - 1, j);
      assert accs[..i][..i - 1] == accs[..i - 1];
    }
  }

  lemma {:induction false} StakerCount(entries: map<Key, Entry>, n: nat, accs: seq<(Address, int)>)
    requires Lists(entries, n, accs) && Names(accs) == set k | k in KeysOf(entries, n) :: k.1
    ensures |accs| == |KeysOf(entries, n)|
  {
    NamesSize(accs);
    SameSize(KeysOf(entries, n), n);
  }

  lemma {:induction false} SameSize(keys: set<Key>, n: nat)
    requires forall k :: k in keys ==> k.0 == n
    ensures |set k | k in keys :: k.1| == |keys|
  {
    if keys != {} {
      var k :| k in keys;
      SameSize(keys - {k}, n);
      assert (set j | j in keys :: j.1) == (set j | j in keys - {k} :: j.1) + {k.1};
    } else {
      assert (set j | j in keys :: j.1) == {};
    }
  }

  /** account.Reward together with what it does to the totals. */
  method Credit(book: StakingBook, n: nat, a: Address, amount: int, height: int, now: int) returns (ok: bool)
    requires BookValid(book.entries)
    modifies book
    ensures ok <==> old(book.Present(n, a)) && amount >= 0
    ensures BookValid(book.entries) && (old(Staffed(book.entries)) ==> Staffed(book.entries))
    ensures ok ==>
              && book.OnlyChanged(n, a, old(book.entries))
              && var e, e' := old(book.Get(n, a)), book.entries[(n, a)];
                 e' == e.(rewards := e.rewards + amount, details := e'.details)
    ensures ok ==> StakedTotal(book.entries) == old(StakedTotal(book.entries))
    ensures ok ==> RewardsTotal(book.entries) == old(RewardsTotal(book.entries)) + amount
  {
    hide StakedTotal, RewardsTotal, Booked, Covered;
    ghost var before := book.entries;
    ok := book.Reward(n, a, amount, height, now);
    if ok {
      BookUpdate(before, book.entries, (n, a));
      TotalsUpdate(before, (n, a), book.entries[(n, a)]);
    }
  }

  /** The reward part of ProcessBlockTransfers. When it succeeds the rewards have grown by
      exactly `reward`: every staker gets the share rounded down, the operator besides that
      its part and the remainder, together `extra`. */
  method DistributeReward(book: StakingBook, n: nat, operator: Address, reward: nat, perc: int, height: int, now: int)
      returns (ok: bool, ghost extra: int)
    requires BookValid(book.entries)
    modifies book
    ensures BookValid(book.entries) && (old(Staffed(book.entries)) ==> Staffed(book.entries))
    ensures ok <==>
              && StakedIn(old(book.entries), n) > 0 && perc <= 500 && old(book.Present(n, operator))
              && 0 <= OperatorPart(reward, perc) <= reward
    ensures ok ==>
              && (n, operator) in book.entries
              && StakedTotal(book.entries) == old(StakedTotal(book.entries))
              && RewardsTotal(book.entries) == old(RewardsTotal(book.entries)) + reward
              && OperatorPart(reward, perc) <= extra < OperatorPart(reward, perc) + |KeysOf(old(book.entries), n)|
              && Divided(old(book.entries), book.entries, n, reward - OperatorPart(reward, perc), StakedIn(old(book.entries), n), operator, extra)
              && Paid(old(book.entries), book.entries, n, set k | k in KeysOf(old(book.entries), n) :: k.1,
                      reward - OperatorPart(reward, perc), StakedIn(old(book.entries), n), operator, extra)
  {
    hide StakedTotal, RewardsTotal, BookValid, Staffed, Paid, Divided, StakedIn, OperatorPart, Names, ListTotal, KeysOf, IsBest, Operates, Lists;
    ghost var before := book.entries;
    extra := 0;
    var accs, sum, _ := StakedInDelegatedAccount(book.entries, n) by { NoneNegative(before); }
    if sum <= 0 || perc > 500 { return false, 0; }
    var part := OperatorPart(reward, perc);
    PaidToNobody(before, n, reward - part, sum, operator);
    ok := Credit(book, n, operator, part, height, now);
    if !ok { return; }
    PaidOperator(before, before, book.entries, n, {}, reward - part, sum, operator, 0, part);
    var rest;
    ok, rest := PayStakers(book, before, n, operator, reward - part, sum, accs, part, height, now) by { NoneNegative(before); }
    if !ok { return; }
    extra := part + rest;
    ghost var last := book.entries;
    if rest > 0 {
      ok := Credit(book, n, operator, rest, height, now);
      PaidOperator(before, last, book.entries, n, Names(accs), reward - part, sum, operator, part, rest);
    } else if rest < 0 {
      return false, extra;
    }
    StakerCount(before, n, accs);
    PaidIsDivided(before, book.entries, n, reward - part, sum, operator, extra);
  }

  lemma NoneNegative(entries: map<Key, Entry>)
    requires BookValid(entries)
    ensures forall k :: k in entries ==> entries[k].staked >= 0 && entries[k].operationalSince >= 0
  {
  }

  /** The loop over the stakers, and what it leaves. */
  method PayStakers(book: StakingBook, ghost before: map<Key, Entry>, n: nat, ghost operator: Address, net: int, sum: nat,
                    accs: seq<(Address, int)>, ghost part: int, height: int, now: int) returns (ok: bool, rest: int)
    requires BookValid(book.entries) && (n, operator) in book.entries && sum > 0 && Paid(before, book.entries, n, {}, net, sum, operator, part)
    requires Lists(before, n, accs) && ListTotal(accs) == sum && forall k :: k in before ==> before[k].staked >= 0
    modifies book
    ensures BookValid(book.entries) && (old(Staffed(book.entries)) ==> Staffed(book.entries))
    ensures ok <==> net >= 0
    ensures ok ==>
              && (n, operator) in book.entries && 0 <= rest < |accs|
              && Paid(before, book.entries, n, Names(accs), net, sum, operator, part)
              && StakedTotal(book.entries) == old(StakedTotal(book.entries))
              && RewardsTotal(book.entries) == old(RewardsTotal(book.entries)) + net - rest
  {
    hide StakedTotal, RewardsTotal, BookValid, Staffed, Paid, Share, Shares, Names, ListTotal;
    ok, rest := true, net;
    assert accs[..0] == [];
    SharesOfNobody(net, sum);
    for i := 0 to |accs|
      invariant ok && BookValid(book.entries) && (n, operator) in book.entries
      invariant old(Staffed(book.entries)) ==> Staffed(book.entries)
      invariant Paid(before, book.entries, n, Names(accs[..i]), net, sum, operator, part)
      invariant rest == net - Shares(net, sum, accs[..i])
      invariant StakedTotal(book.entries) == old(StakedTotal(book.entries))
      invariant RewardsTotal(book.entries) == old(RewardsTotal(book.entries)) + Shares(net, sum, accs[..i])
      invariant net < 0 ==> forall j :: 0 <= j < i ==> accs[j].1 <= 0
    {
      ghost var mid := book.entries;
      var a, stake := accs[i].0, accs[i].1;
      SharesSnoc(net, sum, accs, i);
      if stake > 0 {
        var user := Share(net, sum, stake);
        rest := rest - user;
        if net < 0 { NegativeShare(net, sum, stake); } else { ShareBound(net, sum, stake); }
        assert (n, a) in mid by { PaidKeeps(before, mid, n, Names(accs[..i]), net, sum, operator, part); }
        ok := Credit(book, n, a, user, height, now);
        if !ok { return; }
        NotNamed(accs, i, i);
        PaidStaker(before, mid, book.entries, n, Names(accs[..i]), net, sum, operator, part, a);
      } else {
        NoShare(net, sum, stake);
        PaidNothing(before, mid, n, Names(accs[..i]), net, sum, operator, part, a);
      }
    }
    assert accs[..|accs|] == accs;
    if net >= 0 {
      SharesWithin(net, sum, accs);
      RemainderIsSmall(net, sum, accs);
    } else {
      NobodyStakes(accs);
    }
  }

  lemma {:induction false} NobodyStakes(accs: seq<(Address, int)>)
    requires forall j :: 0 <= j < |accs| ==> accs[j].1 <= 0
    ensures ListTotal(accs) <= 0
  {
    if accs != [] { NobodyStakes(accs[..|accs| - 1]); }
  }
}
