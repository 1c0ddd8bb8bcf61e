/** What the ledger lets happen: a fee that is booked and never taken, and an approved transfer
    that settles twice, with the exact condition for it. */
module LedgerCases {
  import opened Basics
  import opened Staking
  import opened Operators
  import opened Rewards
  import opened L = Ledger

  // ---------------------------------------------------------------- settling again

  /** The accounts after m has settled. */
  function AfterSettling(accounts: map<Address, Account>, m: Tx): map<Address, Account> {
    var payer := AccountOf(accounts, m.sender);
    var paid := accounts[m.sender := payer.(balance := payer.balance - m.amount)];
    var payee := AccountOf(paid, m.recipient);
    paid[m.recipient := payee.(balance := payee.balance + m.amount)]
  }

  /** An approval as blocks carry it: a transfer of nothing. */
  predicate IsApproval(tx: Tx, key: nat) {
    tx.approves == Some(key) && tx.hash != key && Plain(tx) && Target(tx) == 0 && tx.locked <= 0 && Shaped(tx)
  }

  /** The entries about `key` once tx has entered the pool, which may refuse it. */
  function GroupWith(pool: seq<Tx>, key: nat, tx: Tx, bans: map<nat, nat>): seq<Tx> {
    Group(pool, key) + if Takes(pool, tx, bans) then [tx] else []
  }

  /** A further approval, in any state in which the approved transaction has left the pool, as it
      does when it settles. It settles (again) exactly when it is on disk and its sender's account,
      as the approval leaves it, finds it ready: earlier approvals have stayed in the pool. */
  method ApproveAgain(l: L.Ledger, tx: Tx, key: nat, height: int, time: int) returns (ok: bool, ghost settled: Option<Tx>)
    requires l.Valid() && IsApproval(tx, key) && time >= 0
    modifies l`accounts, l`escrow, l`multisig, l`escrowBans, l.book
    ensures l.Valid()
    ensures !old(Pooled(l.multisig, key)) && settled.Some? ==> key in l.stored && settled.value == l.stored[key]
    ensures !old(Pooled(l.multisig, key)) && (key in l.stored ==> l.stored[key].sender in old(l.accounts)) ==>
              (settled.Some? <==>
                && old(l.Allowed(tx, height)) && key in l.stored
                && var m := l.stored[key];
                   ReadyFor(AccountAfter(AccountOf(old(l.accounts), m.sender), AccountOf(old(l.accounts), tx.sender), tx, m.sender),
                            m, GroupWith(old(l.multisig), key, tx, old(l.multisigBans)), height))
  {
    hide ReadyFor, Group, Find, Unique, Solvent, BookValid, AllShaped, AccountAfter, Target, L.Ledger.Allowed, Takes, Held, Pooled;
    settled := None;
    ghost var pool, before := l.multisig, l.accounts;
    ok := l.ProcessTransaction(tx, height, time);
    if !ok { return; }
    if !Pooled(pool, key) { NotInGroup(pool, key, tx, l.multisigBans, l.multisig); }
    if key in l.stored {
      SameReadiness(AccountOf(l.accounts, l.stored[key].sender), l.stored[key], pool, key, tx, l.multisigBans, l.multisig, height);
    }
    ok, settled := l.ProcessApproval(tx, height);
  }

  lemma {:induction false} NotInGroup(pool: seq<Tx>, key: nat, tx: Tx, bans: map<nat, nat>, r: seq<Tx>)
    requires !Pooled(pool, key) && tx.hash != key && Held(pool, tx, bans, r)
    ensures Find(Group(r, key), key).None?
  {
    hide Group, Find, Takes;
    GroupMembers(r, key);
    assert forall x :: x in r ==> x in pool || x == tx;
    assert forall x :: x in pool ==> x.hash != key;
  }

  lemma {:induction false} GroupConcat(a: seq<Tx>, b: seq<Tx>, key: nat)
    ensures Group(a + b, key) == Group(a, key) + Group(b, key)
  {
    hide AllShaped, About;
    if a == [] {
      assert a + b == b;
    } else {
      assert (a + b)[1..] == a[1..] + b;
      GroupConcat(a[1..], b, key);
      Assoc(if About(a[0], key) then [a[0]] else [], Group(a[1..], key), Group(b, key));
    }
  }

  lemma {:induction false} ApproversConcat(m: Tx, a: seq<Tx>, b: seq<Tx>)
    ensures Approvers(m, a + b) == Approvers(m, a) + Approvers(m, b)
  {
    if b == [] {
      assert a + b == a;
    } else {
      var front := b[..|b| - 1];
      assert (a + b)[..|a + b| - 1] == a + front;
      ApproversConcat(m, a, front);
      if Approves(m, b[|b| - 1]) { Assoc(Approvers(m, a), Approvers(m, front), [b[|b| - 1].sender]); }
    }
  }

  /** Where an entry comes in the pool makes no difference to the approvals. */
  lemma {:induction false} SameReadiness(acc: Account, m: Tx, pool: seq<Tx>, key: nat, tx: Tx, bans: map<nat, nat>, r: seq<Tx>, height: int)
    requires tx.approves == Some(key) && Held(pool, tx, bans, r)
    ensures ReadyFor(acc, m, Group(r, key), height) <==> ReadyFor(acc, m, GroupWith(pool, key, tx, bans), height)
  {
    hide Group, Approvers, Target, Takes, AllShaped;
    if Takes(pool, tx, bans) {
      var at :| 0 <= at <= |pool| && r == pool[..at] + [tx] + pool[at..];
      var a, b := pool[..at], pool[at..];
      assert pool == a + b;
      GroupConcat(a + [tx], b, key);
      GroupConcat(a, [tx], key);
      GroupConcat(a, b, key);
      GroupOfOne(tx, key);
      var ga, gb := Group(a, key), Group(b, key);
      ApproversConcat(m, ga + [tx], gb);
      ApproversConcat(m, ga, [tx]);
      ApproversConcat(m, ga + gb, [tx]);
      ApproversConcat(m, ga, gb);
      assert multiset(Approvers(m, Group(r, key))) == multiset(Approvers(m, GroupWith(pool, key, tx, bans)));
    } else {
      assert Group(pool, key) + [] == Group(pool, key);
    }
  }

  lemma GroupOfOne(tx: Tx, key: nat)
    requires tx.approves == Some(key)
    ensures Group([tx], key) == [tx]
  {
    hide AllShaped;
  }

  /** An approval that settles a transaction, and then another approval of it. */
  method ApproveTwice(l: L.Ledger, first: Tx, second: Tx, key: nat, h1: int, h2: int, time: int)
      returns (ghost s1: Option<Tx>, ghost s2: Option<Tx>)
    requires l.Valid() && first.approves == Some(key) && IsApproval(second, key) && time >= 0
    requires l.MainOf(first).Some? && key in l.stored ==> l.stored[key].sender == l.MainOf(first).value.sender
    modifies l`accounts, l`escrow, l`multisig, l`escrowBans, l.book
    ensures l.Valid()
    ensures s1.Some? <==> old(Settling(l.accounts, l.multisig, l.stored, first, h1))
    ensures s1.Some? ==> s1 == old(l.MainOf(first))
    ensures s1.Some? ==>
              var accounts, payer := AfterSettling(old(l.accounts), s1.value), s1.value.sender;
              s2.Some? <==>
                && Accepts(accounts, old(l.book.entries), old(l.escrow), second, h2) && key in l.stored
                && ReadyFor(AccountAfter(AccountOf(accounts, payer), AccountOf(accounts, second.sender), second, payer),
                            l.stored[key], GroupWith(Without(old(l.multisig), key), key, second, old(l.multisigBans)), h2)
  {
    hide ReadyFor, Group, Without, Find, Unique, Solvent, BookValid, AllShaped, Moved, Accepts, GroupWith, AfterSettling, SameAccounts, AccountAfter;
    ghost var before, pool := l.accounts, l.multisig;
    var ok;
    ok, s1 := l.ProcessApproval(first, h1);
    if s1.Some? {
      WithoutMembers(pool, key);
      PaidOnce(before, l.accounts, s1.value);
      SameAcceptance(AfterSettling(before, s1.value), l.accounts, l.book.entries, l.escrow, second, h2);
      SameAt(AfterSettling(before, s1.value), l.accounts, s1.value.sender);
    }
    ok, s2 := ApproveAgain(l, second, key, h2, time);
  }

  lemma PaidOnce(before: map<Address, Account>, after: map<Address, Account>, m: Tx)
    requires Moved(before, after, m.sender, m.amount, m.recipient, m.amount)
    ensures SameAccounts(AfterSettling(before, m), after)
  {
  }

  lemma SameAt(before: map<Address, Account>, after: map<Address, Account>, a: Address)
    requires SameAccounts(before, after)
    ensures AccountOf(before, a) == AccountOf(after, a)
  {
  }

  /** A transfer of 10 from account 1 to account 2 that account 3 is to approve. */
  const MAIN := Tx(11, 1, 2, 10, 0, 5, false, 0, 0, 0, None, None, NotRecovery, 0, 0, [])

  function Approval(hash: nat): Tx {
    Tx(hash, 3, 2, 0, 0, 5, false, 0, 0, 0, Some(11), None, NotRecovery, 0, 0, [])
  }

  lemma SmallAddresses()
    ensures DelegatedNumber(1) == DelegatedNumber(2) == DelegatedNumber(3) == DelegatedNumber(0) == 0
  {
  }

  lemma JoinedToOne(x: Tx, y: Tx, r: seq<Tx>)
    requires Joined([x], y, r)
    ensures r == [x, y] || r == [y, x]
  {
  }

  lemma JoinedToNone(y: Tx, r: seq<Tx>)
    requires Joined([], y, r)
    ensures r == [y]
  {
  }

  predicate Ours(x: Tx) {
    x == MAIN || x == Approval(12) || x == Approval(13)
  }

  lemma AloneInPool(x: Tx)
    requires Ours(x)
    ensures Group([x], 11) == [x] && Without([x], 11) == (if x == MAIN then [] else [x])
    ensures Find([x], 11) == (if x == MAIN then Some(x) else None)
    ensures Approvers(MAIN, [x]) == if x == MAIN then [] else [3]
  {
    assert [x][1..] == [] && [x][..0] == [];
  }

  /** Two of them in a pool form a group, with as many approvers as there are approvals. */
  lemma PairInPool(x: Tx, y: Tx)
    requires Ours(x) && Ours(y) && x != y
    ensures Group([x, y], 11) == [x, y]
    ensures Without([x, y], 11) == (if x == MAIN then [y] else if y == MAIN then [x] else [x, y])
    ensures Find([x, y], 11) == (if x == MAIN || y == MAIN then Some(MAIN) else None)
    ensures |multiset([3]) * multiset(Approvers(MAIN, [x, y]))| == 1
  {
    AloneInPool(x);
    AloneInPool(y);
    assert [x, y][1..] == [y] && [x, y][..1] == [x];
    var approvers := Approvers(MAIN, [x, y]);
    assert approvers == [3] || approvers == [3, 3];
    assert multiset([3]) * multiset(approvers) == multiset{3};
  }

  /** Account 1 needs the approval of account 3, which is an ordinary account. */
  ghost predicate Setting(accounts: map<Address, Account>, left: int, got: int) {
    && AccountOf(accounts, 1) == Account(left, 0, 1, [3])
    && AccountOf(accounts, 3) == Account(100, 0, 0, [])
    && AccountOf(accounts, 2).balance == got
  }

  lemma InSetting(accounts: map<Address, Account>, left: int, got: int)
    requires Setting(accounts, left, got)
    ensures 1 in accounts && accounts[1] == Account(left, 0, 1, [3]) && 3 in accounts && accounts[3] == Account(100, 0, 0, [])
  {
  }

  /** All three are plain transfers without a policy, and change no balance when included. */
  lemma Kind(x: Tx, acc: Account, a: Address)
    requires Ours(x) && acc.delay == 0 && (if x == MAIN then acc.required == 1 else acc.required == 0)
    ensures Plain(x) && Target(x) == 0 && x.locked == 0 && Shaped(x) && !Uncharged(x)
    ensures BalanceDelta(x, acc, a) == 0 && (MovesNow(x, acc) ==> x.amount == 0)
  {
    hide DelegatedNumber;
    SmallAddresses();
  }

  lemma Included(l: L.Ledger, x: Tx, left: int, got: int, height: int)
    requires Setting(l.accounts, left, got) && Ours(x) && left >= 0
    ensures l.Allowed(x, height) && Plain(x) && Target(x) == 0 && Shaped(x)
  {
    hide DelegatedNumber, Target, BalanceDelta, MovesNow, StakeAllowed, WithdrawalAllowed, RecoveryAllowed, CancellationValid;
    InSetting(l.accounts, left, got);
    Kind(x, AccountOf(l.accounts, x.sender), x.sender);
  }

  lemma StaysSetting(before: map<Address, Account>, after: map<Address, Account>, x: Tx, left: int, got: int)
    requires Setting(before, left, got) && Ours(x) && AccountsAfter(before, after, x)
    ensures Setting(after, left, got)
  {
    hide AccountAfter;
    forall a: Address ensures AccountOf(after, a) == AccountOf(before, a) {
      Unmoved(x, AccountOf(before, x.sender), AccountOf(before, a), a);
    }
  }

  lemma Unmoved(x: Tx, sender: Account, acc: Account, a: Address)
    requires Ours(x) && sender.delay == 0 && (if x == MAIN then sender.required == 1 else sender.required == 0)
    ensures AccountAfter(acc, sender, x, a) == acc
  {
    hide DelegatedNumber, Target, BalanceDelta;
    Kind(x, sender, a);
  }

  lemma SettledOnce(before: map<Address, Account>, after: map<Address, Account>, left: int, got: int)
    requires Setting(before, left, got) && Moved(before, after, 1, 10, 2, 10)
    ensures Setting(after, left - 10, got + 10)
  {
  }

  lemma ReadyNow(acc: Account, group: seq<Tx>, left: int)
    requires acc == Account(left, 0, 1, [3]) && left >= 10
    requires |group| == 2 && |multiset([3]) * multiset(Approvers(MAIN, group))| == 1
    ensures ReadyFor(acc, MAIN, group, 6)
  {
    hide DelegatedNumber, Approvers;
    SmallAddresses();
  }

  /** An approval comes in a block while the pool holds x. */
  method Approve(l: L.Ledger, y: Tx, x: Tx, left: int, got: int)
    requires l.Valid() && l.multisig == [x] && l.multisigBans == map[] && Ours(x) && Ours(y) && y != MAIN && x != y
    requires 11 in l.stored && l.stored[11] == MAIN && left >= 10
    requires Setting(l.accounts, left, got)
    modifies l`accounts, l`escrow, l`multisig, l`escrowBans, l.book
    ensures l.Valid() && Setting(l.accounts, left - 10, got + 10)
    ensures x == MAIN ==> l.multisig == [y]
  {
    hide Group, Without, Find, Approvers, Target, Joined, L.Ledger.Allowed, AccountsAfter, Moved, Setting, Unique, Solvent, BookValid, ReadyFor;
    Included(l, y, left, got, 6);
    InSetting(l.accounts, left, got);
    ghost var before := l.accounts;
    var ok := l.ProcessTransaction(y, 6, 0);
    assert l.multisig == [x, y] || l.multisig == [y, x] by { JoinedToOne(x, y, l.multisig); }
    StaysSetting(before, l.accounts, y, left, got);
    PairInPool(x, y);
    PairInPool(y, x);
    InSetting(l.accounts, left, got);
    ReadyNow(l.accounts[1], l.multisig, left);
    before := l.accounts;
    ghost var settled;
    ok, settled := l.ProcessApproval(y, 6);
    SettledOnce(before, l.accounts, left, got);
  }

  /** One transfer, two approvals, and account 2 gets the amount twice. */
  method SettledTwice() returns (l: L.Ledger)
    ensures fresh(l) && fresh(l.book) && l.Valid()
    ensures l.BalanceOf(1) == 100 - 2 * MAIN.amount && l.BalanceOf(2) == 2 * MAIN.amount
  {
    hide L.Ledger.Valid;
    l := Waiting();
    Approve(l, Approval(12), MAIN, 100, 0);
    Approve(l, Approval(13), Approval(12), 90, 10);
  }

  /** The transfer has been included and stored, and waits for its approval. */
  method Waiting() returns (l: L.Ledger)
    ensures fresh(l) && fresh(l.book) && l.Valid() && Setting(l.accounts, 100, 0)
    ensures l.multisig == [MAIN] && l.multisigBans == map[] && 11 in l.stored && l.stored[11] == MAIN
  {
    hide Group, Without, Find, Approvers, Target, Joined, L.Ledger.Allowed, AccountsAfter, Moved;
    var book := new StakingBook(map[]);
    var accounts: map<Address, Account> := map[1 := Account(100, 0, 1, [3]), 3 := Account(100, 0, 0, [])];
    l := new L.Ledger(accounts, book);
    Included(l, MAIN, 100, 0, 5);
    var ok := l.ProcessTransaction(MAIN, 5, 0);
    assert l.multisig == [MAIN] by { JoinedToNone(MAIN, l.multisig); }
    StaysSetting(accounts, l.accounts, MAIN, 100, 0);
    l.StoreApplied([MAIN]);
    assert 11 in l.stored && l.stored[11] == MAIN by { assert [MAIN][..0] == []; }
  }

  // ---------------------------------------------------------------- a fee that is never taken

  /** A coin sent to the reward address of delegated account 1, for a fee of one. */
  const REWARDED := Tx(1, 7, 257 * TWO_144, 1, 1, 0, false, 0, 0, 0, None, None, NotRecovery, 0, 0, [])

  lemma RewardAddress()
    ensures DelegatedNumber(257 * TWO_144) == 257
  {
  }

  const STAKER := EMPTY_ENTRY.(staked := MIN_STAKING_FOR_NODE, operational := true)

  function FeeBlock(supply: int): Block {
    Block(1, 0, 0, 1, 7, 0, supply, 0, [REWARDED], [true], {}, [], true)
  }

  /** Account 7 operates delegated account 1 and the books balance. Its block with such a
      transaction is applied and books the fee, but the coins do not become fewer; and no block,
      whatever it holds, is applied after it. */
  method FeeNeverTaken(ratioE10: int, next: Block) returns (l: L.Ledger, tip: Tip, r: Outcome)
    requires ratioE10 < SCALE && next.time >= 0 && Judged(next)
    ensures fresh(l) && l.Valid() && Uncharged(REWARDED) && tip.blockFee == 1 == FeeTotal([REWARDED])
    ensures l.Coins() == tip.supply && !l.Balanced(tip) && !r.Applied?
  {
    hide GetReward, Steps, Stopped, BookValid, L.Ledger.Admitted, L.Ledger.Operated, UnchargedTotal, FeeTotal;
    l := BalancedLedger();
    var supply := 10 + MIN_STAKING_FOR_NODE;
    var first, b := Tip(supply, 0), FeeBlock(supply + GetReward(supply, ratioE10));
    BlockStands(l, first, ratioE10);
    OneFee();
    ghost var views;
    r, views := l.ApplyBlock(b, first, ratioE10);
    GoesThrough(views, map[], GetReward(supply, ratioE10), b);
    tip := r.tip;
    r := l.TryBlock(next, tip, ratioE10);
  }

  method BalancedLedger() returns (l: L.Ledger)
    ensures fresh(l) && fresh(l.book) && l.Valid() && l.stored == map[] && l.Coins() == 10 + MIN_STAKING_FOR_NODE
    ensures l.accounts == map[7 := Account(10, 0, 0, [])] && l.book.entries == map[(1, 7) := STAKER]
  {
    var book := new StakingBook(map[(1, 7) := STAKER]);
    var accounts: map<Address, Account> := map[7 := Account(10, 0, 0, [])];
    l := new L.Ledger(accounts, book);
    FounderTotal(7, accounts[7]);
    OneStaker(STAKER);
  }

  lemma OneFee()
    ensures FeeTotal([REWARDED]) == 1 == UnchargedTotal([REWARDED]) && Uncharged(REWARDED) && Shaped(REWARDED)
  {
    hide DelegatedNumber;
    RewardAddress();
    assert [REWARDED][..0] == [];
    assert FeeTotal([]) == 0 && UnchargedTotal([]) == 0;
  }

  lemma BlockStands(l: L.Ledger, last: Tip, ratioE10: int)
    requires l.accounts == map[7 := Account(10, 0, 0, [])] && l.book.entries == map[(1, 7) := STAKER] && ratioE10 < SCALE
    ensures var b := FeeBlock(last.supply + GetReward(last.supply, ratioE10));
            Judged(b) && l.Admitted(b, last, ratioE10) && l.Operated(b)
  {
    hide DelegatedNumber, GetReward, L.Ledger.Payable, StakedIn;
    OneFee();
    Stands(l, STAKER);
    AllStaked();
  }

  lemma AllStaked()
    ensures StakedIn(map[(1, 7) := STAKER], 1) == MIN_STAKING_FOR_NODE
  {
    var entries := map[(1, 7) := STAKER];
    assert KeysOf(entries, 1) == {} + {(1, 7)};
    StakedOverNone(entries);
    StakedOverAdd(entries, {}, (1, 7));
  }

  /** Both steps of the block are allowed. */
  lemma GoesThrough(views: seq<View>, stored: map<nat, Tx>, reward: nat, b: Block)
    requires b.txs == [REWARDED] && Steps(views, stored, b.txs, 1) && (|views| < 3 ==> Stopped(views, stored, b.txs, 1))
    requires b.n == 1 && b.operator == 7 && b.perc == 0
    requires views[0].accounts == map[7 := Account(10, 0, 0, [])] && views[0].entries == map[(1, 7) := STAKER]
    ensures |views| == 3 && RewardPayable(views[2].entries, b, reward)
  {
    hide DelegatedNumber, StakedIn, Accepts, AccountsAfter, BookAfter, Moved, Settling;
    OneFee();
    AllStaked();
    RewardAddress();
    assert StepAllowed(views[0], stored, b.txs, 0, 1) by { RewardAccepted(views[0]); }
    if |views| > 1 {
      assert GoodStep(views, stored, b.txs, 0, 1);
      assert StepAllowed(views[1], stored, b.txs, 1, 1);
    }
    assert |views| == 3;
    assert GoodStep(views, stored, b.txs, 1, 1);
    NoPart(reward);
  }

  lemma NoPart(reward: nat)
    ensures OperatorPart(reward, 0) == 0
  {
    assert reward * 0 == 0;
  }

  lemma RewardAccepted(v: View)
    requires v.accounts == map[7 := Account(10, 0, 0, [])] && v.entries == map[(1, 7) := STAKER]
    ensures Accepts(v.accounts, v.entries, v.escrow, REWARDED, 1)
  {
    hide DelegatedNumber;
    RewardAddress();
    assert Target(REWARDED) == 257 && 257 % 256 == 1;
  }

  lemma Stands(l: L.Ledger, entry: Entry)
    requires l.accounts == map[7 := Account(10, 0, 0, [])] && l.book.entries == map[(1, 7) := entry] && entry.rewards == 0
    ensures l.Payable([REWARDED], [true], {}, 0)
  {
    hide DelegatedNumber;
    RewardAddress();
    var txs := [REWARDED];
    assert txs[..1] == txs && txs[..0] == [];
    assert Tabs(l.book.entries, []) == map[] && Spent([], 7) == 0;
    assert Spent(txs, 7) == 2;
    assert TabAfter(l.book.entries, map[], REWARDED) == Tab(entry.staked + 1, 1) by { assert 257 % 256 == 1; }
    assert StakingCheck(l.accounts, l.book.entries, {}, REWARDED, Tab(entry.staked + 1, 1));
  }

  lemma OneStaker(entry: Entry)
    ensures StakedTotal(map[(1, 7) := entry]) == entry.staked && RewardsTotal(map[(1, 7) := entry]) == entry.rewards
  {
    hide StakedTotal, RewardsTotal;
    EmptyTotals();
    var none: map<Key, Entry> := map[];
    TotalsUpdate(none, (1, 7), entry);
    assert none[(1, 7) := entry] == map[(1, 7) := entry];
  }
}
