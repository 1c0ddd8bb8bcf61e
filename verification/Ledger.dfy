/** The coin ledger: accounts, stake, rewards and the pools of held transactions, and how a
    block changes them (blocks/processBlock.go, blocks/processTransaction.go,
    blocks/blockAccountState.go). */
module Ledger {
  import opened Basics
  import opened Sums
  import opened Staking
  import opened Operators
  import opened Rewards

  const MIN_STAKING_USER := 100_000_000_000
  const MAX_IN_MULTISIG_POOL := 60480
  const MAX_IN_POOL := 50000
  const MAX_BANS := 50
  const BANS_WHEN_BANNED := 100
  const MAX_TRANSACTION_DELAY := 60480

  /** The recovery kinds move no coins beyond the fee; `applies` says whether their own
      checks pass. A registration is held back for escrow and multisig accounts. */
  datatype Recovery = NotRecovery | FeeOnly(applies: bool) | Registration(applies: bool)

  datatype Tx = Tx(
    hash: nat,
    sender: Address,
    recipient: Address,
    amount: int,
    fee: nat,
    height: int,
    hasData: bool,             // optional data is present
    locked: int,
    release: int,
    lockAccount: Address,      // delegated account for locking
    approves: Option<nat>,     // the multisig transaction this one approves
    cancels: Option<nat>,      // the escrow transaction this one cancels
    recovery: Recovery,
    newDelay: int,             // escrow policy for the sender's own account
    newRequired: int,          // multisig policy for the sender's own account
    newSigners: seq<Address>)

  datatype Account = Account(balance: int, delay: int, required: int, signers: seq<Address>)

  const NEW_ACCOUNT := Account(0, 0, 0, [])

  /** What signature verification guarantees of every transaction: only a delegated
      recipient may come with a negative amount. */
  predicate Shaped(tx: Tx) {
    DelegatedNumber(tx.recipient) == 0 ==> tx.amount >= 0
  }

  /** A transaction to the reward range with a positive amount is accepted and does nothing:
      not even its fee is taken. */
  predicate Uncharged(tx: Tx) {
    && tx.recovery.NotRecovery? && tx.cancels.None? && tx.locked <= 0
    && 256 <= DelegatedNumber(tx.recipient) < 512 && tx.amount > 0
  }

  /** The fee that applying tx takes out of the accounts. */
  function Charged(tx: Tx): nat {
    if Uncharged(tx) then 0 else tx.fee
  }

  ghost function Balances(accounts: map<Address, Account>): map<Address, int> {
    map a | a in accounts :: accounts[a].balance
  }

  ghost function BalanceTotal(accounts: map<Address, Account>): int {
    Sum(Balances(accounts))
  }

  lemma {:induction false} BalanceUpdate(accounts: map<Address, Account>, a: Address, acc: Account)
    ensures BalanceTotal(accounts[a := acc])
         == BalanceTotal(accounts) + acc.balance - (if a in accounts then accounts[a].balance else 0)
  {
    assert Balances(accounts[a := acc]) == Balances(accounts)[a := acc.balance];
    SumUpdate(Balances(accounts), a, acc.balance);
  }

  function AccountOf(accounts: map<Address, Account>, a: Address): Account {
    if a in accounts then accounts[a] else NEW_ACCOUNT
  }

  ghost predicate Solvent(accounts: map<Address, Account>) {
    forall a :: a in accounts ==> accounts[a].balance >= 0
  }

  predicate AllShaped(txs: seq<Tx>) {
    forall i :: 0 <= i < |txs| ==> Shaped(txs[i])
  }

  /** No hash is in a pool twice. */
  predicate Unique(pool: seq<Tx>) {
    forall i, j :: 0 <= i < j < |pool| ==> pool[i].hash != pool[j].hash
  }

  /** r is the pool with tx somewhere in it. */
  ghost predicate Joined(pool: seq<Tx>, tx: Tx, r: seq<Tx>) {
    exists at :: 0 <= at <= |pool| && r == pool[..at] + [tx] + pool[at..]
  }

  predicate Pooled(pool: seq<Tx>, hash: nat) {
    exists i :: 0 <= i < |pool| && pool[i].hash == hash
  }

  /** A hash is refused once it has been banned often enough. */
  predicate Banned(bans: map<nat, nat>, hash: nat) {
    hash in bans && bans[hash] > MAX_BANS
  }

  /** BanTransactionByHash: the count is capped. */
  function Ban(bans: map<nat, nat>, hash: nat): map<nat, nat> {
    var n := (if hash in bans then bans[hash] else 0) + 1;
    bans[hash := if n > BANS_WHEN_BANNED then BANS_WHEN_BANNED else n]
  }

  /** A pool takes a new hash that is not banned, as long as there is room. */
  predicate Takes(pool: seq<Tx>, tx: Tx, bans: map<nat, nat>) {
    !Banned(bans, tx.hash) && !Pooled(pool, tx.hash) && |pool| < MAX_IN_POOL
  }

  /** What holding tx back makes of a pool. */
  ghost predicate Held(pool: seq<Tx>, tx: Tx, bans: map<nat, nat>, r: seq<Tx>) {
    if Takes(pool, tx, bans) then Joined(pool, tx, r) else r == pool
  }

  /** AddTransaction of the escrow and multisig pools: a new entry comes anywhere in the order of
      the pool. A full pool refuses it, so that nothing that waits is lost; a transaction that is
      there already is as good as added. */
  method AddToPool(pool: seq<Tx>, tx: Tx, bans: map<nat, nat>) returns (added: bool, r: seq<Tx>)
    requires AllShaped(pool) && Shaped(tx)
    ensures AllShaped(r) && (Unique(pool) ==> Unique(r))
    ensures added <==> !Banned(bans, tx.hash) && (Pooled(pool, tx.hash) || |pool| < MAX_IN_POOL)
    ensures added <==> !Banned(bans, tx.hash) && Pooled(r, tx.hash)
    ensures Held(pool, tx, bans, r)
  {
    if Banned(bans, tx.hash) { return false, pool; }
    if Pooled(pool, tx.hash) { return true, pool; }
    if |pool| >= MAX_IN_POOL { return false, pool; }
    var at: nat :| at <= |pool|;
    r := pool[..at] + [tx] + pool[at..];
    assert r[at].hash == tx.hash;
    return true, r;
  }

  function Without(pool: seq<Tx>, hash: nat): (r: seq<Tx>)
    ensures AllShaped(pool) ==> AllShaped(r)
  {
    if pool == [] then []
    else (if pool[0].hash == hash then [] else [pool[0]]) + Without(pool[1..], hash)
  }

  function WithoutAll(pool: seq<Tx>, txs: seq<Tx>): (r: seq<Tx>)
    ensures AllShaped(pool) ==> AllShaped(r)
    decreases |txs|
  {
    if txs == [] then pool else WithoutAll(Without(pool, txs[0].hash), txs[1..])
  }

  /** The transaction with that hash, or an approval of it. */
  predicate About(tx: Tx, key: nat) {
    (if tx.approves.Some? then tx.approves.value else tx.hash) == key
  }

  /** The entries the multisig pool keeps under a main transaction's hash. */
  function Group(pool: seq<Tx>, key: nat): (r: seq<Tx>)
    ensures AllShaped(pool) ==> AllShaped(r)
  {
    if pool == [] then []
    else (if About(pool[0], key) then [pool[0]] else []) + Group(pool[1..], key)
  }

  function Find(txs: seq<Tx>, hash: nat): (r: Option<Tx>)
    ensures r.Some? && AllShaped(txs) ==> Shaped(r.value)
    ensures r.Some? ==> r.value.hash == hash && r.value in txs
    ensures r.None? ==> forall i :: 0 <= i < |txs| ==> txs[i].hash != hash
  {
    if txs == [] then None else if txs[0].hash == hash then Some(txs[0]) else Find(txs[1..], hash)
  }

  /** The entries the escrow pool serves at a height. */
  function Served(pool: seq<Tx>, height: int): (r: seq<Tx>)
    ensures AllShaped(pool) ==> AllShaped(r)
  {
    if pool == [] then []
    else (if height >= pool[0].height + pool[0].newDelay then [pool[0]] else []) + Served(pool[1..], height)
  }

  lemma {:induction false} ServedMembers(pool: seq<Tx>, height: int)
    ensures forall x :: x in Served(pool, height) <==> x in pool && height >= x.height + x.newDelay
    ensures Unique(pool) ==> Unique(Served(pool, height))
  {
    if pool != [] {
      ServedMembers(pool[1..], height);
      assert pool == [pool[0]] + pool[1..];
      if Unique(pool) {
        forall x | x in Served(pool[1..], height) ensures x.hash != pool[0].hash { assert x in pool[1..]; }
      }
    }
  }

  lemma {:induction false} WithoutMembers(pool: seq<Tx>, hash: nat)
    ensures forall x :: x in Without(pool, hash) <==> x in pool && x.hash != hash
    ensures Unique(pool) ==> Unique(Without(pool, hash))
  {
    if pool != [] {
      WithoutMembers(pool[1..], hash);
      assert pool == [pool[0]] + pool[1..];
      if Unique(pool) {
        forall x | x in Without(pool[1..], hash) ensures x.hash != pool[0].hash { assert x in pool[1..]; }
      }
    }
  }

  lemma {:induction false} WithoutAllUnique(pool: seq<Tx>, txs: seq<Tx>)
    requires Unique(pool)
    ensures Unique(WithoutAll(pool, txs))
    decreases |txs|
  {
    hide Unique;
    if txs != [] {
      WithoutMembers(pool, txs[0].hash);
      WithoutAllUnique(Without(pool, txs[0].hash), txs[1..]);
    }
  }

  lemma {:induction false} WithoutConcat(a: seq<Tx>, b: seq<Tx>, hash: nat)
    ensures Without(a + b, hash) == Without(a, hash) + Without(b, hash)
  {
    if a == [] {
      assert a + b == b;
    } else {
      assert (a + b)[1..] == a[1..] + b;
      WithoutConcat(a[1..], b, hash);
      Assoc(if a[0].hash == hash then [] else [a[0]], Without(a[1..], hash), Without(b, hash));
    }
  }

  /** Holding a transaction and taking it out again is taking it out. */
  lemma {:induction false} WithoutHeld(pool: seq<Tx>, tx: Tx, bans: map<nat, nat>, r: seq<Tx>)
    requires Held(pool, tx, bans, r)
    ensures Without(r, tx.hash) == Without(pool, tx.hash)
  {
    hide Without, AllShaped, Takes;
    if r != pool {
      var at :| 0 <= at <= |pool| && r == pool[..at] + [tx] + pool[at..];
      var a, b := pool[..at], pool[at..];
      WithoutConcat(a + [tx], b, tx.hash);
      WithoutConcat(a, [tx], tx.hash);
      WithoutConcat(a, b, tx.hash);
      WithoutOnly(tx);
      assert pool == a + b;
    }
  }

  lemma WithoutOnly(tx: Tx)
    ensures Without([tx], tx.hash) == []
  {
    hide AllShaped;
  }

  lemma {:induction false} GroupMembers(pool: seq<Tx>, key: nat)
    ensures forall x :: x in Group(pool, key) ==> x in pool
  {
    if pool != [] {
      GroupMembers(pool[1..], key);
      assert pool == [pool[0]] + pool[1..];
    }
  }

  lemma {:induction false} MainGone(pool: seq<Tx>, key: nat)
    ensures Find(Group(Without(pool, key), key), key).None?
  {
    WithoutMembers(pool, key);
    GroupMembers(Without(pool, key), key);
  }

  /** The transaction that tx approves, from the pool or from disk. */
  function MainIn(multisig: seq<Tx>, stored: map<nat, Tx>, tx: Tx): Option<Tx> {
    if tx.approves.None? then None
    else
      var found := Find(Group(multisig, tx.approves.value), tx.approves.value);
      if found.Some? then found
      else if tx.approves.value in stored then Some(stored[tx.approves.value]) else None
  }

  // ---------------------------------------------------------------- what a transaction does

  predicate Plain(tx: Tx) {
    tx.recovery.NotRecovery? && tx.cancels.None?
  }

  /** The delegated account a transaction is about; none for a transfer. */
  function Target(tx: Tx): nat {
    DelegatedNumber(if tx.locked > 0 then tx.lockAccount else tx.recipient)
  }

  /** Whose stake it is: a locked stake belongs to the recipient. */
  function Staker(tx: Tx): Address {
    if tx.locked > 0 then tx.recipient else tx.sender
  }

  /** isContractCallTx: the EVM has moved the value already. */
  predicate IsContractCall(tx: Tx, acc: Account) {
    tx.hasData && DelegatedNumber(tx.recipient) == 0 && acc.required <= 0 && acc.delay <= 0
  }

  /** An escrow or multisig account does not transfer at once, unless tx is an approval. */
  predicate MovesNow(tx: Tx, acc: Account) {
    Plain(tx) && Target(tx) == 0 && !((acc.delay > 0 || acc.required > 0) && tx.approves.None?) && !IsContractCall(tx, acc)
  }

  /** What leaves the sender's balance besides the fee. */
  function Outlay(tx: Tx, acc: Account): int {
    if MovesNow(tx, acc) || (Plain(tx) && 0 < Target(tx) < 256) || (Plain(tx) && 256 <= Target(tx) < 512 && tx.amount < 0)
    then tx.amount else 0
  }

  /** The change of a's balance; acc is the account of the sender. */
  function BalanceDelta(tx: Tx, acc: Account, a: Address): int {
    (if a == tx.sender then 0 - Charged(tx) - Outlay(tx, acc) else 0)
    + (if a == tx.recipient && MovesNow(tx, acc) then tx.amount else 0)
  }

  function StakeDelta(tx: Tx, k: Key): int {
    if Plain(tx) && 0 < Target(tx) < 256 && k == (Target(tx), Staker(tx)) then tx.amount else 0
  }

  function RewardDelta(tx: Tx, k: Key): int {
    if Plain(tx) && 256 <= Target(tx) < 512 && tx.amount < 0 && k == (Target(tx) % 256, tx.sender) then tx.amount else 0
  }

  /** tx does not touch the staking entries. */
  predicate LeavesBook(tx: Tx) {
    !Plain(tx) || Target(tx) == 0 || Target(tx) >= 512 || Uncharged(tx)
  }

  /** An account with the escrow or multisig policy that tx asks for. */
  function WithPolicy(acc: Account, tx: Tx): Account {
    var delayed := if tx.newDelay > 0 then acc.(delay := tx.newDelay) else acc;
    if tx.newRequired > 0 then delayed.(required := tx.newRequired, signers := tx.newSigners) else delayed
  }

  /** A policy is set once, by the account itself, and within bounds. */
  predicate PolicyAllowed(tx: Tx, acc: Account) {
    && !(tx.newDelay > 0 && tx.newRequired > 0)
    && (tx.newDelay > 0 || tx.newRequired > 0 ==> tx.recipient == tx.sender && acc.delay <= 0 && acc.required <= 0)
    && tx.newDelay <= MAX_TRANSACTION_DELAY
    && (tx.newRequired > 0 ==> tx.newRequired <= |tx.newSigners|)
  }

  /** `out` has left `from` and `amount` has come to `to`; no policy has changed. */
  ghost predicate Moved(before: map<Address, Account>, after: map<Address, Account>, from: Address, out: int, to: Address, amount: int) {
    forall a: Address :: AccountOf(after, a) ==
      AccountOf(before, a).(balance := AccountOf(before, a).balance - (if a == from then out else 0) + (if a == to then amount else 0))
  }

  /** The account acc of a as tx leaves it; sender is the account of the sender. */
  function AccountAfter(acc: Account, sender: Account, tx: Tx, a: Address): Account {
    (if Plain(tx) && Target(tx) < 256 && a == tx.recipient then WithPolicy(acc, tx) else acc)
    .(balance := acc.balance + BalanceDelta(tx, sender, a))
  }

  /** Every account is as tx leaves it. */
  ghost predicate AccountsAfter(before: map<Address, Account>, after: map<Address, Account>, tx: Tx) {
    forall a: Address :: AccountOf(after, a) == AccountAfter(AccountOf(before, a), AccountOf(before, tx.sender), tx, a)
  }

  function StakeAt(entries: map<Key, Entry>, k: Key): int { if k in entries then entries[k].staked else 0 }

  function RewardAt(entries: map<Key, Entry>, k: Key): int { if k in entries then entries[k].rewards else 0 }

  /** Every staking entry is as tx leaves it. */
  ghost predicate BookAfter(before: map<Key, Entry>, after: map<Key, Entry>, tx: Tx) {
    forall k :: StakeAt(after, k) == StakeAt(before, k) + StakeDelta(tx, k) && RewardAt(after, k) == RewardAt(before, k) + RewardDelta(tx, k)
  }

  /** The group of m has the approvals its sender's account asks for, and m may still move. */
  ghost predicate ReadyFor(acc: Account, m: Tx, group: seq<Tx>, height: int) {
    && height - m.height <= MAX_IN_MULTISIG_POOL
    && Signed(acc, m, group)
    && m.locked <= 0 && Target(m) == 0 && !(acc.delay > 0 && m.height + acc.delay > height)
    && !m.recovery.Registration? && acc.balance >= m.amount
  }

  /** The approval tx lets the transaction it approves settle. */
  ghost predicate Settling(accounts: map<Address, Account>, multisig: seq<Tx>, stored: map<nat, Tx>, tx: Tx, height: int) {
    var main := MainIn(multisig, stored, tx);
    main.Some? && main.value.sender in accounts
    && ReadyFor(accounts[main.value.sender], main.value, Group(multisig, tx.approves.value), height)
  }

  /** The approvals are there. */
  ghost predicate Signed(acc: Account, m: Tx, group: seq<Tx>) {
    |group| >= acc.required && |multiset(acc.signers) * multiset(Approvers(m, group))| >= acc.required
  }

  /** When an approval does not fail its block: what it approves is known and not too old, and once
      it has the approvals it can be carried out. */
  ghost predicate ApprovalAllowed(accounts: map<Address, Account>, multisig: seq<Tx>, stored: map<nat, Tx>, tx: Tx, height: int) {
    tx.approves.None? ||
    (var main := MainIn(multisig, stored, tx);
     main.Some? && main.value.sender in accounts && height - main.value.height <= MAX_IN_MULTISIG_POOL
     && var m, acc := main.value, accounts[main.value.sender];
        Signed(acc, m, Group(multisig, tx.approves.value)) ==>
          && !(m.locked > 0 && !(0 < Target(m) < 256))
          && (Target(m) == 0 ==>
                && !(acc.delay > 0 && m.height + acc.delay > height)
                && if m.recovery.Registration? then m.recovery.applies else acc.balance >= m.amount))
  }

  /** When a stake, a locked stake or an unstaking is accepted; e is the entry it concerns. */
  predicate StakeAllowed(e: Entry, present: bool, tx: Tx, height: int) {
    var rested := height >= e.lastStakeHeight + MIN_BLOCKS_IN_STAKE;
    if tx.locked > 0 then
      tx.amount >= MIN_STAKING_USER && 0 <= tx.release <= tx.locked <= tx.amount && (tx.recipient != tx.sender || rested)
    else if tx.amount >= MIN_STAKING_USER then rested
    else
      && present && tx.amount < 0 && rested && e.staked + tx.amount >= 0
      && e.locks.Aligned() && TestPasses(e.locks, height, e.staked + tx.amount)
  }

  /** When a withdrawal of rewards is accepted; a positive amount is, and does nothing. */
  predicate WithdrawalAllowed(e: Entry, present: bool, balance: int, tx: Tx) {
    present && tx.amount != 0 && (tx.amount < 0 ==> e.rewards + tx.amount >= 0 && balance - tx.amount >= tx.fee)
  }

  /** When a recovery transaction goes through. */
  predicate RecoveryAllowed(accounts: map<Address, Account>, tx: Tx) {
    var acc := AccountOf(accounts, tx.sender);
    && (match tx.recovery
        case NotRecovery => false
        case FeeOnly(applies) => applies
        case Registration(applies) => tx.sender in accounts && (acc.delay > 0 || acc.required > 0 || applies))
    && acc.balance >= tx.fee
  }

  /** When a transfer goes through: the sender can pay, and may set the policy. */
  predicate TransferAllowed(accounts: map<Address, Account>, tx: Tx) {
    var acc := AccountOf(accounts, tx.sender);
    && (MovesNow(tx, acc) ==> acc.balance >= tx.amount)
    && acc.balance + BalanceDelta(tx, acc, tx.sender) >= 0
    && PolicyAllowed(tx, AccountOf(accounts, tx.recipient))
  }

  /** validateEscrowCancellation. */
  predicate CancellationValid(accounts: map<Address, Account>, escrow: seq<Tx>, tx: Tx, height: int) {
    && tx.cancels.Some?
    && tx.amount == 0 && tx.recipient == tx.sender && tx.locked == 0 && tx.newRequired == 0 && tx.approves.None?
    && AccountOf(accounts, tx.sender).delay > 0
    && exists i :: 0 <= i < |escrow| && escrow[i].hash == tx.cancels.value && escrow[i].sender == tx.sender
                   && height < escrow[i].height + AccountOf(accounts, tx.sender).delay
  }

  predicate EntryPresent(entries: map<Key, Entry>, k: Key) {
    k in entries || k.1 == ZERO_ADDRESS
  }

  /** Which transactions are accepted. */
  predicate Accepts(accounts: map<Address, Account>, entries: map<Key, Entry>, escrow: seq<Tx>, tx: Tx, height: int) {
    var n, balance := Target(tx), AccountOf(accounts, tx.sender).balance;
    if !tx.recovery.NotRecovery? then RecoveryAllowed(accounts, tx)
    else if tx.cancels.Some? then CancellationValid(accounts, escrow, tx, height) && balance >= tx.fee
    else if tx.locked > 0 && (n == 0 || n >= 256) then false
    else if n == 0 then TransferAllowed(accounts, tx)
    else if n < 256 then
      var k := (n, Staker(tx));
      && StakeAllowed(EntryAt(entries, k), EntryPresent(entries, k), tx, height)
      && balance >= tx.fee + tx.amount && PolicyAllowed(tx, AccountOf(accounts, tx.recipient))
    else if n < 512 then
      var k := (n % 256, tx.sender);
      WithdrawalAllowed(EntryAt(entries, k), EntryPresent(entries, k), balance, tx)
    else balance >= tx.fee
  }

  /** No account is different; there may be new ones without a coin. */
  ghost predicate SameAccounts(before: map<Address, Account>, after: map<Address, Account>) {
    forall a: Address :: AccountOf(after, a) == AccountOf(before, a)
  }

  lemma SameTwice(a: map<Address, Account>, b: map<Address, Account>, c: map<Address, Account>)
    requires SameAccounts(a, b) && SameAccounts(b, c)
    ensures SameAccounts(a, c)
  {
  }

  lemma SameAcceptance(before: map<Address, Account>, after: map<Address, Account>, entries: map<Key, Entry>, escrow: seq<Tx>, tx: Tx, height: int)
    requires SameAccounts(before, after) && tx.recovery.NotRecovery?
    ensures Accepts(before, entries, escrow, tx, height) <==> Accepts(after, entries, escrow, tx, height)
    ensures AccountOf(before, tx.sender) == AccountOf(after, tx.sender)
  {
    hide StakeAllowed, WithdrawalAllowed, PolicyAllowed, BalanceDelta, MovesNow, Target;
  }

  lemma BookStands(entries: map<Key, Entry>, tx: Tx)
    requires !tx.recovery.NotRecovery?
    ensures BookAfter(entries, entries, tx)
  {
  }

  lemma TouchedFirst(before: map<Address, Account>, mid: map<Address, Account>, after: map<Address, Account>, tx: Tx)
    requires SameAccounts(before, mid) && AccountsAfter(mid, after, tx)
    ensures AccountsAfter(before, after, tx)
  {
    hide WithPolicy, BalanceDelta, Target;
  }

  lemma TransferFee(before: map<Address, Account>, mid: map<Address, Account>, tx: Tx)
    requires var acc := AccountOf(before, tx.sender);
             Moved(before, mid, tx.sender, Outlay(tx, acc), tx.recipient, if MovesNow(tx, acc) then tx.amount else 0)
    requires Plain(tx) && Target(tx) == 0 && tx.locked <= 0
    ensures var acc := AccountOf(before, tx.sender);
            AccountOf(mid, tx.sender).balance - tx.fee == acc.balance + BalanceDelta(tx, acc, tx.sender)
  {
  }

  lemma TransferPolicy(before: map<Address, Account>, mid: map<Address, Account>, paid: map<Address, Account>, tx: Tx)
    requires var acc := AccountOf(before, tx.sender);
             Moved(before, mid, tx.sender, Outlay(tx, acc), tx.recipient, if MovesNow(tx, acc) then tx.amount else 0)
    requires Moved(mid, paid, tx.sender, tx.fee, tx.sender, 0)
    ensures PolicyAllowed(tx, AccountOf(paid, tx.recipient)) <==> PolicyAllowed(tx, AccountOf(before, tx.recipient))
  {
  }

  lemma {:induction false} TransferDone(before: map<Address, Account>, mid: map<Address, Account>, paid: map<Address, Account>,
                                        after: map<Address, Account>, tx: Tx)
    requires Plain(tx) && Target(tx) == 0 && tx.locked <= 0
    requires var acc := AccountOf(before, tx.sender);
             Moved(before, mid, tx.sender, Outlay(tx, acc), tx.recipient, if MovesNow(tx, acc) then tx.amount else 0)
    requires Moved(mid, paid, tx.sender, tx.fee, tx.sender, 0)
    requires forall a: Address :: AccountOf(after, a) == if a == tx.recipient then WithPolicy(AccountOf(paid, a), tx) else AccountOf(paid, a)
    ensures AccountsAfter(before, after, tx)
  {
    hide Outlay, MovesNow, AccountAfter, WithPolicy, Target;
    var acc := AccountOf(before, tx.sender);
    MovedTwice(before, mid, paid, tx.sender, Outlay(tx, acc), tx.recipient, if MovesNow(tx, acc) then tx.amount else 0, tx.fee);
    forall a: Address ensures AccountOf(after, a) == AccountAfter(AccountOf(before, a), acc, tx, a) {
      TransferAt(AccountOf(before, a), acc, tx, a);
    }
  }

  lemma TransferAt(acc: Account, sender: Account, tx: Tx, a: Address)
    requires Plain(tx) && Target(tx) == 0 && tx.locked <= 0
    ensures var out := Outlay(tx, sender) + tx.fee;
            var paid := acc.(balance := acc.balance - (if a == tx.sender then out else 0)
                                        + (if a == tx.recipient then if MovesNow(tx, sender) then tx.amount else 0 else 0));
            AccountAfter(acc, sender, tx, a) == if a == tx.recipient then WithPolicy(paid, tx) else paid
  {
    hide DelegatedNumber;
  }

  lemma {:induction false} OneEntryAfter(before: map<Key, Entry>, after: map<Key, Entry>, tx: Tx, k: Key)
    requires k in after && after == before[k := after[k]]
    requires after[k].staked == StakeAt(before, k) + StakeDelta(tx, k) && after[k].rewards == RewardAt(before, k) + RewardDelta(tx, k)
    requires forall j :: j != k ==> StakeDelta(tx, j) == 0 && RewardDelta(tx, j) == 0
    ensures BookAfter(before, after, tx)
  {
    hide StakeDelta, RewardDelta;
    forall j ensures StakeAt(after, j) == StakeAt(before, j) + StakeDelta(tx, j) && RewardAt(after, j) == RewardAt(before, j) + RewardDelta(tx, j) {
      if j != k { assert j in after <==> j in before; }
    }
  }

  /** What the settlement of transactions does to a's balance. */
  function NetOf(txs: seq<Tx>, a: Address): int {
    if txs == [] then 0
    else
      var tx := txs[|txs| - 1];
      NetOf(txs[..|txs| - 1], a) - (if a == tx.sender then tx.amount else 0) + (if a == tx.recipient then tx.amount else 0)
  }

  ghost predicate AllMoved(before: map<Address, Account>, after: map<Address, Account>, txs: seq<Tx>) {
    forall a: Address :: AccountOf(after, a) == AccountOf(before, a).(balance := AccountOf(before, a).balance + NetOf(txs, a))
  }

  /** A held transaction may settle: it is a transfer, the delay of its sender is over, and it
      needs no further approvals. */
  predicate Matured(accounts: map<Address, Account>, tx: Tx, height: int) {
    var acc := AccountOf(accounts, tx.sender);
    Target(tx) == 0 && !tx.recovery.Registration? &&
    (tx.approves.None? ==> acc.required <= 0 && (acc.delay > 0 ==> tx.height + acc.delay <= height))
  }

  /** Served transactions that have matured, each at most once. */
  ghost predicate Settles(served: seq<Tx>, accounts: map<Address, Account>, settled: seq<Tx>, height: int) {
    && Unique(settled)
    && forall i :: 0 <= i < |settled| ==> settled[i] in served && Matured(accounts, settled[i], height)
  }

  ghost predicate Absent(pool: seq<Tx>, settled: seq<Tx>) {
    forall x, i :: x in pool && 0 <= i < |settled| ==> x.hash != settled[i].hash
  }

  /** What stops the settlement loop: a lock without a delegated account, a sender without an
      account, a commitment that does not apply, or a sender that cannot pay. */
  predicate Stops(accounts: map<Address, Account>, tx: Tx) {
    || (tx.locked > 0 && !(0 < Target(tx) < 256))
    || (Target(tx) == 0 && tx.sender !in accounts)
    || (Target(tx) == 0 && tx.recovery.Registration? && !tx.recovery.applies)
    || (Target(tx) == 0 && AccountOf(accounts, tx.sender).balance < tx.amount)
  }

  lemma NoneSettled(accounts: map<Address, Account>, served: seq<Tx>, pool: seq<Tx>, height: int)
    ensures AllMoved(accounts, accounts, []) && Settles(served[..0], accounts, [], height) && Absent(pool, [])
  {
  }

  lemma MaturedMeans(accounts: map<Address, Account>, tx: Tx, height: int)
    ensures var acc := AccountOf(accounts, tx.sender);
            Matured(accounts, tx, height) <==>
              Target(tx) == 0 && !tx.recovery.Registration? &&
              (tx.approves.None? ==> acc.required <= 0 && (acc.delay > 0 ==> tx.height + acc.delay <= height))
  {
  }

  lemma SettlesPrefix(txs: seq<Tx>, i: nat, accounts: map<Address, Account>, settled: seq<Tx>, height: int)
    requires i <= |txs| && Settles(txs[..i], accounts, settled, height)
    ensures Settles(txs, accounts, settled, height)
  {
    hide Matured;
  }

  /** The next served transaction may be added. */
  lemma {:induction false} OneMoreServed(txs: seq<Tx>, i: nat, accounts: map<Address, Account>, settled: seq<Tx>, height: int)
    requires i < |txs| && Unique(txs) && Settles(txs[..i], accounts, settled, height)
    ensures Settles(txs[..i + 1], accounts, settled, height)
    ensures Matured(accounts, txs[i], height) ==> Settles(txs[..i + 1], accounts, settled + [txs[i]], height)
  {
    hide Matured;
    forall j | 0 <= j < |settled| ensures settled[j].hash != txs[i].hash && settled[j] in txs[..i + 1] {
      var k :| 0 <= k < i && txs[..i][k] == settled[j];
      assert txs[..i + 1][k] == settled[j];
    }
    assert txs[..i + 1][i] == txs[i];
  }

  lemma StillAbsent(pool: seq<Tx>, settled: seq<Tx>, hash: nat)
    requires Absent(pool, settled) && Unique(pool)
    ensures Absent(Without(pool, hash), settled) && Unique(Without(pool, hash))
  {
    WithoutMembers(pool, hash);
  }

  lemma NowAbsent(pool: seq<Tx>, settled: seq<Tx>, tx: Tx)
    requires Absent(pool, settled) && forall x :: x in pool ==> x.hash != tx.hash
    ensures Absent(pool, settled + [tx])
  {
  }

  lemma SameBalance(before: map<Address, Account>, after: map<Address, Account>, a: Address)
    requires Moved(before, after, 0, 0, 0, 0)
    ensures AccountOf(after, a) == AccountOf(before, a)
  {
  }

  lemma SamePolicies(before: map<Address, Account>, after: map<Address, Account>, txs: seq<Tx>, a: Address)
    requires AllMoved(before, after, txs)
    ensures AccountOf(after, a).delay == AccountOf(before, a).delay && AccountOf(after, a).required == AccountOf(before, a).required
  {
  }

  lemma NothingMoved(before: map<Address, Account>, mid: map<Address, Account>, after: map<Address, Account>, txs: seq<Tx>)
    requires AllMoved(before, mid, txs) && Moved(mid, after, 0, 0, 0, 0)
    ensures AllMoved(before, after, txs)
  {
  }

  lemma OneMoreMoved(before: map<Address, Account>, mid: map<Address, Account>, after: map<Address, Account>, txs: seq<Tx>, tx: Tx)
    requires AllMoved(before, mid, txs) && Moved(mid, after, tx.sender, tx.amount, tx.recipient, tx.amount)
    ensures AllMoved(before, after, txs + [tx])
  {
    assert (txs + [tx])[..|txs|] == txs;
  }

  /** What a list of balance changes adds to a's balance. */
  function ChangeOf(changes: seq<(Address, int)>, a: Address): int {
    if changes == [] then 0
    else ChangeOf(changes[..|changes| - 1], a) + (if changes[|changes| - 1].0 == a then changes[|changes| - 1].1 else 0)
  }

  ghost predicate Changed(before: map<Address, Account>, after: map<Address, Account>, changes: seq<(Address, int)>) {
    forall a: Address :: AccountOf(after, a) == AccountOf(before, a).(balance := AccountOf(before, a).balance + ChangeOf(changes, a))
  }

  lemma NoChange(accounts: map<Address, Account>)
    ensures Changed(accounts, accounts, [])
  {
  }

  lemma NextChange(before: map<Address, Account>, mid: map<Address, Account>, after: map<Address, Account>,
                   changes: seq<(Address, int)>, i: nat)
    requires i < |changes| && Changed(before, mid, changes[..i]) && Moved(mid, after, changes[i].0, 0 - changes[i].1, changes[i].0, 0)
    ensures Changed(before, after, changes[..i + 1])
  {
    assert changes[..i + 1][..i] == changes[..i];
  }

  lemma StandStill(accounts: map<Address, Account>)
    ensures Moved(accounts, accounts, 0, 0, 0, 0)
  {
  }

  lemma MovedTwice(x: map<Address, Account>, y: map<Address, Account>, z: map<Address, Account>,
                   from: Address, out: int, to: Address, amount: int, more: int)
    requires Moved(x, y, from, out, to, amount) && Moved(y, z, from, more, from, 0)
    ensures Moved(x, z, from, out + more, to, amount)
  {
  }

  // ---------------------------------------------------------------- approvals

  /** An entry that approves main, if its sender is a signer. */
  predicate Approves(main: Tx, t: Tx) {
    t.amount == 0 && t.recipient == main.recipient
  }

  function Approvers(main: Tx, group: seq<Tx>): seq<Address> {
    if group == [] then []
    else
      var front := Approvers(main, group[..|group| - 1]);
      if Approves(main, group[|group| - 1]) then front + [group[|group| - 1].sender] else front
  }

  function IndexOf(s: seq<Address>, a: Address): (i: nat)
    requires a in s
    ensures i < |s| && s[i] == a
  {
    if s[0] == a then 0 else 1 + IndexOf(s[1..], a)
  }

  lemma RemoveAt(s: seq<Address>, k: nat)
    requires k < |s|
    ensures multiset(s[..k] + s[k + 1..]) == multiset(s) - multiset{s[k]}
  {
    assert s == s[..k] + [s[k]] + s[k + 1..];
  }

  lemma ApproversStep(main: Tx, group: seq<Tx>, i: nat)
    requires i < |group|
    ensures multiset(Approvers(main, group[..i + 1]))
         == multiset(Approvers(main, group[..i])) + (if Approves(main, group[i]) then multiset{group[i].sender} else multiset{})
  {
    assert group[..i + 1][..i] == group[..i];
  }

  lemma DifferenceStep(s: multiset<Address>, e: multiset<Address>, a: Address)
    ensures (s - e) - multiset{a} == s - (e + multiset{a})
    ensures a !in s - e ==> s - e == s - (e + multiset{a})
  {
  }

  /** CountMultiSignApprovals: every place in the list of signers counts at most once,
      whatever the order of the entries. */
  method CountApprovals(main: Tx, group: seq<Tx>, signers: seq<Address>) returns (approvals: nat)
    ensures approvals == |multiset(signers) * multiset(Approvers(main, group))|
  {
    hide Approvers, Approves, OpenPlaces;
    approvals := 0;
    var open := signers;
    assert group[..0] == [];
    AllOpen(main, signers);
    for i := 0 to |group|
      invariant OpenPlaces(main, group[..i], signers, open) && |open| + approvals == |signers|
    {
      var t := group[i];
      var at := if Approves(main, t) && t.sender in open then IndexOf(open, t.sender) else |open|;
      NextPlace(main, group, i, signers, open, at);
      if at < |open| {
        approvals := approvals + 1;
        open := open[..at] + open[at + 1..];
      }
    }
    assert group[..|group|] == group;
    FilledPlaces(main, group, signers, open);
  }

  /** The places still open after the entries of `group`. */
  ghost predicate OpenPlaces(main: Tx, group: seq<Tx>, signers: seq<Address>, open: seq<Address>) {
    multiset(open) == multiset(signers) - multiset(Approvers(main, group))
  }

  lemma AllOpen(main: Tx, signers: seq<Address>)
    ensures OpenPlaces(main, [], signers, signers)
  {
  }

  lemma NextPlace(main: Tx, group: seq<Tx>, i: nat, signers: seq<Address>, open: seq<Address>, at: nat)
    requires i < |group| && OpenPlaces(main, group[..i], signers, open) && at <= |open|
    requires at < |open| <==> Approves(main, group[i]) && group[i].sender in open
    requires at < |open| ==> open[at] == group[i].sender
    ensures OpenPlaces(main, group[..i + 1], signers, if at < |open| then open[..at] + open[at + 1..] else open)
  {
    hide Approvers, Approves;
    ApproversStep(main, group, i);
    DifferenceStep(multiset(signers), multiset(Approvers(main, group[..i])), group[i].sender);
    if at < |open| { RemoveAt(open, at); }
  }

  lemma FilledPlaces(main: Tx, group: seq<Tx>, signers: seq<Address>, open: seq<Address>)
    requires OpenPlaces(main, group, signers, open)
    ensures |open| + |multiset(signers) * multiset(Approvers(main, group))| == |signers|
  {
    hide Approvers;
    assert |multiset(signers)| == |signers| && |multiset(open)| == |open|;
  }

  /** The main transaction itself is one more approval exactly when it moves nothing and its
      sender has a place among the signers that the others of the group have left open. */
  lemma OwnApproval(main: Tx, group: seq<Tx>, signers: seq<Address>)
    ensures var others := multiset(Approvers(main, group));
            |multiset(signers) * multiset(Approvers(main, group + [main]))| == |multiset(signers) * others|
              + (if main.amount == 0 && others[main.sender] < multiset(signers)[main.sender] then 1 else 0)
  {
    var all := group + [main];
    assert all[..|group|] == group && all[..|all|] == all;
    ApproversStep(main, all, |group|);
    var s, o, x := multiset(signers), multiset(Approvers(main, group)), multiset{main.sender};
    if main.amount == 0 {
      if o[main.sender] < s[main.sender] {
        assert s * (o + x) == s * o + x;
      } else {
        assert s * (o + x) == s * o;
      }
    } else {
      assert multiset(Approvers(main, all)) == o;
    }
  }

  // ---------------------------------------------------------------- contracts

  const DEX_ADDRESS: Address := 0x0123456789012345678901234567890123456789

  /** Execution: the balance changes an EVM call makes, in order, and whether it fails.
      DexOrder: coins that go from the DEX to the trader, or back when negative. */
  datatype ContractStep = Execution(changes: seq<(Address, int)>, fails: bool) | DexOrder(trader: Address, coins: int)

  // ---------------------------------------------------------------- blocks

  datatype Block = Block(
    height: int,
    time: int,
    now: int,                  // the node's clock, which only reaches the detail log
    n: nat,                    // the producing delegated account
    operator: Address,
    perc: int,                 // the operator's percentage, in tenths
    supply: int,
    randCommit: nat,
    txs: seq<Tx>,
    verdicts: seq<bool>,       // the checks on each transaction alone
    operatorKeys: set<Address>, // accounts with a primary and a secondary key
    steps: seq<ContractStep>,
    authentic: bool)           // header signature, state root and stake-dependent checks

  /** A transaction that passes verification is well shaped. */
  predicate Judged(b: Block) {
    |b.verdicts| == |b.txs| && forall i :: 0 <= i < |b.txs| && b.verdicts[i] ==> Shaped(b.txs[i])
  }

  /** What the next block builds on: the declared supply and the accumulated fees. */
  datatype Tip = Tip(supply: nat, blockFee: int)

  datatype Outcome = Applied(tip: Tip) | Rejected | SupplyMismatch

  function FeeTotal(txs: seq<Tx>): nat {
    if txs == [] then 0 else FeeTotal(txs[..|txs| - 1]) + txs[|txs| - 1].fee
  }

  function ChargedTotal(txs: seq<Tx>): nat {
    if txs == [] then 0 else ChargedTotal(txs[..|txs| - 1]) + Charged(txs[|txs| - 1])
  }

  /** Fees that are booked but never taken. */
  function UnchargedTotal(txs: seq<Tx>): nat {
    if txs == [] then 0
    else UnchargedTotal(txs[..|txs| - 1]) + (if Uncharged(txs[|txs| - 1]) then txs[|txs| - 1].fee else 0)
  }

  /** What the transactions of a sender take out of its account. */
  function Spent(txs: seq<Tx>, a: Address): int {
    if txs == [] then 0
    else
      var tx := txs[|txs| - 1];
      Spent(txs[..|txs| - 1], a) + (if tx.sender == a then tx.fee + tx.amount else 0)
  }

  /** What a block has added up for a sender of staking transactions: its stake and amounts, its
      rewards and fees. The tab is kept per sender, whatever delegated accounts are meant. */
  datatype Tab = Tab(staked: int, fees: int)

  function TabAfter(entries: map<Key, Entry>, tabs: map<Address, Tab>, tx: Tx): Tab {
    var e := EntryAt(entries, (Target(tx) % 256, tx.sender));
    var tab := if tx.sender in tabs then tabs[tx.sender] else Tab(e.staked, e.rewards);
    Tab(tab.staked + tx.amount, tab.fees + tx.fee)
  }

  function Tabs(entries: map<Key, Entry>, txs: seq<Tx>): map<Address, Tab> {
    if txs == [] then map[]
    else
      var before, tx := Tabs(entries, txs[..|txs| - 1]), txs[|txs| - 1];
      if 0 < Target(tx) < 512 then before[tx.sender := TabAfter(entries, before, tx)] else before
  }

  lemma NoTabs(entries: map<Key, Entry>)
    ensures Tabs(entries, []) == map[]
  {
  }

  lemma NextTab(entries: map<Key, Entry>, txs: seq<Tx>, i: nat)
    requires i < |txs|
    ensures var before, tx := Tabs(entries, txs[..i]), txs[i];
            Tabs(entries, txs[..i + 1]) == if 0 < Target(tx) < 512 then before[tx.sender := TabAfter(entries, before, tx)] else before
  {
    hide TabAfter;
    assert txs[..i + 1][..i] == txs[..i];
  }

  predicate EnoughOrNone(amount: int) {
    amount == 0 || amount >= MIN_STAKING_USER
  }

  /** CheckStakingTransaction; `tab` includes this transaction. */
  predicate StakingCheck(accounts: map<Address, Account>, entries: map<Key, Entry>, keys: set<Address>, tx: Tx, tab: Tab) {
    var n := Target(tx);
    var k := (n % 256, tx.sender);
    var e := EntryAt(entries, k);
    && tx.sender in accounts && accounts[tx.sender].balance >= tx.fee && accounts[tx.sender].balance >= tab.fees
    && (0 < n < 256 ==>
          && (tx.hasData && tx.amount > 0 ==> tx.sender in keys)
          && (if tx.locked > 0 then tx.amount >= MIN_STAKING_USER && 0 <= tx.release <= tx.locked <= tx.amount
              else
                && (k in entries || tx.amount > 0) && !(0 < tx.amount < MIN_STAKING_USER) && EnoughOrNone(e.staked + tx.amount)
                && !(0 < tab.staked < MIN_STAKING_USER) && EnoughOrNone(e.staked + tab.staked)))
    && (256 <= n < 512 ==> (k in entries || tx.sender == ZERO_ADDRESS) && e.rewards + tx.amount >= 0)
  }

  /** Transactions by hash, the last one first. */
  function StoredAfter(stored: map<nat, Tx>, txs: seq<Tx>): map<nat, Tx> {
    if txs == [] then stored else StoredAfter(stored, txs[..|txs| - 1])[txs[|txs| - 1].hash := txs[|txs| - 1]]
  }

  // ---------------------------------------------------------------- the steps of a block

  /** What the transactions of a block act on. */
  datatype View = View(accounts: map<Address, Account>, entries: map<Key, Entry>, escrow: seq<Tx>, multisig: seq<Tx>)

  /** A block takes two steps for each transaction: the transaction itself, and what it approves. */
  ghost predicate StepAllowed(v: View, stored: map<nat, Tx>, txs: seq<Tx>, k: nat, height: int)
    requires k < 2 * |txs|
  {
    if k % 2 == 0 then Accepts(v.accounts, v.entries, v.escrow, txs[k / 2], height)
    else ApprovalAllowed(v.accounts, v.multisig, stored, txs[k / 2], height)
  }

  ghost predicate StepDone(v: View, w: View, stored: map<nat, Tx>, txs: seq<Tx>, k: nat, height: int)
    requires k < 2 * |txs|
  {
    var tx := txs[k / 2];
    if k % 2 == 0 then
      AccountsAfter(v.accounts, w.accounts, tx) && BookAfter(v.entries, w.entries, tx) && (LeavesBook(tx) ==> w.entries == v.entries)
    else
      && w.entries == v.entries && w.escrow == v.escrow
      && if Settling(v.accounts, v.multisig, stored, tx, height) then
           var m := MainIn(v.multisig, stored, tx).value;
           Moved(v.accounts, w.accounts, m.sender, m.amount, m.recipient, m.amount)
         else Moved(v.accounts, w.accounts, 0, 0, 0, 0)
  }

  ghost predicate GoodStep(views: seq<View>, stored: map<nat, Tx>, txs: seq<Tx>, k: nat, height: int)
    requires k < 2 * |txs| && k + 1 < |views|
  {
    StepAllowed(views[k], stored, txs, k, height) && StepDone(views[k], views[k + 1], stored, txs, k, height)
  }

  /** The views of a block up to the first step that is not allowed, or to the end. */
  ghost predicate Steps(views: seq<View>, stored: map<nat, Tx>, txs: seq<Tx>, height: int) {
    && 1 <= |views| <= 2 * |txs| + 1
    && forall k: nat :: k + 1 < |views| ==> GoodStep(views, stored, txs, k, height)
  }

  ghost predicate Stopped(views: seq<View>, stored: map<nat, Tx>, txs: seq<Tx>, height: int) {
    1 <= |views| <= 2 * |txs| && !StepAllowed(views[|views| - 1], stored, txs, |views| - 1, height)
  }

  lemma {:induction false} OneMoreStep(views: seq<View>, w: View, stored: map<nat, Tx>, txs: seq<Tx>, height: int)
    requires Steps(views, stored, txs, height) && |views| <= 2 * |txs|
    requires StepAllowed(views[|views| - 1], stored, txs, |views| - 1, height)
    requires StepDone(views[|views| - 1], w, stored, txs, |views| - 1, height)
    ensures Steps(views + [w], stored, txs, height)
  {
    hide StepAllowed, StepDone;
    var more := views + [w];
    forall k: nat | k + 1 < |more| ensures GoodStep(more, stored, txs, k, height) {
      if k + 1 < |views| { assert GoodStep(views, stored, txs, k, height); }
      assert more[k] == views[k];
    }
  }

  /** The reward of a block can be paid out. */
  ghost predicate RewardPayable(entries: map<Key, Entry>, b: Block, reward: nat) {
    && StakedIn(entries, b.n) > 0 && EntryPresent(entries, (b.n, b.operator))
    && b.perc <= 500 && 0 <= OperatorPart(reward, b.perc) <= reward
  }

  /** An approval carries nothing but itself. */
  predicate ApprovalShaped(tx: Tx) {
    tx.approves.Some? ==> tx.amount <= 0 && !tx.hasData && tx.locked <= 0 && tx.newRequired <= 0
  }

  lemma {:induction false} FeesSplit(txs: seq<Tx>)
    ensures FeeTotal(txs) == ChargedTotal(txs) + UnchargedTotal(txs)
  {
    if txs != [] { FeesSplit(txs[..|txs| - 1]); }
  }

  /** Nothing is left uncharged exactly when no fee-paying transaction is of that kind. */
  lemma {:induction false} UnchargedNone(txs: seq<Tx>)
    ensures UnchargedTotal(txs) == 0 <==> forall i :: 0 <= i < |txs| && Uncharged(txs[i]) ==> txs[i].fee == 0
  {
    if txs != [] {
      var front := txs[..|txs| - 1];
      UnchargedNone(front);
      assert forall i :: 0 <= i < |front| ==> front[i] == txs[i];
    }
  }

  lemma ShapedAt(txs: seq<Tx>, i: nat)
    requires AllShaped(txs) && i < |txs|
    ensures Shaped(txs[i])
  {
  }

  lemma ChargedStep(txs: seq<Tx>, i: nat)
    requires i < |txs|
    ensures ChargedTotal(txs[..i + 1]) == ChargedTotal(txs[..i]) + Charged(txs[i])
  {
    assert txs[..i + 1][..i] == txs[..i];
  }

  lemma ChargedNothing()
    ensures ChargedTotal([]) == 0
  {
  }

  lemma SpentStep(txs: seq<Tx>, i: nat)
    requires i < |txs|
    ensures forall a: Address :: Spent(txs[..i + 1], a)
                              == Spent(txs[..i], a) + (if txs[i].sender == a then txs[i].fee + txs[i].amount else 0)
    ensures FeeTotal(txs[..i + 1]) == FeeTotal(txs[..i]) + txs[i].fee
  {
    assert txs[..i + 1][..i] == txs[..i];
  }

  lemma SpentNothing()
    ensures FeeTotal([]) == 0 && forall a: Address :: Spent([], a) == 0
  {
  }

  function FeesOf(blocks: seq<Block>): nat {
    if blocks == [] then 0 else FeesOf(blocks[..|blocks| - 1]) + FeeTotal(blocks[|blocks| - 1].txs)
  }

  lemma NoFees()
    ensures FeesOf([]) == 0
  {
  }

  lemma FeesSnoc(blocks: seq<Block>, b: Block)
    ensures FeesOf(blocks + [b]) == FeesOf(blocks) + FeeTotal(b.txs)
  {
    assert (blocks + [b])[..|blocks|] == blocks;
  }

  class Ledger {
    var accounts: map<Address, Account>
    var escrow: seq<Tx>
    var multisig: seq<Tx>
    var stored: map<nat, Tx>        // applied and pending transactions on disk
    var escrowBans: map<nat, nat>   // how often each pool has banned a hash
    var multisigBans: map<nat, nat>
    const book: StakingBook

    constructor (accounts: map<Address, Account>, book: StakingBook)
      ensures this.accounts == accounts && this.book == book && escrow == [] && multisig == [] && stored == map[]
      ensures escrowBans == map[] && multisigBans == map[]
    {
      this.accounts, this.book := accounts, book;
      escrow, multisig, stored, escrowBans, multisigBans := [], [], map[], map[], map[];
    }

    ghost predicate Valid()
      reads this, book
    {
      && Solvent(accounts) && BookValid(book.entries)
      && AllShaped(escrow) && AllShaped(multisig) && Unique(escrow) && Unique(multisig)
      && forall h :: h in stored ==> Shaped(stored[h]) && stored[h].hash == h
    }

    /** All coins: balances, stake and rewards. */
    ghost function Coins(): int
      reads this, book
    {
      BalanceTotal(accounts) + StakedTotal(book.entries) + RewardsTotal(book.entries)
    }

    function BalanceOf(a: Address): int
      reads this
    {
      AccountOf(accounts, a).balance
    }

    method AddBalance(a: Address, amount: int) returns (ok: bool)
      requires Solvent(accounts)
      modifies `accounts
      ensures ok <==> old(BalanceOf(a)) + amount >= 0
      ensures Solvent(accounts)
      ensures BalanceTotal(accounts) == old(BalanceTotal(accounts)) + (if ok then amount else 0)
      ensures Moved(old(accounts), accounts, a, if ok then 0 - amount else 0, a, 0)
      ensures forall b :: b in old(accounts) ==> b in accounts
    {
      hide BalanceTotal;
      var acc := AccountOf(accounts, a);
      BalanceUpdate(accounts, a, acc);
      if a !in accounts {
        accounts := accounts[a := acc];
      }
      if acc.balance + amount < 0 { return false; }
      BalanceUpdate(accounts, a, acc.(balance := acc.balance + amount));
      accounts := accounts[a := acc.(balance := acc.balance + amount)];
      return true;
    }

    // -------------------------------------------------------------- one transaction

    /** processRecoveryTransaction, as far as coins and pools are concerned. */
    method ProcessRecovery(tx: Tx, height: int) returns (ok: bool)
      requires Valid() && Shaped(tx) && !tx.recovery.NotRecovery?
      modifies `accounts, `escrow, `multisig
      ensures forall b :: b in old(accounts) ==> b in accounts
      ensures Valid()
      ensures ok ==> Coins() == old(Coins()) - tx.fee && AccountsAfter(old(accounts), accounts, tx)
      ensures ok <==> RecoveryAllowed(old(accounts), tx)
      ensures var acc, waits := AccountOf(old(accounts), tx.sender), tx.recovery.Registration?;
              && (if waits && tx.sender in old(accounts) && acc.delay > 0 then Held(old(escrow), tx.(height := height), escrowBans, escrow) else escrow == old(escrow))
              && (if waits && tx.sender in old(accounts) && acc.delay <= 0 < acc.required then Held(old(multisig), tx.(height := height), multisigBans, multisig)
                  else multisig == old(multisig))
    {
      hide BalanceTotal, StakedTotal, RewardsTotal;
      if tx.recovery.Registration? {
        if tx.sender !in accounts { return false; }
        var acc := accounts[tx.sender];
        if acc.delay > 0 {
          var _, pool := AddToPool(escrow, tx.(height := height), escrowBans);
          escrow := pool;
        } else if acc.required > 0 {
          var _, pool := AddToPool(multisig, tx.(height := height), multisigBans);
          multisig := pool;
        } else if !tx.recovery.applies {
          return false;
        }
      } else if !tx.recovery.applies {
        return false;
      }
      ok := AddBalance(tx.sender, 0 - tx.fee);
    }

    method ProcessCancellation(tx: Tx, height: int) returns (ok: bool)
      requires Valid() && tx.cancels.Some?
      modifies `accounts, `escrow, `escrowBans
      ensures forall b :: b in old(accounts) ==> b in accounts
      ensures Valid()
      ensures ok ==> Coins() == old(Coins()) - tx.fee && Moved(old(accounts), accounts, tx.sender, tx.fee, tx.sender, 0)
      ensures ok <==> old(CancellationValid(accounts, escrow, tx, height)) && old(BalanceOf(tx.sender)) >= tx.fee
      ensures escrow == if ok then Without(old(escrow), tx.cancels.value) else old(escrow)
      ensures escrowBans == if ok then Ban(old(escrowBans), tx.cancels.value) else old(escrowBans)
    {
      hide BalanceTotal, StakedTotal, RewardsTotal;
      if !CancellationValid(accounts, escrow, tx, height) { return false; }
      ok := AddBalance(tx.sender, 0 - tx.fee);
      if !ok { return; }
      WithoutMembers(escrow, tx.cancels.value);
      escrow, escrowBans := Without(escrow, tx.cancels.value), Ban(escrowBans, tx.cancels.value);
    }

    /** Staking, locking and unstaking: delegated accounts 1 to 255. */
    method ProcessStaking(tx: Tx, n: nat, height: int, time: int) returns (ok: bool)
      requires Valid() && time >= 0 && Plain(tx) && n == Target(tx) && 0 < n < 256
      modifies `accounts, book
      ensures forall b :: b in old(accounts) ==> b in accounts
      ensures Valid()
      ensures old(Staffed(book.entries)) ==> Staffed(book.entries)
      ensures ok ==>
                && Coins() == old(Coins()) - tx.fee && old(BalanceOf(tx.sender)) >= tx.fee + tx.amount
                && Moved(old(accounts), accounts, tx.sender, tx.fee + tx.amount, tx.sender, 0)
                && BookAfter(old(book.entries), book.entries, tx)
      ensures ok <==>
                && StakeAllowed(old(book.Get(n, Staker(tx))), old(book.Present(n, Staker(tx))), tx, height)
                && old(BalanceOf(tx.sender)) >= tx.fee + tx.amount
    {
      hide BalanceTotal, StakedTotal, RewardsTotal, Booked, Covered, BookAfter, DelegatedNumber, TestPasses, Guarded, SameLater, Staffed;
      ghost var before := book.entries;
      var owner := Staker(tx);
      if tx.locked > 0 {
        if tx.amount < MIN_STAKING_USER { return false; }
        ok := book.Stake(n, owner, tx.amount, height, time, owner == tx.sender && tx.hasData,
                         tx.locked, tx.release, owner != tx.sender);
      } else if tx.amount >= MIN_STAKING_USER {
        ok := book.Stake(n, owner, tx.amount, height, time, tx.hasData, 0, 0, false);
      } else if tx.amount < 0 {
        EntryAligned(book, n, owner);
        ok := book.Unstake(n, owner, tx.amount, height, time);
      } else {
        return false;
      }
      if !ok { return; }
      BookUpdate(before, book.entries, (n, owner));
      TotalsUpdate(before, (n, owner), book.entries[(n, owner)]);
      OneEntryAfter(before, book.entries, tx, (n, owner));
      ok := AddBalance(tx.sender, 0 - tx.fee - tx.amount);
    }

    /** Withdrawal of rewards: delegated accounts 256 to 511. */
    method ProcessWithdrawal(tx: Tx, n: nat, height: int, time: int) returns (ok: bool)
      requires Valid() && Plain(tx) && n == Target(tx) && 256 <= n < 512 && tx.locked <= 0
      modifies `accounts, book
      ensures forall b :: b in old(accounts) ==> b in accounts
      ensures Valid()
      ensures old(Staffed(book.entries)) ==> Staffed(book.entries)
      ensures ok ==>
                && Coins() == old(Coins()) - Charged(tx)
                && AccountsAfter(old(accounts), accounts, tx) && BookAfter(old(book.entries), book.entries, tx)
      ensures Uncharged(tx) ==> book.entries == old(book.entries)
      ensures ok <==> WithdrawalAllowed(old(book.Get(n % 256, tx.sender)), old(book.Present(n % 256, tx.sender)), old(BalanceOf(tx.sender)), tx)
    {
      hide BalanceTotal, StakedTotal, RewardsTotal, Booked, Covered, DelegatedNumber;
      ghost var before := book.entries;
      var m := n % 256;
      if !book.Present(m, tx.sender) { return false; }
      if tx.amount > 0 { return true; }
      if tx.amount == 0 { return false; }
      ok := book.WithdrawReward(m, tx.sender, tx.amount, height, time);
      if !ok { return; }
      BookUpdate(before, book.entries, (m, tx.sender));
      TotalsUpdate(before, (m, tx.sender), book.entries[(m, tx.sender)]);
      OneEntryAfter(before, book.entries, tx, (m, tx.sender));
      ok := AddBalance(tx.sender, 0 - tx.fee - tx.amount);
    }

    /** A transfer: held for an escrow or multisig account, else moved at once, unless the
        EVM has moved the value already; then the fee, then the sender's own policy. */
    method ProcessTransfer(tx: Tx, height: int) returns (ok: bool)
      requires Valid() && Shaped(tx) && Plain(tx) && Target(tx) == 0 && tx.locked <= 0 && tx.sender in accounts
      modifies `accounts, `escrow, `multisig
      ensures forall b :: b in old(accounts) ==> b in accounts
      ensures Valid()
      ensures ok ==> Coins() == old(Coins()) - tx.fee && AccountsAfter(old(accounts), accounts, tx)
      ensures ok <==> TransferAllowed(old(accounts), tx)
      ensures PoolsAfter(old(escrow), old(multisig), tx, height, AccountOf(old(accounts), tx.sender))
    {
      hide BalanceTotal, StakedTotal, RewardsTotal, PoolsAfter, Moved, Held, AccountsAfter, PolicyAllowed;
      ghost var before := accounts;
      var acc := accounts[tx.sender];
      ok := HoldOrMove(tx, height, acc);
      if !ok { return; }
      ghost var mid := accounts;
      TransferFee(before, mid, tx);
      ok := AddBalance(tx.sender, 0 - tx.fee);
      if !ok { return; }
      ghost var paid := accounts;
      ok := ProcessPolicy(tx);
      if ok { TransferDone(before, mid, paid, accounts, tx); } else { TransferPolicy(before, mid, paid, tx); }
      if ok { TransferPolicy(before, mid, paid, tx); }
    }

    ghost predicate PoolsAfter(oldEscrow: seq<Tx>, oldMultisig: seq<Tx>, tx: Tx, height: int, acc: Account)
      reads `escrow, `multisig, `escrowBans, `multisigBans
    {
      && (if acc.delay > 0 && tx.approves.None? then Held(oldEscrow, tx.(height := height), escrowBans, escrow) else escrow == oldEscrow)
      && (if tx.approves.Some? then Held(oldMultisig, tx, multisigBans, multisig)
          else if acc.delay <= 0 < acc.required then Held(oldMultisig, tx.(height := height), multisigBans, multisig)
          else multisig == oldMultisig)
    }

    method HoldOrMove(tx: Tx, height: int, acc: Account) returns (ok: bool)
      requires Valid() && Shaped(tx) && Plain(tx) && Target(tx) == 0 && tx.locked <= 0
      requires tx.sender in accounts && acc == accounts[tx.sender]
      modifies `accounts, `escrow, `multisig
      ensures forall b :: b in old(accounts) ==> b in accounts
      ensures Valid() && PoolsAfter(old(escrow), old(multisig), tx, height, acc)
      ensures ok <==> (MovesNow(tx, acc) ==> acc.balance >= tx.amount)
      ensures ok ==> Coins() == old(Coins())
      ensures ok ==> Moved(old(accounts), accounts, tx.sender, Outlay(tx, acc), tx.recipient, if MovesNow(tx, acc) then tx.amount else 0)
    {
      hide BalanceTotal, StakedTotal, RewardsTotal;
      ok := true;
      if acc.delay > 0 && tx.approves.None? {
        var _, pool := AddToPool(escrow, tx.(height := height), escrowBans);
        escrow := pool;
      } else if acc.required > 0 && tx.approves.None? {
        var _, pool := AddToPool(multisig, tx.(height := height), multisigBans);
        multisig := pool;
      } else {
        if tx.approves.Some? {
          var _, pool := AddToPool(multisig, tx, multisigBans);
          multisig := pool;
        }
        if !IsContractCall(tx, acc) {
          ok := Move(tx.sender, tx.recipient, tx.amount);
        }
      }
    }

    /** The pair of balance changes that every native transfer makes. */
    method Move(sender: Address, recipient: Address, amount: int) returns (ok: bool)
      requires Solvent(accounts)
      modifies `accounts
      ensures Solvent(accounts)
      ensures ok ==> BalanceTotal(accounts) == old(BalanceTotal(accounts))
      ensures amount >= 0 ==> BalanceTotal(accounts) == old(BalanceTotal(accounts))
      ensures ok <==> old(BalanceOf(sender)) >= amount && (sender != recipient ==> old(BalanceOf(recipient)) + amount >= 0)
      ensures amount >= 0 && !ok ==> Moved(old(accounts), accounts, 0, 0, 0, 0)
      ensures ok ==> Moved(old(accounts), accounts, sender, amount, recipient, amount)
      ensures forall b :: b in old(accounts) ==> b in accounts
    {
      hide BalanceTotal;
      ok := AddBalance(sender, -amount);
      if !ok { return; }
      ok := AddBalance(recipient, amount);
    }

    /** ProcessMultiSignAndEscrow: an account turns itself into an escrow or multisig account. */
    method ProcessPolicy(tx: Tx) returns (ok: bool)
      requires Valid()
      modifies `accounts
      ensures forall b :: b in old(accounts) ==> b in accounts
      ensures Valid() && Coins() == old(Coins())
      ensures ok <==> PolicyAllowed(tx, AccountOf(old(accounts), tx.recipient))
      ensures forall a: Address :: AccountOf(accounts, a) ==
                if ok && a == tx.recipient then WithPolicy(AccountOf(old(accounts), a), tx) else AccountOf(old(accounts), a)
    {
      hide BalanceTotal, StakedTotal, RewardsTotal;
      if tx.newDelay > 0 && tx.newRequired > 0 { return false; }
      if (tx.newDelay > 0 || tx.newRequired > 0) && tx.recipient != tx.sender { return false; }
      var acc := AccountOf(accounts, tx.recipient);
      BalanceUpdate(accounts, tx.recipient, acc);
      accounts := accounts[tx.recipient := acc];
      if tx.newDelay > 0 {
        if acc.delay > 0 || acc.required > 0 || tx.newDelay > MAX_TRANSACTION_DELAY { return false; }
        acc := acc.(delay := tx.newDelay);
      }
      if tx.newRequired > 0 {
        if acc.required > 0 || acc.delay > 0 || tx.newRequired > |tx.newSigners| { return false; }
        acc := acc.(required := tx.newRequired, signers := tx.newSigners);
      }
      BalanceUpdate(accounts, tx.recipient, acc);
      accounts := accounts[tx.recipient := acc];
      return true;
    }

    ghost predicate Allowed(tx: Tx, height: int)
      reads this, book
    {
      Accepts(accounts, book.entries, escrow, tx, height)
    }

    /** Writing an account's history creates the account. */
    method Touch(a: Address)
      requires Solvent(accounts)
      modifies `accounts
      ensures Solvent(accounts) && SameAccounts(old(accounts), accounts) && BalanceTotal(accounts) == old(BalanceTotal(accounts))
      ensures accounts.Keys == old(accounts.Keys) + {a}
    {
      hide BalanceTotal;
      BalanceUpdate(accounts, a, AccountOf(accounts, a));
      accounts := accounts[a := AccountOf(accounts, a)];
    }

    /** ProcessTransaction: exactly the fee leaves the accounts, except in the one case that
        moves nothing; and that one is accepted from everybody with a staking entry. */
    method ProcessTransaction(tx: Tx, height: int, time: int) returns (ok: bool)
      requires Valid() && Shaped(tx) && time >= 0
      modifies `accounts, `escrow, `multisig, `escrowBans, book
      ensures forall b :: b in old(accounts) ==> b in accounts
      ensures Valid()
      ensures old(Staffed(book.entries)) ==> Staffed(book.entries)
      ensures ok ==>
                && Coins() == old(Coins()) - Charged(tx)
                && AccountsAfter(old(accounts), accounts, tx) && BookAfter(old(book.entries), book.entries, tx)
      ensures LeavesBook(tx) ==> book.entries == old(book.entries)
      ensures ok <==> old(Allowed(tx, height))
      ensures Uncharged(tx) ==> (ok <==> old(book.Present(Target(tx) % 256, tx.sender)))
      ensures tx.cancels.None? ==> escrowBans == old(escrowBans)
      ensures Plain(tx) && Target(tx) > 0 ==> escrow == old(escrow) && multisig == old(multisig)
      ensures Plain(tx) && Target(tx) == 0 && tx.locked <= 0 ==>
                PoolsAfter(old(escrow), old(multisig), tx, height, AccountOf(old(accounts), tx.sender))
    {
      hide BalanceTotal, StakedTotal, RewardsTotal, Staffed, RecoveryAllowed, DelegatedNumber, PoolsAfter, AccountsAfter, BookAfter, SameAccounts;
      if !tx.recovery.NotRecovery? {
        ok := ProcessRecovery(tx, height);
        BookStands(book.entries, tx);
      } else {
        Touch(tx.sender);
        ghost var first := accounts;
        Touch(tx.recipient);
        SameTwice(old(accounts), first, accounts);
        SameAcceptance(old(accounts), accounts, book.entries, escrow, tx, height);
        ghost var touched := accounts;
        ok := Dispatch(tx, height, time);
        if ok { TouchedFirst(old(accounts), touched, accounts, tx); }
      }
    }

    /** The kinds of transactions that are not about recovery. */
    method Dispatch(tx: Tx, height: int, time: int) returns (ok: bool)
      requires Valid() && Shaped(tx) && time >= 0 && tx.recovery.NotRecovery? && tx.sender in accounts
      modifies `accounts, `escrow, `multisig, `escrowBans, book
      ensures forall b :: b in old(accounts) ==> b in accounts
      ensures Valid()
      ensures old(Staffed(book.entries)) ==> Staffed(book.entries)
      ensures ok ==>
                && Coins() == old(Coins()) - Charged(tx)
                && AccountsAfter(old(accounts), accounts, tx) && BookAfter(old(book.entries), book.entries, tx)
      ensures LeavesBook(tx) ==> book.entries == old(book.entries)
      ensures ok <==> old(Allowed(tx, height))
      ensures tx.cancels.None? ==> escrowBans == old(escrowBans)
      ensures Plain(tx) && Target(tx) > 0 ==> escrow == old(escrow) && multisig == old(multisig)
      ensures Plain(tx) && Target(tx) == 0 && tx.locked <= 0 ==>
                PoolsAfter(old(escrow), old(multisig), tx, height, AccountOf(old(accounts), tx.sender))
    {
      hide BalanceTotal, StakedTotal, RewardsTotal, Staffed, StakeAllowed, TransferAllowed, RecoveryAllowed, CancellationValid, DelegatedNumber, PoolsAfter;
      if tx.cancels.Some? {
        ok := ProcessCancellation(tx, height);
      } else {
        var n := Target(tx);
        if tx.locked > 0 && (n == 0 || n >= 256) { return false; }
        if 0 < n < 256 {
          ok := ProcessStaking(tx, n, height, time);
          if !ok { return; }
          ok := ProcessPolicy(tx);
        } else if 256 <= n < 512 {
          ok := ProcessWithdrawal(tx, n, height, time);
        } else if n >= 512 {
          ok := AddBalance(tx.sender, 0 - tx.fee);
        } else {
          ok := ProcessTransfer(tx, height);
        }
      }
    }

    // -------------------------------------------------------------- held transactions

    ghost function Now(): View
      reads this, book
    {
      View(accounts, book.entries, escrow, multisig)
    }

    function MainOf(tx: Tx): Option<Tx>
      reads this
    {
      MainIn(multisig, stored, tx)
    }

    /** ProcessTransactionsMultiSign: tx may be the approval that lets the transaction it
        approves settle. It does exactly when that one is ready; nothing else moves coins. */
    method ProcessApproval(tx: Tx, height: int) returns (ok: bool, ghost settled: Option<Tx>)
      requires Valid()
      modifies `accounts, `multisig
      ensures Valid() && Coins() == old(Coins())
      ensures ok <==> old(ApprovalAllowed(accounts, multisig, stored, tx, height))
      ensures settled.Some? <==> old(Settling(accounts, multisig, stored, tx, height))
      ensures settled.Some? ==>
                && ok && settled == old(MainOf(tx))
                && Moved(old(accounts), accounts, settled.value.sender, settled.value.amount, settled.value.recipient, settled.value.amount)
      ensures settled.Some? ==> multisig == Without(old(multisig), tx.approves.value)
      ensures settled.None? ==> Moved(old(accounts), accounts, 0, 0, 0, 0)
      ensures forall b :: b in old(accounts) ==> b in accounts
    {
      hide BalanceTotal, StakedTotal, RewardsTotal, Target, Approvers, Moved, Group, Find, Without, Solvent, BookValid, Unique, AllShaped;
      settled := None;
      StandStill(accounts);
      if tx.approves.None? { return true, None; }
      var key := tx.approves.value;
      var txs := Group(multisig, key);
      var main := RecoverMain(tx);
      if main.None? || height - main.value.height > MAX_IN_MULTISIG_POOL {
        DropAll(txs);
        return false, None;
      }
      var m := main.value;
      if m.sender !in accounts { return false, None; }
      var acc := accounts[m.sender];
      if |txs| < acc.required { return true, None; }
      var approvals := CountApprovals(m, txs, acc.signers);
      if approvals < acc.required { return true, None; }
      ok, settled := CarryOut(m, acc, height);
    }

    /** The approved transaction; one that has left the pool comes back from disk. */
    method RecoverMain(tx: Tx) returns (main: Option<Tx>)
      requires Valid() && tx.approves.Some?
      modifies `multisig
      ensures Valid() && main == old(MainOf(tx)) && (main.Some? ==> main.value.hash == tx.approves.value && Shaped(main.value))
      ensures Without(multisig, tx.approves.value) == Without(old(multisig), tx.approves.value)
    {
      hide Group, Find, Without, Held, Solvent, BookValid, Unique;
      var key := tx.approves.value;
      main := Find(Group(multisig, key), key);
      if main.None? && key in stored {
        main := Some(stored[key]);
        var _, pool := AddToPool(multisig, stored[key], multisigBans);
        WithoutHeld(multisig, stored[key], multisigBans, pool);
        multisig := pool;
      }
    }

    method DropAll(txs: seq<Tx>)
      requires Valid()
      modifies `multisig
      ensures Valid() && multisig == WithoutAll(old(multisig), txs)
    {
      hide Solvent, BookValid, Unique, WithoutAll;
      WithoutAllUnique(multisig, txs);
      multisig := WithoutAll(multisig, txs);
    }

    /** The approvals are there: a transfer moves, a registration takes effect, and what concerns
        a delegated account was done when it was included. */
    method CarryOut(m: Tx, acc: Account, height: int) returns (ok: bool, ghost settled: Option<Tx>)
      requires Valid() && Shaped(m) && m.sender in accounts && acc == accounts[m.sender]
      modifies `accounts, `multisig
      ensures Valid() && Coins() == old(Coins())
      ensures ok <==>
                && !(m.locked > 0 && !(0 < Target(m) < 256))
                && (Target(m) == 0 ==>
                      && !(acc.delay > 0 && m.height + acc.delay > height)
                      && if m.recovery.Registration? then m.recovery.applies else acc.balance >= m.amount)
      ensures settled.Some? <==>
                m.locked <= 0 && Target(m) == 0 && !(acc.delay > 0 && m.height + acc.delay > height)
                && !m.recovery.Registration? && acc.balance >= m.amount
      ensures settled.Some? ==>
                && settled == Some(m) && multisig == Without(old(multisig), m.hash)
                && Moved(old(accounts), accounts, m.sender, m.amount, m.recipient, m.amount)
      ensures settled.None? ==> Moved(old(accounts), accounts, 0, 0, 0, 0)
      ensures forall b :: b in old(accounts) ==> b in accounts
    {
      hide BalanceTotal, StakedTotal, RewardsTotal, DelegatedNumber, Moved, Without, BookValid, Unique;
      settled := None;
      StandStill(accounts);
      var n := Target(m);
      if m.locked > 0 && (n == 0 || n >= 256) { return false, None; }
      if n > 0 { return true, None; }
      if acc.delay > 0 && m.height + acc.delay > height { return false, None; }
      WithoutMembers(multisig, m.hash);
      multisig := Without(multisig, m.hash);
      if m.recovery.Registration? { return m.recovery.applies, None; }
      ok := Move(m.sender, m.recipient, m.amount);
      if ok { settled := Some(m); }
    }

    /** ProcessTransactionsEscrow: settle what has matured. A failure stops the loop and is
        only logged, so the coins must add up wherever it stops. What moves is exactly what
        `settled` lists: transactions that the pool served and whose delay is over, each once,
        and it is gone from the pool then; all of them, unless one stops the loop. */
    method ProcessEscrow(height: int) returns (ghost settled: seq<Tx>, ghost complete: bool)
      requires Valid()
      modifies `accounts, `escrow, `multisig, `escrowBans, `multisigBans
      ensures Valid() && Coins() == old(Coins())
      ensures AllMoved(old(accounts), accounts, settled)
      ensures Settles(Served(old(escrow), height), old(accounts), settled, height) && Absent(escrow, settled)
      ensures complete ==> forall tx :: tx in Served(old(escrow), height) && Matured(old(accounts), tx, height) ==> tx in settled
      ensures !complete ==> exists tx :: tx in Served(old(escrow), height) && Stops(accounts, tx)
    {
      hide BalanceTotal, StakedTotal, RewardsTotal, DelegatedNumber, AllMoved, Moved, Served, Settles, Absent, Held, Without, Unique, Matured, BookValid, Ban, Banned, Pooled;
      settled, complete := [], false;
      var txs := Served(escrow, height);
      ServedMembers(escrow, height);
      NoneSettled(accounts, txs, escrow, height);
      for i := 0 to |txs|
        invariant Valid() && Coins() == old(Coins()) && !complete
        invariant AllMoved(old(accounts), accounts, settled)
        invariant Settles(txs[..i], old(accounts), settled, height) && Absent(escrow, settled)
        invariant forall j :: 0 <= j < i && Matured(old(accounts), txs[j], height) ==> txs[j] in settled
      {
        var tx := txs[i];
        OneMoreServed(txs, i, old(accounts), settled, height);
        var n := Target(tx);
        if tx.locked > 0 && (n == 0 || n >= 256) { SettlesPrefix(txs, i, old(accounts), settled, height); return; }
        if n == 0 {
          if tx.sender !in accounts { SettlesPrefix(txs, i, old(accounts), settled, height); return; }
          var acc := accounts[tx.sender];
          SamePolicies(old(accounts), accounts, settled, tx.sender);
          MaturedMeans(old(accounts), tx, height);
          if acc.delay > 0 && tx.height + acc.delay > height && tx.approves.None? {
          } else if acc.required > 0 && tx.approves.None? {
            var added, pool := AddToPool(multisig, tx, multisigBans);
            multisig := pool;
            if added {
              StillAbsent(escrow, settled, tx.hash);
              escrow := Without(escrow, tx.hash);
            }
          } else if tx.recovery.Registration? {
            if !tx.recovery.applies { SettlesPrefix(txs, i, old(accounts), settled, height); return; }
            StillAbsent(escrow, settled, tx.hash);
            escrow := Without(escrow, tx.hash);
          } else {
            if tx.approves.Some? {
              var _, pool := AddToPool(multisig, tx, multisigBans);
              multisig := pool;
            }
            ghost var mid := accounts;
            var ok := Move(tx.sender, tx.recipient, tx.amount);
            if !ok {
              NothingMoved(old(accounts), mid, accounts, settled);
              SettlesPrefix(txs, i, old(accounts), settled, height);
              SameBalance(mid, accounts, tx.sender);
              RemoveBad(tx.hash, settled);
              return;
            }
            OneMoreMoved(old(accounts), mid, accounts, settled, tx);
            StillAbsent(escrow, settled, tx.hash);
            WithoutMembers(escrow, tx.hash);
            escrow := Without(escrow, tx.hash);
            NowAbsent(escrow, settled, tx);
            settled := settled + [tx];
          }
        } else {
          MaturedMeans(old(accounts), tx, height);
        }
      }
      complete := true;
      assert txs[..|txs|] == txs;
    }

    /** RemoveBadTransactionByHash, as far as the two pools are concerned. */
    method RemoveBad(hash: nat, ghost settled: seq<Tx>)
      requires Valid()
      modifies `escrow, `multisig, `escrowBans, `multisigBans
      ensures Valid() && escrow == Without(old(escrow), hash) && multisig == Without(old(multisig), hash)
      ensures escrowBans == Ban(old(escrowBans), hash) && multisigBans == Ban(old(multisigBans), hash)
      ensures old(Absent(escrow, settled)) ==> Absent(escrow, settled)
    {
      hide Solvent, BookValid, Unique, Without, Absent;
      WithoutMembers(escrow, hash);
      WithoutMembers(multisig, hash);
      if Absent(escrow, settled) { StillAbsent(escrow, settled, hash); }
      escrow, multisig := Without(escrow, hash), Without(multisig, hash);
      escrowBans, multisigBans := Ban(escrowBans, hash), Ban(multisigBans, hash);
    }

    // -------------------------------------------------------------- contracts

    /** EvaluateSmartContracts as it touches native coins: an execution that fails or changes
        their total is reverted; a DEX order moves coins between the trader and the DEX. */
    method EvaluateContracts(steps: seq<ContractStep>) returns (ok: bool)
      requires Valid()
      modifies `accounts
      ensures Valid()
      ensures ok ==> Coins() == old(Coins())
      ensures !ok ==> exists i :: 0 <= i < |steps| && steps[i].DexOrder?
      ensures steps == [] ==> accounts == old(accounts)
    {
      hide BalanceTotal, StakedTotal, RewardsTotal;
      ok := true;
      for i := 0 to |steps|
        invariant ok && Valid() && Coins() == old(Coins()) && (i == 0 ==> accounts == old(accounts))
      {
        match steps[i] {
          case Execution(changes, fails) =>
            Execute(changes, fails);
          case DexOrder(trader, coins) =>
            ok := SettleOrder(trader, coins);
            if !ok { return; }
        }
      }
    }

    /** Coins from the DEX to a trader, or back when negative. */
    method SettleOrder(trader: Address, coins: int) returns (ok: bool)
      requires Solvent(accounts)
      modifies `accounts
      ensures Solvent(accounts)
      ensures ok <==> old(BalanceOf(trader)) + coins >= 0 && (trader != DEX_ADDRESS ==> old(BalanceOf(DEX_ADDRESS)) >= coins)
      ensures ok ==> BalanceTotal(accounts) == old(BalanceTotal(accounts)) && Moved(old(accounts), accounts, DEX_ADDRESS, coins, trader, coins)
    {
      hide BalanceTotal;
      ok := Move(trader, DEX_ADDRESS, 0 - coins);
    }

    /** One execution: all its balance changes, or none when it fails, when a balance would
        become negative, or when the changes do not add up to zero. */
    method Execute(changes: seq<(Address, int)>, fails: bool)
      requires Solvent(accounts)
      modifies `accounts
      ensures Solvent(accounts) && BalanceTotal(accounts) == old(BalanceTotal(accounts))
      ensures accounts == old(accounts) || (!fails && Changed(old(accounts), accounts, changes))
    {
      hide BalanceTotal, Changed, Moved;
      var snapshot := accounts;
      var delta := 0;
      assert changes[..0] == [];
      NoChange(accounts);
      for i := 0 to |changes|
        invariant Solvent(accounts) && BalanceTotal(accounts) == old(BalanceTotal(accounts)) + delta
        invariant Changed(snapshot, accounts, changes[..i])
      {
        ghost var mid := accounts;
        var ok := AddBalance(changes[i].0, changes[i].1);
        if !ok {
          accounts := snapshot;
          return;
        }
        NextChange(snapshot, mid, accounts, changes, i);
        delta := delta + changes[i].1;
      }
      assert changes[..|changes|] == changes;
      if fails || delta != 0 { accounts := snapshot; }
    }

    // -------------------------------------------------------------- blocks

    /** CheckBlockTransfers after the loading: fees are summed, staking transactions are checked
        together with those of the same sender before them, and every sender must be able to pay
        for all its transactions in the block, without counting what it receives. `verdicts`
        stands for signature, age, gas, deployment and cancellation checks of single transactions,
        `keys` for the accounts with both operator keys. */
    method CheckTransfers(txs: seq<Tx>, verdicts: seq<bool>, keys: set<Address>, lastSupply: nat, supply: int, ratioE10: int)
        returns (ok: bool, reward: nat, totalFee: nat)
      requires |verdicts| == |txs| && ratioE10 < SCALE
      ensures ok ==> totalFee == FeeTotal(txs) && reward == GetReward(lastSupply, ratioE10)
      ensures ok <==> supply == lastSupply + GetReward(lastSupply, ratioE10) && forall i :: 0 <= i < |txs| ==> Payable(txs, verdicts, keys, i)
    {
      hide Spent, FeeTotal, GetReward, Tabs, StakingCheck, TabAfter;
      var left: map<Address, int>, tabs: map<Address, Tab> := map[], map[];
      var bad := false;
      totalFee := 0;
      assert txs[..0] == [];
      SpentNothing();
      NoTabs(book.entries);
      for i := 0 to |txs|
        invariant totalFee == FeeTotal(txs[..i])
        invariant !bad ==> tabs == Tabs(book.entries, txs[..i]) && forall a: Address :: Left(left, a) == BalanceOf(a) - Spent(txs[..i], a)
        invariant bad ==> exists j :: 0 <= j < i && !Payable(txs, verdicts, keys, j)
        invariant !bad ==> forall j :: 0 <= j < i ==> Payable(txs, verdicts, keys, j)
      {
        var tx := txs[i];
        SpentStep(txs, i);
        NextTab(book.entries, txs, i);
        assert !bad ==> (Payable(txs, verdicts, keys, i) <==>
          && verdicts[i] && !(tx.locked > 0 && !(0 < Target(tx) < 256))
          && (0 < Target(tx) < 512 ==> StakingCheck(accounts, book.entries, keys, tx, TabAfter(book.entries, tabs, tx)))
          && tx.sender in accounts && ApprovalShaped(tx) && Left(left, tx.sender) - (tx.fee + tx.amount) >= 0);
        totalFee := totalFee + tx.fee;
        if !verdicts[i] || (tx.locked > 0 && !(0 < Target(tx) < 256)) {
          bad := true;
        } else {
          if 0 < Target(tx) < 512 {
            tabs := tabs[tx.sender := TabAfter(book.entries, tabs, tx)];
            if !StakingCheck(accounts, book.entries, keys, tx, tabs[tx.sender]) { bad := true; }
          }
          if !bad {
            var cur := Left(left, tx.sender);
            if tx.sender !in accounts || !ApprovalShaped(tx) || cur - (tx.fee + tx.amount) < 0 {
              bad := true;
            } else {
              left := left[tx.sender := cur - (tx.fee + tx.amount)];
            }
          }
        }
      }
      assert txs[..|txs|] == txs;
      reward := GetReward(lastSupply, ratioE10);
      ok := !bad && lastSupply + reward == supply;
    }

    /** Transaction i stands, and its sender can pay for it and all before it. */
    ghost predicate Payable(txs: seq<Tx>, verdicts: seq<bool>, keys: set<Address>, i: nat)
      requires |verdicts| == |txs| && i < |txs|
      reads this, book
    {
      var tx := txs[i];
      && verdicts[i] && !(tx.locked > 0 && !(0 < Target(tx) < 256))
      && (0 < Target(tx) < 512 ==> StakingCheck(accounts, book.entries, keys, tx, TabAfter(book.entries, Tabs(book.entries, txs[..i]), tx)))
      && tx.sender in accounts && ApprovalShaped(tx)
      && Spent(txs[..i + 1], tx.sender) <= BalanceOf(tx.sender)
    }

    /** The running balance of a sender while a block is checked. */
    function Left(left: map<Address, int>, a: Address): int
      reads this
    {
      if a in left then left[a] else BalanceOf(a)
    }

    /** The transactions of a block, in order. They all go through exactly when every step is
        allowed in its turn; otherwise the views end where one is not. */
    method ApplyTransactions(b: Block) returns (ok: bool, ghost views: seq<View>)
      requires Valid() && b.time >= 0 && AllShaped(b.txs)
      modifies `accounts, `escrow, `multisig, `escrowBans, book
      ensures Valid()
      ensures old(Staffed(book.entries)) ==> Staffed(book.entries)
      ensures ok ==> Coins() == old(Coins()) - ChargedTotal(b.txs)
      ensures Steps(views, stored, b.txs, b.height) && views[0] == old(Now())
      ensures ok ==> |views| == 2 * |b.txs| + 1 && views[2 * |b.txs|] == Now()
      ensures !ok ==> Stopped(views, stored, b.txs, b.height)
    {
      hide BalanceTotal, StakedTotal, RewardsTotal, ChargedTotal, StepAllowed, StepDone, Staffed, GoodStep, AllShaped;
      assert b.txs[..0] == [];
      ChargedNothing();
      views := [Now()];
      for i := 0 to |b.txs|
        invariant Valid() && Coins() == old(Coins()) - ChargedTotal(b.txs[..i])
        invariant old(Staffed(book.entries)) ==> Staffed(book.entries)
        invariant |views| == 2 * i + 1 && Steps(views, stored, b.txs, b.height) && views[0] == old(Now()) && views[2 * i] == Now()
      {
        ChargedStep(b.txs, i);
        ShapedAt(b.txs, i);
        ghost var mid;
        ok, mid := ApplyOne(b, i);
        if mid.Some? {
          OneMoreStep(views, mid.value, stored, b.txs, b.height);
          views := views + [mid.value];
        }
        if !ok { return; }
        OneMoreStep(views, Now(), stored, b.txs, b.height);
        views := views + [Now()];
      }
      assert b.txs[..|b.txs|] == b.txs;
      ok := true;
    }

    /** One transaction, and the settlement that it may approve. */
    method ApplyOne(b: Block, i: nat) returns (ok: bool, ghost mid: Option<View>)
      requires Valid() && b.time >= 0 && i < |b.txs| && Shaped(b.txs[i])
      modifies `accounts, `escrow, `multisig, `escrowBans, book
      ensures Valid()
      ensures old(Staffed(book.entries)) ==> Staffed(book.entries)
      ensures ok ==> mid.Some? && Coins() == old(Coins()) - Charged(b.txs[i])
      ensures mid.Some? <==> StepAllowed(old(Now()), stored, b.txs, 2 * i, b.height)
      ensures mid.Some? ==>
                && StepDone(old(Now()), mid.value, stored, b.txs, 2 * i, b.height)
                && (ok <==> StepAllowed(mid.value, stored, b.txs, 2 * i + 1, b.height))
      ensures ok ==> StepDone(mid.value, Now(), stored, b.txs, 2 * i + 1, b.height)
    {
      hide BalanceTotal, StakedTotal, RewardsTotal, Staffed, Accepts, ApprovalAllowed, Settling, AccountsAfter, BookAfter, Moved, MainIn, LeavesBook;
      var tx := b.txs[i];
      mid := None;
      ok := ProcessTransaction(tx, b.height, b.time);
      if !ok { return; }
      mid := Some(Now());
      ghost var settled;
      ok, settled := ProcessApproval(tx, b.height);
    }

    /** ProcessBlockTransfers: transactions, reward, the operator's new commitment, escrow. */
    method ProcessBlockTransfers(b: Block, reward: nat) returns (ok: bool, ghost views: seq<View>)
      requires Valid() && b.time >= 0 && AllShaped(b.txs)
      modifies `accounts, `escrow, `multisig, `escrowBans, `multisigBans, book
      ensures Valid()
      ensures old(Staffed(book.entries)) ==> Staffed(book.entries)
      ensures ok ==> Coins() == old(Coins()) + reward - ChargedTotal(b.txs)
      ensures Steps(views, stored, b.txs, b.height) && views[0] == old(Now())
      ensures |views| < 2 * |b.txs| + 1 ==> Stopped(views, stored, b.txs, b.height)
      ensures ok <==> |views| == 2 * |b.txs| + 1 && 1 <= b.n <= 255 && RewardPayable(views[2 * |b.txs|].entries, b, reward)
    {
      hide BalanceTotal, StakedTotal, RewardsTotal, ChargedTotal, RewardPayable, Staffed, GoodStep, StepAllowed;
      ok, views := ApplyTransactions(b);
      if !ok { return; }
      if b.n < 1 || b.n > 255 { return false, views; }
      ok := PayReward(b, reward);
      if !ok { return; }
      ok := Commit(b);
      if !ok { return; }
      ghost var settled, complete := ProcessEscrow(b.height);
    }

    method PayReward(b: Block, reward: nat) returns (ok: bool)
      requires Valid()
      modifies book
      ensures Valid()
      ensures ok <==> old(RewardPayable(book.entries, b, reward))
      ensures ok ==> (b.n, b.operator) in book.entries
      ensures old(Staffed(book.entries)) ==> Staffed(book.entries)
      ensures ok ==> Coins() == old(Coins()) + reward
    {
      hide BalanceTotal, StakedTotal, RewardsTotal, StakedIn, Paid, OperatorPart;
      ghost var extra;
      ok, extra := DistributeReward(book, b.n, b.operator, reward, b.perc, b.height, b.now);
    }

    /** applyRandaoCommit, as far as the ledger is concerned. */
    method Commit(b: Block) returns (ok: bool)
      requires Valid()
      modifies book
      ensures Valid() && Coins() == old(Coins())
      ensures old(Staffed(book.entries)) ==> Staffed(book.entries)
      ensures ok <==> b.height == 0 || (b.n, b.operator) in old(book.entries)
      ensures forall k :: StakeAt(book.entries, k) == StakeAt(old(book.entries), k) && RewardAt(book.entries, k) == RewardAt(old(book.entries), k)
    {
      hide BalanceTotal, StakedTotal, RewardsTotal;
      if b.height == 0 { return true; }
      ghost var before := book.entries;
      ok := book.SetRandCommit(b.n, b.operator, b.randCommit, b.height);
      if ok {
        BookUpdate(before, book.entries, (b.n, b.operator));
        TotalsUpdate(before, (b.n, b.operator), book.entries[(b.n, b.operator)]);
      }
    }

    /** Supply and fee ledger of a block agree with the coins there are. */
    ghost predicate Balanced(last: Tip)
      reads this, book
    {
      Coins() + last.blockFee == last.supply
    }

    /** What a block must fulfil before anything is applied. */
    ghost predicate Admitted(b: Block, last: Tip, ratioE10: int)
      requires |b.verdicts| == |b.txs| && ratioE10 < SCALE
      reads this, book
    {
      && b.authentic && 1 <= b.n <= 255 && StakedIn(book.entries, b.n) >= MIN_STAKING_FOR_NODE
      && b.supply == last.supply + GetReward(last.supply, ratioE10)
      && forall i :: 0 <= i < |b.txs| ==> Payable(b.txs, b.verdicts, b.operatorKeys, i)
    }

    /** The block comes from the operator of its delegated account. */
    ghost predicate Operated(b: Block)
      reads book
    {
      IsBest(book.entries, b.n, b.operator) && book.entries[(b.n, b.operator)].staked > 0
    }

    /** CheckBlockAndTransferFunds up to the point where the block is committed. The supply
        check stops exactly the blocks on unbalanced books, unless a DEX order has failed. On
        balanced books a block of the operator is applied exactly when all its steps are allowed
        and its reward can be paid; `views` holds the states its transactions went through. */
    method ApplyBlock(b: Block, last: Tip, ratioE10: int) returns (r: Outcome, ghost views: seq<View>)
      requires Valid() && b.time >= 0 && Judged(b) && ratioE10 < SCALE
      modifies this, book
      ensures Valid()
      ensures old(Staffed(book.entries)) ==> Staffed(book.entries)
      ensures !old(Admitted(b, last, ratioE10)) ==> r.Rejected?
      ensures r.SupplyMismatch? ==> !old(Balanced(last))
      ensures old(Admitted(b, last, ratioE10) && Operated(b) && !Balanced(last)) && (forall i :: 0 <= i < |b.steps| ==> b.steps[i].Execution?) ==>
                r.SupplyMismatch?
      ensures old(Admitted(b, last, ratioE10) && Operated(b) && Balanced(last)) && (forall i :: 0 <= i < |b.steps| ==> b.steps[i].Execution?) ==>
                && Steps(views, old(stored), b.txs, b.height)
                && views[0] == old(Now()).(accounts := views[0].accounts) && (b.steps == [] ==> views[0] == old(Now()))
                && (|views| < 2 * |b.txs| + 1 ==> Stopped(views, old(stored), b.txs, b.height))
                && (r.Applied? <==> |views| == 2 * |b.txs| + 1
                                    && RewardPayable(views[2 * |b.txs|].entries, b, GetReward(last.supply, ratioE10)))
      ensures r.Applied? ==>
                && old(Balanced(last))
                && r.tip == Tip(last.supply + GetReward(last.supply, ratioE10), last.blockFee + FeeTotal(b.txs))
                && r.tip.supply == b.supply
                && Coins() + r.tip.blockFee == r.tip.supply + UnchargedTotal(b.txs)
                && stored == StoredAfter(old(stored), b.txs)
    {
      hide StoredAfter, Staffed, Payable, RewardPayable, Steps, Stopped;
      hide BalanceTotal, StakedTotal, RewardsTotal, StakedIn, GetReward, FeeTotal, ChargedTotal, UnchargedTotal, IsBest;
      views := [];
      var ok, reward, totalFee := Admit(b, last, ratioE10);
      if !ok { return Rejected, views; }
      ok := EvaluateContracts(b.steps);
      if !ok { return Rejected, views; }
      var calculated := CountCoins();
      if calculated + reward + last.blockFee != b.supply { return SupplyMismatch, views; }
      ok, views := ProcessBlockTransfers(b, reward);
      if !ok { return Rejected, views; }
      FeesSplit(b.txs);
      StoreApplied(b.txs);
      return Applied(Tip(b.supply, totalFee + last.blockFee)), views;
    }

    /** The checks before anything is applied. */
    method Admit(b: Block, last: Tip, ratioE10: int) returns (ok: bool, reward: nat, totalFee: nat)
      requires Valid() && Judged(b) && ratioE10 < SCALE
      ensures ok ==> Admitted(b, last, ratioE10) && AllShaped(b.txs)
      ensures ok ==> reward == GetReward(last.supply, ratioE10) && totalFee == FeeTotal(b.txs)
      ensures Operated(b) ==> book.Present(b.n, b.operator) && (ok <==> Admitted(b, last, ratioE10))
    {
      hide StakedIn, GetReward, FeeTotal, Spent, StakingCheck, Tabs, TabAfter;
      reward, totalFee := 0, 0;
      if !b.authentic || b.n < 1 || b.n > 255 { return false, 0, 0; }
      var _, staked, operator := StakedInDelegatedAccount(book.entries, b.n);
      if staked < MIN_STAKING_FOR_NODE || operator != b.operator { return false, 0, 0; }
      ok, reward, totalFee := CheckTransfers(b.txs, b.verdicts, b.operatorKeys, last.supply, b.supply, ratioE10);
      if ok {
        forall i | 0 <= i < |b.txs| ensures Shaped(b.txs[i]) { assert Payable(b.txs, b.verdicts, b.operatorKeys, i); }
      }
    }

    /** The transactions of an applied block go to the database of confirmed ones. */
    method StoreApplied(txs: seq<Tx>)
      requires Valid() && AllShaped(txs)
      modifies `stored
      ensures Valid() && stored == StoredAfter(old(stored), txs)
    {
      hide Unique, Solvent, BookValid;
      assert txs[..0] == [];
      for i := 0 to |txs|
        invariant Valid() && stored == StoredAfter(old(stored), txs[..i])
      {
        assert txs[..i + 1][..i] == txs[..i];
        stored := stored[txs[i].hash := txs[i]];
      }
      assert txs[..|txs|] == txs;
    }

    /** The supply loops of blockAccountState.go. */
    method CountCoins() returns (sum: int)
      ensures sum == Coins()
    {
      var balances := map a: Address | a in accounts :: accounts[a].balance;
      assert balances == Balances(accounts);
      var inAccounts := AddUp<Address>(balances);
      var stakes := map k | k in book.entries :: book.entries[k].staked;
      assert stakes == Stakes(book.entries);
      var staked := AddUp(stakes);
      var owed := map k | k in book.entries :: book.entries[k].rewards;
      assert owed == Owed(book.entries);
      var rewarded := AddUp(owed);
      sum := inAccounts + staked + rewarded;
    }

    /** A block that does not apply leaves no trace: the state snapshot is restored. */
    method TryBlock(b: Block, last: Tip, ratioE10: int) returns (r: Outcome)
      requires Valid() && b.time >= 0 && Judged(b) && ratioE10 < SCALE
      modifies this, book
      ensures Valid()
      ensures old(Staffed(book.entries)) ==> Staffed(book.entries)
      ensures r.SupplyMismatch? ==> !old(Balanced(last))
      ensures !r.Applied? ==>
                && accounts == old(accounts) && book.entries == old(book.entries) && Coins() == old(Coins())
                && escrow == old(escrow) && multisig == old(multisig) && stored == old(stored)
      ensures r.Applied? ==>
                && old(Balanced(last))
                && r.tip == Tip(last.supply + GetReward(last.supply, ratioE10), last.blockFee + FeeTotal(b.txs))
                && Coins() + r.tip.blockFee == r.tip.supply + UnchargedTotal(b.txs)
                && stored == StoredAfter(old(stored), b.txs)
    {
      hide BalanceTotal, StakedTotal, RewardsTotal, GetReward, FeeTotal, UnchargedTotal, Staffed, StoredAfter;
      var a, e, m, s, k := accounts, escrow, multisig, stored, book.entries;
      ghost var views;
      r, views := ApplyBlock(b, last, ratioE10);
      if !r.Applied? {
        accounts, escrow, multisig, stored, book.entries := a, e, m, s, k;
      }
    }

    /** Any sequence of candidate blocks on top of a balanced state. The books balance after
        it exactly when the last block that was applied charged all its fees; from a block
        that did not, none is applied any more. The supply never exceeds its maximum. */
    method ApplyChain(blocks: seq<Block>, tip: Tip, ratioE10: int) returns (last: Tip, ghost applied: seq<Block>)
      requires Valid() && Balanced(tip) && tip.supply <= MAX_TOTAL_SUPPLY && ratioE10 < SCALE
      requires forall i :: 0 <= i < |blocks| ==> blocks[i].time >= 0 && Judged(blocks[i])
      modifies this, book
      ensures Valid()
      ensures old(Staffed(book.entries)) ==> Staffed(book.entries)
      ensures tip.supply <= last.supply <= MAX_TOTAL_SUPPLY
      ensures last.blockFee == tip.blockFee + FeesOf(applied)
      ensures forall i :: 0 <= i < |applied| - 1 ==> UnchargedTotal(applied[i].txs) == 0
      ensures Coins() + last.blockFee == last.supply + (if applied == [] then 0 else UnchargedTotal(applied[|applied| - 1].txs))
    {
      hide BalanceTotal, StakedTotal, RewardsTotal, FeeTotal, UnchargedTotal, Coins, FeesOf;
      last, applied := tip, [];
      NoFees();
      for i := 0 to |blocks|
        invariant Valid() && tip.supply <= last.supply <= MAX_TOTAL_SUPPLY
        invariant old(Staffed(book.entries)) ==> Staffed(book.entries)
        invariant last.blockFee == tip.blockFee + FeesOf(applied)
        invariant forall i :: 0 <= i < |applied| - 1 ==> UnchargedTotal(applied[i].txs) == 0
        invariant Coins() + last.blockFee == last.supply + (if applied == [] then 0 else UnchargedTotal(applied[|applied| - 1].txs))
      {
        var r := TryBlock(blocks[i], last, ratioE10);
        if r.Applied? {
          FeesSnoc(applied, blocks[i]);
          applied := applied + [blocks[i]];
          last := r.tip;
        }
      }
    }
  }

  lemma EntryAligned(book: StakingBook, n: nat, a: Address)
    requires BookValid(book.entries)
    ensures book.Get(n, a).locks.Aligned()
  {
  }

  /** While the books balance no balance, stake or reward exceeds the supply, so the int64 sums
      over them cannot overflow. The sum over the locks of an entry is another matter. */
  lemma {:induction false} NoOverflow(l: Ledger, last: Tip)
    requires l.Valid() && l.Balanced(last) && last.blockFee >= 0
    ensures forall a :: a in l.accounts ==> l.accounts[a].balance <= last.supply
    ensures forall k :: k in l.book.entries ==> l.book.entries[k].staked <= last.supply && l.book.entries[k].rewards <= last.supply
  {
    var b, s, o := Balances(l.accounts), Stakes(l.book.entries), Owed(l.book.entries);
    SumNonNegative(b);
    SumNonNegative(s);
    SumNonNegative(o);
    forall a | a in l.accounts ensures l.accounts[a].balance <= last.supply { assert b[a] <= Sum(b); }
    forall k | k in l.book.entries
      ensures l.book.entries[k].staked <= last.supply && l.book.entries[k].rewards <= last.supply
    {
      assert s[k] <= Sum(s) && o[k] <= Sum(o);
    }
  }

  /** In a staffed book both selection loops name the same operator, for every delegated account
      that has one. */
  method SelectionsAgree(book: StakingBook, n: nat) returns (found: bool, first: Address, second: Address)
    requires BookValid(book.entries) && Staffed(book.entries)
    ensures found <==> exists a: Address :: Operates(book.entries, n, a)
    ensures found ==> first == second
  {
    found, first := SelectOperator(book.entries, n);
    var _, _, s := StakedInDelegatedAccount(book.entries, n);
    second := s;
  }

  // ---------------------------------------------------------------- genesis

  datatype GenesisStake = GenesisStake(n: nat, a: Address, amount: int, operational: bool, locked: int, release: int)

  function StakeSum(stakes: seq<GenesisStake>): int {
    if stakes == [] then 0 else StakeSum(stakes[..|stakes| - 1]) + stakes[|stakes| - 1].amount
  }

  predicate DistinctStakes(stakes: seq<GenesisStake>) {
    forall i, j :: 0 <= i < j < |stakes| ==> (stakes[i].n, stakes[i].a) != (stakes[j].n, stakes[j].a)
  }

  /** The staking entries of the genesis configuration. */
  method GenesisEntries(stakes: seq<GenesisStake>, timestamp: nat) returns (entries: map<Key, Entry>)
    ensures DistinctStakes(stakes) ==> StakedTotal(entries) == StakeSum(stakes)
    ensures DistinctStakes(stakes) ==> forall i :: 0 <= i < |stakes| ==> StakeAt(entries, (stakes[i].n, stakes[i].a)) == stakes[i].amount
    ensures RewardsTotal(entries) == 0
    ensures (forall i :: 0 <= i < |stakes| ==> stakes[i].amount >= 0) ==> BookValid(entries)
    ensures (forall i :: 0 <= i < |stakes| && stakes[i].operational ==> stakes[i].amount > 0) ==> Staffed(entries)
  {
    hide StakedTotal, RewardsTotal;
    entries := map[];
    assert stakes[..0] == [];
    assert StakedTotal(entries) == 0 && RewardsTotal(entries) == 0 by { EmptyTotals(); }
    for i := 0 to |stakes|
      invariant forall k :: k in entries ==> exists j :: 0 <= j < i && k == (stakes[j].n, stakes[j].a)
      invariant forall k :: k in entries ==> entries[k].rewards == 0
      invariant (forall j :: 0 <= j < i ==> stakes[j].amount >= 0) ==> BookValid(entries)
      invariant (forall j :: 0 <= j < i && stakes[j].operational ==> stakes[j].amount > 0) ==> Staffed(entries)
      invariant DistinctStakes(stakes) ==> forall j :: 0 <= j < i ==> StakeAt(entries, (stakes[j].n, stakes[j].a)) == stakes[j].amount
      invariant RewardsTotal(entries) == 0
      invariant DistinctStakes(stakes) ==> StakedTotal(entries) == StakeSum(stakes[..i])
    {
      var s := stakes[i];
      var e := EMPTY_ENTRY.(staked := s.amount, operational := s.operational, operationalSince := timestamp,
                            locks := Locks([s.locked], [s.release], [0]),
                            details := map[0 := [Detail(s.amount, 0, timestamp)]]);
      TotalsUpdate(entries, (s.n, s.a), e);
      assert stakes[..i + 1][..i] == stakes[..i];
      entries := entries[(s.n, s.a) := e];
    }
    assert stakes[..|stakes|] == stakes;
  }

  /** CreateBlockFromGenesis: stakes as configured, everything else to the first operator. */
  method CreateGenesis(initSupply: int, founder: Address, stakes: seq<GenesisStake>, timestamp: nat) returns (l: Ledger)
    ensures fresh(l) && fresh(l.book)
    ensures DistinctStakes(stakes) ==> l.Coins() == initSupply
    ensures DistinctStakes(stakes) ==> forall i :: 0 <= i < |stakes| ==> StakeAt(l.book.entries, (stakes[i].n, stakes[i].a)) == stakes[i].amount
    ensures l.accounts == map[founder := NEW_ACCOUNT.(balance := initSupply - StakeSum(stakes))]
    ensures (forall i :: 0 <= i < |stakes| ==> stakes[i].amount >= 0) && StakeSum(stakes) <= initSupply ==> l.Valid()
    ensures (forall i :: 0 <= i < |stakes| && stakes[i].operational ==> stakes[i].amount > 0) ==> Staffed(l.book.entries)
  {
    var entries := GenesisEntries(stakes, timestamp);
    var book := new StakingBook(entries);
    var accounts := map[founder := NEW_ACCOUNT.(balance := initSupply - StakeSum(stakes))];
    FounderTotal(founder, accounts[founder]);
    l := new Ledger(accounts, book);
  }

  lemma EmptyTotals()
    ensures StakedTotal(map[]) == 0 && RewardsTotal(map[]) == 0
  {
  }

  lemma FounderTotal(founder: Address, acc: Account)
    ensures BalanceTotal(map[founder := acc]) == acc.balance
  {
    var none: map<Address, Account> := map[];
    assert BalanceTotal(none) == 0;
    BalanceUpdate(none, founder, acc);
    assert none[founder := acc] == map[founder := acc];
  }

  /** The genesis block carries transactions without a fee; applying it leaves balanced books. */
  method StartChain(initSupply: nat, founder: Address, stakes: seq<GenesisStake>, b: Block, ratioE10: int)
      returns (ok: bool, l: Ledger, tip: Tip)
    requires DistinctStakes(stakes) && (forall i :: 0 <= i < |stakes| ==> stakes[i].amount >= 0)
    requires StakeSum(stakes) <= initSupply <= MAX_TOTAL_SUPPLY && ratioE10 < SCALE
    requires b.height == 0 && b.time >= 0 && AllShaped(b.txs) && FeeTotal(b.txs) == 0
    ensures ok ==> l.Valid() && l.Balanced(tip) && tip.blockFee == 0 && initSupply <= tip.supply <= MAX_TOTAL_SUPPLY
    ensures (forall i :: 0 <= i < |stakes| && stakes[i].operational ==> stakes[i].amount > 0) ==> Staffed(l.book.entries)
  {
    l := CreateGenesis(initSupply, founder, stakes, b.time);
    var reward := GetReward(initSupply, ratioE10);
    ghost var views;
    ok, views := l.ProcessBlockTransfers(b, reward);
    FeesSplit(b.txs);
    tip := Tip(initSupply + reward, 0);
  }
}
