/** What each kind of transaction does and when it is accepted, told in the fields of transactions,
    accounts and staking entries alone. */
module LedgerEffects {
  import opened Staking
  import opened L = Ledger

  function Balance(accounts: map<Address, Account>, a: Address): int {
    if a in accounts then accounts[a].balance else 0
  }

  /** Neither about recovery nor a cancellation nor a locked stake. */
  predicate Usual(tx: Tx) {
    tx.recovery.NotRecovery? && tx.cancels.None? && tx.locked <= 0
  }

  /** Sent to an address that is no delegated account's. */
  ghost predicate ToSomebody(tx: Tx) {
    Usual(tx) && NoDelegate(tx.recipient)
  }

  ghost predicate NoDelegate(a: Address) {
    forall n: nat :: n > 0 ==> a != DelegatedAddress(n)
  }

  predicate Ordinary(acc: Account) {
    acc.delay <= 0 && acc.required <= 0
  }

  ghost predicate OnlyPays(before: map<Address, Account>, after: map<Address, Account>, a: Address, out: int) {
    forall b: Address :: Balance(after, b) == Balance(before, b) - if b == a then out else 0
  }

  ghost predicate SameBook(before: map<Key, Entry>, after: map<Key, Entry>) {
    forall k :: EntryAt(after, k).staked == EntryAt(before, k).staked && EntryAt(after, k).rewards == EntryAt(before, k).rewards
  }

  /** How a balance comes out of AccountsAfter, and an entry out of BookAfter. */
  lemma BalanceThen(accounts: map<Address, Account>, after: map<Address, Account>, tx: Tx, b: Address)
    requires AccountsAfter(accounts, after, tx)
    ensures Balance(after, b) == Balance(accounts, b) + BalanceDelta(tx, AccountOf(accounts, tx.sender), b)
  {
    hide BalanceDelta, Target;
    assert AccountOf(after, b) == AccountAfter(AccountOf(accounts, b), AccountOf(accounts, tx.sender), tx, b);
  }

  lemma PaysAlone(accounts: map<Address, Account>, after: map<Address, Account>, tx: Tx, out: int)
    requires AccountsAfter(accounts, after, tx)
    requires forall b: Address :: BalanceDelta(tx, AccountOf(accounts, tx.sender), b) == if b == tx.sender then 0 - out else 0
    ensures OnlyPays(accounts, after, tx.sender, out)
  {
    hide BalanceDelta, AccountsAfter;
    forall b: Address ensures Balance(after, b) == Balance(accounts, b) - if b == tx.sender then out else 0 {
      BalanceThen(accounts, after, tx, b);
    }
  }

  lemma EntryThen(before: map<Key, Entry>, after: map<Key, Entry>, tx: Tx, k: Key)
    requires BookAfter(before, after, tx)
    ensures EntryAt(after, k).staked == EntryAt(before, k).staked + StakeDelta(tx, k)
    ensures EntryAt(after, k).rewards == EntryAt(before, k).rewards + RewardDelta(tx, k)
  {
    hide StakeDelta, RewardDelta;
    assert StakeAt(after, k) == StakeAt(before, k) + StakeDelta(tx, k);
  }

  lemma NoNumber(a: Address)
    requires NoDelegate(a)
    ensures DelegatedNumber(a) == 0
  {
    hide DelegatedNumber, DelegatedAddress;
    var n := DelegatedNumber(a);
    if n > 0 { DelegatedExactly(a, n); }
  }

  // ---------------------------------------------------------------- transfers

  /** A transfer moves its amount at once if the sender is an ordinary account and there is no call
      data, or if it is an approval of an escrow or multisig account. */
  lemma {:induction false} TransferMoves(accounts: map<Address, Account>, after: map<Address, Account>, tx: Tx)
    requires ToSomebody(tx) && AccountsAfter(accounts, after, tx)
    requires var acc := AccountOf(accounts, tx.sender);
             if Ordinary(acc) then !tx.hasData else tx.approves.Some?
    ensures forall b: Address :: Balance(after, b) == Balance(accounts, b)
              - (if b == tx.sender then tx.amount + tx.fee else 0) + (if b == tx.recipient then tx.amount else 0)
  {
    hide DelegatedNumber, DelegatedAddress, AccountsAfter, Balance;
    NoNumber(tx.recipient);
    forall b: Address
      ensures Balance(after, b) == Balance(accounts, b)
                - (if b == tx.sender then tx.amount + tx.fee else 0) + (if b == tx.recipient then tx.amount else 0)
    {
      BalanceThen(accounts, after, tx, b);
    }
  }

  /** A contract call pays the fee only; its value was moved by the EVM. So does a transfer of an
      escrow or multisig account, which is held. */
  lemma {:induction false} TransferHeld(accounts: map<Address, Account>, after: map<Address, Account>, tx: Tx)
    requires ToSomebody(tx) && AccountsAfter(accounts, after, tx)
    requires var acc := AccountOf(accounts, tx.sender);
             if Ordinary(acc) then tx.hasData else tx.approves.None?
    ensures OnlyPays(accounts, after, tx.sender, tx.fee)
  {
    hide DelegatedNumber, DelegatedAddress, AccountsAfter, Balance;
    NoNumber(tx.recipient);
    PaysAlone(accounts, after, tx, tx.fee);
  }

  lemma TransferLeavesBook(before: map<Key, Entry>, after: map<Key, Entry>, tx: Tx)
    requires ToSomebody(tx) && BookAfter(before, after, tx)
    ensures SameBook(before, after)
  {
    hide DelegatedNumber, DelegatedAddress, BookAfter, EntryAt;
    NoNumber(tx.recipient);
    forall k ensures EntryAt(after, k).staked == EntryAt(before, k).staked && EntryAt(after, k).rewards == EntryAt(before, k).rewards {
      EntryThen(before, after, tx, k);
    }
  }

  /** It is accepted exactly when the sender can pay what leaves it, has what it sends to itself, and may
      set the policy. */
  lemma {:induction false} TransferAccepted(accounts: map<Address, Account>, entries: map<Key, Entry>, escrow: seq<Tx>, tx: Tx, height: int)
    requires ToSomebody(tx) && Shaped(tx)
    ensures var acc := AccountOf(accounts, tx.sender);
            var moves := if Ordinary(acc) then !tx.hasData else tx.approves.Some?;
            Accepts(accounts, entries, escrow, tx, height) <==>
              && PolicyAllowed(tx, AccountOf(accounts, tx.recipient)) && acc.balance >= tx.fee
              && (moves ==> acc.balance >= tx.amount + if tx.recipient == tx.sender then 0 else tx.fee)
  {
    hide DelegatedNumber, DelegatedAddress, PolicyAllowed;
    NoNumber(tx.recipient);
  }

  /** A pool takes a hash it does not hold, unless it was banned more than fifty times or the pool is full. */
  predicate Room(pool: seq<Tx>, bans: map<nat, nat>, hash: nat) {
    && (forall x :: x in pool ==> x.hash != hash) && |pool| < 50_000
    && (hash in bans ==> bans[hash] <= 50)
  }

  ghost predicate Grown(before: seq<Tx>, bans: map<nat, nat>, after: seq<Tx>, tx: Tx) {
    if Room(before, bans, tx.hash) then multiset(after) == multiset(before) + multiset{tx} else after == before
  }

  lemma HeldGrows(before: seq<Tx>, bans: map<nat, nat>, after: seq<Tx>, tx: Tx)
    requires Held(before, tx, bans, after)
    ensures Grown(before, bans, after, tx)
  {
    if Takes(before, tx, bans) {
      var at :| 0 <= at <= |before| && after == before[..at] + [tx] + before[at..];
      assert before == before[..at] + before[at..];
      forall x | x in before ensures x.hash != tx.hash { var i :| 0 <= i < |before| && before[i] == x; }
    } else if Pooled(before, tx.hash) {
      var i :| 0 <= i < |before| && before[i].hash == tx.hash;
      assert before[i] in before;
    }
  }

  /** A transfer on a ledger: when it goes through, every balance then, and where it waits. */
  method Transfer(l: L.Ledger, tx: Tx, height: int, time: int) returns (ok: bool)
    requires l.Valid() && Shaped(tx) && time >= 0 && ToSomebody(tx)
    modifies l`accounts, l`escrow, l`multisig, l`escrowBans, l.book
    ensures l.Valid() && l.book.entries == old(l.book.entries)
    ensures var acc := AccountOf(old(l.accounts), tx.sender);
            var moves := if Ordinary(acc) then !tx.hasData else tx.approves.Some?;
            && (ok <==>
                  && PolicyAllowed(tx, AccountOf(old(l.accounts), tx.recipient)) && acc.balance >= tx.fee
                  && (moves ==> acc.balance >= tx.amount + if tx.recipient == tx.sender then 0 else tx.fee))
            && (ok ==> forall b: Address :: Balance(l.accounts, b) == Balance(old(l.accounts), b)
                         - (if b == tx.sender then tx.fee + (if moves then tx.amount else 0) else 0)
                         + (if b == tx.recipient && moves then tx.amount else 0))
    ensures var acc, held := AccountOf(old(l.accounts), tx.sender), tx.(height := height);
            if tx.approves.Some? then l.escrow == old(l.escrow) && Grown(old(l.multisig), l.multisigBans, l.multisig, tx)
            else if acc.delay > 0 then l.multisig == old(l.multisig) && Grown(old(l.escrow), old(l.escrowBans), l.escrow, held)
            else if acc.required > 0 then l.escrow == old(l.escrow) && Grown(old(l.multisig), l.multisigBans, l.multisig, held)
            else l.escrow == old(l.escrow) && l.multisig == old(l.multisig)
  {
    hide DelegatedNumber, DelegatedAddress, AccountsAfter, BookAfter, Balance, Accepts, PolicyAllowed, Held, Grown, Staffed;
    hide BalanceTotal, StakedTotal, RewardsTotal, BookValid;
    ghost var before, entries, acc := l.accounts, l.book.entries, AccountOf(l.accounts, tx.sender);
    TransferAccepted(before, entries, l.escrow, tx, height);
    NoNumber(tx.recipient);
    ok := l.ProcessTransaction(tx, height, time);
    if tx.approves.Some? { HeldGrows(old(l.multisig), l.multisigBans, l.multisig, tx); }
    else if acc.delay > 0 { HeldGrows(old(l.escrow), old(l.escrowBans), l.escrow, tx.(height := height)); }
    else if acc.required > 0 { HeldGrows(old(l.multisig), l.multisigBans, l.multisig, tx.(height := height)); }
    if ok && if Ordinary(acc) then !tx.hasData else tx.approves.Some? {
      TransferMoves(before, l.accounts, tx);
    } else if ok {
      TransferHeld(before, l.accounts, tx);
    }
  }

  /** Policies: one at a time, by the account itself, once, and within bounds. */
  lemma PolicySet(tx: Tx, acc: Account)
    ensures PolicyAllowed(tx, acc) <==>
              || (tx.newDelay <= 0 && tx.newRequired <= 0)
              || (&& tx.recipient == tx.sender && acc.delay <= 0 && acc.required <= 0
                  && ((tx.newRequired <= 0 && tx.newDelay <= 60480) || (tx.newDelay <= 0 && tx.newRequired <= |tx.newSigners|)))
    ensures tx.newDelay <= 0 && tx.newRequired <= 0 ==> WithPolicy(acc, tx) == acc
    ensures tx.newDelay > 0 && tx.newRequired <= 0 ==> WithPolicy(acc, tx) == Account(acc.balance, tx.newDelay, acc.required, acc.signers)
    ensures tx.newDelay <= 0 && tx.newRequired > 0 ==> WithPolicy(acc, tx) == Account(acc.balance, acc.delay, tx.newRequired, tx.newSigners)
  {
  }

  // ---------------------------------------------------------------- stake and rewards

  /** The delegated account whose stake tx changes, if it does. */
  predicate Stakes(tx: Tx, n: nat, owner: Address) {
    && tx.recovery.NotRecovery? && tx.cancels.None? && 0 < n < 256
    && if tx.locked > 0 then tx.lockAccount == DelegatedAddress(n) && owner == tx.recipient
       else tx.recipient == DelegatedAddress(n) && owner == tx.sender
  }

  lemma Numbered(n: nat)
    requires n > 0
    ensures DelegatedNumber(DelegatedAddress(n)) == n
  {
    hide DelegatedNumber, DelegatedAddress;
    DelegatedExactly(DelegatedAddress(n), n);
  }

  /** A stake, a locked stake or an unstaking: the amount goes from the sender to the stake of the
      owner, or back, and the fee besides; nothing else changes. */
  lemma {:induction false} StakeMoves(v: View, w: View, tx: Tx, n: nat, owner: Address)
    requires Stakes(tx, n, owner) && AccountsAfter(v.accounts, w.accounts, tx) && BookAfter(v.entries, w.entries, tx)
    ensures OnlyPays(v.accounts, w.accounts, tx.sender, tx.fee + tx.amount)
    ensures forall k ::
              && EntryAt(w.entries, k).staked == EntryAt(v.entries, k).staked + (if k == (n, owner) then tx.amount else 0)
              && EntryAt(w.entries, k).rewards == EntryAt(v.entries, k).rewards
  {
    hide DelegatedNumber, DelegatedAddress, AccountsAfter, BookAfter, Balance, EntryAt;
    Numbered(n);
    var out := tx.fee + tx.amount;
    PaysAlone(v.accounts, w.accounts, tx, out);
    forall k
      ensures EntryAt(w.entries, k).staked == EntryAt(v.entries, k).staked + (if k == (n, owner) then tx.amount else 0)
      ensures EntryAt(w.entries, k).rewards == EntryAt(v.entries, k).rewards
    {
      EntryThen(v.entries, w.entries, tx, k);
    }
  }

  /** When it is accepted. */
  lemma {:induction false} StakeAccepted(accounts: map<Address, Account>, entries: map<Key, Entry>, escrow: seq<Tx>, tx: Tx, height: int,
                                         n: nat, owner: Address)
    requires Stakes(tx, n, owner)
    ensures var e := EntryAt(entries, (n, owner));
            Accepts(accounts, entries, escrow, tx, height) <==>
              && PolicyAllowed(tx, AccountOf(accounts, tx.recipient))
              && Balance(accounts, tx.sender) >= tx.fee + tx.amount
              && (height >= e.lastStakeHeight + 36 || (tx.locked > 0 && owner != tx.sender))
              && (if tx.locked > 0 then tx.amount >= 100_000_000_000 && 0 <= tx.release <= tx.locked <= tx.amount
                  else
                    || tx.amount >= 100_000_000_000
                    || (&& tx.amount < 0 && ((n, owner) in entries || owner == 0) && e.staked + tx.amount >= 0
                        && e.locks.Aligned() && TestPasses(e.locks, height, e.staked + tx.amount)))
  {
    hide DelegatedNumber, DelegatedAddress, TestPasses, PolicyAllowed;
    Numbered(n);
  }

  /** A withdrawal goes from the sender's rewards to its balance; a positive amount does nothing. */
  lemma {:induction false} WithdrawalMoves(v: View, w: View, tx: Tx, n: nat)
    requires Usual(tx) && n < 256 && tx.recipient == DelegatedAddress(256 + n)
    requires AccountsAfter(v.accounts, w.accounts, tx) && BookAfter(v.entries, w.entries, tx)
    ensures OnlyPays(v.accounts, w.accounts, tx.sender, if tx.amount < 0 then tx.fee + tx.amount else if tx.amount == 0 then tx.fee else 0)
    ensures forall k ::
              && EntryAt(w.entries, k).staked == EntryAt(v.entries, k).staked
              && EntryAt(w.entries, k).rewards == EntryAt(v.entries, k).rewards + (if k == (n, tx.sender) && tx.amount < 0 then tx.amount else 0)
  {
    hide DelegatedNumber, DelegatedAddress, AccountsAfter, BookAfter, Balance, EntryAt;
    Numbered(256 + n);
    assert (256 + n) % 256 == n;
    var out := if tx.amount < 0 then tx.fee + tx.amount else if tx.amount == 0 then tx.fee else 0;
    PaysAlone(v.accounts, w.accounts, tx, out);
    forall k
      ensures EntryAt(w.entries, k).staked == EntryAt(v.entries, k).staked
      ensures EntryAt(w.entries, k).rewards == EntryAt(v.entries, k).rewards + (if k == (n, tx.sender) && tx.amount < 0 then tx.amount else 0)
    {
      EntryThen(v.entries, w.entries, tx, k);
    }
  }

  lemma {:induction false} WithdrawalAccepted(accounts: map<Address, Account>, entries: map<Key, Entry>, escrow: seq<Tx>, tx: Tx, height: int, n: nat)
    requires Usual(tx) && n < 256 && tx.recipient == DelegatedAddress(256 + n)
    ensures Accepts(accounts, entries, escrow, tx, height) <==>
              && ((n, tx.sender) in entries || tx.sender == 0) && tx.amount != 0
              && (tx.amount < 0 ==>
                    EntryAt(entries, (n, tx.sender)).rewards + tx.amount >= 0 && Balance(accounts, tx.sender) >= tx.fee + tx.amount)
  {
    hide DelegatedNumber, DelegatedAddress;
    Numbered(256 + n);
    assert (256 + n) % 256 == n;
  }

  // ---------------------------------------------------------------- fees alone

  /** Recovery transactions, cancellations and DEX orders pay their fee and nothing else. */
  lemma {:induction false} OthersPayTheFee(v: View, w: View, tx: Tx, n: nat)
    requires !tx.recovery.NotRecovery? || tx.cancels.Some? || (Usual(tx) && n >= 512 && tx.recipient == DelegatedAddress(n))
    requires AccountsAfter(v.accounts, w.accounts, tx) && BookAfter(v.entries, w.entries, tx)
    ensures OnlyPays(v.accounts, w.accounts, tx.sender, tx.fee) && SameBook(v.entries, w.entries)
  {
    hide DelegatedNumber, DelegatedAddress, AccountsAfter, BookAfter, Balance, EntryAt;
    if n > 0 { Numbered(n); }
    var out: int := tx.fee;
    PaysAlone(v.accounts, w.accounts, tx, out);
    forall k
      ensures EntryAt(w.entries, k).staked == EntryAt(v.entries, k).staked
      ensures EntryAt(w.entries, k).rewards == EntryAt(v.entries, k).rewards
    {
      EntryThen(v.entries, w.entries, tx, k);
    }
  }

  /** A cancellation says nothing but what it cancels: a transfer of the same escrow account that is
      still waiting and not yet due. */
  lemma {:induction false} CancellationAccepted(accounts: map<Address, Account>, entries: map<Key, Entry>, escrow: seq<Tx>, tx: Tx, height: int)
    requires tx.recovery.NotRecovery? && tx.cancels.Some?
    ensures var acc := AccountOf(accounts, tx.sender);
            Accepts(accounts, entries, escrow, tx, height) <==>
              && tx.amount == 0 && tx.recipient == tx.sender && tx.locked == 0 && tx.newRequired == 0 && tx.approves.None?
              && acc.delay > 0 && acc.balance >= tx.fee
              && exists x :: x in escrow && x.hash == tx.cancels.value && x.sender == tx.sender && height < x.height + acc.delay
  {
  }

  /** A recovery transaction is accepted exactly when its own checks pass and the fee can be paid; the
      registration of an escrow or multisig account is not checked before it settles. */
  lemma RecoveryAccepted(accounts: map<Address, Account>, entries: map<Key, Entry>, escrow: seq<Tx>, tx: Tx, height: int)
    requires !tx.recovery.NotRecovery?
    ensures Accepts(accounts, entries, escrow, tx, height) <==>
              && Balance(accounts, tx.sender) >= tx.fee
              && (tx.recovery.applies || (tx.recovery.Registration? && tx.sender in accounts && !Ordinary(accounts[tx.sender])))
              && (tx.recovery.Registration? ==> tx.sender in accounts)
  {
  }

  // ---------------------------------------------------------------- waiting and approving

  /** A transfer that an escrow account has sent waits out the delay of the account, and is due then. */
  lemma DueAfterDelay(accounts: map<Address, Account>, pool: seq<Tx>, tx: Tx, height: int)
    requires ToSomebody(tx) && tx.approves.None? && tx in pool && AccountOf(accounts, tx.sender).delay > 0
    ensures tx in Served(pool, height) && Matured(accounts, tx, height) <==>
              height >= tx.height + tx.newDelay && height >= tx.height + AccountOf(accounts, tx.sender).delay
              && AccountOf(accounts, tx.sender).required <= 0
  {
    hide DelegatedNumber, DelegatedAddress;
    NoNumber(tx.recipient);
    ServedMembers(pool, height);
  }

  lemma PolicyStays(accounts: map<Address, Account>, after: map<Address, Account>, tx: Tx, b: Address)
    requires AccountsAfter(accounts, after, tx) && tx.newDelay <= 0 && tx.newRequired <= 0
    ensures AccountOf(after, b).delay == AccountOf(accounts, b).delay && AccountOf(after, b).required == AccountOf(accounts, b).required
  {
    hide BalanceDelta, Target;
    assert AccountOf(after, b) == AccountAfter(AccountOf(accounts, b), AccountOf(accounts, tx.sender), tx, b);
  }

  /** From sending to settling: what an escrow account sends in one block and the pool takes, a later
      block settles only when the delay is over, and does then if nothing stops it. */
  method EscrowWaits(l: L.Ledger, tx: Tx, height: int, later: int, time: int) returns (ok: bool, ghost settled: seq<Tx>, ghost complete: bool)
    requires l.Valid() && Shaped(tx) && time >= 0 && ToSomebody(tx) && tx.approves.None?
    requires var acc := AccountOf(l.accounts, tx.sender); acc.delay > 0 && acc.required <= 0
    requires Room(l.escrow, l.escrowBans, tx.hash) && height <= later
    modifies l`accounts, l`escrow, l`multisig, l`escrowBans, l`multisigBans, l.book
    ensures l.Valid() && (ok ==> l.Coins() == old(l.Coins()) - tx.fee)
    ensures var delay, held := AccountOf(old(l.accounts), tx.sender).delay, tx.(height := height);
            && (ok && held in settled ==> height + delay <= later && forall x :: x in l.escrow ==> x.hash != tx.hash)
            && (ok && complete && height + delay <= later ==> held in settled)
  {
    hide DelegatedNumber, DelegatedAddress, AccountsAfter, BookAfter, Accepts, Held, Staffed;
    hide BalanceTotal, StakedTotal, RewardsTotal, BookValid, Served, AllMoved;
    ghost var before, held := l.accounts, tx.(height := height);
    NoNumber(tx.recipient);
    TransferAccepted(before, l.book.entries, l.escrow, tx, height);
    ok := l.ProcessTransaction(tx, height, time);
    HeldGrows(old(l.escrow), old(l.escrowBans), l.escrow, held);
    assert held in multiset(l.escrow);
    ghost var pool, mid := l.escrow, l.accounts;
    if ok {
      PolicyStays(before, mid, tx, tx.sender);
      DueAfterDelay(mid, pool, held, later);
    }
    settled, complete := l.ProcessEscrow(later);
  }

  /** The group of a transaction: itself and what approves it. */
  lemma {:induction false} GroupMeans(pool: seq<Tx>, key: nat, x: Tx)
    ensures x in Group(pool, key) <==> x in pool && (if x.approves.Some? then x.approves.value == key else x.hash == key)
  {
    if pool != [] {
      GroupMeans(pool[1..], key, x);
      assert pool == [pool[0]] + pool[1..];
    }
  }

  /** An entry of a group approves m if it moves nothing and goes to the same recipient. */
  ghost function Approvals(m: Tx, group: seq<Tx>, a: Address): set<nat> {
    set i: nat | i < |group| && group[i].sender == a && group[i].amount == 0 && group[i].recipient == m.recipient
  }

  /** Every place among the signers is filled by one approval of that signer at most. */
  lemma {:induction false} ApproversMean(m: Tx, group: seq<Tx>, a: Address)
    ensures multiset(Approvers(m, group))[a] == |Approvals(m, group, a)|
  {
    if group == [] {
      assert Approvals(m, group, a) == {};
    } else {
      var front, last := group[..|group| - 1], group[|group| - 1];
      ApproversMean(m, front, a);
      assert forall i: nat :: i < |front| ==> group[i] == front[i];
      if last.sender == a && last.amount == 0 && last.recipient == m.recipient {
        assert Approvals(m, group, a) == Approvals(m, front, a) + {|front|};
      } else {
        assert Approvals(m, group, a) == Approvals(m, front, a);
      }
    }
  }

  function BannedTimes(hash: nat, times: nat): map<nat, nat> {
    if times == 0 then map[] else Ban(BannedTimes(hash, times - 1), hash)
  }

  /** A hash is refused once it has been banned more than fifty times, and stays so. */
  lemma {:induction false} BannedAfterFifty(hash: nat, times: nat)
    ensures Banned(BannedTimes(hash, times), hash) <==> times > 50
    ensures times > 0 ==> hash in BannedTimes(hash, times) && BannedTimes(hash, times)[hash] == if times > 100 then 100 else times
  {
    if times > 0 { BannedAfterFifty(hash, times - 1); }
  }

  // ---------------------------------------------------------------- the checks of a block

  /** What a sender spends in a block adds up over its transactions. */
  lemma {:induction false} SpentAddsUp(a: seq<Tx>, b: seq<Tx>, x: Address)
    ensures Spent(a + b, x) == Spent(a, x) + Spent(b, x)
    ensures forall tx: Tx :: Spent([tx], x) == if tx.sender == x then tx.fee + tx.amount else 0
  {
    forall tx: Tx ensures Spent([tx], x) == if tx.sender == x then tx.fee + tx.amount else 0 { assert [tx][..0] == []; }
    if b == [] {
      assert a + b == a;
    } else {
      var front := b[..|b| - 1];
      assert (a + b)[..|a + b| - 1] == a + front;
      SpentAddsUp(a, front, x);
    }
  }

  /** The tab of a sender starts with its stake and rewards and adds amounts and fees. */
  lemma TabMeans(entries: map<Key, Entry>, tabs: map<Address, Tab>, tx: Tx, n: nat)
    requires 0 < n < 512 && (if tx.locked > 0 then tx.lockAccount else tx.recipient) == DelegatedAddress(n)
    ensures var e := EntryAt(entries, (n % 256, tx.sender));
            TabAfter(entries, tabs, tx) == if tx.sender in tabs then Tab(tabs[tx.sender].staked + tx.amount, tabs[tx.sender].fees + tx.fee)
                                           else Tab(e.staked + tx.amount, e.rewards + tx.fee)
  {
    hide DelegatedNumber, DelegatedAddress;
    Numbered(n);
  }

  predicate NothingOrEnough(amount: int) {
    amount == 0 || amount >= 100_000_000_000
  }

  /** What the check asks of a transaction about stake. */
  lemma {:induction false} StakeChecked(accounts: map<Address, Account>, entries: map<Key, Entry>, keys: set<Address>, tx: Tx, tab: Tab, n: nat)
    requires 0 < n < 256 && (if tx.locked > 0 then tx.lockAccount else tx.recipient) == DelegatedAddress(n)
    ensures var e := EntryAt(entries, (n, tx.sender));
            StakingCheck(accounts, entries, keys, tx, tab) <==>
              && tx.sender in accounts && accounts[tx.sender].balance >= tx.fee && accounts[tx.sender].balance >= tab.fees
              && (tx.hasData && tx.amount > 0 ==> tx.sender in keys)
              && (if tx.locked > 0 then tx.amount >= 100_000_000_000 && 0 <= tx.release <= tx.locked <= tx.amount
                  else
                    && ((n, tx.sender) in entries || tx.amount > 0) && (tx.amount <= 0 || tx.amount >= 100_000_000_000)
                    && NothingOrEnough(e.staked + tx.amount)
                    && (tab.staked <= 0 || tab.staked >= 100_000_000_000) && NothingOrEnough(e.staked + tab.staked))
  {
    hide DelegatedNumber, DelegatedAddress;
    Numbered(n);
    assert n % 256 == n;
  }

  /** And of a withdrawal of rewards. */
  lemma {:induction false} WithdrawalChecked(accounts: map<Address, Account>, entries: map<Key, Entry>, keys: set<Address>, tx: Tx, tab: Tab, n: nat)
    requires n < 256 && tx.locked <= 0 && tx.recipient == DelegatedAddress(256 + n)
    ensures StakingCheck(accounts, entries, keys, tx, tab) <==>
              && tx.sender in accounts && accounts[tx.sender].balance >= tx.fee && accounts[tx.sender].balance >= tab.fees
              && ((n, tx.sender) in entries || tx.sender == 0) && EntryAt(entries, (n, tx.sender)).rewards + tx.amount >= 0
  {
    hide DelegatedNumber, DelegatedAddress;
    Numbered(256 + n);
    assert (256 + n) % 256 == n;
  }

  lemma ApprovalCarriesNothing(tx: Tx)
    ensures ApprovalShaped(tx) <==>
              tx.approves.None? || !(tx.amount > 0 || tx.hasData || tx.locked > 0 || tx.newRequired > 0)
  {
  }

  /** A transaction of a checked block: its own checks passed, an approval carries nothing else, and the
      sender can pay for it and all its transactions before it. */
  lemma CheckedInBlock(l: L.Ledger, txs: seq<Tx>, verdicts: seq<bool>, keys: set<Address>, i: nat)
    requires |verdicts| == |txs| && i < |txs| && l.Payable(txs, verdicts, keys, i)
    ensures var tx := txs[i];
            && verdicts[i] && tx.sender in l.accounts && Spent(txs[..i + 1], tx.sender) <= l.accounts[tx.sender].balance
            && (tx.approves.Some? ==> tx.amount <= 0 && !tx.hasData && tx.locked <= 0 && tx.newRequired <= 0)
            && (tx.locked > 0 ==> exists n :: 0 < n < 256 && tx.lockAccount == DelegatedAddress(n))
  {
    hide DelegatedNumber, DelegatedAddress, Spent, StakingCheck, TabAfter;
    var tx := txs[i];
    if tx.locked > 0 { DelegatedExactly(tx.lockAccount, Target(tx)); }
  }
}
