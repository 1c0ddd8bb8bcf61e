# A verified model of the QWID node

QWID is a proof-of-stake node written in Go. This project models, in Dafny 4.11, the parts of
it whose correctness spans many calls, and proves what those parts are there to guarantee:

- **RLP** (`RlpSpec`, `RlpEncode`, `RlpDecode`, `RlpRoundTrip`, `RlpRaw`). The encoder keeps one
  flat buffer of string data and a side list of list headers, and splices them at the end; the
  decoder is a stream with a stack of 64-bit list counters that may wrap. Both are proved
  against the recursive definition of Appendix B of the Ethereum Yellow Paper.
- **The coin ledger** (`Sums`, `Staking`, `StakingRuns`, `Operators`, `Rewards`, `Ledger`,
  `LedgerEffects`, `LedgerCases`): balances, stake with locks, rewards, held transactions, block application, whole
  chains.
- **Key recovery** (`Commitments`, `Recovery`): commitments that mature, reveals, scheme breaks,
  and the two-phase bind and reveal.
- **Scheme governance, randomness and prices** (`Nonces`, `Schemes`, `Tally`, `Randao`,
  `Oracle`): two signature-scheme slots changed by stake votes, the commit-reveal accumulator,
  and the price oracle.
- **The key registry and its cache** (`Registry`, `KeyCache`): registration heights, the rewind
  journal, and a read-through cache under every interleaving of readers and writers.
- **Transport** (`Wire`, `Frames`, `EncryptedConn`, `Handles`): reassembly of length-framed
  messages, resumable reading of sealed records, and the allocator of peer handles.

`Basics` holds what all of them share. Objects that the Go code updates in place are classes
here, its loops are loops with invariants, and expressions are functions. Integers are unbounded;
where the width matters (list counters, every lock, the sum over the locks and the last test of an
unstaking, the operator's part of a reward, 128-bit products, wire formats) the 64-bit operations
are written out.

## Where the code does not do what one would expect

Each of these is proved, with the exact condition.

- A transaction to a reward address (delegated number 256 to 511) with a positive amount is
  accepted whenever the sender has an entry there; its fee is booked as collected, and nothing is
  debited. The books balance after a chain exactly when the last applied block holds no such
  transaction with a fee, and after a block with one no further block passes the supply check
  (`Ledger.UnchargedNone`, `LedgerCases.FeeNeverTaken`, `Ledger.Ledger.ApplyChain`).
- An approved transfer can settle more than once. Settling takes it out of the pool, but its
  approvals stay there and it stays among the confirmed transactions, from where a further
  approval takes it again. In any state in which it has left the pool, a further approval settles
  it exactly when it is stored and its sender's account still finds it ready
  (`LedgerCases.ApproveAgain`, `LedgerCases.ApproveTwice`); `LedgerCases.SettledTwice` is a run in
  which the recipient is paid twice.
- The remaining lock is computed in int64. It is right up to a height exactly when the released
  amount has not outrun the lock by more than 2^63; past that, released coins count as locked
  again (`Staking.Lock64Exact`, `Staking.LockComesBack`). A single lock never reports too little
  (`Staking.Lock64Covers`), but the sum over the locks can overflow. It is right exactly when what
  wrapped locks report is a multiple of 2^64 (`Staking.SumIsRight`), and the test of an unstaking
  protects the locks exactly when the sum is guarded (`Staking.GuardedExactly`). In
  `StakingRuns.CoverLost` two wrapped locks make the sum negative, and an unstaking takes out what
  a third lock should hold back for good.
- The two loops that select the operator of a delegated account name the same one exactly when
  some operational entry has stake (`Operators.BothSelections`). Every chain keeps that: from a
  genesis in which operators have stake the two always agree (`Ledger.SelectionsAgree`,
  `Ledger.Ledger.ApplyChain`).
- A change of commitments that a broken scheme voids never takes effect, but it still cancels an
  earlier change that was pending (`Commitments.BrokenBeforeMaturing`,
  `Commitments.VoidedStillCancels`). It leaves no trace exactly when no earlier change would have
  matured between it and the break (`Commitments.VoidedWithoutTrace`).
- Registering a key that another identity already had hides it from that identity's past; this
  is the only case in which a later registration is seen (`Registry.LaterIsUnseen`,
  `Registry.TakenOver`). A registration refused for length or for a full list leaves its key
  record behind, without a height, so that the reader by address takes the key for one of block 0
  (`Registry.RefusedLooksOld`). That reader sees, as of a block, exactly the keys listed then and
  those of which the last try that found them unlisted was refused (`Registry.SeenAsOf`). A rewind
  restores lists, heights and journal, and the records of all keys that were not refused, except
  that it deletes the record of an earlier refusal if the key was accepted since
  (`Registry.RewindRestores`).
- The short rewind of the registry agrees with the full sweep exactly when nothing was
  registered above `top` (`Registry.KeyStore.UnregisterAbove`).
- A block may pause the primary scheme and rename the spare at once; then, and only then, the
  live scheme is neither of the parent's two (`Schemes.LiveSchemeIsKnown`,
  `Schemes.NewSchemeGoesLive`). The check on pausing asks the operator for a key of the parent's
  spare; that is sure to be one of the scheme that signs next exactly when their keys have the same
  length (`Schemes.NextKeyIsHeld`), and no vote depends on who holds a key of it
  (`Tally.NobodyNeedsTheKey`).
- Two submitted prices are not sorted before the median is taken, so an odd difference is
  rounded towards the account with the lower id (`Oracle.TwoPrices`). The comment on
  `PriceFromData` says that a block without a price carries 0; the producer and the validator
  carry the parent's price, and so does the model.
- A multisig transaction counts as one of its own approvals exactly when it moves nothing and
  its sender has a place among the signers that the other approvals leave open
  (`Ledger.OwnApproval`).
- The encrypted connection moves on to the next counter when a record does not open, and goes on
  reading if it is asked to. What has been read is a prefix of what was written exactly as long as
  nothing has opened after a record that did not (`EncryptedConn.PrefixExactly`,
  `EncryptedConn.PrefixForAllContents`, `EncryptedConn.Reader.Read`); `EncryptedConn.SkipsARecord`
  shows one missing.

## Model

| member | source | states |
|---|---|---|
| `RlpSpec.HeaderShape` | rlp/encode.go:113-130 | a header of any 64-bit size has a tag byte that does not overflow, at most nine bytes, and a size field that reads back as that size without a leading zero |
| `RlpSpec.BigEndianCanonical` | rlp/decode.go:1034-1058 | a size without leading zeros is the only minimal form of its value |
| `RlpEncode.PutIntBytes` | rlp/encode.go:407-461 | the bytes stored are the shortest big-endian form, one byte for zero |
| `RlpEncode.IntSize` | rlp/encode.go:465-471 | the shifting loop returns the number of bytes of that shortest form |
| `RlpEncode.PutHead` | rlp/encode.go:122-130 | exactly the header is written at its place and no byte before or after it changes |
| `RlpEncode.FlatLength` | rlp/encbuffer.go:50-53 | string bytes plus header bytes of a value are the exact length of its encoding, however lists nest |
| `RlpEncode.SpliceIsEncode` | rlp/encbuffer.go:62-77 | splicing the flat strings and headers of a value in front of anything gives its recursive encoding in front of it |
| `RlpEncode.EncBuffer.WriteUint64` | rlp/encbuffer.go:118-129 | an integer is appended as the canonical string of its minimal bytes |
| `RlpEncode.EncBuffer.WriteBytes` | rlp/encbuffer.go:131-139 | a string is appended in its only canonical form, a small byte as itself |
| `RlpEncode.EncBuffer.EncodeStringHeader` | rlp/encbuffer.go:198-206 | the canonical string header of the size is appended |
| `RlpEncode.EncBuffer.List` | rlp/encbuffer.go:174-177 | an open header remembers where it belongs and how many header bytes came before |
| `RlpEncode.EncBuffer.ListEnd` | rlp/encbuffer.go:179-187 | the header gets the encoded size of the list's content and the running header size grows by the header's length |
| `RlpEncode.EncBuffer.WriteValue` | rlp/encode.go:262-316 | writing a value of any nesting adds exactly its strings and headers, and keeps the running header size exact |
| `RlpEncode.EncBuffer.CopyTo` | rlp/encbuffer.go:62-77 | the two-cursor copy fills the destination with the splice of strings and headers |
| `RlpEncode.EncodeToBytes` | rlp/encode.go:71-81 | the output is the recursive encoding, for every value that fits in a Go slice |
| `RlpDecode.ReadTagSound` | rlp/decode.go:974-1032 | what is read as a tag is the canonical header of its size |
| `RlpDecode.ReadTagComplete` | rlp/decode.go:974-1032 | every canonical header is read back, whatever follows |
| `RlpDecode.PrefixFree` | rlp/decode.go:90-104 | no encoding is a proper prefix of another, so concatenations come apart in one way only |
| `RlpDecode.EncodeInjective` | rlp/decode.go:90-104 | different values have different encodings |
| `RlpDecode.CounterZero` | rlp/decode.go:783-785 | a wrapping list counter is back at zero only when exactly the list's size was consumed |
| `RlpDecode.ListCounter` | rlp/decode.go:771-805 | a list opened with a size and closed at counter zero has consumed that size, and the enclosing counter lost the same |
| `RlpDecode.Stream.WillRead` | rlp/decode.go:1096-1113 | a read is allowed exactly within the list counter and the input limit, and reduces both |
| `RlpDecode.Stream.ReadUint` | rlp/decode.go:1034-1058 | a size is accepted exactly without a leading zero, and is its big-endian value |
| `RlpDecode.Stream.ReadKind` | rlp/decode.go:974-1032 | succeeds exactly when a canonical tag is ahead within the limits |
| `RlpDecode.Stream.Kind` | rlp/decode.go:947-972 | accepts exactly the tags whose size passes the check against the counter before the tag, and remembers them |
| `RlpDecode.Stream.Bytes` | rlp/decode.go:610-631 | a string is returned exactly if it is there, allowed, and not a byte that should stand alone, whether or not its tag was read before; the end of a list is reported as such |
| `RlpDecode.Stream.List` | rlp/decode.go:771-792 | enters exactly a list that the limits admit, whether or not its tag was read before, and charges its size to the enclosing counter modulo 2^64 |
| `RlpDecode.Stream.ListEnd` | rlp/decode.go:794-805 | leaves a list exactly when its counter is zero |
| `RlpDecode.Stream.DecodeInterface` | rlp/decode.go:492-514 | whatever the counters did, what is accepted are the bytes of an encoding of the result, and every allowed encoding is accepted |
| `RlpDecode.Stream.DecodeListSlice` | rlp/decode.go:272-285 | an accepted list has content of exactly the announced size, the encodings of its elements |
| `RlpDecode.Stream.DecodeSliceElems` | rlp/decode.go:287-314 | the element loop reads encodings up to the end of the list and returns all of them in order |
| `RlpDecode.DecodeBytes` | rlp/decode.go:90-104 | accepts exactly the encodings, and returns the encoded value |
| `RlpRoundTrip.EncodeThenDecode` | rlp/encode.go:71-81 | decoding undoes encoding for every value |
| `RlpRoundTrip.DecodeThenEncode` | rlp/decode.go:90-104 | accepted input re-encodes to the same bytes, and input is accepted exactly when it is an encoding |
| `RlpRoundTrip.KnownEncodings` | rlp/encode.go:71-81 | the encodings of the empty string, small bytes, a word, the empty list and a list of words |
| `RlpRaw.SameTags` | rlp/raw.go:120-159 | the slice reader accepts exactly the tags of the stream reader whose content is present and not a lone small byte |
| `RlpRaw.SplitOfEncode` | rlp/raw.go:45-54 | splitting an encoded value gives its kind, its content and what follows |
| `RlpRaw.SplitStringSound` | rlp/raw.go:57-66 | a string that was split off had been encoded in the only possible way |
| `RlpRaw.UintBytes` | rlp/raw.go:193-261 | the appended bytes are the canonical encoding of the integer |
| `RlpRaw.SplitUint64Sound` | rlp/raw.go:68-93 | an integer that is read was appended by AppendUint64 |
| `RlpRaw.SplitUint64Complete` | rlp/raw.go:68-93 | an appended integer is read back with what follows |
| `RlpRaw.CountValues` | rlp/raw.go:106-118 | the count of successive splits, or the first error, for any input; a concatenation of encodings is counted value by value |
| `RlpRaw.CountOfItems` | rlp/raw.go:106-118 | any concatenation of n single items counts n |
| `RlpRaw.ItemsOfCount` | rlp/raw.go:106-118 | only a concatenation of n single items counts n |
| `Staking.Lock64Exact` | account/stakeAccount.go:84-104 | the int64 lock is right at all heights up to one exactly when the release has not outrun it by more than 2^63 |
| `Staking.WrappedLock` | account/stakeAccount.go:84-104 | at the first height beyond that, coins count as locked though none are |
| `Staking.LockComesBack` | account/stakeAccount.go:84-104 | concrete lock that is free after one block and locked again after 42 |
| `Staking.Lock64Covers` | account/stakeAccount.go:84-104 | an int64 lock never reports less than is locked, and is exact while anything is |
| `Staking.LockedAmount` | account/stakeAccount.go:84-104 | the summing loop returns the sum of the int64 locks, reduced to 64 bits |
| `Staking.SumIsRight` | account/stakeAccount.go:84-104 | that is what is locked exactly when wrapped locks report a multiple of 2^64, and always while none has wrapped |
| `Staking.GuardedExactly` | account/stakeAccount.go:193-275 | the last test of an unstaking lets only covered amounts through exactly when the sum modulo 2^64 lies between what is locked and 2^63 |
| `Staking.SmallSumGuards` | account/stakeAccount.go:193-275 | so it does for a sum up to 2^63 and for locks that have not wrapped |
| `Staking.DropExpired` | account/stakeAccount.go:193-275 | dropping expired locks keeps the three lists aligned and changes no later total by the terms of the locks; the int64 sum can differ, where a dropped lock would have wrapped later |
| `Staking.PruneDetails` | account/stakeAccount.go:48-82 | folding old details keeps both sums, leaves recent heights untouched and no old height |
| `Staking.CoveredLater` | account/stakeAccount.go:84-104 | stake that covers what is locked covers it at every later height |
| `Staking.StakingBook.Stake` | account/stakeAccount.go:123-191 | accepted exactly within the bounds and the waiting time; only that entry changes, its commitment does not, the log adds up and the locks stay covered |
| `Staking.StakingBook.Unstake` | account/stakeAccount.go:193-275 | accepted exactly when the int64 test passes; later lock totals stay the same, and the rest covers the locks whenever their sum is guarded |
| `Staking.StakingBook.Reward` | account/stakeAccount.go:277-309 | only the rewards and the log of that entry grow |
| `Staking.StakingBook.WithdrawReward` | account/stakeAccount.go:311-348 | accepted exactly when the rewards cover it; only rewards and log change |
| `Staking.StakingBook.Perform` | account/stakeAccount.go:123-348 | any of the four operations changes at most one entry and no commitment, keeps the log, and keeps the locks covered unless an unstaking finds an unguarded sum |
| `Staking.StakingBook.SetRandCommit` | account/stakeAccount.go:510-521 | replaces the commitment of an existing entry and nothing else |
| `StakingRuns.Apply` | account/stakeAccount.go:123-348 | every operation, accepted or not, changes one entry by what it says and keeps lists and log right, and the locks covered unless an unstaking finds an unguarded sum |
| `StakingRuns.Run` | account/stakeAccount.go:48-348 | after every run: lists aligned, log sums equal stake and rewards; and the stake covers the locks at all later heights if the sum was guarded at each unstaking |
| `StakingRuns.ThreeLocks` | account/stakeAccount.go:193-275 | three locks with a negative int64 sum, of which one holds back coins for good |
| `StakingRuns.CoverLost` | account/stakeAccount.go:193-275 | a run of accepted operations after which nothing is staked and that lock is still due |
| `Staking.DelegatedExactly` | account/helper.go:22-37 | the number of a delegated account is read exactly from its own address, and every other address has none |
| `Operators.SelectOperator` | account/accountsStakingStates.go:319-337 | the loop finds the first operator in a strict order, in whatever order the map is ranged over |
| `Operators.BestIsUnique` | account/accountsStakingStates.go:319-337 | there is only one such operator |
| `Operators.StakedInDelegatedAccount` | account/stakeAccount.go:526-563 | lists every entry of the account once, with the exact total, and names the operator if one has stake |
| `Operators.BothSelections` | account/stakeAccount.go:526-563 | the two selections agree exactly when an operational entry has stake |
| `Operators.Rank` | account/accountsStakingStates.go:338-351 | the rank is one more than the number of accounts ahead |
| `Operators.AheadIsTotal` | account/accountsStakingStates.go:338-351 | coming before is a strict total order |
| `Operators.PlacesAreDistinct` | account/accountsStakingStates.go:338-351 | no two accounts share a rank |
| `Operators.AtMost128` | account/accountsStakingStates.go:338-351 | at most 128 accounts are among the first 128 |
| `Operators.EligibleOperator` | account/accountsStakingStates.go:312-352 | eligible exactly with enough stake, an operator and a rank up to 128; then its operator is returned (what that means in stakes: `MoreStakeIsEligible`, `EligibleByStake`, `BestLeads`) |
| `Operators.EligibleAtMost128` | account/accountsStakingStates.go:312-352 | at most 128 delegated accounts are ever eligible |
| `Operators.MoreStakeIsEligible` | account/accountsStakingStates.go:338-351 | an account with an operator and more stake than an eligible one is eligible; at equal stake the earlier total, then the lower number, comes first |
| `Operators.EligibleByStake` | account/accountsStakingStates.go:312-352 | eligible with fewer than 128 others that have as much stake, not eligible with 128 that have more |
| `Operators.BestLeads` | account/accountsStakingStates.go:319-337 | the operator has the most stake, then has been one for longest, then has the lowest address |
| `Operators.IsTop128` | account/accountsStakingStates.go:250-262 | true exactly for the operator of an eligible account |
| `Rewards.GetReward` | account/reward.go:17-32 | remaining supply times the ratio rounded half up in 128 bits, never more than remains |
| `Rewards.SharesWithin` | blocks/processBlock.go:651-686 | the shares rounded down never exceed the reward |
| `Rewards.ShareIsFloor` | blocks/processBlock.go:651-686 | a share is the staker's exact part of the reward rounded down |
| `Rewards.RemainderIsSmall` | blocks/processBlock.go:651-686 | what the shares leave over is less than one unit for each staker |
| `Rewards.PartIsFloor` | blocks/processBlock.go:646-671 | the operator's part is its percentage rounded down, and at most half up to 500 per mille |
| `Rewards.PayStakers` | blocks/processBlock.go:651-686 | the loop pays every staker its share and leaves a remainder smaller than their number |
| `Rewards.Credit` | account/stakeAccount.go:277-309 | one entry's rewards and the total of rewards grow by the amount |
| `Rewards.DistributeReward` | blocks/processBlock.go:636-686 | succeeds exactly under the stated conditions; then every staker has gained its exact part of the net reward rounded down, the operator its percentage and a remainder smaller than the number of stakers, together exactly the reward |
| `Ledger.CountApprovals` | blocks/processTransaction.go:86-123 | approvals are the size of the multiset intersection of signers and approving senders, whatever the order |
| `Ledger.OwnApproval` | blocks/processTransaction.go:86-123 | for any group and signers: the main transaction adds one approval exactly when it moves nothing and its sender has an open place |
| `Ledger.AddToPool` | transactionsPool/poolTx.go:124-192 | a banned hash and a full pool are refused, a pooled one counts as added; nothing leaves the pool |
| `Ledger.Ledger.AddBalance` | blocks/blockAccountState.go:9-36 | refused exactly when the balance would become negative; nothing but that balance changes |
| `Ledger.Ledger.ProcessRecovery` | blocks/recovery.go:19-110 | succeeds exactly under the stated checks; exactly the fee leaves the sender; a registration of an escrow or multisig account waits in that account's pool if the pool takes it |
| `Ledger.Ledger.ProcessCancellation` | blocks/processTransaction.go:425-442 | succeeds exactly for a waiting transfer of the same sender in its window; removes and bans it and takes the fee |
| `Ledger.Ledger.ProcessStaking` | blocks/processTransaction.go:452-496 | succeeds exactly when bounds, waiting time, locks and balance allow; the amount moves between the sender's balance and the stake of sender or recipient; no other position changes |
| `Ledger.Ledger.ProcessWithdrawal` | blocks/processTransaction.go:497-524 | succeeds exactly when rewards and balance allow; the amount moves from the sender's rewards to its balance |
| `Ledger.Ledger.HoldOrMove` | blocks/processTransaction.go:537-569 | an escrow or multisig account's transfer waits in the right pool if that takes it, any other moves at once unless the EVM did |
| `Ledger.Ledger.ProcessTransfer` | blocks/processTransaction.go:531-577 | succeeds exactly when the sender can pay and may set its policy; every account is then as the transaction says, and the pools too |
| `Ledger.Ledger.ProcessPolicy` | blocks/processTransaction.go:367-409 | a policy is set once, by the account itself, within bounds; no balance changes |
| `Ledger.Ledger.Touch` | account/accountsStates.go:28-67 | writing a history creates the account and changes no other, nor any coin |
| `Ledger.Ledger.Dispatch` | blocks/processTransaction.go:425-577 | what follows once both accounts exist: each kind is accepted exactly under its condition |
| `Ledger.Ledger.ProcessTransaction` | blocks/processTransaction.go:411-579 | accepted exactly under the condition of its kind; every balance, stake and reward changes exactly by its delta, and the total by the fee charged (the conditions and deltas of each kind in plain fields: `LedgerEffects`) |
| `Ledger.Ledger.ProcessApproval` | blocks/processTransaction.go:591-726 | succeeds exactly under the stated checks; the approved transfer settles exactly when it is ready, between its two parties, and leaves the pool; nothing else moves |
| `Ledger.Ledger.RecoverMain` | blocks/processTransaction.go:581-645 | the approved transaction comes from the pool or from disk, and its group is otherwise untouched |
| `Ledger.Ledger.CarryOut` | blocks/processTransaction.go:680-724 | what an approved transaction does, exactly, and when it cannot be done |
| `Ledger.Ledger.ProcessEscrow` | blocks/processTransaction.go:728-832 | balances differ by exactly the settled transfers, each served and matured, settled once and gone from the pool; all matured ones settle unless one of the stated causes stops the loop |
| `Ledger.Ledger.RemoveBad` | transactionsPool/helper.go:12-45 | a transfer that cannot be paid leaves both pools and is banned in both; nothing else does |
| `Ledger.Ledger.Execute` | blocks/evaluate.go:82-97 | an execution takes effect as a whole or not at all, and never changes the total |
| `Ledger.Ledger.SettleOrder` | blocks/evaluate.go:541-559 | accepted exactly when trader and DEX can pay; what the trader gains the DEX account loses |
| `Ledger.Ledger.EvaluateContracts` | blocks/processBlock.go:711-763 | contract steps conserve native coins, and only a DEX order can fail |
| `Ledger.Ledger.CheckTransfers` | blocks/processBlock.go:336-589 | passes exactly when the supply follows, every staking transaction stands beside those of the same sender before it, and every sender can pay for all its transactions up to each one |
| `Ledger.Ledger.ApplyTransactions` | blocks/processBlock.go:607-636 | the transactions of a block all go through exactly when each is accepted, and its approval too, in the state the ones before have left |
| `Ledger.Ledger.ProcessBlockTransfers` | blocks/processBlock.go:591-700 | succeeds exactly when all transactions go through and the reward can be paid then; coins grow by the reward and shrink by the fees charged |
| `Ledger.Ledger.CountCoins` | blocks/blockAccountState.go:38-62 | the supply loops count every coin once |
| `Ledger.Ledger.ApplyBlock` | blocks/processBlock.go:894-989 | a block that is not admitted is rejected; the supply check stops exactly the blocks on unbalanced books; on balanced books a block of the operator is applied exactly when each step is allowed in its turn and the reward can be paid; an applied block declares the right supply and fees and is stored |
| `Ledger.Ledger.Admit` | blocks/processBlock.go:894-955 | for the operator of the account the checks pass exactly when the block is authentic, the stake suffices, the supply follows and every transaction can be paid |
| `Ledger.Ledger.StoreApplied` | blocks/processBlock.go:1011-1047 | every transaction of an applied block is on disk under its hash, the last of equal hashes |
| `Ledger.Ledger.TryBlock` | services/nonceService/onmessage.go:325-331 | a block that does not apply leaves accounts, stake, pools and stored transactions as they were |
| `Ledger.Ledger.ApplyChain` | blocks/processBlock.go:956-989 | after every sequence of blocks: balances non-negative, supply within the maximum, operators staked if they were at first, and balances + stake + rewards + fees equal the supply up to the uncharged fees of the last block |
| `Ledger.SelectionsAgree` | account/stakeAccount.go:526-563 | where operators have stake, both selection loops name the same operator whenever there is one |
| `Ledger.FeesSplit` | blocks/processTransaction.go:497-507 | booked fees are charged plus uncharged fees |
| `Ledger.UnchargedNone` | blocks/processTransaction.go:497-507 | nothing is uncharged exactly when no fee-paying transaction is of the kind that moves nothing |
| `LedgerEffects.Transfer` | blocks/processTransaction.go:531-577 | a transfer on a ledger goes through exactly when the sender can pay and may set the policy; an ordinary account's amount moves unless there is call data, a held one's only with an approval; every other balance and the staking book stay; what is held enters the right pool if there is room |
| `LedgerEffects.TransferMoves` | blocks/processTransaction.go:537-569 | a transfer of an ordinary account without call data moves the amount and takes the fee |
| `LedgerEffects.TransferHeld` | blocks/evaluate.go:44-72 | a contract call, and a transfer that is held, takes the fee only |
| `LedgerEffects.TransferLeavesBook` | blocks/processTransaction.go:531-577 | no stake and no reward changes by a transfer |
| `LedgerEffects.TransferAccepted` | blocks/processTransaction.go:531-577 | a transfer is accepted exactly when the balance covers fee and amount and the policy is allowed |
| `LedgerEffects.PolicySet` | blocks/processTransaction.go:367-409 | a policy is allowed exactly once, one at a time, from the account to itself, within 60480 blocks or the number of signers; what it then sets |
| `LedgerEffects.StakeMoves` | blocks/processTransaction.go:452-496 | a stake, a locked stake or an unstaking moves the amount between the balance of the sender and the stake of the owner; no other balance, stake or reward changes |
| `LedgerEffects.StakeAccepted` | blocks/processTransaction.go:452-496 | when it is accepted: balance, 36 blocks of waiting, bounds and locks |
| `LedgerEffects.WithdrawalMoves` | blocks/processTransaction.go:497-524 | a withdrawal moves from rewards to balance; a positive amount moves nothing |
| `LedgerEffects.WithdrawalAccepted` | blocks/processTransaction.go:497-524 | when it is accepted: an entry, rewards and balance that cover it |
| `LedgerEffects.OthersPayTheFee` | blocks/processTransaction.go:411-442 | recovery transactions, cancellations and DEX orders take the fee and nothing else |
| `LedgerEffects.CancellationAccepted` | blocks/processTransaction.go:38-66 | a cancellation is accepted exactly if it carries nothing else, from an escrow account, for a transfer of its own that waits and is not due |
| `LedgerEffects.RecoveryAccepted` | blocks/recovery.go:19-110 | a recovery transaction is accepted exactly if it applies, or will be held, and the fee can be paid |
| `LedgerEffects.EscrowWaits` | blocks/processTransaction.go:728-832 | what an escrow account sends and the pool takes, a later block settles only when the delay is over, once, and does then unless something stops the loop |
| `LedgerEffects.DueAfterDelay` | blocks/processTransaction.go:728-832 | a transfer of an escrow account is served and matured exactly when the delay has passed |
| `LedgerEffects.GroupMeans` | blocks/processTransaction.go:591-645 | the group of a transaction: itself and what approves it |
| `LedgerEffects.ApproversMean` | blocks/processTransaction.go:86-123 | a signer approves as often as it has entries in the group that move nothing to the same recipient |
| `LedgerEffects.BannedAfterFifty` | transactionsPool/poolTx.go:358-371 | a hash is refused exactly once it was banned more than fifty times; the count stops at a hundred |
| `LedgerEffects.SpentAddsUp` | blocks/processBlock.go:336-589 | what a sender spends in a block is the sum of amounts and fees of its transactions |
| `LedgerEffects.TabMeans` | blocks/processBlock.go:336-589 | the running sums of a sender start with its stake and rewards |
| `LedgerEffects.StakeChecked` | blocks/processTransaction.go:246-365 | what the block check asks of a transaction about stake, exactly |
| `LedgerEffects.WithdrawalChecked` | blocks/processTransaction.go:246-365 | and of a withdrawal |
| `LedgerEffects.ApprovalCarriesNothing` | blocks/processBlock.go:336-589 | an approval with amount, data, lock or policy is refused |
| `LedgerEffects.CheckedInBlock` | blocks/processBlock.go:336-589 | a transaction of a checked block passed its own checks, and its sender can pay for it and everything before it |
| `LedgerCases.FeeNeverTaken` | blocks/processTransaction.go:497-507 | on balanced books a block with such a transaction is applied, books its fee and takes no coin; no block whatever is applied after it |
| `LedgerCases.ApproveAgain` | blocks/processBlock.go:622-636 | in any state in which the transaction has left the pool: the exact condition under which a further approval settles it |
| `LedgerCases.SameReadiness` | blocks/processTransaction.go:86-123 | where an entry stands in the pool makes no difference to the approvals |
| `LedgerCases.ApproveTwice` | blocks/processTransaction.go:591-726 | an approval that settles, the inclusion of another, and its settlement: the exact condition from the state before |
| `LedgerCases.SettledTwice` | blocks/processTransaction.go:591-726 | a run in which one transfer is paid twice |
| `Ledger.NoOverflow` | blocks/processBlock.go:956-989 | with balanced books no balance, stake or reward exceeds the supply |
| `Ledger.CreateGenesis` | genesis/genesis.go:171-290 | configured stakes and the founder's rest add up to the initial supply |
| `Ledger.StartChain` | genesis/genesis.go:491-496 | the genesis block leaves balanced books, and operators with stake if the configuration gives them some |
| `KeyCache.Cache.Install` | pubkeys/pubKeyHelper.go:165-201 | a record of an older generation is not installed; the eviction loop ends within both bounds and the byte counter is exact |
| `KeyCache.Cache.Invalidate` | pubkeys/pubKeyHelper.go:64-72 | drops the entry, advances the generation, keeps the byte counter exact |
| `KeyCache.System.Begin` | pubkeys/pubKeyHelper.go:143-151 | a miss remembers the generation under the lock |
| `KeyCache.System.Fetch` | pubkeys/pubKeyHelper.go:153-163 | the database read happens between the locks |
| `KeyCache.System.Finish` | pubkeys/pubKeyHelper.go:165-201 | installs exactly if nothing was invalidated since |
| `KeyCache.System.Write` | blocks/processPubKey.go:72-94 | a write makes its key pending until invalidated |
| `KeyCache.System.Invalidate` | blocks/processPubKey.go:408-411 | the invariant survives the drop of the entry |
| `KeyCache.System.Run` | pubkeys/pubKeyHelper.go:143-201 | after every interleaving a cached key differs from the database only while a writer of it has not yet invalidated |
| `Commitments.Account.PromoteMatured` | account/recovery.go:44-61 | what matured becomes active, with no effect at that height |
| `Commitments.Account.SetCommitments` | account/recovery.go:63-72 | first commitments at once, later ones pending; fields keep tracking the history |
| `Commitments.Account.ConsumeRecoveryCommit` | account/recovery.go:74-80 | a reveal replaces the recovery commitment and leaves the spare |
| `Commitments.Account.VoidPending` | account/recovery.go:106-126 | a break keeps what is in force and drops what is pending |
| `Commitments.RegisterTracks` | account/recovery.go:63-72 | a registration keeps the fields equal to what the history demands at every later height |
| `Commitments.RevealTracks` | account/recovery.go:74-80 | so does a reveal |
| `Commitments.BreakTracks` | account/recovery.go:110-126 | so does a break |
| `Commitments.OnlyByOpeningOrReveal` | account/recovery.go:63-80 | no event changes what is in force at its own height except the first setting and a reveal |
| `Commitments.OnlyByMaturing` | account/recovery.go:13-35 | between events the spare changes only to a registration left alone for 60480 blocks |
| `Commitments.RecoveryOnlyByMaturing` | account/recovery.go:13-35 | the same for the recovery commitment |
| `Commitments.BrokenBeforeMaturing` | blocks/recovery.go:120-159 | a change pending when a scheme is marked broken never takes effect, whatever follows: the account goes on as if a break had come in its place |
| `Commitments.VoidedStillCancels` | blocks/recovery.go:120-159 | a voided change that keeps an earlier one from taking effect |
| `Commitments.VoidedWithoutTrace` | blocks/recovery.go:120-159 | a voided change makes no difference, now or after any further events, exactly when no earlier change would have matured between it and the break |
| `Commitments.AlikeForever` | account/recovery.go:13-80 | histories that demand the same at every height do so after any further events |
| `Commitments.UnmaturedSpare` | account/recovery.go:13-35 | reveals in between do not make a change mature earlier |
| `Commitments.SpareNeverZeroAgain` | account/recovery.go:63-80 | a spare commitment in force is never without successor |
| `Commitments.SetAndRevealed` | account/recovery.go:63-80 | spare and recovery commitment are set side by side; a reveal replaces only the latter |
| `Recovery.State.AddBind` | account/recovery.go:152-163 | the first bind per identity and tag is kept |
| `Recovery.State.PruneBinds` | account/recovery.go:179-190 | exactly the expired binds go |
| `Recovery.State.ApplyOp` | blocks/recovery.go:22-110 | succeeds exactly when the account still allows it in the state the block has built; exact new accounts and binds; a held registration changes nothing until it settles |
| `Recovery.State.ApplyBlock` | blocks/recovery.go:22-159 | every reveal of an applied block was signed with a key nobody had, by a secret that opens the commitment in force in the parent, or by the old key of an address without keys and commitments, and was bound 360 to 120960 blocks before; the keys afterwards are the old and the revealed ones; the account says what the last reveal says; unused binds stay; a failed block leaves no trace |
| `Recovery.State.VerifyAll` | transactionsDefinition/recovery.go:124-216 | passes exactly when every reveal of the block is accepted against the parent state |
| `Recovery.State.AcceptedMeans` | transactionsDefinition/recovery.go:124-255 | a reveal is accepted exactly if it is signed, its key is new, its secret or old key entitles it, and a matching bind has the right age |
| `Recovery.RevealFollowsHistory` | blocks/recovery.go:22-110 | what a reveal leaves in the account is what the history of the account demands from then on |
| `Recovery.VoidingFollowsHistory` | blocks/recovery.go:120-159 | and so is what a break leaves |
| `Recovery.State.Run` | blocks/recovery.go:22-159 | a bind survives every run of blocks until it expires or is opened, also when the same secret is revealed with another key |
| `Recovery.State.FirstBindDecides` | transactionsDefinition/recovery.go:124-216 | after a first bind and any run that does not open it, a reveal of that secret is accepted only signed and with the key and commitments the bind named, 360 to 120960 blocks later, and an address reveal only by the key of that address |
| `Nonces.VotesComeBack` | blocks/encryptionVote.go:30-44 | price and both votes written into a nonce are read back |
| `Nonces.ExtractMeans` | blocks/oracleProofs.go:36-56 | a submission is read exactly from a nonce without amount to a delegated account with room for the oracle values; the price stands at offset 40 |
| `Schemes.RenamingASlot` | blocks/encryptionVote.go:109-147 | only the paused slot can be renamed, to a scheme of neither slot, and starts paused |
| `Schemes.StaysDistinct` | blocks/encryptionVote.go:109-147 | a block keeps the two schemes apart even when it changes both slots |
| `Schemes.LivePrimaryIsOld` | blocks/processEncryption.go:92-111 | a live primary carries its parent's name |
| `Schemes.LiveSchemeIsKnown` | blocks/encryptionVote.go:90-147 | when the live scheme is one of the parent's two, exactly |
| `Schemes.NewSchemeGoesLive` | blocks/processBlock.go:221-292 | a block of the excepted kind passes the rules for both slots exactly when its operator has a key of the parent's spare |
| `Schemes.UnpausedByHolder` | blocks/processBlock.go:255-276 | the operator of a block that makes the primary live had a key of it by the parent |
| `Schemes.PausedByHolder` | blocks/processBlock.go:255-292 | the operator of a block that pauses the primary has a key of the parent's spare |
| `Schemes.NextKeyIsHeld` | blocks/processBlock.go:255-292 | that is sure to be a key of the scheme that signs next exactly when the key lengths are equal |
| `Schemes.NextKeyUnlessRenamed` | blocks/processBlock.go:255-292 | and so always, unless the block renames the spare as well |
| `Schemes.KeyRules` | blocks/processBlock.go:221-292 | for either slot: switching on asks the operator for a key of it by the parent, switching off for a key of the other slot |
| `Schemes.ChainKeepsTwoSchemes` | blocks/encryptionVote.go:90-147 | the above for every header of every accepted chain |
| `Tally.EligibleTotal` | account/accountsStakingStates.go:271-282 | the loop adds up exactly the stake of the eligible accounts |
| `Tally.AuthorizeSigners` | blocks/oracleProofs.go:247-279 | passes exactly when every proof names an eligible account and comes from its operator |
| `Tally.KeepSigned` | blocks/oracleProofs.go:289-312 | a producer keeps exactly the proofs that pass |
| `Tally.OneVoteEach` | blocks/encryptionVote.go:47-76 | an account votes for one config per slot and block |
| `Tally.TallyVotes` | blocks/encryptionVote.go:47-76 | the tally is the stake of the accounts whose first proof votes for the config |
| `Tally.VotesWithinTotal` | blocks/encryptionVote.go:47-76 | the tally of authorised proofs never exceeds the eligible total |
| `Tally.NoTwoMajorities` | blocks/encryptionVote.go:80-88 | two configs cannot both reach two thirds for one slot |
| `Tally.ChangeIsBacked` | blocks/encryptionVote.go:78-88 | every justified change has a third of the eligible stake behind it, and two thirds unless it is a pause |
| `Tally.PauseNeedsAThird` | blocks/encryptionVote.go:78-88 | a pause with a third behind it is justified |
| `Tally.OthersNeedTwoThirds` | blocks/encryptionVote.go:149-224 | any other change with two thirds behind it is, an un-pause if two thirds hold its key |
| `Tally.OneChangeEach` | blocks/encryptionVote.go:149-224 | the same proofs never justify two different changes of one slot, unless both are pauses |
| `Tally.LiveIsPaused` | blocks/encryptionVote.go:109-147 | a change of a live slot is a pause, and no other is |
| `Tally.VotesAreRead` | blocks/encryptionVote.go:30-44 | the first vote of a nonce counts for the primary slot, the second for the other |
| `Tally.VotersMean` | blocks/encryptionVote.go:47-76 | an account votes for a config exactly if the first proof that names it does |
| `Tally.StakeAndOperator` | blocks/encryptionVote.go:228-236 | stake and operator of an eligible account, nothing for another |
| `Tally.StakeWithKeys` | blocks/encryptionVote.go:195-224 | the loop adds up exactly the stake whose operators hold a key |
| `Tally.VerifySlot` | blocks/encryptionVote.go:149-224 | a slot passes exactly when unchanged or backed by its quorum (`ChangeIsBacked`, `PauseNeedsAThird` and `OthersNeedTwoThirds` say by how much stake) |
| `Tally.VerifyVotes` | blocks/encryptionVote.go:255-278 | a block passes exactly when its proofs are signed and both slots are justified |
| `Tally.UnpauseIsBacked` | blocks/encryptionVote.go:195-224 | every accepted un-pause has a third of the eligible stake both voting for it and holding its key |
| `Tally.NobodyNeedsTheKey` | blocks/encryptionVote.go:149-224 | for a block that pauses and renames, the votes do not depend on who holds which key |
| `Registry.LoadAddressesAsOf` | pubkeys/registryHeight.go:80-95 | the filter loop returns the list without younger keys, or nothing |
| `Registry.NewestKeyAsOf` | pubkeys/registryHeight.go:123-142 | the newest key of the wanted kind and length, or nothing if there is none |
| `Registry.LoadPubKeyAsOf` | pubkeys/registryHeight.go:97-105 | the reader by address sees exactly the records the registry held after that block |
| `Registry.ReaderSeesThatBlock` | pubkeys/registryHeight.go:80-95 | a reader as of a block sees the list the registry held after it |
| `Registry.LaterIsUnseen` | pubkeys/registryHeight.go:47-95 | a later registration is unseen unless it takes over a key another identity had by then |
| `Registry.TakenOver` | blocks/processPubKey.go:290-308 | the key that changes hands disappears from the past of its first identity |
| `Registry.RunIsUnseen` | pubkeys/registryHeight.go:47-95 | however many blocks register, are refused or are rewound, lists, heights and journal as of a block stay the same |
| `Registry.RewindIsUnseen` | blocks/processPubKey.go:371-402 | a rewind is unseen as of any block it does not undo |
| `Registry.RewindRestores` | blocks/processPubKey.go:371-402 | going back to a block after any such run gives the lists, heights and journal that block left; a key that was not refused has its old record if untried, its owner's if listed, and none otherwise |
| `Registry.SeenAsOf` | pubkeys/registryHeight.go:97-105 | exactly which keys the reader by address sees as of a block after any run |
| `Registry.RefusedLooksOld` | blocks/processPubKey.go:97-199 | a refused key that counts as registered in block 0 |
| `Registry.RegisteredSound` | blocks/processPubKey.go:290-308 | records, lists, heights and journal stay consistent; a duplicate changes nothing |
| `Registry.RefusedSound` | blocks/processPubKey.go:97-199 | a refusal leaves one record and breaks nothing |
| `Registry.CapKept` | blocks/processPubKey.go:97-199 | no run gives an identity more than 32 keys |
| `Registry.TakenExactly` | blocks/processPubKey.go:97-199 | a key is listed afterwards exactly if it was before, or it is valid and the list is not full; then it comes last, with its height and record |
| `Registry.KeyStore.Register` | blocks/processPubKey.go:97-199 | succeeds exactly for a valid length and a list that is not full; exact new state, also on refusal |
| `Registry.KeyStore.Unregister` | blocks/processPubKey.go:408-440 | one key leaves record, height and list; an empty list goes |
| `Registry.KeyStore.UnregisterAtHeight` | blocks/processPubKey.go:333-359 | takes out exactly the keys of that height, in any order |
| `Registry.KeyStore.UnregisterAbove` | blocks/processPubKey.go:371-404 | both rewind paths give the registry as of the target, the short one exactly when nothing lies above top |
| `Randao.NoChoice` | blocks/randao.go:102-154 | two blocks of one producer on one chain carry the same reveal, mix and RAND |
| `Randao.MayFollowMeans` | blocks/randao.go:65-154 | which blocks may follow a chain, in plain fields: mix, number, a new commitment, and the seed of a commitment at most 8640 blocks old |
| `Randao.LastCommitIs` | blocks/randao.go:158-170 | the commitment that counts is that of the latest block of the producer |
| `Randao.MixIsFold` | blocks/randao.go:65-84 | along every chain the mix is the fold of the reveals from the genesis hash |
| `Randao.HonestProducerPasses` | blocks/randao.go:86-97 | who reveals the seed it committed to, or nothing when none is due, passes the checks |
| `Randao.Perform` | account/stakeAccount.go:123-348 | no staking operation disturbs a recorded commitment |
| `Randao.Node.ParentMix` | blocks/randao.go:67-72 | the stored parent mix is the fold of the whole chain |
| `Randao.Node.Append` | blocks/randao.go:130-170 | a block is accepted exactly when the chain before it allows; the entries keep holding the last commitments |
| `Randao.Node.Run` | blocks/randao.go:65-170 | the above over every sequence of offered blocks |
| `Oracle.ParseSound` | oracles/oraclesDefinition.go:139-175 | accepted price data is the encoding of entries with ascending ids and positive prices |
| `Oracle.ParseComplete` | oracles/oraclesDefinition.go:139-175 | every such encoding is accepted and read back |
| `Oracle.ParsePriceData` | oracles/oraclesDefinition.go:139-175 | the loop returns the map, the prices in order and the represented stake |
| `Oracle.EntryLayout` | oracles/oraclesDefinition.go:139-175 | an entry is one byte of id, then height and price in eight bytes each, the lowest first |
| `Oracle.PricesAt` | oracles/oraclesDefinition.go:139-175 | the listed prices are those of the entries, in order |
| `Oracle.BackingIs` | oracles/oraclesDefinition.go:139-175 | the represented stake is that of the accounts, each counted once |
| `Oracle.ListedMembers` | blocks/oracleProofs.go:94-110 | exactly the submissions with a price are listed |
| `Oracle.EncodeOracleData` | blocks/oracleProofs.go:94-110 | the canonical data of a set of submissions |
| `Oracle.DataComesBack` | blocks/oracleProofs.go:94-110 | price data parses back to the submissions it was made from |
| `Oracle.OracleDataFromProofs` | blocks/oracleProofs.go:114-131 | data is produced exactly from readable proofs of different accounts |
| `Oracle.SubmissionsMean` | blocks/oracleProofs.go:114-131 | proofs give submissions exactly when all can be read and no account comes twice; each submission is that of its proof |
| `Oracle.Matches` | blocks/oracleProofs.go:143-158 | every entry is backed by an identical submission |
| `Oracle.Authenticate` | blocks/oracleProofs.go:58-87 | accepts exactly readable proofs of different accounts, at most six blocks old and none from the future, with the data that follows from them |
| `Oracle.ProducedDataAuthenticates` | blocks/oracleProofs.go:58-131 | the producer's data authenticates and parses back to the submissions |
| `Oracle.TrimmingKeepsMedian` | oracles/oraclesDefinition.go:194-197 | dropping minimum and maximum does not move the median |
| `Oracle.PriceIsInside` | oracles/oraclesDefinition.go:178-240 | with more than two prices and fewer than half outside an interval the price is inside |
| `Oracle.MedianRepresents` | oracles/oraclesDefinition.go:178-240 | the trimmed median of entries lies in every interval with more than half of their prices; of one entry it is the price |
| `Oracle.MedianOfEven` | oracles/oraclesDefinition.go:231-240 | of an even number of prices it is the mean of the two in the middle, rounded down |
| `Oracle.TwoPrices` | oracles/oraclesDefinition.go:231-240 | when the price of two submissions depends on their order |
| `Oracle.PriceFromData` | oracles/oraclesDefinition.go:246-262 | a price exactly once more than two thirds of the stake stand behind the readable data; it lies in every interval with more than half of the submitted prices, and is the price of a single one |
| `Oracle.VerifyPriceOracle` | oracles/oraclesDefinition.go:185-209 | accepts exactly the producer's price, or the parent's when none is established; an accepted price lies in every interval that holds more than half of the submitted prices |
| `Frames.DrainSplit` | tcpip/peerHandle.go:295-338 | input that comes later continues where the buffer was left |
| `Frames.FeedTwice` | tcpip/peerHandle.go:295-338 | two chunks are as good as their concatenation |
| `Frames.CutAnywhere` | tcpip/peerHandle.go:295-338 | however a stream is cut, payloads, verdict and final state are those of one push |
| `Frames.FramesComeBack` | tcpip/peerHandle.go:268-281 | bodies within the cap come back exactly and in order |
| `Wire.BigEndianOrder` | tcpip/peerHandle.go:268-281 | the frame length goes out with its highest byte first |
| `Wire.LittleEndianAt` | common/types.go:531-547 | an integer is stored with its lowest byte first |
| `Frames.LostFrame` | tcpip/peerHandle.go:295-338 | empty and over-long bodies are lost and reported |
| `Frames.FrameAssembler.Push` | tcpip/peerHandle.go:295-338 | the in-place loop does what the specification does; the buffer stays under header plus cap and is empty while skipping |
| `EncryptedConn.RecordLength` | tcpip/encryptedconn.go:59-83 | every record written passes the reader's length check and opens |
| `EncryptedConn.Writer.Write` | tcpip/encryptedconn.go:59-83 | the sealed chunks are what was written, in order, one counter each; what went out is a prefix of the records up to the first failure |
| `EncryptedConn.Reader.ReadMore` | tcpip/encryptedconn.go:122-137 | what arrived is kept whatever error comes with it |
| `EncryptedConn.Reader.Read` | tcpip/encryptedconn.go:85-118 | for any wire and every schedule of short reads and timeouts: unless the cipher is forged, what was read is a prefix of what was written exactly as long as nothing opened after a record that did not, and an opening record keeps that exactly if none failed before; a record that is ahead is tried under the next counter; a wire with what was sent never fails |
| `EncryptedConn.UnbrokenMeans` | tcpip/encryptedconn.go:85-118 | nothing opened after a record that did not exactly when the opened records are the first ones |
| `EncryptedConn.PrefixExactly` | tcpip/encryptedconn.go:85-118 | what the opened records carry is a prefix of what was written exactly then, if no record begins like the one read in its place |
| `EncryptedConn.PrefixForAllContents` | tcpip/encryptedconn.go:85-118 | and exactly then it is one whatever was written |
| `EncryptedConn.OpensItsOwn` | tcpip/encryptedconn.go:53-57 | before the counters wrap, the only genuine record under a counter is the one written under it |
| `EncryptedConn.SkipsARecord` | tcpip/encryptedconn.go:85-118 | after a record that does not open the next one is delivered, and the bytes are no prefix of those written |
| `EncryptedConn.AllArrives` | tcpip/encryptedconn.go:85-118 | once everything has arrived nothing is missing |
| `Handles.Allocator.OldestHandle` | tcpip/peerHandle.go:143-152 | the least recently used of a set |
| `Handles.Allocator.FreeHandle` | tcpip/peerHandle.go:122-141 | the cyclic search finds a free handle exactly when there is one |
| `Handles.Allocator.SetHandleIP` | tcpip/peerHandle.go:107-120 | the per-address sets stay the inverse of the handle-to-address map |
| `Handles.Allocator.Evict` | tcpip/peerHandle.go:154-172 | a handle and its node leave all five maps |
| `Handles.Allocator.HandleForPeer` | tcpip/peerHandle.go:76-105 | a known node keeps its handle; a new one gets a free handle and at most the least recently used node loses its own; the address ends with at most max(32, its previous count) handles |

## Left out

- EVM execution, state database, liboqs, Blake2b, AEAD and KEM internals: an execution is the list of balance changes it makes, hashes and the AEAD are functions with the stated assumptions, signatures are verdicts.
- DEX pricing and liquidity shares: floating-point arithmetic; only the coin move between trader and DEX account is modelled.
- RocksDB, files, logging, price feeds, listeners, wallet and user interface: the database is a map, failing writes are not modelled (the registry journal and height writes succeed).
- RLP codecs for Go structs, references, big integers and the type cache, `encReader` and `writeTo`: they would add cases to the same splice and stream arguments.
- RLP values whose encoding exceeds the largest Go slice: they cannot exist in the program.
- Signature, age, gas, deployment and cancellation checks of single transactions, authenticity of blocks, and which accounts have both operator keys: given with the block (`verdicts`, `authentic`, `operatorKeys`).
- Gas accounting, the entries of transaction histories and the marks of voided transactions: they move no coins (that a history creates its account is modelled).
- Order inside the escrow and multisig pools: a transaction enters at any place; the key of a multisig group is its whole hash, not the first eight bytes.
- Bans that rejected blocks leave behind, and the further count of a hash that is banned already: only cancellations and settlements that cannot be paid write the ban lists here.
- int64 overflow of balances, stakes, rewards and vote weights: `Ledger.NoOverflow` shows that balanced books stay far below it, so these are unbounded integers; the sum over the locks can overflow and is 64 bits wide.
- Generation counter of the key cache: unbounded, the program's is 64 bits wide.
- State root, snapshots on disk and their retention, Ethereum fork tables: no property of the above depends on them.
- Rewinds to an older snapshot when the parent's is missing: a block that fails restores the state of its parent.
- Choice between competing blocks, sync and peer scoring: not part of this model.
- Merkle trees over address lists: a list stands for its tree.
- Ledger.Ledger.ApplyBlock: acceptance is exact for blocks without DEX orders; that an order is accepted is said by `Ledger.Ledger.SettleOrder` for each one alone.
- EncryptedConn.Reader.Read: that no forged record opens is an assumption (`genuine`), and so is that fewer than 2^64 records are sent.
- Schemes.CheckShape: the bytes of a config are read by a given function that rejects invalid ones.
- Tally.KeyTest: whether an operator holds a key is a given predicate; `Registry.NewestKeyAsOf` models the reader behind it.
