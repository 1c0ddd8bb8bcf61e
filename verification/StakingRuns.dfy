/** Whole runs of staking operations on one book. */
module StakingRuns {
  import Basics
  import opened Sums
  import opened Staking

  /** Heights never go back. */
  predicate Chronological(ops: seq<Op>, from: int) {
    ops == [] || (from <= ops[0].height && Chronological(ops[1..], ops[0].height))
  }

  function LastHeight(ops: seq<Op>, from: int): int {
    if ops == [] then from else LastHeight(ops[1..], ops[0].height)
  }

  function Deposits(ops: seq<Op>): int {
    if ops == [] then 0 else Deposit(ops[0]) + Deposits(ops[1..])
  }

  ghost predicate AllBooked(entries: map<Key, Entry>) {
    forall k :: k in entries ==> Booked(entries[k])
  }

  ghost predicate AllCovered(entries: map<Key, Entry>, height: int) {
    forall k :: k in entries ==> Covered(entries[k], height)
  }

  /** An unstaking finds locks whose int64 sum guards them. */
  predicate GuardedAt(entries: map<Key, Entry>, op: Op) {
    op.UnstakeOp? ==>
      var locks := EntryAt(entries, (op.n, op.a)).locks;
      locks.Aligned() && Guarded(locks, op.height)
  }

  /** An operation changes one entry, and its stake by what it says, or nothing at all. */
  ghost predicate Step(before: map<Key, Entry>, op: Op, after: map<Key, Entry>) {
    var k := (op.n, op.a);
    after == before ||
    (&& k in after && after == before[k := after[k]]
     && after[k].staked == EntryAt(before, k).staked + (if op.StakeOp? || op.UnstakeOp? then op.amount else 0))
  }

  lemma {:induction false} AllCoveredLater(entries: map<Key, Entry>, height: int, later: int)
    requires AllCovered(entries, height) && height <= later
    ensures AllCovered(entries, later)
  {
    hide LockSum;
    forall k | k in entries ensures Covered(entries[k], later) {
      assert Covered(entries[k], height);
      CoveredLater(entries[k], height, later);
    }
  }

  lemma {:induction false} EntryBound(entries: map<Key, Entry>, k: Key)
    requires AllBooked(entries)
    ensures 0 <= EntryAt(entries, k).staked <= StakedTotal(entries)
  {
    hide LoggedAmount, LoggedReward;
    var m := Stakes(entries);
    forall j | j in m ensures m[j] >= 0 { assert Booked(entries[j]); }
    SumNonNegative(m);
    if k in entries { assert m[k] <= Sum(m); }
  }

  /** One operation on one entry. The others keep what they had. */
  lemma {:induction false} OneChanged(before: map<Key, Entry>, after: map<Key, Entry>, k: Key, height: int)
    requires k in after && after == before[k := after[k]]
    ensures AllBooked(before) && Booked(after[k]) ==> AllBooked(after)
    ensures AllCovered(before, height) && Covered(after[k], height) ==> AllCovered(after, height)
  {
    hide Booked, Covered;
  }

  lemma {:induction false} StartingEntry(entries: map<Key, Entry>, k: Key, height: int)
    ensures AllBooked(entries) ==> Booked(EntryAt(entries, k))
    ensures AllCovered(entries, height) ==> Covered(EntryAt(entries, k), height)
  {
    hide Booked, Covered;
    EmptyEntry(height);
  }

  /** Every operation, accepted or not, keeps lists and log right. It also keeps the stake above
      the locks, an unstaking at least as long as the int64 sum guards them. */
  method Apply(book: StakingBook, op: Op) returns (ok: bool)
    requires AllBooked(book.entries)
    modifies book
    ensures AllBooked(book.entries) && Step(old(book.entries), op, book.entries)
    ensures StakedTotal(book.entries) <= old(StakedTotal(book.entries)) + Deposit(op)
    ensures old(AllCovered(book.entries, op.height) && GuardedAt(book.entries, op)
                && StakedTotal(book.entries) + Deposit(op) <= MAX_AMOUNT)
            ==> AllCovered(book.entries, op.height)
  {
    hide LockSum, StakedTotal, RewardsTotal, Booked, Covered, SameLater, Guarded, TestPasses, AllBooked, AllCovered;
    ghost var key, before := (op.n, op.a), book.entries;
    StartingEntry(before, key, op.height);
    EntryBound(before, key);
    assert book.Get(op.n, op.a).locks.Aligned() by { BookedIsAligned(book.Get(op.n, op.a)); }
    ok := book.Perform(op);
    if ok {
      TotalsUpdate(before, key, book.entries[key]);
      OneChanged(before, book.entries, key, op.height);
    }
  }

  lemma BookedIsAligned(e: Entry)
    requires Booked(e)
    ensures e.locks.Aligned()
  {
  }

  lemma ScheduleStep(ops: seq<Op>, i: nat, from: int)
    requires i < |ops|
    ensures Deposits(ops[i..]) == Deposit(ops[i]) + Deposits(ops[i + 1..])
    ensures LastHeight(ops[i..], from) == LastHeight(ops[i + 1..], ops[i].height)
    ensures Chronological(ops[i..], from) ==> from <= ops[i].height && Chronological(ops[i + 1..], ops[i].height)
  {
    assert ops[i..][1..] == ops[i + 1..];
  }

  lemma {:induction false} DepositsNonNegative(ops: seq<Op>)
    ensures Deposits(ops) >= 0
  {
    if ops != [] { DepositsNonNegative(ops[1..]); }
  }

  /** After every run, whatever was accepted, lists are aligned and the log adds up to stake and
      rewards. `trace` holds the states in between: if heights never go back and the int64 sum
      guarded the locks at every unstaking, the stake covers the locks at every later height. */
  method Run(book: StakingBook, ops: seq<Op>, ghost from: int) returns (ghost trace: seq<map<Key, Entry>>)
    requires AllBooked(book.entries)
    modifies book
    ensures AllBooked(book.entries)
    ensures |trace| == |ops| + 1 && trace[0] == old(book.entries) && trace[|ops|] == book.entries
    ensures forall i :: 0 <= i < |ops| ==> Step(trace[i], ops[i], trace[i + 1])
    ensures && Chronological(ops, from) && AllCovered(trace[0], from) && StakedTotal(trace[0]) + Deposits(ops) <= MAX_AMOUNT
            && (forall i :: 0 <= i < |ops| ==> GuardedAt(trace[i], ops[i]))
            ==> forall later :: LastHeight(ops, from) <= later ==> AllCovered(book.entries, later)
  {
    hide AllBooked, AllCovered, StakedTotal, Step, GuardedAt;
    trace := [book.entries];
    ghost var height := from;
    ghost var right := Chronological(ops, from) && AllCovered(book.entries, from) && StakedTotal(book.entries) + Deposits(ops) <= MAX_AMOUNT;
    assert ops[0..] == ops;
    for i := 0 to |ops|
      invariant |trace| == i + 1 && trace[0] == old(book.entries) && trace[i] == book.entries && AllBooked(book.entries)
      invariant forall j :: 0 <= j < i ==> Step(trace[j], ops[j], trace[j + 1])
      invariant LastHeight(ops[i..], height) == LastHeight(ops, from)
      invariant right && (forall j :: 0 <= j < i ==> GuardedAt(trace[j], ops[j])) ==>
                  && Chronological(ops[i..], height) && AllCovered(book.entries, height)
                  && StakedTotal(book.entries) + Deposits(ops[i..]) <= MAX_AMOUNT
    {
      ScheduleStep(ops, i, height);
      DepositsNonNegative(ops[i + 1..]);
      if AllCovered(book.entries, height) && height <= ops[i].height { AllCoveredLater(book.entries, height, ops[i].height); }
      var _ := Apply(book, ops[i]);
      trace, height := trace + [book.entries], ops[i].height;
    }
    if AllCovered(book.entries, height) {
      forall later | height <= later ensures AllCovered(book.entries, later) {
        AllCoveredLater(book.entries, height, later);
      }
    }
  }

  // ---------------------------------------------------------------- where the guard fails

  const LOST: int := 30_000_000_000_000_000

  const THREE_LOCKS := Locks([100_000_000_000_000_000, 100_000_000_000_000_000, LOST],
                             [100_000_000_000_000_000, 100_000_000_000_000_000, 0], [0, 0, 0])

  /** Two locks that ran out in block 1 have wrapped by block 94 and turn the sum negative; the
      third never releases anything. */
  lemma ThreeLocks(later: int)
    requires later >= 94
    ensures LockSum(THREE_LOCKS, later) == LOST
    ensures Wrap64(LockSum64(THREE_LOCKS, 94)) < 0 && !Guarded(THREE_LOCKS, 94) && TestPasses(THREE_LOCKS, 94, 0)
  {
    hide LockSum, LockSum64, Lock, Lock64;
    var l := THREE_LOCKS;
    SumOfThree(l, later);
    SumOfThree(l, 94);
    Wrapped(l.amount[0], later);
    Wrapped(l.amount[0], 94);
    Fixed(later);
    Fixed(94);
    WrapOnce(LockSum64(l, 94) - Basics.TWO_64);
    WrapShift(LockSum64(l, 94), -1);
    WrapOnce(0 - LockSum64(l, 94));
  }

  lemma SumOfThree(l: Locks, h: int)
    requires l.Aligned() && |l.amount| == 3
    ensures LockSum(l, h) == Lock(l.amount[0], l.release[0], l.init[0], h) + Lock(l.amount[1], l.release[1], l.init[1], h)
                             + Lock(l.amount[2], l.release[2], l.init[2], h)
    ensures LockSum64(l, h) == Lock64(l.amount[0], l.release[0], l.init[0], h) + Lock64(l.amount[1], l.release[1], l.init[1], h)
                               + Lock64(l.amount[2], l.release[2], l.init[2], h)
  {
    hide Lock, Lock64;
    var two := l.Prefix(2);
    var one := two.Prefix(1);
    assert LockSum(one.Prefix(0), h) == 0 && LockSum64(one.Prefix(0), h) == 0;
    assert LockSum(two, h) == LockSum(one, h) + Lock(l.amount[1], l.release[1], l.init[1], h);
    assert LockSum64(two, h) == LockSum64(one, h) + Lock64(l.amount[1], l.release[1], l.init[1], h);
  }

  lemma Wrapped(a: int, later: int)
    requires a == 100_000_000_000_000_000 && later >= 94
    ensures Lock(a, a, 0, later) == 0 && Lock64(a, a, 0, 94) == a - 94 * a + Basics.TWO_64
  {
    ProductOrder(94, later, a);
    WrapInner(a, 94 * a);
    WrapOnce(a - 94 * a);
  }

  lemma Fixed(later: int)
    requires later >= 94
    ensures Lock(LOST, 0, 0, later) == LOST == Lock64(LOST, 0, 0, later)
  {
    WrapOnce(LOST);
    WrapOnce(0);
  }

  /** A run that loses the cover: three locked stakes at height 0, all of it unstaked at height
      94, and what the third lock should hold back is missing for good. */
  method CoverLost() returns (book: StakingBook)
    ensures fresh(book) && var e := book.Get(1, 7);
            e.staked == 0 && e.locks.Aligned() && forall later :: 94 <= later ==> LockSum(e.locks, later) == LOST
  {
    hide LockSum, LockSum64, Wrap64, LoggedAmount, LoggedReward, Guarded;
    book := new StakingBook(map[]);
    var l := THREE_LOCKS;
    for i := 0 to 3
      invariant book.Get(1, 7).locks == l.Prefix(i) && book.Get(1, 7).lastStakeHeight == 0
      invariant book.Get(1, 7).staked == (if i < 3 then i * l.amount[0] else 230_000_000_000_000_000)
      invariant i > 0 ==> (1, 7) in book.entries
    {
      assert l.Prefix(i + 1) == l.Prefix(i).Append(l.amount[i], l.release[i], l.init[i]);
      var _ := book.Stake(1, 7, l.amount[i], 0, 0, false, l.amount[i], l.release[i], true);
    }
    assert l.Prefix(3) == l;
    forall later | 94 <= later ensures LockSum(l, later) == LOST { ThreeLocks(later); }
    ThreeLocks(94);
    var ok := book.Unstake(1, 7, -230_000_000_000_000_000, 94, 0);
    assert ok;
  }
}
