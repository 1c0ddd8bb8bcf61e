/** Staking entries of account/stakeAccount.go: staked balance and rewards, the locks
    that release a fixed amount per block, and the log of staking details. */
module Staking {
  import opened Basics
  import opened Sums

  const MIN_BLOCKS_IN_STAKE := 36
  const DETAILS_RETENTION_BLOCKS := 8640

  /** Above every coin amount that can exist. */
  const MAX_AMOUNT: int := 230_000_000_000_000_000

  /** The twenty bytes of an address as one big-endian number. */
  type Address = nat

  const ZERO_ADDRESS: Address := 0

  /** 256 to the 18th: what follows the first two bytes of an address. */
  const TWO_144: nat := 0x1_000000000000000000000000000000000000

  /** IntDelegatedAccountFromAddress: a number in the first two bytes, zeros behind it. */
  function DelegatedNumber(a: Address): (n: nat)
    ensures n > 0 ==> a == n * TWO_144
  {
    if a % TWO_144 == 0 then a / TWO_144 else 0
  }

  // ---------------------------------------------------------------- locks

  /** The address of delegated account n: eighteen zero bytes follow the number. */
  function DelegatedAddress(n: nat): Address { n * Pow256(18) }

  lemma EighteenBytes()
    ensures TWO_144 == Pow256(18)
  {
    assert Pow256(2) == 256 * Pow256(1) == 0x1_0000;
    assert Pow256(4) == 0x1_0000 * Pow256(2);
    assert Pow256(6) == 0x1_0000 * Pow256(4);
    assert Pow256(8) == 0x1_0000 * Pow256(6);
    assert Pow256(10) == 0x1_0000 * Pow256(8);
    assert Pow256(12) == 0x1_0000 * Pow256(10);
    assert Pow256(14) == 0x1_0000 * Pow256(12);
    assert Pow256(16) == 0x1_0000 * Pow256(14);
    assert Pow256(18) == 0x1_0000 * Pow256(16);
  }

  lemma DelegatedExactly(a: Address, n: nat)
    requires n > 0
    ensures DelegatedNumber(a) == n <==> a == DelegatedAddress(n)
  {
    hide Pow256;
    EighteenBytes();
    if a == n * TWO_144 { assert a / TWO_144 == n && a % TWO_144 == 0; }
  }

  /** Two's complement reduction to 64 bits. */
  function Wrap64(x: int): int {
    (x + TWO_63) % TWO_64 - TWO_63
  }

  /** What is still locked at `height`, computed as the code does, in int64. */
  function Lock64(amount: int, release: int, init: int, height: int): int {
    var lock := Wrap64(amount - Wrap64((height - init) * release));
    if lock <= 0 then 0 else lock
  }

  /** What is still locked at `height` by the terms of the lock. */
  function Lock(amount: int, release: int, init: int, height: int): int {
    var lock := amount - (height - init) * release;
    if lock <= 0 then 0 else lock
  }

  /** The released amount has not run past the lock by more than the int64 range. */
  predicate NoWrap(amount: int, release: int, init: int, height: int) {
    (height - init) * release - amount <= TWO_63
  }

  lemma WrapOnce(x: int)
    ensures -TWO_63 <= x < TWO_63 ==> Wrap64(x) == x
    ensures -TWO_63 - TWO_64 <= x < -TWO_63 ==> Wrap64(x) == x + TWO_64
  {
  }

  lemma WrapInner(a: int, p: int)
    ensures Wrap64(a - Wrap64(p)) == Wrap64(a - p)
  {
    var k := (p + TWO_63) / TWO_64;
    assert Wrap64(p) == p - k * TWO_64;
    WrapShift(a - p, k);
  }

  lemma WrapShift(x: int, k: int)
    ensures Wrap64(x + k * TWO_64) == Wrap64(x)
  {
    var q, r := (x + TWO_63) / TWO_64, (x + TWO_63) % TWO_64;
    assert x + k * TWO_64 + TWO_63 == (q + k) * TWO_64 + r;
    DivModUnique(x + k * TWO_64 + TWO_63, q + k, r);
  }

  lemma DivModUnique(x: int, q: int, r: int)
    requires x == q * TWO_64 + r && 0 <= r < TWO_64
    ensures x % TWO_64 == r
  {
  }

  /** The lock computed in int64 is right at every height up to `height` exactly when the
      release has not outrun the lock by more than 2^63 there. */
  lemma {:induction false} Lock64Exact(amount: int, release: int, init: int, height: int)
    requires 0 <= release <= amount <= MAX_AMOUNT && init <= height
    ensures (forall h :: init <= h <= height ==> Lock64(amount, release, init, h) == Lock(amount, release, init, h))
            <==> NoWrap(amount, release, init, height)
  {
    if NoWrap(amount, release, init, height) {
      forall h | init <= h <= height
        ensures Lock64(amount, release, init, h) == Lock(amount, release, init, h)
      {
        LockExactAt(amount, release, init, h, height);
      }
    } else {
      var h := FirstWrap(amount, release, init, height);
      WrappedLock(amount, release, init, h);
    }
  }

  lemma {:induction false} LockExactAt(amount: int, release: int, init: int, h: int, height: int)
    requires 0 <= release <= amount <= MAX_AMOUNT && init <= h <= height
    requires NoWrap(amount, release, init, height)
    ensures Lock64(amount, release, init, h) == Lock(amount, release, init, h)
  {
    var p := (h - init) * release;
    assert 0 <= p <= (height - init) * release by {
      ProductOrder(h - init, height - init, release);
    }
    WrapInner(amount, p);
    WrapOnce(amount - p);
  }

  lemma ProductOrder(a: int, b: int, c: int)
    requires 0 <= a <= b && 0 <= c
    ensures 0 <= a * c <= b * c
  {
  }

  /** The first height at which the computation leaves the int64 range. */
  lemma {:induction false} FirstWrap(amount: int, release: int, init: int, height: int) returns (h: int)
    requires 0 <= release <= amount <= MAX_AMOUNT && init <= height
    requires !NoWrap(amount, release, init, height)
    ensures init < h <= height && !NoWrap(amount, release, init, h) && NoWrap(amount, release, init, h - 1)
    decreases height - init
  {
    assert height > init;
    if NoWrap(amount, release, init, height - 1) {
      h := height;
    } else {
      h := FirstWrap(amount, release, init, height - 1);
    }
  }

  /** There the code reports a large lock where nothing is locked any more. */
  lemma {:induction false} WrappedLock(amount: int, release: int, init: int, h: int)
    requires 0 <= release <= amount <= MAX_AMOUNT && init < h
    requires !NoWrap(amount, release, init, h) && NoWrap(amount, release, init, h - 1)
    ensures Lock(amount, release, init, h) == 0 < Lock64(amount, release, init, h)
  {
    var p := (h - init) * release;
    assert p == (h - 1 - init) * release + release;
    WrapInner(amount, p);
    WrapOnce(amount - p);
  }

  lemma LockShrinks(amount: int, release: int, init: int, h: int, later: int)
    requires 0 <= release && init <= h <= later
    ensures Lock(amount, release, init, later) <= Lock(amount, release, init, h)
  {
    ProductOrder(h - init, later - init, release);
  }

  /** A lock of 2.3e17 released in one block counts as locked again 42 blocks later. */
  lemma LockComesBack()
    ensures Lock64(MAX_AMOUNT, MAX_AMOUNT, 0, 1) == 0
    ensures Lock64(MAX_AMOUNT, MAX_AMOUNT, 0, 42) > MAX_AMOUNT
  {
    WrapInner(MAX_AMOUNT, 42 * MAX_AMOUNT);
    WrapOnce(MAX_AMOUNT - 42 * MAX_AMOUNT);
  }

  /** The three parallel lists of a staking entry. */
  datatype Locks = Locks(amount: seq<int>, release: seq<int>, init: seq<int>) {
    predicate Aligned() { |amount| == |release| == |init| }

    function Prefix(k: nat): Locks
      requires Aligned() && k <= |amount|
    {
      Locks(amount[..k], release[..k], init[..k])
    }

    function Append(a: int, r: int, i: int): Locks {
      Locks(amount + [a], release + [r], init + [i])
    }

    /** Locks as stake accepts them, made no later than `height`. */
    predicate WellFormed(height: int) {
      && Aligned()
      && forall k :: 0 <= k < |amount| ==> 0 <= release[k] <= amount[k] <= MAX_AMOUNT && init[k] <= height
    }

    predicate NeverWraps(height: int)
      requires Aligned()
    {
      forall k :: 0 <= k < |amount| ==> NoWrap(amount[k], release[k], init[k], height)
    }
  }

  /** What is locked at `height` by the terms of all locks together. */
  function LockSum(l: Locks, height: int): int
    requires l.Aligned()
    decreases |l.amount|
  {
    var n := |l.amount|;
    if n == 0 then 0
    else LockSum(l.Prefix(n - 1), height) + Lock(l.amount[n - 1], l.release[n - 1], l.init[n - 1], height)
  }

  lemma LockSumAppend(l: Locks, a: int, r: int, i: int, height: int)
    requires l.Aligned()
    ensures LockSum(l.Append(a, r, i), height) == LockSum(l, height) + Lock(a, r, i, height)
  {
    var m := l.Append(a, r, i);
    assert m.Prefix(|l.amount|) == l;
  }

  lemma {:induction false} LockSumShrinks(l: Locks, h: int, later: int)
    requires l.WellFormed(h) && h <= later
    ensures 0 <= LockSum(l, later) <= LockSum(l, h)
    decreases |l.amount|
  {
    var n := |l.amount|;
    if n > 0 {
      LockSumShrinks(l.Prefix(n - 1), h, later);
      LockShrinks(l.amount[n - 1], l.release[n - 1], l.init[n - 1], h, later);
    }
  }

  // ---------------------------------------------------------------- the sum in int64

  lemma WrapSum(x: int, y: int)
    ensures Wrap64(Wrap64(x) + y) == Wrap64(x + y)
  {
    var k := (x + TWO_63) / TWO_64;
    assert Wrap64(x) == x - k * TWO_64;
    WrapShift(x + y, -k);
  }

  /** A lock computed in int64 never falls short: as long as something is locked it is exact. */
  lemma {:induction false} Lock64Covers(amount: int, release: int, init: int, h: int)
    requires 0 <= release <= amount <= MAX_AMOUNT && init <= h
    ensures 0 <= Lock(amount, release, init, h) <= Lock64(amount, release, init, h) < TWO_63
    ensures Lock(amount, release, init, h) > 0 ==> Lock64(amount, release, init, h) == Lock(amount, release, init, h)
  {
    var p := (h - init) * release;
    ProductOrder(0, h - init, release);
    WrapInner(amount, p);
    if amount - p > 0 { WrapOnce(amount - p); }
  }

  /** The int64 locks added up without overflow. */
  function LockSum64(l: Locks, height: int): int
    requires l.Aligned()
    decreases |l.amount|
  {
    var n := |l.amount|;
    if n == 0 then 0
    else LockSum64(l.Prefix(n - 1), height) + Lock64(l.amount[n - 1], l.release[n - 1], l.init[n - 1], height)
  }

  /** What locks report that have run out and wrapped around. */
  function Phantom(l: Locks, height: int): int
    requires l.Aligned()
    decreases |l.amount|
  {
    var n := |l.amount|;
    if n == 0 then 0
    else
      var a, r, i := l.amount[n - 1], l.release[n - 1], l.init[n - 1];
      Phantom(l.Prefix(n - 1), height) + (if Lock(a, r, i, height) == 0 then Lock64(a, r, i, height) else 0)
  }

  lemma {:induction false} PhantomIsExcess(l: Locks, height: int)
    requires l.WellFormed(height)
    ensures LockSum64(l, height) == LockSum(l, height) + Phantom(l, height)
    ensures 0 <= LockSum(l, height) && 0 <= Phantom(l, height)
    decreases |l.amount|
  {
    hide Lock, Lock64;
    var n := |l.amount|;
    if n > 0 {
      PhantomIsExcess(l.Prefix(n - 1), height);
      Lock64Covers(l.amount[n - 1], l.release[n - 1], l.init[n - 1], height);
    }
  }

  /** Nothing is reported beside what is locked, as long as no lock has outrun the int64 range. */
  lemma {:induction false} NoPhantom(l: Locks, height: int)
    requires l.WellFormed(height) && l.NeverWraps(height)
    ensures Phantom(l, height) == 0
    decreases |l.amount|
  {
    hide Lock, Lock64, NoWrap;
    var n := |l.amount|;
    if n > 0 {
      NoPhantom(l.Prefix(n - 1), height);
      LockExactAt(l.amount[n - 1], l.release[n - 1], l.init[n - 1], height, height);
    }
  }

  /** The summing loop of GetLockedAmount and Unstake, in int64. */
  method LockedAmount(l: Locks, height: int) returns (locked: int)
    requires l.Aligned()
    ensures locked == Wrap64(LockSum64(l, height))
  {
    hide Wrap64, Lock64;
    locked := 0;
    ZeroFits();
    for k := 0 to |l.amount|
      invariant locked == Wrap64(LockSum64(l.Prefix(k), height))
    {
      var lock := Lock64(l.amount[k], l.release[k], l.init[k], height);
      assert l.Prefix(k + 1).Prefix(k) == l.Prefix(k);
      WrapSum(LockSum64(l.Prefix(k), height), lock);
      locked := Wrap64(locked + lock);
    }
    assert l.Prefix(|l.amount|) == l;
  }

  lemma ZeroFits()
    ensures Wrap64(0) == 0
  {
  }

  /** The int64 sum is what is locked exactly when the wrapped locks report a multiple of 2^64,
      which is nothing at all while no lock has wrapped. */
  lemma {:induction false} SumIsRight(l: Locks, height: int)
    requires l.WellFormed(height) && LockSum(l, height) <= MAX_AMOUNT
    ensures Wrap64(LockSum64(l, height)) == LockSum(l, height) <==> Phantom(l, height) % TWO_64 == 0
    ensures l.NeverWraps(height) ==> Wrap64(LockSum64(l, height)) == LockSum(l, height)
  {
    hide LockSum, LockSum64, Phantom;
    PhantomIsExcess(l, height);
    SameResidue(LockSum(l, height), Phantom(l, height));
    if l.NeverWraps(height) { NoPhantom(l, height); }
  }

  lemma SameResidue(x: int, y: int)
    requires 0 <= x <= MAX_AMOUNT && 0 <= y
    ensures Wrap64(x + y) == x <==> y % TWO_64 == 0
  {
    var k, m := y / TWO_64, y % TWO_64;
    WrapShift(x + m, k);
    assert x + y == x + m + k * TWO_64;
    WrapOnce(x + m);
    WrapOnce(x + m - TWO_64);
    WrapShift(x + m, -1);
  }

  /** The last test of Unstake, when `left` would stay staked. */
  predicate TestPasses(l: Locks, height: int, left: int)
    requires l.Aligned()
  {
    Wrap64(left - LockSum64(l, height)) >= 0
  }

  /** The int64 sum guards the locks: modulo 2^64 it lies between what is locked and 2^63. */
  predicate Guarded(l: Locks, height: int)
    requires l.Aligned()
  {
    LockSum(l, height) == 0 || LockSum(l, height) <= LockSum64(l, height) % TWO_64 <= TWO_63
  }

  lemma {:induction false} TestMeans(s: int, left: int)
    requires 0 <= left <= MAX_AMOUNT
    ensures var w := s % TWO_64;
            Wrap64(left - s) >= 0 <==> w <= left || w > left + TWO_63
  {
    var k, w := s / TWO_64, s % TWO_64;
    assert left - s == left - w + (-k) * TWO_64;
    WrapShift(left - w, -k);
    WrapOnce(left - w);
    WrapShift(left - w, 1);
    WrapOnce(left - w + TWO_64);
  }

  /** The test lets only covered amounts through exactly when the sum is guarded. */
  lemma {:induction false} GuardedExactly(l: Locks, height: int, staked: int)
    requires l.WellFormed(height) && LockSum(l, height) <= staked <= MAX_AMOUNT
    ensures Guarded(l, height) <==>
            forall left :: 0 <= left < staked && TestPasses(l, height, left) ==> LockSum(l, height) <= left
  {
    hide LockSum, LockSum64, Wrap64;
    var locked, s := LockSum(l, height), LockSum64(l, height);
    assert locked >= 0 by { LockSumShrinks(l, height, height); }
    forall left | 0 <= left < staked ensures TestPasses(l, height, left) <==> (s % TWO_64 <= left || s % TWO_64 > left + TWO_63) {
      TestMeans(s, left);
    }
    if locked > 0 && s % TWO_64 > TWO_63 {
      assert TestPasses(l, height, 0);
    } else if locked > 0 && s % TWO_64 < locked {
      assert TestPasses(l, height, s % TWO_64);
    }
  }

  /** A sum up to 2^63 guards, and so do locks none of which has outrun the int64 range. */
  lemma {:induction false} SmallSumGuards(l: Locks, height: int)
    requires l.WellFormed(height) && LockSum(l, height) <= MAX_AMOUNT
    ensures LockSum64(l, height) <= TWO_63 ==> Guarded(l, height)
    ensures l.NeverWraps(height) ==> Guarded(l, height)
  {
    hide LockSum, LockSum64, Phantom;
    PhantomIsExcess(l, height);
    if l.NeverWraps(height) { NoPhantom(l, height); }
  }

  // ---------------------------------------------------------------- dropping locks

  /** From `height` on both sets of locks hold back the same amount. */
  ghost predicate SameLater(a: Locks, b: Locks, height: int) {
    a.Aligned() && b.Aligned() && forall later :: height <= later ==> LockSum(a, later) == LockSum(b, later)
  }

  lemma {:induction false} DropStep(l: Locks, k: nat, before: Locks, kept: Locks, height: int)
    requires l.WellFormed(height) && k < |l.amount| && before.Aligned()
    requires kept == if Lock64(l.amount[k], l.release[k], l.init[k], height) > 0
                     then before.Append(l.amount[k], l.release[k], l.init[k]) else before
    requires SameLater(before, l.Prefix(k), height)
    ensures SameLater(kept, l.Prefix(k + 1), height)
  {
    hide Lock64, Lock;
    var a, r, i := l.amount[k], l.release[k], l.init[k];
    assert l.Prefix(k + 1) == l.Prefix(k).Append(a, r, i);
    forall later | height <= later ensures LockSum(kept, later) == LockSum(l.Prefix(k + 1), later) {
      hide LockSum;
      LockSumAppend(before, a, r, i, later);
      LockSumAppend(l.Prefix(k), a, r, i, later);
      Lock64Covers(a, r, i, height);
      LockShrinks(a, r, i, height, later);
      LockNonNegative(a, r, i, later);
    }
  }

  lemma LockNonNegative(a: int, r: int, i: int, h: int)
    ensures Lock(a, r, i, h) >= 0
  {
  }

  /** Rebuilding the lists without the locks that have run out changes no later total. */
  method DropExpired(l: Locks, height: int) returns (kept: Locks)
    requires l.Aligned()
    ensures kept.Aligned() && |kept.amount| <= |l.amount|
    ensures l.WellFormed(height) ==> kept.WellFormed(height) && SameLater(kept, l, height)
    ensures forall h :: l.NeverWraps(h) ==> kept.NeverWraps(h)
  {
    hide LockSum, Lock64, NoWrap;
    kept := Locks([], [], []);
    assert l.Prefix(0) == kept && SameLater(kept, kept, height);
    hide SameLater;
    for k := 0 to |l.amount|
      invariant kept.Aligned() && |kept.amount| <= k
      invariant l.WellFormed(height) ==> kept.WellFormed(height) && SameLater(kept, l.Prefix(k), height)
      invariant forall h :: l.NeverWraps(h) ==> kept.NeverWraps(h)
    {
      var a, r, i := l.amount[k], l.release[k], l.init[k];
      ghost var before := kept;
      if Lock64(a, r, i, height) > 0 {
        kept := kept.Append(a, r, i);
      }
      if l.WellFormed(height) { DropStep(l, k, before, kept, height); }
    }
    assert l.Prefix(|l.amount|) == l;
  }

  // ---------------------------------------------------------------- the detail log

  datatype Detail = Detail(amount: int, reward: int, lastUpdated: int)

  function AmountSum(ds: seq<Detail>): int {
    if ds == [] then 0 else AmountSum(ds[..|ds| - 1]) + ds[|ds| - 1].amount
  }

  function RewardSum(ds: seq<Detail>): int {
    if ds == [] then 0 else RewardSum(ds[..|ds| - 1]) + ds[|ds| - 1].reward
  }

  ghost function LoggedAmount(d: map<int, seq<Detail>>): int {
    Sum(map h | h in d :: AmountSum(d[h]))
  }

  ghost function LoggedReward(d: map<int, seq<Detail>>): int {
    Sum(map h | h in d :: RewardSum(d[h]))
  }

  lemma {:induction false} LogUpdate(d: map<int, seq<Detail>>, h: int, ds: seq<Detail>)
    ensures LoggedAmount(d[h := ds]) == LoggedAmount(d) + AmountSum(ds) - (if h in d then AmountSum(d[h]) else 0)
    ensures LoggedReward(d[h := ds]) == LoggedReward(d) + RewardSum(ds) - (if h in d then RewardSum(d[h]) else 0)
  {
    hide AmountSum, RewardSum;
    var e := d[h := ds];
    var am, rm := map k | k in d :: AmountSum(d[k]), map k | k in d :: RewardSum(d[k]);
    assert (map k | k in e :: AmountSum(e[k])) == am[h := AmountSum(ds)];
    assert (map k | k in e :: RewardSum(e[k])) == rm[h := RewardSum(ds)];
    SumUpdate(am, h, AmountSum(ds));
    SumUpdate(rm, h, RewardSum(ds));
  }

  lemma {:induction false} LogRemove(d: map<int, seq<Detail>>, h: int)
    requires h in d
    ensures LoggedAmount(d - {h}) == LoggedAmount(d) - AmountSum(d[h])
    ensures LoggedReward(d - {h}) == LoggedReward(d) - RewardSum(d[h])
  {
    hide AmountSum, RewardSum;
    var e := d - {h};
    var am, rm := map k | k in d :: AmountSum(d[k]), map k | k in d :: RewardSum(d[k]);
    assert (map k | k in e :: AmountSum(e[k])) == am - {h};
    assert (map k | k in e :: RewardSum(e[k])) == rm - {h};
    SumRemove(am, h);
    SumRemove(rm, h);
  }

  /** The inner loop of pruning: one height's details added to the aggregate. */
  method Fold(agg: Detail, ds: seq<Detail>) returns (r: Detail)
    ensures r.amount == agg.amount + AmountSum(ds) && r.reward == agg.reward + RewardSum(ds)
    ensures r.lastUpdated >= agg.lastUpdated && forall d :: d in ds ==> r.lastUpdated >= d.lastUpdated
  {
    r := agg;
    for k := 0 to |ds|
      invariant r.amount == agg.amount + AmountSum(ds[..k]) && r.reward == agg.reward + RewardSum(ds[..k])
      invariant r.lastUpdated >= agg.lastUpdated && forall d :: d in ds[..k] ==> r.lastUpdated >= d.lastUpdated
    {
      var d := ds[k];
      assert ds[..k + 1][..k] == ds[..k];
      r := Detail(r.amount + d.amount, r.reward + d.reward,
                  if d.lastUpdated > r.lastUpdated then d.lastUpdated else r.lastUpdated);
    }
    assert ds[..|ds|] == ds;
  }

  /** Pruning folds every height older than the retention window into the entry at key 0.
      The totals stay what they were, recent heights are untouched and no old one is left. */
  method PruneDetails(details: map<int, seq<Detail>>, height: int) returns (r: map<int, seq<Detail>>)
    ensures LoggedAmount(r) == LoggedAmount(details) && LoggedReward(r) == LoggedReward(details)
    ensures forall h :: h != 0 && h >= height - DETAILS_RETENTION_BLOCKS ==>
              (h in r <==> h in details) && (h in r ==> r[h] == details[h])
    ensures height > DETAILS_RETENTION_BLOCKS ==>
              forall h :: h in r ==> h == 0 || h >= height - DETAILS_RETENTION_BLOCKS
  {
    hide LoggedAmount, LoggedReward, AmountSum, RewardSum;
    r := details;
    var cutoff := height - DETAILS_RETENTION_BLOCKS;
    if cutoff <= 0 { return; }
    var agg := Detail(0, 0, 0);
    if 0 in details {
      agg := Fold(agg, details[0]);
    }
    ghost var base := if 0 in details then (AmountSum(details[0]), RewardSum(details[0])) else (0, 0);
    var folded := false;
    var todo := details.Keys;
    while todo != {}
      invariant todo <= details.Keys
      invariant forall h :: h == 0 || h >= cutoff || h in todo ==> (h in r <==> h in details) && (h in r ==> r[h] == details[h])
      invariant forall h :: h in r ==> h == 0 || h >= cutoff || h in todo
      invariant LoggedAmount(r) + agg.amount == LoggedAmount(details) + base.0
      invariant LoggedReward(r) + agg.reward == LoggedReward(details) + base.1
      invariant !folded ==> r == details
      decreases todo
    {
      var h := Pick(todo);
      todo := todo - {h};
      if h != 0 && h < cutoff {
        agg := Fold(agg, r[h]);
        LogRemove(r, h);
        r := r - {h};
        folded := true;
      }
    }
    if folded {
      LogUpdate(r, 0, [agg]);
      SingleDetail(agg);
      r := r[0 := [agg]];
    }
  }

  lemma SingleDetail(d: Detail)
    ensures AmountSum([d]) == d.amount && RewardSum([d]) == d.reward
  {
    assert [d][..0] == [];
  }

  // ---------------------------------------------------------------- entries

  datatype Entry = Entry(
    staked: int,
    rewards: int,
    locks: Locks,
    operational: bool,
    operationalSince: int,
    lastStakeHeight: int,
    details: map<int, seq<Detail>>,
    randCommit: nat,
    randCommitHeight: int)

  const EMPTY_ENTRY := Entry(0, 0, Locks([], [], []), false, 0, 0, map[], 0, 0)

  /** Delegated account and owner. */
  type Key = (nat, Address)

  function EntryAt(entries: map<Key, Entry>, k: Key): Entry {
    if k in entries then entries[k] else EMPTY_ENTRY
  }

  /** The lists are aligned, nothing is negative, and the log adds up. */
  ghost predicate Booked(e: Entry) {
    && e.locks.Aligned() && 0 <= e.staked && 0 <= e.rewards
    && LoggedAmount(e.details) == e.staked
    && LoggedReward(e.details) == e.rewards
  }

  /** The stake covers what is locked. */
  ghost predicate Covered(e: Entry, height: int) {
    e.locks.WellFormed(height) && LockSum(e.locks, height) <= e.staked
  }

  lemma EmptyEntry(height: int)
    ensures Booked(EMPTY_ENTRY) && Covered(EMPTY_ENTRY, height)
  {
    assert LoggedAmount(map[]) == 0 && LoggedReward(map[]) == 0;
  }

  /** Stake that covers the locks goes on doing so as blocks go by. */
  lemma {:induction false} CoveredLater(e: Entry, height: int, later: int)
    requires Covered(e, height) && height <= later
    ensures Covered(e, later)
  {
    LockSumShrinks(e.locks, height, later);
  }

  /** The append-and-prune that ends every staking operation. */
  method Record(details: map<int, seq<Detail>>, height: int, d: Detail) returns (r: map<int, seq<Detail>>)
    ensures LoggedAmount(r) == LoggedAmount(details) + d.amount
    ensures LoggedReward(r) == LoggedReward(details) + d.reward
  {
    hide LoggedAmount, LoggedReward;
    var before := if height in details then details[height] else [];
    assert (before + [d])[..|before|] == before;
    LogUpdate(details, height, before + [d]);
    r := PruneDetails(details[height := before + [d]], height);
  }

  /** The test as the code evaluates it, one int64 operation after the other. */
  lemma TestInSteps(staked: int, amount: int, sum: int)
    ensures Wrap64(Wrap64(staked - Wrap64(sum)) + amount) == Wrap64(staked + amount - sum)
  {
    hide Wrap64;
    WrapInner(staked, sum);
    WrapSum(staked - sum, amount);
    assert staked - sum + amount == staked + amount - sum;
  }

  /** What can be done to an entry. */
  datatype Op =
    | StakeOp(n: nat, a: Address, amount: int, height: int, time: int, operational: bool,
              locked: int, release: int, thirdParty: bool)
    | UnstakeOp(n: nat, a: Address, amount: int, height: int, time: int)
    | RewardOp(n: nat, a: Address, reward: int, height: int, time: int)
    | WithdrawOp(n: nat, a: Address, amount: int, height: int, time: int)

  /** What an operation may add to the stake. */
  function Deposit(op: Op): int {
    if op.StakeOp? && op.amount > 0 then op.amount else 0
  }

  class StakingBook {
    var entries: map<Key, Entry>

    constructor (initial: map<Key, Entry>)
      ensures entries == initial
    {
      entries := initial;
    }

    function Get(n: nat, a: Address): Entry
      reads this
    {
      if (n, a) in entries then entries[(n, a)] else EMPTY_ENTRY
    }

    /** The address check of the operations: an absent entry has the zero address. */
    predicate Present(n: nat, a: Address)
      reads this
    {
      (n, a) in entries || a == ZERO_ADDRESS
    }

    /** Only the entry of (n, a) has changed since the given state. */
    ghost predicate OnlyChanged(n: nat, a: Address, before: map<Key, Entry>)
      reads this
    {
      (n, a) in entries && entries == before[(n, a) := entries[(n, a)]]
    }

    method Stake(n: nat, a: Address, amount: int, height: int, time: int, operational: bool,
                 lockedAmount: int, releasePerBlock: int, thirdParty: bool) returns (ok: bool)
      modifies this
      ensures ok <==>
                && 0 <= releasePerBlock <= lockedAmount <= amount
                && (thirdParty || height >= old(Get(n, a)).lastStakeHeight + MIN_BLOCKS_IN_STAKE)
      ensures !ok ==> unchanged(this)
      ensures ok ==>
                && OnlyChanged(n, a, old(entries))
                && var e, e' := old(Get(n, a)), Get(n, a);
                   && e'.staked == e.staked + amount && e'.rewards == e.rewards
                   && e'.locks == (if lockedAmount > 0 then e.locks.Append(lockedAmount, releasePerBlock, height) else e.locks)
                   && e'.lastStakeHeight == (if thirdParty then e.lastStakeHeight else height)
                   && (e'.operational <==> e.operational || (operational && lockedAmount == 0))
                   && e'.operationalSince == (if e'.operational && !e.operational then time else e.operationalSince)
                   && e'.randCommit == e.randCommit && e'.randCommitHeight == e.randCommitHeight
                   && (Booked(e) ==> Booked(e'))
                   && (Covered(e, height) && amount <= MAX_AMOUNT ==> Covered(e', height))
    {
      hide LoggedAmount, LoggedReward, LockSum;
      var acc := Get(n, a);
      if amount < 0 || releasePerBlock < 0 || releasePerBlock > lockedAmount || lockedAmount < 0 || lockedAmount > amount {
        return false;
      }
      if !thirdParty && height < acc.lastStakeHeight + MIN_BLOCKS_IN_STAKE { return false; }
      ghost var e := acc;
      if lockedAmount == 0 && !acc.operational {
        acc := acc.(operational := operational, operationalSince := if operational then time else acc.operationalSince);
      }
      acc := acc.(staked := acc.staked + amount,
                  lastStakeHeight := if thirdParty then acc.lastStakeHeight else height);
      if lockedAmount > 0 {
        acc := acc.(locks := acc.locks.Append(lockedAmount, releasePerBlock, height));
        if e.locks.Aligned() {
          LockSumAppend(e.locks, lockedAmount, releasePerBlock, height, height);
        }
      }
      var details := Record(acc.details, height, Detail(amount, 0, time));
      acc := acc.(details := details);
      entries := entries[(n, a) := acc];
      return true;
    }

    method Unstake(n: nat, a: Address, amount: int, height: int, time: int) returns (ok: bool)
      requires Get(n, a).locks.Aligned()
      modifies this
      ensures !ok ==> unchanged(this)
      ensures ok ==>
                && OnlyChanged(n, a, old(entries))
                && var e, e' := old(Get(n, a)), Get(n, a);
                   && amount < 0 && height >= e.lastStakeHeight + MIN_BLOCKS_IN_STAKE
                   && e'.staked == e.staked + amount >= 0 && e'.rewards == e.rewards
                   && e'.lastStakeHeight == height
                   && (e'.operational <==> e.operational && e'.staked != 0)
                   && e'.operationalSince == (if e'.staked == 0 then 0 else e.operationalSince)
                   && e'.randCommit == e.randCommit && e'.randCommitHeight == e.randCommitHeight
                   && e'.locks.Aligned() && (forall h :: e.locks.NeverWraps(h) ==> e'.locks.NeverWraps(h))
                   && (Booked(e) ==> Booked(e'))
                   && (e.locks.WellFormed(height) ==> e'.locks.WellFormed(height) && SameLater(e'.locks, e.locks, height))
      ensures ok <==>
                && old(Present(n, a)) && amount < 0
                && height >= old(Get(n, a)).lastStakeHeight + MIN_BLOCKS_IN_STAKE
                && old(Get(n, a)).staked + amount >= 0
                && TestPasses(old(Get(n, a)).locks, height, old(Get(n, a)).staked + amount)
      ensures ok && old(Covered(Get(n, a), height) && Guarded(Get(n, a).locks, height) && Get(n, a).staked <= MAX_AMOUNT) ==>
                Covered(Get(n, a), height)
    {
      hide LoggedAmount, LoggedReward, LockSum, LockSum64, Wrap64, Guarded;
      var acc := Get(n, a);
      ghost var e := acc;
      if !Present(n, a) || amount >= 0 { return false; }
      if height < acc.lastStakeHeight + MIN_BLOCKS_IN_STAKE { return false; }
      if acc.staked + amount < 0 { return false; }
      var locked := LockedAmount(acc.locks, height);
      TestInSteps(acc.staked, amount, LockSum64(acc.locks, height));
      if Wrap64(Wrap64(acc.staked - locked) + amount) < 0 { return false; }
      var kept := DropExpired(acc.locks, height);
      acc := acc.(locks := kept, staked := acc.staked + amount, lastStakeHeight := height);
      if acc.staked == 0 {
        acc := acc.(operational := false, operationalSince := 0);
      }
      var details := Record(acc.details, height, Detail(amount, 0, time));
      acc := acc.(details := details);
      entries := entries[(n, a) := acc];
      if Covered(e, height) && Guarded(e.locks, height) && e.staked <= MAX_AMOUNT {
        GuardedExactly(e.locks, height, e.staked);
      }
      return true;
    }

    method Reward(n: nat, a: Address, reward: int, height: int, now: int) returns (ok: bool)
      modifies this
      ensures ok <==> old(Present(n, a)) && reward >= 0
      ensures !ok ==> unchanged(this)
      ensures ok ==>
                && OnlyChanged(n, a, old(entries))
                && var e, e' := old(Get(n, a)), Get(n, a);
                   && e' == e.(rewards := e.rewards + reward, details := e'.details)
                   && (Booked(e) ==> Booked(e')) && (Covered(e, height) ==> Covered(e', height))
    {
      hide LoggedAmount, LoggedReward;
      var acc := Get(n, a);
      if !Present(n, a) || reward < 0 { return false; }
      acc := acc.(rewards := acc.rewards + reward);
      var details := Record(acc.details, height, Detail(0, reward, now));
      acc := acc.(details := details);
      entries := entries[(n, a) := acc];
      return true;
    }

    method WithdrawReward(n: nat, a: Address, amount: int, height: int, now: int) returns (ok: bool)
      modifies this
      ensures ok <==> old(Present(n, a)) && amount < 0 && old(Get(n, a)).rewards + amount >= 0
      ensures !ok ==> unchanged(this)
      ensures ok ==>
                && OnlyChanged(n, a, old(entries))
                && var e, e' := old(Get(n, a)), Get(n, a);
                   && e' == e.(rewards := e.rewards + amount, details := e'.details)
                   && (Booked(e) ==> Booked(e')) && (Covered(e, height) ==> Covered(e', height))
    {
      hide LoggedAmount, LoggedReward;
      var acc := Get(n, a);
      if !Present(n, a) || amount >= 0 { return false; }
      if acc.rewards + amount < 0 { return false; }
      acc := acc.(rewards := acc.rewards + amount);
      var details := Record(acc.details, height, Detail(0, amount, now));
      acc := acc.(details := details);
      entries := entries[(n, a) := acc];
      return true;
    }

    /** One of the four operations. Whatever it is, it changes no commitment and one entry at most. */
    method Perform(op: Op) returns (ok: bool)
      requires Get(op.n, op.a).locks.Aligned()
      modifies this
      ensures !ok ==> unchanged(this)
      ensures ok ==>
                && OnlyChanged(op.n, op.a, old(entries))
                && var e, e' := old(Get(op.n, op.a)), Get(op.n, op.a);
                   && e'.staked == e.staked + (if op.StakeOp? || op.UnstakeOp? then op.amount else 0)
                   && e'.randCommit == e.randCommit && e'.randCommitHeight == e.randCommitHeight
                   && e'.locks.Aligned() && (Booked(e) ==> Booked(e'))
                   && e'.staked <= e.staked + Deposit(op)
                   && (Covered(e, op.height) && e.staked <= MAX_AMOUNT && Deposit(op) <= MAX_AMOUNT ==>
                         (op.UnstakeOp? ==> Guarded(e.locks, op.height)) ==> Covered(e', op.height))
    {
      hide LockSum, Booked, SameLater, Guarded, TestPasses;
      match op
      case StakeOp(n, a, amount, height, time, operational, locked, release, thirdParty) =>
        ok := Stake(n, a, amount, height, time, operational, locked, release, thirdParty);
      case UnstakeOp(n, a, amount, height, time) =>
        ok := Unstake(n, a, amount, height, time);
      case RewardOp(n, a, reward, height, time) =>
        ok := Reward(n, a, reward, height, time);
      case WithdrawOp(n, a, amount, height, time) =>
        ok := WithdrawReward(n, a, amount, height, time);
    }

    method SetRandCommit(n: nat, a: Address, commit: nat, height: int) returns (ok: bool)
      modifies this
      ensures ok <==> (n, a) in old(entries)
      ensures !ok ==> unchanged(this)
      ensures ok ==> entries == old(entries)[(n, a) := old(Get(n, a)).(randCommit := commit, randCommitHeight := height)]
    {
      if (n, a) !in entries { return false; }
      entries := entries[(n, a) := entries[(n, a)].(randCommit := commit, randCommitHeight := height)];
      return true;
    }
  }

  // ---------------------------------------------------------------- totals

  ghost function Stakes(entries: map<Key, Entry>): map<Key, int> {
    map k | k in entries :: entries[k].staked
  }

  ghost function Owed(entries: map<Key, Entry>): map<Key, int> {
    map k | k in entries :: entries[k].rewards
  }

  ghost function StakedTotal(entries: map<Key, Entry>): int {
    Sum(Stakes(entries))
  }

  ghost function RewardsTotal(entries: map<Key, Entry>): int {
    Sum(Owed(entries))
  }

  lemma {:induction false} TotalsUpdate(entries: map<Key, Entry>, k: Key, e: Entry)
    ensures var before := EntryAt(entries, k);
            && StakedTotal(entries[k := e]) == StakedTotal(entries) + e.staked - before.staked
            && RewardsTotal(entries[k := e]) == RewardsTotal(entries) + e.rewards - before.rewards
  {
    assert Stakes(entries[k := e]) == Stakes(entries)[k := e.staked];
    assert Owed(entries[k := e]) == Owed(entries)[k := e.rewards];
    SumUpdate(Stakes(entries), k, e.staked);
    SumUpdate(Owed(entries), k, e.rewards);
  }

  predicate EntryValid(e: Entry) {
    e.staked >= 0 && e.rewards >= 0 && e.operationalSince >= 0 && e.locks.Aligned()
  }

  ghost predicate BookValid(entries: map<Key, Entry>) {
    forall k :: k in entries ==> EntryValid(entries[k])
  }

  /** Whoever operates a delegated account has stake in it. */
  ghost predicate Staffed(entries: map<Key, Entry>) {
    forall k :: k in entries && entries[k].operational ==> entries[k].staked > 0
  }

  lemma BookUpdate(before: map<Key, Entry>, after: map<Key, Entry>, k: Key)
    requires k in after && after == before[k := after[k]]
    ensures BookValid(before) && EntryValid(after[k]) ==> BookValid(after)
    ensures Staffed(before) && (after[k].operational ==> after[k].staked > 0) ==> Staffed(after)
  {
    hide EntryValid;
  }
}
