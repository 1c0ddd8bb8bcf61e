/** Which delegated accounts may produce and vote, and who operates them:
    account/accountsStakingStates.go and the last function of account/stakeAccount.go. */
module Operators {
  import opened Basics
  import opened Sums
  import opened Staking

  const MAX_ACTIVE_NODES := 128
  const MIN_STAKING_FOR_NODE := 100_000_000_000_000

  // ---------------------------------------------------------------- operators

  /** A candidate operator as the selection loops compare it. */
  datatype Candidate = Candidate(stake: int, since: int, address: Address)

  predicate Better(a: Candidate, b: Candidate) {
    || a.stake > b.stake
    || (a.stake == b.stake && (a.since < b.since || (a.since == b.since && a.address < b.address)))
  }

  function CandidateOf(entries: map<Key, Entry>, k: Key): Candidate
    requires k in entries
  {
    Candidate(entries[k].staked, entries[k].operationalSince, k.1)
  }

  predicate Operates(entries: map<Key, Entry>, n: nat, a: Address) {
    (n, a) in entries && entries[(n, a)].operational
  }

  /** a is the operator: no other operational entry of n comes before it. */
  ghost predicate IsBest(entries: map<Key, Entry>, n: nat, a: Address) {
    && Operates(entries, n, a)
    && forall b: Address :: Operates(entries, n, b) && b != a ==>
         Better(CandidateOf(entries, (n, a)), CandidateOf(entries, (n, b)))
  }

  /** The operator has the most stake, at the same stake it has been one for longest, and then it has
      the lowest address. */
  lemma BestLeads(entries: map<Key, Entry>, n: nat, a: Address, b: Address)
    requires IsBest(entries, n, a) && (n, b) in entries && entries[(n, b)].operational && b != a
    ensures var best, other := entries[(n, a)], entries[(n, b)];
            && best.operational && best.staked >= other.staked
            && (best.staked == other.staked ==> best.operationalSince <= other.operationalSince)
            && (best.staked == other.staked && best.operationalSince == other.operationalSince ==> a < b)
  {
  }

  lemma BestIsUnique(entries: map<Key, Entry>, n: nat, a: Address, b: Address)
    requires IsBest(entries, n, a) && IsBest(entries, n, b)
    ensures a == b
  {
  }

  /** The selection loop of eligibleOperatorLocked, in any order of the map. */
  method SelectOperator(entries: map<Key, Entry>, n: nat) returns (found: bool, operator: Address)
    requires forall k :: k in entries ==> entries[k].staked >= 0
    ensures found <==> exists a: Address :: Operates(entries, n, a)
    ensures found ==> IsBest(entries, n, operator)
  {
    var todo := set k | k in entries && k.0 == n;
    var best := Candidate(-1, 0, ZERO_ADDRESS);
    while todo != {}
      invariant forall k :: k in todo ==> k in entries && k.0 == n
      invariant best.stake >= 0 ==> Operates(entries, n, best.address) && best == CandidateOf(entries, (n, best.address))
      invariant best.stake >= -1
      invariant forall a: Address :: Operates(entries, n, a) && (n, a) !in todo && a != best.address ==>
                  Better(best, CandidateOf(entries, (n, a)))
      invariant forall a: Address :: Operates(entries, n, a) && (n, a) !in todo ==> best.stake >= 0
      decreases todo
    {
      var k := Pick(todo);
      todo := todo - {k};
      assert k == (n, k.1);
      if entries[k].operational && Better(CandidateOf(entries, k), best) {
        best := CandidateOf(entries, k);
      }
    }
    found, operator := best.stake >= 0, best.address;
  }

  ghost function StakedOver(entries: map<Key, Entry>, keys: set<Key>): int
    requires keys <= entries.Keys
  {
    Sum(map k | k in keys :: entries[k].staked)
  }

  ghost function KeysOf(entries: map<Key, Entry>, n: nat): set<Key> {
    set k | k in entries && k.0 == n
  }

  ghost function StakedIn(entries: map<Key, Entry>, n: nat): int {
    StakedOver(entries, KeysOf(entries, n))
  }

  lemma {:induction false} StakedOverAdd(entries: map<Key, Entry>, keys: set<Key>, k: Key)
    requires keys <= entries.Keys && k in entries && k !in keys
    ensures StakedOver(entries, keys + {k}) == StakedOver(entries, keys) + entries[k].staked
  {
    var m := map j | j in keys :: entries[j].staked;
    assert (map j | j in keys + {k} :: entries[j].staked) == m[k := entries[k].staked];
    SumUpdate(m, k, entries[k].staked);
  }

  lemma StakedOverNone(entries: map<Key, Entry>)
    ensures StakedOver(entries, {}) == 0
  {
  }

  /** Total of the listed stakes. */
  function ListTotal(accs: seq<(Address, int)>): int {
    if accs == [] then 0 else ListTotal(accs[..|accs| - 1]) + accs[|accs| - 1].1
  }

  /** accs lists entries of n with their stake, each at most once. */
  predicate Lists(entries: map<Key, Entry>, n: nat, accs: seq<(Address, int)>) {
    && (forall i :: 0 <= i < |accs| ==> (n, accs[i].0) in entries && accs[i].1 == entries[(n, accs[i].0)].staked)
    && (forall i, j :: 0 <= i < j < |accs| ==> accs[i].0 != accs[j].0)
  }

  ghost function Names(accs: seq<(Address, int)>): set<Address> {
    if accs == [] then {} else Names(accs[..|accs| - 1]) + {accs[|accs| - 1].0}
  }

  /** The operator loop of GetStakedInDelegatedAccount, which starts from a stake of zero. */
  ghost predicate Leads(entries: map<Key, Entry>, n: nat, done: set<Key>, best: Candidate)
    requires done <= KeysOf(entries, n)
  {
    && (best == Candidate(0, 0, ZERO_ADDRESS)
        || (Operates(entries, n, best.address) && best == CandidateOf(entries, (n, best.address)) && best.stake > 0))
    && (forall k :: k in done && entries[k].operational && entries[k].staked > 0 ==>
          best.stake > 0 && (k.1 == best.address || Better(best, CandidateOf(entries, k))))
  }

  lemma LeadsStep(entries: map<Key, Entry>, n: nat, done: set<Key>, best: Candidate, k: Key)
    requires done <= KeysOf(entries, n) && k in KeysOf(entries, n) && Leads(entries, n, done, best)
    requires entries[k].staked >= 0 && entries[k].operationalSince >= 0
    ensures var next := if entries[k].operational && Better(CandidateOf(entries, k), best)
                        then CandidateOf(entries, k) else best;
            Leads(entries, n, done + {k}, next)
  {
    var next := if entries[k].operational && Better(CandidateOf(entries, k), best) then CandidateOf(entries, k) else best;
    assert k == (n, k.1);
    forall j | j in done + {k} && entries[j].operational && entries[j].staked > 0
      ensures next.stake > 0 && (j.1 == next.address || Better(next, CandidateOf(entries, j)))
    {
      assert j == (n, j.1);
    }
  }

  lemma LeadsAtFirst(entries: map<Key, Entry>, n: nat)
    ensures Leads(entries, n, {}, Candidate(0, 0, ZERO_ADDRESS))
  {
  }

  lemma ListTotalEmpty()
    ensures ListTotal([]) == 0 && Names([]) == {}
  {
  }

  lemma ListTotalSnoc(accs: seq<(Address, int)>, x: (Address, int))
    ensures ListTotal(accs + [x]) == ListTotal(accs) + x.1
    ensures Names(accs + [x]) == Names(accs) + {x.0}
  {
    assert (accs + [x])[..|accs|] == accs;
  }

  /** GetStakedInDelegatedAccount: the entries of a delegated account with their stake, the
      total, and the operator. */
  method StakedInDelegatedAccount(entries: map<Key, Entry>, n: nat)
      returns (accs: seq<(Address, int)>, sum: int, operator: Address)
    requires forall k :: k in entries ==> entries[k].staked >= 0 && entries[k].operationalSince >= 0
    ensures sum == StakedIn(entries, n) == ListTotal(accs)
    ensures Lists(entries, n, accs) && Names(accs) == set k | k in KeysOf(entries, n) :: k.1
    ensures forall a: Address :: IsBest(entries, n, a) && entries[(n, a)].staked > 0 ==> operator == a
    ensures (forall a: Address :: Operates(entries, n, a) ==> entries[(n, a)].staked == 0) ==> operator == ZERO_ADDRESS
  {
    hide StakedOver, IsBest, Leads, ListTotal, Names, CandidateOf, Better;
    var todo := set k | k in entries && k.0 == n;
    var best := Candidate(0, 0, ZERO_ADDRESS);
    accs, sum := [], 0;
    StakedOverNone(entries);
    LeadsAtFirst(entries, n);
    ListTotalEmpty();
    ghost var done: set<Key> := {};
    while todo != {}
      invariant todo !! done && todo + done == KeysOf(entries, n)
      invariant sum == StakedOver(entries, done) == ListTotal(accs)
      invariant Lists(entries, n, accs)
      invariant forall i :: 0 <= i < |accs| ==> (n, accs[i].0) in done
      invariant forall a: Address :: a in Names(accs) <==> (n, a) in done
      invariant Leads(entries, n, done, best)
      decreases todo
    {
      var k := Pick(todo);
      assert k in KeysOf(entries, n) && k == (n, k.1);
      todo := todo - {k};
      LeadsStep(entries, n, done, best, k);
      if entries[k].operational && Better(CandidateOf(entries, k), best) {
        best := CandidateOf(entries, k);
      }
      StakedOverAdd(entries, done, k);
      sum := sum + entries[k].staked;
      ListTotalSnoc(accs, (k.1, entries[k].staked));
      accs := accs + [(k.1, entries[k].staked)];
      done := done + {k};
    }
    operator := best.address;
    assert done == KeysOf(entries, n);
    assert forall k :: k in KeysOf(entries, n) ==> k == (n, k.1);
    LeaderIsBest(entries, n, best);
  }

  lemma {:induction false} LeaderIsBest(entries: map<Key, Entry>, n: nat, best: Candidate)
    requires Leads(entries, n, KeysOf(entries, n), best)
    ensures forall a: Address :: IsBest(entries, n, a) && entries[(n, a)].staked > 0 ==> best.address == a
    ensures (forall a: Address :: Operates(entries, n, a) ==> entries[(n, a)].staked == 0) ==> best.address == ZERO_ADDRESS
  {
    forall a: Address | IsBest(entries, n, a) && entries[(n, a)].staked > 0 ensures best.address == a {
      assert (n, a) in KeysOf(entries, n);
    }
  }

  /** The two selections name the same operator whenever an operational entry has stake;
      when operators exist but none has any, only the first one names somebody. */
  method BothSelections(entries: map<Key, Entry>, n: nat) returns (found: bool, first: Address, second: Address)
    requires forall k :: k in entries ==> entries[k].staked >= 0 && entries[k].operationalSince >= 0
    requires (n, ZERO_ADDRESS) !in entries
    ensures found && first == second <==> exists a: Address :: Operates(entries, n, a) && entries[(n, a)].staked > 0
    ensures !found ==> second == ZERO_ADDRESS
  {
    found, first := SelectOperator(entries, n);
    var _, _, s := StakedInDelegatedAccount(entries, n);
    second := s;
  }

  // ---------------------------------------------------------------- ranking

  /** Totals and the time each was reached, for the 256 delegated accounts. */
  datatype Standings = Standings(total: seq<int>, changedAt: seq<int>) {
    predicate Valid() { |total| == |changedAt| == 256 }
  }

  /** Delegated account i comes before j. */
  predicate Ahead(s: Standings, i: nat, j: nat)
    requires s.Valid() && i < 256 && j < 256
  {
    || s.total[i] > s.total[j]
    || (s.total[i] == s.total[j] &&
        (s.changedAt[i] < s.changedAt[j] || (s.changedAt[i] == s.changedAt[j] && i < j)))
  }

  ghost function AheadOf(s: Standings, j: nat): set<nat>
    requires s.Valid() && j < 256
  {
    set i: nat | i < 256 && i != j && Ahead(s, i, j)
  }

  /** The ranking loop of eligibleOperatorLocked. */
  method Rank(s: Standings, j: nat) returns (rank: nat)
    requires s.Valid() && j < 256
    ensures rank == 1 + |AheadOf(s, j)|
  {
    hide Ahead;
    rank := 1;
    ghost var seen: set<nat> := {};
    for i := 0 to 256
      invariant seen == set k: nat | k < i && k != j && Ahead(s, k, j)
      invariant rank == 1 + |seen|
    {
      if i != j && Ahead(s, i, j) {
        rank := rank + 1;
        seen := seen + {i};
      }
    }
    assert seen == AheadOf(s, j);
  }

  /** Coming before is a strict total order. */
  lemma AheadIsTotal(s: Standings, i: nat, j: nat, k: nat)
    requires s.Valid() && i < 256 && j < 256 && k < 256
    ensures !Ahead(s, i, i)
    ensures i != j ==> (Ahead(s, i, j) <==> !Ahead(s, j, i))
    ensures Ahead(s, i, j) && Ahead(s, j, k) ==> Ahead(s, i, k)
  {
  }

  lemma {:induction false} RankGrows(s: Standings, i: nat, j: nat)
    requires s.Valid() && i < 256 && j < 256 && Ahead(s, i, j) && i != j
    ensures |AheadOf(s, i)| < |AheadOf(s, j)|
  {
    assert AheadOf(s, i) + {i} <= AheadOf(s, j);
    SubsetSize(AheadOf(s, i) + {i}, AheadOf(s, j));
  }

  ghost function Places(s: Standings, ids: set<nat>): set<nat>
    requires s.Valid() && forall i :: i in ids ==> i < 256
  {
    set i | i in ids :: |AheadOf(s, i)|
  }

  /** No two accounts share a rank, so at most 128 are in the first 128. */
  lemma {:induction false} AtMost128(s: Standings, eligible: set<nat>)
    requires s.Valid()
    requires forall i :: i in eligible ==> i < 256 && 1 + |AheadOf(s, i)| <= MAX_ACTIVE_NODES
    ensures |eligible| <= MAX_ACTIVE_NODES
  {
    PlacesAreDistinct(s, eligible);
    BoundedSet(Places(s, eligible), MAX_ACTIVE_NODES);
  }

  lemma {:induction false} PlacesAreDistinct(s: Standings, ids: set<nat>)
    requires s.Valid() && forall i :: i in ids ==> i < 256
    ensures |Places(s, ids)| == |ids|
    decreases |ids|
  {
    if ids != {} {
      var i :| i in ids;
      var rest := ids - {i};
      PlacesAreDistinct(s, rest);
      assert |AheadOf(s, i)| !in Places(s, rest) by {
        forall k | k in rest ensures |AheadOf(s, k)| != |AheadOf(s, i)| {
          AheadIsTotal(s, i, k, i);
          if Ahead(s, i, k) { RankGrows(s, i, k); } else { RankGrows(s, k, i); }
        }
      }
      assert Places(s, ids) == Places(s, rest) + {|AheadOf(s, i)|};
    } else {
      assert Places(s, ids) == {};
    }
  }

  lemma {:induction false} BoundedSet(s: set<nat>, n: nat)
    requires forall x :: x in s ==> x < n
    ensures |s| <= n
  {
    if n == 0 {
      assert s == {};
    } else {
      BoundedSet(s - {n - 1}, n - 1);
      if n - 1 in s { assert s == s - {n - 1} + {n - 1}; } else { assert s == s - {n - 1}; }
    }
  }

  // ---------------------------------------------------------------- eligibility

  /** The staking state a block is judged by: entries, and the totals that follow from them. */
  datatype Snapshot = Snapshot(entries: map<Key, Entry>, standings: Standings) {
    ghost predicate Valid() {
      && standings.Valid()
      && (forall k :: k in entries ==> entries[k].staked >= 0 && entries[k].operationalSince >= 0)
      && (forall n: nat :: n < 256 ==> standings.total[n] == StakedIn(entries, n))
    }
  }

  /** Enough stake, an operator, and a place in the first 128. */
  ghost predicate Eligible(s: Snapshot, n: nat)
    requires s.Valid()
  {
    && 0 < n < 256
    && s.standings.total[n] >= MIN_STAKING_FOR_NODE
    && (exists a: Address :: Operates(s.entries, n, a))
    && 1 + |AheadOf(s.standings, n)| <= MAX_ACTIVE_NODES
  }

  ghost function EligibleSet(s: Snapshot): set<nat>
    requires s.Valid()
  {
    set n: nat | n < 256 && Eligible(s, n)
  }

  lemma EligibleAtMost128(s: Snapshot)
    requires s.Valid()
    ensures |EligibleSet(s)| <= MAX_ACTIVE_NODES
  {
    AtMost128(s.standings, EligibleSet(s));
  }

  /** Stake decides: with more stake than an eligible account, an operator is all it takes; at the
      same stake the total that was reached earlier comes first, and at the same time the lower number. */
  lemma {:induction false} MoreStakeIsEligible(s: Snapshot, n: nat, m: nat)
    requires s.Valid() && Eligible(s, n) && 0 < m < 256 && exists a: Address :: Operates(s.entries, m, a)
    requires var total, at := s.standings.total, s.standings.changedAt;
             || total[m] > total[n]
             || (total[m] == total[n] && at[m] < at[n])
             || (total[m] == total[n] && at[m] == at[n] && m < n)
    ensures Eligible(s, m)
  {
    hide AheadOf, StakedIn;
    RankGrows(s.standings, m, n);
  }

  /** The accounts with at least the stake of n, and those with more. */
  ghost function AtLeast(s: Standings, n: nat): set<nat>
    requires s.Valid() && n < 256
  {
    set m: nat | m < 256 && m != n && s.total[m] >= s.total[n]
  }

  ghost function Above(s: Standings, n: nat): set<nat>
    requires s.Valid() && n < 256
  {
    set m: nat | m < 256 && m != n && s.total[m] > s.total[n]
  }

  /** An account with an operator and enough stake is eligible if fewer than 128 others have as much,
      and is not if 128 others have more. */
  lemma {:induction false} EligibleByStake(s: Snapshot, n: nat)
    requires s.Valid() && 0 < n < 256
    ensures s.standings.total[n] >= MIN_STAKING_FOR_NODE && (exists a: Address :: Operates(s.entries, n, a)) ==>
              |AtLeast(s.standings, n)| < MAX_ACTIVE_NODES ==> Eligible(s, n)
    ensures |Above(s.standings, n)| >= MAX_ACTIVE_NODES ==> !Eligible(s, n)
    ensures Eligible(s, n) ==> s.standings.total[n] >= MIN_STAKING_FOR_NODE && exists a: Address :: Operates(s.entries, n, a)
  {
    hide StakedIn;
    SubsetSize(AheadOf(s.standings, n), AtLeast(s.standings, n));
    SubsetSize(Above(s.standings, n), AheadOf(s.standings, n));
  }

  /** eligibleOperatorLocked. */
  method EligibleOperator(s: Snapshot, n: nat) returns (operator: Address, ok: bool)
    requires s.Valid() && 0 < n < 256
    ensures ok <==> Eligible(s, n)
    ensures ok ==> IsBest(s.entries, n, operator)
  {
    hide AheadOf, IsBest, StakedIn;
    operator := ZERO_ADDRESS;
    if s.standings.total[n] < MIN_STAKING_FOR_NODE { return operator, false; }
    var found, best := SelectOperator(s.entries, n);
    if !found { return operator, false; }
    var rank := Rank(s.standings, n);
    return best, rank <= MAX_ACTIVE_NODES;
  }

  /** IsTop128StakingNode. */
  method IsTop128(s: Snapshot, n: nat, operator: Address) returns (ok: bool)
    requires s.Valid()
    ensures ok <==> Eligible(s, n) && IsBest(s.entries, n, operator)
  {
    hide AheadOf, StakedIn;
    if n == 0 || n >= 256 { return false; }
    var selected, eligible := EligibleOperator(s, n);
    return eligible && selected == operator;
  }
}
