/** The commit-reveal randomness of the chain: blocks/randao.go on top of the commitments kept
    in the staking entries. Hashes are arbitrary functions; only commitments need to be
    injective. */
module Randao {
  import opened Basics
  import opened Staking

  const SEED_LENGTH := 32
  const COMMIT_EXPIRY := 8640
  const ZERO_HASH: nat := 0

  type Seed = seq<byte>

  /** RandaoCommitment, mixHash and randFromMix. */
  datatype Hashes = Hashes(commit: Seed -> nat, mix: (nat, int, Seed) -> nat, rand: nat -> int)

  ghost predicate Binding(hs: Hashes) {
    forall a, b :: hs.commit(a) == hs.commit(b) ==> a == b
  }

  /** The parts of a block read here; `account` and `operator` name its producer. */
  datatype Block = Block(height: int, account: nat, operator: Address, seed: Seed, commit: nat,
                         mix: nat, rand: int, randData: seq<byte>)

  /** RevealDue. */
  predicate RevealDue(commitHeight: int, height: int) {
    commitHeight > 0 && height - commitHeight <= COMMIT_EXPIRY
  }

  /** verifyRandaoStateless, for a block above genesis. */
  predicate Stateless(hs: Hashes, parentMix: nat, b: Block) {
    && (|b.seed| == 0 || |b.seed| == SEED_LENGTH)
    && b.commit != ZERO_HASH
    && b.randData == []
    && b.mix == hs.mix(parentMix, b.height, b.seed)
    && b.rand == hs.rand(b.mix)
  }

  /** verifyRandaoReveal, given the commitment held for the producer. */
  predicate RevealFits(hs: Hashes, held: (nat, int), b: Block) {
    && 1 <= b.account <= 255
    && (if RevealDue(held.1, b.height) then |b.seed| != 0 && hs.commit(b.seed) == held.0
        else |b.seed| == 0)
  }

  /** GetRandCommit. */
  function Held(entries: map<Key, Entry>, k: Key): (nat, int) {
    if k in entries then (entries[k].randCommit, entries[k].randCommitHeight) else (ZERO_HASH, 0)
  }

  // ---------------------------------------------------------------- what the chain alone says

  /** The reveals folded one after the other from the genesis hash. */
  function MixOf(hs: Hashes, genesis: nat, chain: seq<Block>): nat {
    if chain == [] then genesis
    else
      var b := chain[|chain| - 1];
      hs.mix(MixOf(hs, genesis, chain[..|chain| - 1]), b.height, b.seed)
  }

  /** The commitment of the last block a producer made. */
  function LastCommit(chain: seq<Block>, k: Key): (nat, int) {
    if chain == [] then (ZERO_HASH, 0)
    else
      var b := chain[|chain| - 1];
      if (b.account, b.operator) == k then (b.commit, b.height) else LastCommit(chain[..|chain| - 1], k)
  }

  /** A block that may follow the chain, as far as randomness goes. */
  predicate MayFollow(hs: Hashes, genesis: nat, chain: seq<Block>, b: Block) {
    && b.height == |chain| + 1
    && Stateless(hs, MixOf(hs, genesis, chain), b)
    && RevealFits(hs, LastCommit(chain, (b.account, b.operator)), b)
  }

  /** In full: the mix of the parent with the seed, the number drawn from it, a new commitment, and the
      seed of the producer's last commitment if that was made at most 8640 blocks ago, else none. */
  lemma MayFollowMeans(hs: Hashes, genesis: nat, chain: seq<Block>, b: Block)
    ensures MayFollow(hs, genesis, chain, b) <==>
              && b.height == |chain| + 1 && 1 <= b.account <= 255 && b.commit != 0 && b.randData == []
              && b.mix == hs.mix(MixOf(hs, genesis, chain), b.height, b.seed) && b.rand == hs.rand(b.mix)
              && var (commit, at) := LastCommit(chain, (b.account, b.operator));
                 if 0 < at && b.height <= at + 8640 then |b.seed| == 32 && hs.commit(b.seed) == commit else b.seed == []
  {
  }

  /** The last commitment is that of the latest block of the producer. */
  lemma {:induction false} LastCommitIs(chain: seq<Block>, k: Key, i: nat)
    requires i < |chain| && (chain[i].account, chain[i].operator) == k
    requires forall j :: i < j < |chain| ==> (chain[j].account, chain[j].operator) != k
    ensures LastCommit(chain, k) == (chain[i].commit, chain[i].height)
    decreases |chain|
  {
    if i < |chain| - 1 { LastCommitIs(chain[..|chain| - 1], k, i); }
  }

  /** The producer has no choice: any two blocks it may append give the same randomness. */
  lemma NoChoice(hs: Hashes, genesis: nat, chain: seq<Block>, b: Block, c: Block)
    requires Binding(hs) && b.account == c.account && b.operator == c.operator
    requires MayFollow(hs, genesis, chain, b) && MayFollow(hs, genesis, chain, c)
    ensures b.seed == c.seed && b.mix == c.mix && b.rand == c.rand
  {
  }

  /** Every block of a chain carries the fold of all reveals up to it. */
  ghost predicate Follows(hs: Hashes, genesis: nat, chain: seq<Block>) {
    forall i :: 0 <= i < |chain| ==> MayFollow(hs, genesis, chain[..i], chain[i])
  }

  lemma MixIsFold(hs: Hashes, genesis: nat, chain: seq<Block>, i: nat)
    requires Follows(hs, genesis, chain) && i < |chain|
    ensures chain[i].mix == MixOf(hs, genesis, chain[..i + 1])
    ensures chain[i].rand == hs.rand(MixOf(hs, genesis, chain[..i + 1]))
  {
    assert chain[..i + 1][..i] == chain[..i];
  }

  /** RandaoFields: what a producer that keeps its seeds puts into its block. */
  function Fields(hs: Hashes, parentMix: nat, height: int, account: nat, operator: Address, seed: Seed, next: Seed): Block {
    var mix := hs.mix(parentMix, height, seed);
    Block(height, account, operator, seed, hs.commit(next), mix, hs.rand(mix), [])
  }

  /** Whoever reveals the seed of its last block, or nothing when none is due, may append. */
  lemma HonestProducerPasses(hs: Hashes, genesis: nat, chain: seq<Block>, k: Key, kept: Seed, next: Seed)
    requires |kept| == SEED_LENGTH && hs.commit(next) != ZERO_HASH && 1 <= k.0 <= 255
    requires LastCommit(chain, k).1 > 0 ==> LastCommit(chain, k).0 == hs.commit(kept)
    ensures var height := |chain| + 1;
            var seed := if RevealDue(LastCommit(chain, k).1, height) then kept else [];
            MayFollow(hs, genesis, chain, Fields(hs, MixOf(hs, genesis, chain), height, k.0, k.1, seed, next))
  {
  }

  // ---------------------------------------------------------------- the node

  ghost predicate Aligned(entries: map<Key, Entry>) {
    forall k :: k in entries ==> entries[k].locks.Aligned()
  }

  /** Both states hold the same commitment for everybody. */
  ghost predicate SameHeld(before: map<Key, Entry>, after: map<Key, Entry>) {
    forall k :: Held(before, k) == Held(after, k)
  }

  /** No staking operation touches a commitment, its own entry's or another's. */
  method Perform(book: StakingBook, op: Op)
    requires Aligned(book.entries)
    modifies book
    ensures Aligned(book.entries) && SameHeld(old(book.entries), book.entries)
    ensures forall k :: k in old(book.entries) ==> k in book.entries
  {
    hide Booked, Covered, Guarded;
    ghost var was := book.entries;
    assert book.Get(op.n, op.a).locks.Aligned();
    var ok := book.Perform(op);
    if ok { OneEntry(was, book.entries, (op.n, op.a)); }
  }

  lemma {:induction false} OneEntry(before: map<Key, Entry>, after: map<Key, Entry>, k: Key)
    requires Aligned(before) && k in after && after == before[k := after[k]] && after[k].locks.Aligned()
    requires Held(before, k) == Held(after, k)
    ensures Aligned(after) && SameHeld(before, after) && forall j :: j in before ==> j in after
  {
    forall j ensures Held(before, j) == Held(after, j) {
      if j != k { assert j in before <==> j in after; }
    }
    forall j | j in after ensures after[j].locks.Aligned() { if j != k { assert j in before; } }
  }

  class Node {
    const hashes: Hashes
    const genesis: nat
    const book: StakingBook
    var chain: seq<Block>

    /** What the entries hold is what the chain says. */
    ghost predicate Valid()
      reads this, book
    {
      && Aligned(book.entries)
      && Follows(hashes, genesis, chain)
      && forall k :: Held(book.entries, k) == LastCommit(chain, k)
    }

    /** Genesis entries carry no commitment. */
    constructor (hashes: Hashes, genesis: nat, book: StakingBook)
      requires Aligned(book.entries)
      requires forall k :: k in book.entries ==> book.entries[k].randCommit == ZERO_HASH && book.entries[k].randCommitHeight == 0
      ensures Valid() && chain == [] && this.book == book && this.hashes == hashes && this.genesis == genesis
    {
      this.hashes, this.genesis, this.book := hashes, genesis, book;
      chain := [];
    }

    /** The mix the next block builds on. */
    method ParentMix() returns (mix: nat)
      requires Valid()
      ensures mix == MixOf(hashes, genesis, chain)
    {
      if chain == [] { return genesis; }
      MixIsFold(hashes, genesis, chain, |chain| - 1);
      assert chain[..|chain|] == chain;
      return chain[|chain| - 1].mix;
    }

    /** One block: its checks, its staking operations, its commitment. It is accepted exactly
        when the chain before it allows it and the producer has a staking entry; a refused
        block leaves everything as it was. */
    method Append(b: Block, ops: seq<Op>) returns (ok: bool)
      requires Valid()
      modifies this, book
      ensures Valid()
      ensures ok ==> MayFollow(hashes, genesis, old(chain), b) && chain == old(chain) + [b]
      ensures !ok ==> chain == old(chain) && book.entries == old(book.entries)
      ensures old((b.account, b.operator) in book.entries) ==> (ok <==> MayFollow(hashes, genesis, old(chain), b))
    {
      hide LastCommit, MixOf, Follows, Stateless, RevealFits;
      var mix := ParentMix();
      var k := (b.account, b.operator);
      if b.height != |chain| + 1 || !Stateless(hashes, mix, b) || !RevealFits(hashes, Held(book.entries, k), b) {
        return false;
      }
      var backup := book.entries;
      for i := 0 to |ops|
        invariant chain == old(chain)
        invariant Aligned(book.entries) && SameHeld(backup, book.entries)
        invariant forall j :: j in backup ==> j in book.entries
      {
        Perform(book, ops[i]);
      }
      ghost var before := book.entries;
      var recorded := book.SetRandCommit(b.account, b.operator, b.commit, b.height);
      if !recorded {
        book.entries := backup;
        return false;
      }
      Recorded(before, book.entries, chain, b);
      Extended(hashes, genesis, chain, b);
      chain := chain + [b];
      return true;
    }

    /** Any sequence of offered blocks: the chain stays one the rules allow, its last mix is
        the fold of all its reveals, and every commitment is the one of the last block. */
    method Run(offers: seq<(Block, seq<Op>)>)
      requires Valid()
      modifies this, book
      ensures Valid() && old(chain) <= chain
      ensures chain != [] ==> chain[|chain| - 1].mix == MixOf(hashes, genesis, chain)
    {
      hide Follows, MixOf, LastCommit;
      for i := 0 to |offers|
        invariant Valid() && old(chain) <= chain
      {
        var _ := Append(offers[i].0, offers[i].1);
      }
      if chain != [] {
        MixIsFold(hashes, genesis, chain, |chain| - 1);
        assert chain[..|chain|] == chain;
      }
    }
  }

  lemma {:induction false} Recorded(before: map<Key, Entry>, after: map<Key, Entry>, chain: seq<Block>, b: Block)
    requires (b.account, b.operator) in before
    requires after == before[(b.account, b.operator) :=
                             before[(b.account, b.operator)].(randCommit := b.commit, randCommitHeight := b.height)]
    requires forall k :: Held(before, k) == LastCommit(chain, k)
    requires Aligned(before)
    ensures Aligned(after) && forall k :: Held(after, k) == LastCommit(chain + [b], k)
  {
    assert (chain + [b])[..|chain|] == chain;
    forall k | k in after ensures after[k].locks.Aligned() { assert k in before; }
  }

  lemma {:induction false} Extended(hs: Hashes, genesis: nat, chain: seq<Block>, b: Block)
    requires Follows(hs, genesis, chain) && MayFollow(hs, genesis, chain, b)
    ensures Follows(hs, genesis, chain + [b])
  {
    hide MayFollow;
    var longer := chain + [b];
    forall i | 0 <= i < |longer| ensures MayFollow(hs, genesis, longer[..i], longer[i]) {
      assert longer[..i] == chain[..i];
      if i == |chain| { assert chain[..i] == chain; }
    }
  }
}
