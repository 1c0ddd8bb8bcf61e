/** Two-phase recovery: a bind commits to what a reveal will do before the secret is public
    (account/recovery.go, transactionsDefinition/recovery.go, blocks/recovery.go). Hashes are
    symbolic: equal digests have equal domains and equal inputs. */
module Recovery {
  import opened Commitments
  import opened Sums

  const BIND_DELAY_BLOCKS := 360
  const BIND_EXPIRY_BLOCKS := 120960

  type Address = nat
  type Secret = nat          // 32 bytes, or the old public key of an address opening

  /** The hashes of common/recovery.go, each with its own domain. */
  datatype Digest =
    | TagOf(secret: Secret)
    | PayloadOf(identity: Address, newKey: Address, next: Address, secret: Secret)
    | OpenPayloadOf(identity: Address, newKey: Address, next: Address, spare: Address, oldPub: Secret)
    | BindKeyOf(id: Address, tag: Digest)
    | Arbitrary(n: nat)

  /** The twenty-byte hashes, as numbers that are never zero. */
  function CommitmentOf(secret: Secret): Commit { 2 * secret + 1 }

  function KeyAddress(pub: Secret): Address { 2 * pub + 2 }

  datatype Bind = Bind(identity: Address, payload: Digest, height: int)

  /** A reveal: of the secret behind the recovery commitment, or, for an account that never
      registered a key, of the key behind the address itself. `signed` says that the revealed
      key signed it, and the old key too where there is one. */
  datatype Reveal =
    | SecretReveal(sender: Address, newKey: Address, next: Address, secret: Secret, signed: bool)
    | AddressReveal(sender: Address, newKey: Address, next: Address, spare: Address, oldPub: Secret, signed: bool)
  {
    function Opens(): Secret { if SecretReveal? then secret else oldPub }

    function Payload(): Digest {
      if SecretReveal? then PayloadOf(sender, newKey, next, secret)
      else OpenPayloadOf(sender, newKey, next, spare, oldPub)
    }

    function Key(): Digest { BindKeyOf(sender, TagOf(Opens())) }
  }

  /** What a block does that concerns recovery. RegisterOp is a registration that takes effect: an
      ordinary account's when it is included, that of an escrow or multisig account when it
      settles. HoldOp is the inclusion of such a one. */
  datatype Op =
    | BindOp(identity: Address, tag: Digest, payload: Digest)
    | RevealOp(r: Reveal)
    | RegisterOp(sender: Address, spare: Commit, recovery: Commit)
    | HoldOp(sender: Address)
  {
    function Sender(): Address {
      match this
      case BindOp(identity, _, _) => identity
      case RevealOp(r) => r.sender
      case RegisterOp(a, _, _) => a
      case HoldOp(a) => a
    }

    /** Changes no account's commitments. */
    predicate Silent() { BindOp? || HoldOp? }
  }

  /** `broken` says that the block marks a signature scheme as broken. */
  datatype Block = Block(ops: seq<Op>, height: int, broken: bool)

  /** What VoidPendingRecoveryCommits leaves of an account. */
  function Voided(f: Fields, height: int): Fields {
    if f.sparePending == 0 && f.recoveryPending == 0 then f
    else Fields(EffectiveSpare(f, height), EffectiveRecovery(f, height), 0, 0, 0)
  }

  /** What a reveal leaves of its account. */
  function AfterReveal(f: Fields, r: Reveal, height: int): Fields {
    if r.SecretReveal? then
      f.(recovery := r.next, recoveryPending := 0, pendingHeight := if f.sparePending == 0 then 0 else f.pendingHeight)
    else Commitments.Registered(f, r.spare, r.next, height)
  }

  /** Both are what the history of the account demands. */
  lemma {:induction false} RevealFollowsHistory(f: Fields, es: seq<Event>, r: Reveal, height: int)
    requires Tracks(f, es) && LastHeight(es) <= height && 0 <= height
    ensures Tracks(AfterReveal(f, r, height),
                   es + [if r.SecretReveal? then Event.Reveal(r.next, height) else Event.Register(r.spare, r.next, height)])
  {
    if r.SecretReveal? { RevealTracks(f, es, r.next, height); } else { RegisterTracks(f, es, r.spare, r.next, height); }
  }

  lemma {:induction false} VoidingFollowsHistory(f: Fields, es: seq<Event>, height: int)
    requires Tracks(f, es) && LastHeight(es) <= height && 0 <= height
    ensures Tracks(Voided(f, height), es + [Break(height)])
  {
    BreakTracks(f, es, height);
  }

  /** The block has a reveal that opens bind k. */
  predicate Uses(ops: seq<Op>, k: Digest, payload: Digest) {
    exists i :: 0 <= i < |ops| && ops[i].RevealOp? && ops[i].r.Key() == k && ops[i].r.Payload() == payload
  }

  /** Op i reveals, and nothing after it in the block concerns the same account. */
  predicate LastWord(ops: seq<Op>, i: nat) {
    i < |ops| && ops[i].RevealOp? && forall j :: i < j < |ops| ==> ops[j].Silent() || ops[j].Sender() != ops[i].r.sender
  }

  /** The account is as the reveal says. */
  predicate Follows(accounts: map<Address, Fields>, r: Reveal, height: int) {
    && r.sender in accounts && EffectiveRecovery(accounts[r.sender], height) == r.next
    && (r.AddressReveal? ==> EffectiveSpare(accounts[r.sender], height) == r.spare)
  }

  /** Every account that a reveal has the last word on is as that reveal says. */
  ghost predicate AllFollow(ops: seq<Op>, accounts: map<Address, Fields>, height: int) {
    forall i: nat | LastWord(ops, i) :: Follows(accounts, ops[i].r, height)
  }

  /** Unused binds of the parent are still there, and only this block's binds are new. */
  ghost predicate BindsKept(parent: map<Digest, Bind>, binds: map<Digest, Bind>, ops: seq<Op>, height: int) {
    && (forall k :: k in parent && !Uses(ops, k, parent[k].payload) ==> k in binds && binds[k] == parent[k])
    && (forall k :: k in binds && k !in parent ==> binds[k].height == height)
  }

  /** The check that is repeated when a reveal is applied. */
  predicate StillOpens(accounts: map<Address, Fields>, r: Reveal, height: int) {
    && r.sender in accounts
    && (if r.SecretReveal? then CommitmentOf(r.secret) == EffectiveRecovery(accounts[r.sender], height)
        else !HasCommitments(accounts[r.sender]))
  }

  /** Some operation reveals the key k of a. */
  predicate RevealsKey(ops: seq<Op>, a: Address, k: Address) {
    exists op :: op in ops && op.RevealOp? && op.r.sender == a && op.r.newKey == k
  }

  /** Who may reveal: the new key signed and is nobody's yet. A secret is the one committed to and in
      force; an address is opened by the key it was derived from, and only if it never had another
      key or a commitment. */
  ghost predicate Entitled(r: Reveal, accounts: map<Address, Fields>, keys: map<Address, set<Address>>, height: int) {
    && r.signed && (forall a :: a in keys ==> r.newKey !in keys[a]) && r.sender in accounts
    && match r
       case SecretReveal(sender, _, _, secret, _) =>
         EffectiveRecovery(accounts[sender], height) != 0 && CommitmentOf(secret) == EffectiveRecovery(accounts[sender], height)
       case AddressReveal(sender, _, _, _, oldPub, _) =>
         && KeyAddress(oldPub) == sender && (sender in keys ==> keys[sender] == {})
         && var f := accounts[sender]; f.spare == 0 && f.recovery == 0 && f.sparePending == 0 && f.recoveryPending == 0
  }

  /** What was bound: this reveal in every detail, by its sender, long enough and not too long ago. */
  ghost predicate Bound(r: Reveal, binds: map<Digest, Bind>, height: int) {
    var k := match r
             case SecretReveal(sender, _, _, secret, _) => BindKeyOf(sender, TagOf(secret))
             case AddressReveal(sender, _, _, _, oldPub, _) => BindKeyOf(sender, TagOf(oldPub));
    && k in binds && binds[k].identity == r.sender && 360 <= height - binds[k].height <= 120960
    && binds[k].payload == match r
                           case SecretReveal(sender, newKey, next, secret, _) => PayloadOf(sender, newKey, next, secret)
                           case AddressReveal(sender, newKey, next, spare, oldPub, _) => OpenPayloadOf(sender, newKey, next, spare, oldPub)
  }

  class State {
    var accounts: map<Address, Fields>
    var keys: map<Address, set<Address>>      // keys registered under an identity
    var binds: map<Digest, Bind>

    constructor (accounts: map<Address, Fields>)
      ensures this.accounts == accounts && keys == map[] && binds == map[]
    {
      this.accounts, keys, binds := accounts, map[], map[];
    }

    function KeysOf(a: Address): set<Address>
      reads `keys
    {
      if a in keys then keys[a] else {}
    }

    predicate Registered(k: Address)
      reads `keys
    {
      exists a :: a in keys && k in keys[a]
    }

    /** AddRecoveryBind: the first bind per key is kept. */
    method AddBind(identity: Address, tag: Digest, payload: Digest, height: int) returns (added: bool)
      modifies `binds
      ensures added <==> BindKeyOf(identity, tag) !in old(binds)
      ensures binds == if added then old(binds)[BindKeyOf(identity, tag) := Bind(identity, payload, height)] else old(binds)
    {
      var key := BindKeyOf(identity, tag);
      if key in binds { return false; }
      binds := binds[key := Bind(identity, payload, height)];
      return true;
    }

    /** PruneRecoveryBinds: exactly the expired binds go. */
    method PruneBinds(height: int)
      modifies `binds
      ensures forall k :: k in binds <==> k in old(binds) && height <= old(binds)[k].height + BIND_EXPIRY_BLOCKS
      ensures forall k :: k in binds ==> binds[k] == old(binds)[k]
    {
      var todo := binds.Keys;
      while todo != {}
        invariant todo <= old(binds).Keys
        invariant forall k :: k in binds <==> k in old(binds) && (k in todo || height <= old(binds)[k].height + BIND_EXPIRY_BLOCKS)
        invariant forall k :: k in binds ==> binds[k] == old(binds)[k]
        decreases todo
      {
        var k := Pick(todo);
        todo := todo - {k};
        if height > binds[k].height + BIND_EXPIRY_BLOCKS { binds := binds - {k}; }
      }
    }

    /** verifyRecoveryReveal, against the parent state and for a block at `height`. */
    predicate Accepts(r: Reveal, height: int)
      reads this
    {
      && r.signed && !Registered(r.newKey) && r.sender in accounts
      && (if r.SecretReveal? then
            var want := EffectiveRecovery(accounts[r.sender], height);
            want != 0 && CommitmentOf(r.secret) == want
          else
            KeysOf(r.sender) == {} && !HasCommitments(accounts[r.sender]) && KeyAddress(r.oldPub) == r.sender)
      && r.Key() in binds && binds[r.Key()].identity == r.sender
      && binds[r.Key()].height + BIND_DELAY_BLOCKS <= height <= binds[r.Key()].height + BIND_EXPIRY_BLOCKS
      && r.Payload() == binds[r.Key()].payload
    }

    /** processRecoveryTransaction: the account is looked at again, in the state the block has
        built so far; the bind is not. */
    method ApplyOp(op: Op, height: int) returns (ok: bool)
      modifies `accounts, `binds
      ensures ok <==>
                match op
                case BindOp(_, _, _) => true
                case RegisterOp(a, _, _) => a in old(accounts)
                case HoldOp(a) => a in old(accounts)
                case RevealOp(r) => StillOpens(old(accounts), r, height)
      ensures ok ==>
                match op
                case BindOp(id, tag, payload) =>
                  && accounts == old(accounts)
                  && binds == if BindKeyOf(id, tag) in old(binds) then old(binds) else old(binds)[BindKeyOf(id, tag) := Bind(id, payload, height)]
                case RegisterOp(a, spare, recovery) =>
                  binds == old(binds) && accounts == old(accounts)[a := Commitments.Registered(old(accounts)[a], spare, recovery, height)]
                case HoldOp(_) => binds == old(binds) && accounts == old(accounts)
                case RevealOp(r) =>
                  binds == old(binds) - {r.Key()} && accounts == old(accounts)[r.sender := AfterReveal(old(accounts)[r.sender], r, height)]
    {
      match op {
        case BindOp(identity, tag, payload) =>
          var _ := AddBind(identity, tag, payload, height);
        case RegisterOp(a, spare, recovery) =>
          if a !in accounts { return false; }
          accounts := accounts[a := Commitments.Registered(accounts[a], spare, recovery, height)];
        case HoldOp(a) =>
          if a !in accounts { return false; }
        case RevealOp(r) =>
          if r.sender !in accounts { return false; }
          var f := accounts[r.sender];
          if r.SecretReveal? && CommitmentOf(r.secret) != EffectiveRecovery(f, height) { return false; }
          if r.AddressReveal? && HasCommitments(f) { return false; }
          accounts := accounts[r.sender := AfterReveal(f, r, height)];
          binds := binds - {r.Key()};
      }
      return true;
    }

    /** One block: every reveal is verified against the parent, the revealed keys are registered,
        the operations are applied in order, expired binds go, and a broken scheme voids what is
        pending. A block that fails leaves no trace. */
    method ApplyBlock(b: Block) returns (ok: bool)
      modifies this
      ensures !ok ==> accounts == old(accounts) && keys == old(keys) && binds == old(binds)
      ensures ok ==> forall op :: op in b.ops && op.RevealOp? ==> old(Accepts(op.r, b.height)) && op.r.newKey in KeysOf(op.r.sender)
      ensures ok ==> forall op :: op in b.ops && op.RevealOp? ==>
                Entitled(op.r, old(accounts), old(keys), b.height) && Bound(op.r, old(binds), b.height)
      ensures ok ==> forall a, k :: k in KeysOf(a) <==> k in old(KeysOf(a)) || RevealsKey(b.ops, a, k)
      ensures ok ==> AllFollow(b.ops, accounts, b.height)
      ensures |b.ops| == 1 && b.ops[0].RevealOp? ==> (ok <==> old(Accepts(b.ops[0].r, b.height)))
      ensures forall k :: k in old(binds) && b.height <= old(binds)[k].height + BIND_EXPIRY_BLOCKS && !Uses(b.ops, k, old(binds)[k].payload)
                ==> k in binds && binds[k] == old(binds)[k]
      ensures ok ==> forall k :: k in binds && k !in old(binds) ==> binds[k].height == b.height
    {
      hide EffectiveRecovery, EffectiveSpare, Entitled, Bound;
      var a, ks, bs := accounts, keys, binds;
      ok := VerifyAll(b);
      if !ok { return; }
      forall op | op in b.ops && op.RevealOp? ensures Entitled(op.r, accounts, keys, b.height) && Bound(op.r, binds, b.height) {
        AcceptedMeans(op.r, b.height);
      }
      RegisterKeys(b.ops);
      ok := ApplyOps(b);
      if !ok {
        accounts, keys, binds := a, ks, bs;
        return;
      }
      PruneBinds(b.height);
      if b.broken {
        ghost var before := accounts;
        accounts := map x | x in accounts :: Voided(accounts[x], b.height);
        VoidingKeeps(before, accounts, b);
      }
    }

    /** Accepted is who is entitled and did bind. */
    lemma AcceptedMeans(r: Reveal, height: int)
      ensures Accepts(r, height) <==> Entitled(r, accounts, keys, height) && Bound(r, binds, height)
    {
      hide EffectiveRecovery;
    }

    method VerifyAll(b: Block) returns (ok: bool)
      ensures ok <==> forall op :: op in b.ops && op.RevealOp? ==> Accepts(op.r, b.height)
    {
      hide Accepts;
      for i := 0 to |b.ops|
        invariant forall j :: 0 <= j < i && b.ops[j].RevealOp? ==> Accepts(b.ops[j].r, b.height)
      {
        if b.ops[i].RevealOp? && !Accepts(b.ops[i].r, b.height) {
          assert b.ops[i] in b.ops;
          return false;
        }
      }
      return true;
    }

    /** ProcessBlockPubKey, as far as reveals are concerned. */
    method RegisterKeys(ops: seq<Op>)
      modifies `keys
      ensures forall op :: op in ops && op.RevealOp? ==> op.r.newKey in KeysOf(op.r.sender)
      ensures forall a, k :: k in KeysOf(a) <==> k in old(KeysOf(a)) || RevealsKey(ops, a, k)
    {
      for i := 0 to |ops|
        invariant forall j :: 0 <= j < i && ops[j].RevealOp? ==> ops[j].r.newKey in KeysOf(ops[j].r.sender)
        invariant forall a, k :: k in KeysOf(a) <==> k in old(KeysOf(a)) || RevealsKey(ops[..i], a, k)
      {
        assert ops[..i + 1] == ops[..i] + [ops[i]];
        if ops[i].RevealOp? {
          var r := ops[i].r;
          keys := keys[r.sender := KeysOf(r.sender) + {r.newKey}];
        }
      }
    }

    /** Every reveal has been verified against the binds as they are. */
    method ApplyOps(b: Block) returns (ok: bool)
      requires forall op :: op in b.ops && op.RevealOp? ==> op.r.Key() in binds && binds[op.r.Key()].payload == op.r.Payload()
      modifies `accounts, `binds
      ensures ok ==> AllFollow(b.ops, accounts, b.height) && BindsKept(old(binds), binds, b.ops, b.height)
      ensures |b.ops| == 1 && b.ops[0].RevealOp? && StillOpens(old(accounts), b.ops[0].r, b.height) ==> ok
    {
      hide EffectiveRecovery, EffectiveSpare, AllFollow, BindsKept;
      ghost var parent := binds;
      ok := true;
      Unstarted(b, accounts, parent);
      for i := 0 to |b.ops|
        invariant ok && AllFollow(b.ops[..i], accounts, b.height) && BindsKept(parent, binds, b.ops, b.height)
        invariant i == 0 ==> accounts == old(accounts)
      {
        ghost var before, stored := accounts, binds;
        ok := ApplyOp(b.ops[i], b.height);
        if !ok { return; }
        WordKept(b.ops, i, before, accounts, b.height);
        BindsStep(parent, stored, binds, b, i);
      }
      assert b.ops[..|b.ops|] == b.ops;
    }

    /** A run of blocks. A bind that is not used stays as it is until it expires, whatever else
        is bound, revealed - also of the same secret, with another key - or registered. */
    method Run(blocks: seq<Block>, ghost k: Digest)
      modifies this
      ensures k in old(binds)
              && (forall i :: 0 <= i < |blocks| ==> blocks[i].height <= old(binds)[k].height + BIND_EXPIRY_BLOCKS)
              && (forall i :: 0 <= i < |blocks| ==> !Uses(blocks[i].ops, k, old(binds)[k].payload))
              ==> k in binds && binds[k] == old(binds)[k]
    {
      ghost var kept := k in binds
        && (forall i :: 0 <= i < |blocks| ==> blocks[i].height <= binds[k].height + BIND_EXPIRY_BLOCKS)
        && (forall i :: 0 <= i < |blocks| ==> !Uses(blocks[i].ops, k, binds[k].payload));
      ghost var first := if k in binds then binds[k] else Bind(0, k, 0);
      for i := 0 to |blocks|
        invariant kept ==> k in binds && binds[k] == first
      {
        var _ := ApplyBlock(blocks[i]);
      }
    }

    /** Only what the first bind named can be revealed: after a first bind and any run of blocks
        that do not use it, a block with a reveal of that secret is accepted only if the bind
        named all that the reveal says, at least the delay and at most the expiry ago; and then
        the identity has that key and those commitments. */
    method FirstBindDecides(identity: Address, secret: Secret, payload: Digest, height: int, blocks: seq<Block>, b: Block, ghost i: nat)
        returns (ok: bool)
      requires BindKeyOf(identity, TagOf(secret)) !in binds
      requires forall j :: 0 <= j < |blocks| ==>
                 blocks[j].height <= height + BIND_EXPIRY_BLOCKS && !Uses(blocks[j].ops, BindKeyOf(identity, TagOf(secret)), payload)
      requires i < |b.ops| && b.ops[i].RevealOp? && b.ops[i].r.sender == identity && b.ops[i].r.Opens() == secret
      modifies this
      ensures ok ==> b.ops[i].r.Payload() == payload && height + BIND_DELAY_BLOCKS <= b.height <= height + BIND_EXPIRY_BLOCKS
      ensures ok ==> b.ops[i].r.signed && (b.ops[i].r.AddressReveal? ==> KeyAddress(secret) == identity)
      ensures ok ==> payload.PayloadOf? || payload.OpenPayloadOf?
      ensures ok && payload.PayloadOf? ==>
                && b.ops[i].r.SecretReveal? && payload.identity == identity && payload.newKey in KeysOf(identity)
                && (LastWord(b.ops, i) ==> identity in accounts && EffectiveRecovery(accounts[identity], b.height) == payload.next)
      ensures ok && payload.OpenPayloadOf? ==>
                && b.ops[i].r.AddressReveal? && payload.identity == identity && payload.newKey in KeysOf(identity)
                && (LastWord(b.ops, i) ==>
                      && identity in accounts && EffectiveRecovery(accounts[identity], b.height) == payload.next
                      && EffectiveSpare(accounts[identity], b.height) == payload.spare)
    {
      hide EffectiveRecovery, EffectiveSpare;
      var _ := AddBind(identity, TagOf(secret), payload, height);
      Run(blocks, BindKeyOf(identity, TagOf(secret)));
      ok := ApplyBlock(b);
      assert ok ==> b.ops[i] in b.ops;
    }
  }

  /** Voiding keeps what is in force. */
  lemma VoidingKeeps(before: map<Address, Fields>, after: map<Address, Fields>, b: Block)
    requires after.Keys == before.Keys && forall x :: x in before ==> after[x] == Voided(before[x], b.height)
    ensures forall r: Reveal :: Follows(before, r, b.height) ==> Follows(after, r, b.height)
  {
  }

  lemma Unstarted(b: Block, accounts: map<Address, Fields>, binds: map<Digest, Bind>)
    ensures AllFollow(b.ops[..0], accounts, b.height) && BindsKept(binds, binds, b.ops, b.height)
  {
  }

  lemma {:induction false} BindsStep(parent: map<Digest, Bind>, before: map<Digest, Bind>, after: map<Digest, Bind>, b: Block, i: nat)
    requires i < |b.ops| && BindsKept(parent, before, b.ops, b.height)
    requires forall op :: op in b.ops && op.RevealOp? ==> op.r.Key() in parent && parent[op.r.Key()].payload == op.r.Payload()
    requires match b.ops[i]
             case BindOp(id, tag, payload) =>
               after == if BindKeyOf(id, tag) in before then before else before[BindKeyOf(id, tag) := Bind(id, payload, b.height)]
             case RegisterOp(_, _, _) => after == before
             case HoldOp(_) => after == before
             case RevealOp(r) => after == before - {r.Key()}
    ensures BindsKept(parent, after, b.ops, b.height)
  {
    forall k | k in parent && !Uses(b.ops, k, parent[k].payload) ensures k in after && after[k] == parent[k] {
      if b.ops[i].RevealOp? { assert b.ops[i] in b.ops; }
    }
  }

  /** A later operation of another account, or a bind, leaves a reveal's account alone. */
  lemma {:induction false} WordKept(ops: seq<Op>, i: nat, before: map<Address, Fields>, after: map<Address, Fields>, height: int)
    requires i < |ops|
    requires AllFollow(ops[..i], before, height)
    requires ops[i].Silent() ==> after == before
    requires !ops[i].Silent() ==> ops[i].Sender() in after && after == before[ops[i].Sender() := after[ops[i].Sender()]]
    requires ops[i].RevealOp? ==>
               && ops[i].r.sender in before && (ops[i].r.AddressReveal? ==> !HasCommitments(before[ops[i].r.sender]))
               && after[ops[i].r.sender] == AfterReveal(before[ops[i].r.sender], ops[i].r, height)
    ensures AllFollow(ops[..i + 1], after, height)
  {
    var now := ops[..i + 1];
    forall j: nat | LastWord(now, j) ensures Follows(after, now[j].r, height) {
      if j < i {
        assert now[i] == ops[i];
        assert LastWord(ops[..i], j) by {
          forall m | j < m < i ensures ops[..i][m].Silent() || ops[..i][m].Sender() != ops[..i][j].r.sender {
            assert now[m] == ops[..i][m];
          }
        }
      }
    }
  }
}
