/** The two signature-scheme slots of a block header and the rules for changing them
    (blocks/encryptionVote.go, blocks/processEncryption.go, blocks/baseBlock.go). */
module Schemes {
  import opened Basics
  import opened Nonces

  datatype Config = Config(name: string, paused: bool, keyLength: nat)

  datatype Header = Header(slot1: seq<byte>, slot2: seq<byte>)

  /** How slot bytes are read: `parse` accepts exactly the encodings of valid configs; an
      empty slot stands for the node's own config. */
  datatype Reader = Reader(parse: seq<byte> -> Result<Config>, own1: Config, own2: Config)

  function Slot(h: Header, primary: bool): seq<byte> {
    if primary then h.slot1 else h.slot2
  }

  function ReadSlot(r: Reader, h: Header, primary: bool): Result<Config> {
    if Slot(h, primary) == [] then Ok(if primary then r.own1 else r.own2)
    else r.parse(Slot(h, primary))
  }

  /** parentSlotConfig: the secondary is paused exactly when the primary is not, whatever
      its own flag says. */
  function SlotConfig(r: Reader, h: Header, primary: bool): Result<Config> {
    var c := ReadSlot(r, h, primary);
    if primary || c.Err? then c
    else
      var first := ReadSlot(r, h, true);
      if first.Err? then Err else Ok(c.value.(paused := !first.value.paused))
  }

  /** checkEncryptionChangeShape: an error, or whether the slot proposes a change. */
  function CheckShape(r: Reader, bytes: seq<byte>, parent: Header, primary: bool): Result<bool> {
    if bytes == Slot(parent, primary) then Ok(false)
    else
      var next, cur, other := r.parse(bytes), SlotConfig(r, parent, primary), SlotConfig(r, parent, !primary);
      if next.Err? || cur.Err? then Err
      else if next.value.name == cur.value.name && next.value.paused == cur.value.paused then Ok(false)
      else if other.Err? || next.value.name == other.value.name then Err
      else if next.value.name != cur.value.name && (!cur.value.paused || !next.value.paused) then Err
      else Ok(true)
  }

  // ---------------------------------------------------------------- one block

  /** Both slots of the child pass against the parent. */
  predicate Follows(r: Reader, parent: Header, child: Header) {
    CheckShape(r, child.slot1, parent, true).Ok? && CheckShape(r, child.slot2, parent, false).Ok?
  }

  predicate Readable(r: Reader, h: Header) {
    ReadSlot(r, h, true).Ok? && ReadSlot(r, h, false).Ok?
  }

  function Name(r: Reader, h: Header, primary: bool): string
    requires Readable(r, h)
  {
    ReadSlot(r, h, primary).value.name
  }

  predicate PrimaryLive(r: Reader, h: Header)
    requires Readable(r, h)
  {
    !ReadSlot(r, h, true).value.paused
  }

  /** The scheme that signs the blocks after this header. */
  function Live(r: Reader, h: Header): string
    requires Readable(r, h)
  {
    Name(r, h, PrimaryLive(r, h))
  }

  predicate Distinct(r: Reader, h: Header)
    requires Readable(r, h)
  {
    Name(r, h, true) != Name(r, h, false)
  }

  predicate Changed(r: Reader, parent: Header, child: Header, primary: bool) {
    CheckShape(r, Slot(child, primary), parent, primary) == Ok(true)
  }

  /** An empty slot is not a readable config, so it can only be inherited. */
  ghost predicate ValidReader(r: Reader) {
    r.parse([]).Err?
  }

  /** Only the paused slot can be renamed, and it is renamed to a scheme of neither slot. */
  lemma RenamingASlot(r: Reader, parent: Header, child: Header, primary: bool)
    requires ValidReader(r) && Readable(r, parent) && Follows(r, parent, child)
    ensures ReadSlot(r, child, primary).Ok?
    ensures ReadSlot(r, child, primary).value.name != Name(r, parent, primary) ==>
      && primary != PrimaryLive(r, parent)
      && ReadSlot(r, child, primary).value.name != Name(r, parent, !primary)
      && ReadSlot(r, child, primary).value.paused
      && Changed(r, parent, child, primary)
  {
  }

  /** A block keeps the two schemes apart, even when it changes both slots. */
  lemma StaysDistinct(r: Reader, parent: Header, child: Header)
    requires ValidReader(r) && Readable(r, parent) && Distinct(r, parent) && Follows(r, parent, child)
    ensures Readable(r, child) && Distinct(r, child)
  {
    RenamingASlot(r, parent, child, true);
    RenamingASlot(r, parent, child, false);
  }

  /** A live primary is the parent's primary. */
  lemma LivePrimaryIsOld(r: Reader, parent: Header, child: Header)
    requires ValidReader(r) && Readable(r, parent) && Follows(r, parent, child)
    ensures Readable(r, child)
    ensures PrimaryLive(r, child) ==> Name(r, child, true) == Name(r, parent, true)
  {
    RenamingASlot(r, parent, child, true);
    RenamingASlot(r, parent, child, false);
  }

  /** A block that pauses the live primary and renames the spare at once. */
  predicate PausesAndRenames(r: Reader, parent: Header, child: Header)
    requires Readable(r, parent) && Readable(r, child)
  {
    PrimaryLive(r, parent) && !PrimaryLive(r, child) && Name(r, child, false) != Name(r, parent, false)
  }

  /** The live scheme is one of the parent's two unless the block both pauses the primary and
      renames the spare, which needs a change of both slots. */
  lemma LiveSchemeIsKnown(r: Reader, parent: Header, child: Header)
    requires ValidReader(r) && Readable(r, parent) && Follows(r, parent, child)
    ensures Readable(r, child)
    ensures Live(r, child) in {Name(r, parent, true), Name(r, parent, false)} <==> !PausesAndRenames(r, parent, child)
    ensures PausesAndRenames(r, parent, child) ==> Changed(r, parent, child, true) && Changed(r, parent, child, false)
  {
    RenamingASlot(r, parent, child, true);
    RenamingASlot(r, parent, child, false);
  }

  /** Such a block passes the rules for both slots: A and B are the schemes of the parent, C signs
      next, and its operator needs a key of B, not of C. */
  lemma NewSchemeGoesLive(a: Config, b: Config, c: Config, r: Reader, op: nat, byParent: KeyTest, now: KeyTest)
    requires a.name != b.name && c.name != a.name && c.name != b.name && !a.paused && b.paused && c.paused
    requires r.parse([1]) == Ok(a) && r.parse([2]) == Ok(b) && r.parse([3]) == Ok(c)
    requires r.parse([4]) == Ok(a.(paused := true))
    ensures Follows(r, Header([1], [2]), Header([4], [3]))
    ensures Admissible(r, Header([1], [2]), Header([4], [3]), op, byParent, now) <==> now(op, false, b.keyLength)
    ensures Live(r, Header([1], [2])) == a.name && Live(r, Header([4], [3])) == c.name
  {
    var parent := Header([1], [2]);
    assert [4][0] != [1][0] && [3][0] != [2][0];
    assert ReadSlot(r, parent, true) == Ok(a);
  }

  // ---------------------------------------------------------------- the key of the live scheme

  /** Whether an address has registered a primary or secondary key of some length. */
  type KeyTest = (nat, bool, nat) -> bool

  predicate IsUnpause(cur: Config, next: Config) {
    next.name == cur.name && cur.paused && !next.paused
  }

  predicate IsPause(cur: Config, next: Config) {
    next.name == cur.name && !cur.paused && next.paused
  }

  /** checkPauseLeavesRegisteredKey: the operator of a block that un-pauses a scheme had a key of it
      by the parent block; the operator of one that pauses a scheme has a key of the
      other scheme. */
  predicate KeyReady(r: Reader, parent: Header, child: Header, primary: bool, op: nat, byParent: KeyTest, now: KeyTest) {
    var next, cur, other := r.parse(Slot(child, primary)), SlotConfig(r, parent, primary), SlotConfig(r, parent, !primary);
    && next.Ok? && cur.Ok?
    && (IsUnpause(cur.value, next.value) ==> byParent(op, primary, next.value.keyLength))
    && (IsPause(cur.value, next.value) ==> other.Ok? && now(op, !primary, other.value.keyLength))
  }

  /** What CheckBaseBlock asks of both slots. */
  predicate Admissible(r: Reader, parent: Header, child: Header, op: nat, byParent: KeyTest, now: KeyTest) {
    && Follows(r, parent, child)
    && (Changed(r, parent, child, true) ==> KeyReady(r, parent, child, true, op, byParent, now))
    && (Changed(r, parent, child, false) ==> KeyReady(r, parent, child, false, op, byParent, now))
  }

  function KeyLength(r: Reader, h: Header, primary: bool): nat
    requires Readable(r, h)
  {
    ReadSlot(r, h, primary).value.keyLength
  }

  /** What both slots ask of the operator: a slot that is switched on under its name, a key of it by the
      parent block; one that is switched off, a key of the other. */
  lemma KeyRules(r: Reader, parent: Header, child: Header, primary: bool, op: nat, byParent: KeyTest, now: KeyTest)
    requires ValidReader(r) && Readable(r, parent) && Admissible(r, parent, child, op, byParent, now) && Changed(r, parent, child, primary)
    requires ReadSlot(r, child, primary).Ok? && ReadSlot(r, child, primary).value.name == Name(r, parent, primary)
    ensures if ReadSlot(r, child, primary).value.paused then now(op, !primary, KeyLength(r, parent, !primary))
            else byParent(op, primary, ReadSlot(r, child, primary).value.keyLength)
  {
  }

  /** When the primary goes live, the operator had a key of it by the parent block. */
  lemma UnpausedByHolder(r: Reader, parent: Header, child: Header, op: nat, byParent: KeyTest, now: KeyTest)
    requires ValidReader(r) && Readable(r, parent) && Readable(r, child) && Admissible(r, parent, child, op, byParent, now)
    requires !PrimaryLive(r, parent) && PrimaryLive(r, child)
    ensures byParent(op, true, KeyLength(r, child, true))
  {
    RenamingASlot(r, parent, child, true);
  }

  /** When the primary is paused, the operator has a key of the parent's spare. */
  lemma PausedByHolder(r: Reader, parent: Header, child: Header, op: nat, byParent: KeyTest, now: KeyTest)
    requires ValidReader(r) && Readable(r, parent) && Readable(r, child) && Admissible(r, parent, child, op, byParent, now)
    requires PrimaryLive(r, parent) && !PrimaryLive(r, child)
    ensures now(op, false, KeyLength(r, parent, false))
  {
    RenamingASlot(r, parent, child, true);
  }

  /** That is sure to be a key of the scheme that signs next exactly when the keys of both schemes
      have the same length. */
  lemma {:induction false} NextKeyIsHeld(r: Reader, parent: Header, child: Header)
    requires ValidReader(r) && Readable(r, parent) && Readable(r, child) && Follows(r, parent, child)
    requires PrimaryLive(r, parent) && !PrimaryLive(r, child)
    ensures (forall op: nat, byParent: KeyTest, now: KeyTest :: Admissible(r, parent, child, op, byParent, now) ==> now(op, false, KeyLength(r, child, false)))
            <==> KeyLength(r, child, false) == KeyLength(r, parent, false)
  {
    var have, need := KeyLength(r, parent, false), KeyLength(r, child, false);
    if have == need {
      forall op: nat, byParent: KeyTest, now: KeyTest | Admissible(r, parent, child, op, byParent, now) ensures now(op, false, need) {
        PausedByHolder(r, parent, child, op, byParent, now);
      }
    } else {
      RenamingASlot(r, parent, child, false);
      var byParent: KeyTest := (op, primary, length) => true;
      var now: KeyTest := (op, primary, length) => !primary && length == have;
      assert Admissible(r, parent, child, 0, byParent, now) && !now(0, false, need);
    }
  }

  /** A scheme has one key length. */
  ghost predicate OneLengthEach(r: Reader, parent: Header, child: Header)
    requires Readable(r, parent) && Readable(r, child)
  {
    Name(r, child, false) == Name(r, parent, false) ==> KeyLength(r, child, false) == KeyLength(r, parent, false)
  }

  /** So it is, unless the block renames the spare as well. */
  lemma NextKeyUnlessRenamed(r: Reader, parent: Header, child: Header, op: nat, byParent: KeyTest, now: KeyTest)
    requires ValidReader(r) && Readable(r, parent) && Readable(r, child) && OneLengthEach(r, parent, child)
    requires Admissible(r, parent, child, op, byParent, now) && PrimaryLive(r, parent) && !PrimaryLive(r, child)
    ensures !PausesAndRenames(r, parent, child) ==> now(op, false, KeyLength(r, child, false))
  {
    PausedByHolder(r, parent, child, op, byParent, now);
  }

  // ---------------------------------------------------------------- whole chains

  ghost predicate Chain(r: Reader, chain: seq<Header>) {
    forall i :: 0 < i < |chain| ==> Follows(r, chain[i - 1], chain[i])
  }

  /** In a chain from a header with two schemes every header has two, and exactly one of them live. */
  lemma {:induction false} ChainKeepsTwoSchemes(r: Reader, chain: seq<Header>, i: nat)
    requires ValidReader(r) && Chain(r, chain) && i < |chain|
    requires Readable(r, chain[0]) && Distinct(r, chain[0])
    ensures Readable(r, chain[i]) && Distinct(r, chain[i])
    ensures i > 0 ==> Readable(r, chain[i - 1])
    ensures i > 0 && PrimaryLive(r, chain[i]) ==> Name(r, chain[i], true) == Name(r, chain[i - 1], true)
    ensures i > 0 && !PausesAndRenames(r, chain[i - 1], chain[i]) ==>
      Live(r, chain[i]) in {Name(r, chain[i - 1], true), Name(r, chain[i - 1], false)}
  {
    hide Follows, Distinct, PrimaryLive, Live, Name, Readable, PausesAndRenames;
    if i > 0 {
      ChainKeepsTwoSchemes(r, chain, i - 1);
      StaysDistinct(r, chain[i - 1], chain[i]);
      LivePrimaryIsOld(r, chain[i - 1], chain[i]);
      LiveSchemeIsKnown(r, chain[i - 1], chain[i]);
    }
  }
}
