/** Spare and recovery commitments of an account (account/recovery.go) and what holds of
    them over every run of registrations, reveals and scheme breaks. */
module Commitments {

  const MATURITY_BLOCKS := 60480

  /** A commitment is an address; zero means there is none. */
  type Commit = nat

  /** The five fields of an account that concern recovery. */
  datatype Fields = Fields(spare: Commit, recovery: Commit, sparePending: Commit, recoveryPending: Commit, pendingHeight: int)

  const NO_COMMITMENTS := Fields(0, 0, 0, 0, 0)

  predicate Matured(pendingHeight: int, height: int) {
    height >= pendingHeight + MATURITY_BLOCKS
  }

  function EffectiveRecovery(f: Fields, height: int): Commit {
    if f.recoveryPending != 0 && Matured(f.pendingHeight, height) then f.recoveryPending else f.recovery
  }

  function EffectiveSpare(f: Fields, height: int): Commit {
    if f.sparePending != 0 && Matured(f.pendingHeight, height) then f.sparePending else f.spare
  }

  predicate HasCommitments(f: Fields) {
    f.recovery != 0 || f.recoveryPending != 0 || f.spare != 0 || f.sparePending != 0
  }

  class Account {
    var spare: Commit
    var recovery: Commit
    var sparePending: Commit
    var recoveryPending: Commit
    var pendingHeight: int
    ghost var history: seq<Event>

    function Value(): Fields
      reads this
    {
      Fields(spare, recovery, sparePending, recoveryPending, pendingHeight)
    }

    /** The fields say exactly what the history of the account demands. */
    ghost predicate Valid()
      reads this
    {
      Tracks(Value(), history)
    }

    constructor ()
      ensures Valid() && Value() == NO_COMMITMENTS && history == []
    {
      spare, recovery, sparePending, recoveryPending, pendingHeight := 0, 0, 0, 0, 0;
      history := [];
    }

    /** promoteMatured: what has matured becomes active, at that height without any effect. */
    method PromoteMatured(height: int)
      modifies this
      ensures history == old(history)
      ensures !Matured(old(pendingHeight), height) ==> unchanged(this)
      ensures Matured(old(pendingHeight), height) ==>
                Value() == Fields(EffectiveSpare(old(Value()), height), EffectiveRecovery(old(Value()), height), 0, 0, 0)
    {
      if !Matured(pendingHeight, height) { return; }
      if recoveryPending != 0 { recovery := recoveryPending; }
      if sparePending != 0 { spare := sparePending; }
      recoveryPending, sparePending, pendingHeight := 0, 0, 0;
    }

    /** SetCommitments, for a registration or for the opening of an address. */
    method SetCommitments(newSpare: Commit, newRecovery: Commit, height: int)
      requires Valid() && LastHeight(history) <= height && 0 <= height
      modifies this
      ensures Valid() && history == old(history) + [Register(newSpare, newRecovery, height)]
      ensures !old(HasCommitments(Value())) ==> Value() == old(Value()).(spare := newSpare, recovery := newRecovery)
      ensures old(HasCommitments(Value())) ==>
                Value() == Fields(EffectiveSpare(old(Value()), height), EffectiveRecovery(old(Value()), height),
                                  newSpare, newRecovery, height)
    {
      hide Tracks;
      RegisterTracks(Value(), history, newSpare, newRecovery, height);
      history := history + [Register(newSpare, newRecovery, height)];
      if !HasCommitments(Value()) {
        spare, recovery := newSpare, newRecovery;
        return;
      }
      PromoteMatured(height);
      sparePending, recoveryPending, pendingHeight := newSpare, newRecovery, height;
    }

    /** ConsumeRecoveryCommit: a reveal replaces the recovery commitment at once. */
    method ConsumeRecoveryCommit(next: Commit, height: int)
      requires Valid() && LastHeight(history) <= height && 0 <= height
      modifies this
      ensures Valid() && history == old(history) + [Reveal(next, height)]
      ensures recovery == next && recoveryPending == 0 && spare == old(spare) && sparePending == old(sparePending)
    {
      hide Tracks;
      RevealTracks(Value(), history, next, height);
      history := history + [Reveal(next, height)];
      recovery, recoveryPending := next, 0;
      if sparePending == 0 { pendingHeight := 0; }
    }

    /** One account's part of VoidPendingRecoveryCommits. */
    method VoidPending(height: int) returns (dropped: bool)
      requires Valid() && LastHeight(history) <= height && 0 <= height
      modifies this
      ensures Valid() && history == old(history) + [Break(height)]
      ensures sparePending == 0 && recoveryPending == 0
      ensures spare == EffectiveSpare(old(Value()), height) && recovery == EffectiveRecovery(old(Value()), height)
      ensures dropped <==> (old(sparePending) != 0 || old(recoveryPending) != 0) && !Matured(old(pendingHeight), height)
    {
      hide Tracks;
      BreakTracks(Value(), history, height);
      history := history + [Break(height)];
      if recoveryPending == 0 && sparePending == 0 { return false; }
      PromoteMatured(height);
      if recoveryPending != 0 || sparePending != 0 {
        recoveryPending, sparePending, pendingHeight := 0, 0, 0;
        return true;
      }
      return false;
    }
  }

  // ---------------------------------------------------------------- what a history demands

  datatype Event =
    | Register(spare: Commit, recovery: Commit, height: int)
    | Reveal(next: Commit, height: int)
    | Break(height: int)              // a block marks a scheme as broken

  predicate Chronological(es: seq<Event>) {
    forall i, j :: 0 <= i <= j < |es| ==> 0 <= es[i].height <= es[j].height
  }

  function LastHeight(es: seq<Event>): int {
    if es == [] then 0 else es[|es| - 1].height
  }

  /** Some commitment was made and is still there to come into force. */
  predicate Opened(es: seq<Event>)
    decreases |es|, 1
  {
    var late := LastHeight(es) + MATURITY_BLOCKS;
    SpareOf(es, late) != 0 || RecoveryOf(es, late) != 0
  }

  /** The spare commitment in force at `height`: the first one at once; a later one when it
      has been left alone for the maturity time; a break or a new registration keeps what was
      in force when it came. */
  function SpareOf(es: seq<Event>, height: int): Commit
    decreases |es|, 0
  {
    if es == [] then 0
    else
      var rest := es[..|es| - 1];
      match es[|es| - 1]
      case Register(s, _, g) =>
        if !Opened(rest) then s
        else if s != 0 && height >= g + MATURITY_BLOCKS then s
        else SpareOf(rest, g)
      case Reveal(_, _) => SpareOf(rest, height)
      case Break(g) => SpareOf(rest, g)
  }

  function RecoveryOf(es: seq<Event>, height: int): Commit
    decreases |es|, 0
  {
    if es == [] then 0
    else
      var rest := es[..|es| - 1];
      match es[|es| - 1]
      case Register(_, c, g) =>
        if !Opened(rest) then c
        else if c != 0 && height >= g + MATURITY_BLOCKS then c
        else RecoveryOf(rest, g)
      case Reveal(next, _) => next
      case Break(g) => RecoveryOf(rest, g)
  }

  /** The fields say, for every height from now on, what the history demands. */
  ghost predicate Tracks(f: Fields, es: seq<Event>) {
    && Chronological(es) && f.pendingHeight <= LastHeight(es)
    && forall h :: LastHeight(es) <= h ==>
         EffectiveSpare(f, h) == SpareOf(es, h) && EffectiveRecovery(f, h) == RecoveryOf(es, h)
  }

  lemma {:induction false} TracksOpened(f: Fields, es: seq<Event>)
    requires Tracks(f, es)
    ensures Opened(es) <==> HasCommitments(f)
  {
    var late := LastHeight(es) + MATURITY_BLOCKS;
    assert EffectiveSpare(f, late) == SpareOf(es, late) && EffectiveRecovery(f, late) == RecoveryOf(es, late);
  }

  lemma Appended(es: seq<Event>, e: Event)
    requires Chronological(es) && LastHeight(es) <= e.height && 0 <= e.height
    ensures Chronological(es + [e]) && LastHeight(es + [e]) == e.height && (es + [e])[..|es|] == es
  {
    forall i, j | 0 <= i <= j < |es + [e]| ensures 0 <= (es + [e])[i].height <= (es + [e])[j].height {
      if i < |es| { assert es[i].height <= es[|es| - 1].height; }
    }
  }

  function Registered(f: Fields, spare: Commit, recovery: Commit, height: int): Fields {
    if !HasCommitments(f) then f.(spare := spare, recovery := recovery)
    else Fields(EffectiveSpare(f, height), EffectiveRecovery(f, height), spare, recovery, height)
  }

  lemma {:induction false} RegisterTracks(f: Fields, es: seq<Event>, spare: Commit, recovery: Commit, height: int)
    requires Tracks(f, es) && LastHeight(es) <= height && 0 <= height
    ensures Tracks(Registered(f, spare, recovery, height), es + [Register(spare, recovery, height)])
  {
    hide Opened;
    TracksOpened(f, es);
    Appended(es, Register(spare, recovery, height));
    assert EffectiveSpare(f, height) == SpareOf(es, height) && EffectiveRecovery(f, height) == RecoveryOf(es, height);
  }

  lemma {:induction false} RevealTracks(f: Fields, es: seq<Event>, next: Commit, height: int)
    requires Tracks(f, es) && LastHeight(es) <= height && 0 <= height
    ensures Tracks(f.(recovery := next, recoveryPending := 0,
                      pendingHeight := if f.sparePending == 0 then 0 else f.pendingHeight), es + [Reveal(next, height)])
  {
    var e := Reveal(next, height);
    var g := f.(recovery := next, recoveryPending := 0, pendingHeight := if f.sparePending == 0 then 0 else f.pendingHeight);
    Appended(es, e);
    forall h | height <= h
      ensures EffectiveSpare(g, h) == SpareOf(es + [e], h) && EffectiveRecovery(g, h) == RecoveryOf(es + [e], h)
    {
      assert EffectiveSpare(f, h) == SpareOf(es, h);
    }
  }

  lemma {:induction false} BreakTracks(f: Fields, es: seq<Event>, height: int)
    requires Tracks(f, es) && LastHeight(es) <= height && 0 <= height
    ensures Tracks(Fields(EffectiveSpare(f, height), EffectiveRecovery(f, height), 0, 0, 0), es + [Break(height)])
    ensures f.sparePending == 0 && f.recoveryPending == 0 ==> Tracks(f, es + [Break(height)])
  {
    Appended(es, Break(height));
    assert EffectiveSpare(f, height) == SpareOf(es, height) && EffectiveRecovery(f, height) == RecoveryOf(es, height);
  }

  // ---------------------------------------------------------------- consequences

  /** No event changes at its own height what is in force, except the first setting, and a
      reveal for the recovery commitment. */
  lemma {:induction false} OnlyByOpeningOrReveal(es: seq<Event>, e: Event, h: int)
    requires Chronological(es + [e]) && h == e.height
    ensures !(e.Register? && !Opened(es)) ==> SpareOf(es + [e], h) == SpareOf(es, h)
    ensures !(e.Register? && !Opened(es)) && !e.Reveal? ==> RecoveryOf(es + [e], h) == RecoveryOf(es, h)
  {
    assert (es + [e])[..|es|] == es;
  }

  /** As time goes by what is in force changes only to a registration made the maturity time
      ago, with nothing but reveals since. */
  lemma {:induction false} OnlyByMaturing(es: seq<Event>, h: int, later: int) returns (i: nat)
    requires Chronological(es) && LastHeight(es) <= h <= later && SpareOf(es, h) != SpareOf(es, later)
    ensures i < |es| && es[i].Register? && es[i].spare == SpareOf(es, later)
    ensures h < es[i].height + MATURITY_BLOCKS <= later
    ensures forall j :: i < j < |es| ==> es[j].Reveal?
    decreases |es|
  {
    var rest := es[..|es| - 1];
    if es[|es| - 1].Reveal? {
      i := OnlyByMaturing(rest, h, later);
    } else {
      i := |es| - 1;
    }
  }

  lemma {:induction false} RecoveryOnlyByMaturing(es: seq<Event>, h: int, later: int)
    requires Chronological(es) && LastHeight(es) <= h <= later && RecoveryOf(es, h) != RecoveryOf(es, later)
    ensures es != [] && es[|es| - 1].Register? && es[|es| - 1].recovery == RecoveryOf(es, later)
    ensures h < es[|es| - 1].height + MATURITY_BLOCKS <= later
  {
  }

  /** Reveals do not help a change mature earlier. */
  lemma {:induction false} UnmaturedSpare(es: seq<Event>, reg: Event, between: seq<Event>, h: int)
    requires reg.Register? && Opened(es) && h < reg.height + MATURITY_BLOCKS
    requires forall e :: e in between ==> e.Reveal?
    ensures SpareOf(es + [reg] + between, h) == SpareOf(es, reg.height)
    ensures RecoveryOf(es + [reg] + between, h)
         == if between == [] then RecoveryOf(es, reg.height) else between[|between| - 1].next
    decreases |between|
  {
    var all := es + [reg] + between;
    if between == [] {
      assert all == es + [reg] && all[..|es|] == es;
    } else {
      var front := between[..|between| - 1];
      assert all[..|all| - 1] == es + [reg] + front;
      UnmaturedSpare(es, reg, front, h);
    }
  }

  /** Two histories that cannot be told apart from now on. */
  ghost predicate Alike(es: seq<Event>, fs: seq<Event>) {
    LastHeight(es) == LastHeight(fs) && forall h :: SpareOf(es, h) == SpareOf(fs, h) && RecoveryOf(es, h) == RecoveryOf(fs, h)
  }

  lemma {:induction false} AlikeStep(es: seq<Event>, fs: seq<Event>, e: Event)
    requires Alike(es, fs)
    ensures Alike(es + [e], fs + [e])
  {
    assert (es + [e])[..|es|] == es && (fs + [e])[..|fs|] == fs;
    var late := LastHeight(es) + MATURITY_BLOCKS;
    assert SpareOf(es, late) == SpareOf(fs, late) && RecoveryOf(es, late) == RecoveryOf(fs, late);
    assert Opened(es) <==> Opened(fs);
    forall h ensures SpareOf(es + [e], h) == SpareOf(fs + [e], h) && RecoveryOf(es + [e], h) == RecoveryOf(fs + [e], h) {
      assert SpareOf(es, h) == SpareOf(fs, h) && SpareOf(es, e.height) == SpareOf(fs, e.height);
      assert RecoveryOf(es, h) == RecoveryOf(fs, h) && RecoveryOf(es, e.height) == RecoveryOf(fs, e.height);
    }
  }

  lemma {:induction false} AlikeForever(es: seq<Event>, fs: seq<Event>, more: seq<Event>)
    requires Alike(es, fs)
    ensures Alike(es + more, fs + more)
    decreases |more|
  {
    hide Alike;
    if more == [] {
      assert es + more == es && fs + more == fs;
    } else {
      var front, e := more[..|more| - 1], more[|more| - 1];
      AlikeForever(es, fs, front);
      AlikeStep(es + front, fs + front, e);
      assert es + more == es + front + [e] && fs + more == fs + front + [e];
    }
  }

  /** What reveals and a break leave of a change that has not matured. */
  lemma {:induction false} VoidedAtBreak(es: seq<Event>, reg: Event, between: seq<Event>, brk: Event, h: int)
    requires reg.Register? && brk.Break? && Opened(es) && forall e :: e in between ==> e.Reveal?
    requires brk.height < reg.height + MATURITY_BLOCKS
    ensures SpareOf(es + [reg] + between + [brk], h) == SpareOf(es, reg.height)
    ensures RecoveryOf(es + [reg] + between + [brk], h)
         == if between == [] then RecoveryOf(es, reg.height) else between[|between| - 1].next
  {
    var before := es + [reg] + between;
    assert (before + [brk])[..|before|] == before;
    UnmaturedSpare(es, reg, between, brk.height);
  }

  lemma {:induction false} BreakThenReveals(es: seq<Event>, g: int, between: seq<Event>, h: int)
    requires forall e :: e in between ==> e.Reveal?
    ensures SpareOf(es + [Break(g)] + between, h) == SpareOf(es, g)
    ensures RecoveryOf(es + [Break(g)] + between, h) == if between == [] then RecoveryOf(es, g) else between[|between| - 1].next
    decreases |between|
  {
    var all := es + [Break(g)] + between;
    if between == [] {
      assert all == es + [Break(g)] && all[..|es|] == es;
    } else {
      var front := between[..|between| - 1];
      assert all[..|all| - 1] == es + [Break(g)] + front;
      BreakThenReveals(es, g, front, h);
    }
  }

  /** A change that has not matured when a scheme is marked broken never takes effect, whatever
      comes later. All it ever does is to cancel an earlier change that was still pending: the
      account goes on as if a break had come in its place. */
  lemma {:induction false} BrokenBeforeMaturing(es: seq<Event>, reg: Event, between: seq<Event>, brk: Event, more: seq<Event>, h: int)
    requires reg.Register? && brk.Break? && Opened(es) && forall e :: e in between ==> e.Reveal?
    requires brk.height < reg.height + MATURITY_BLOCKS
    ensures SpareOf(es + [reg] + between + [brk] + more, h) == SpareOf(es + [Break(reg.height)] + between + [brk] + more, h)
    ensures RecoveryOf(es + [reg] + between + [brk] + more, h) == RecoveryOf(es + [Break(reg.height)] + between + [brk] + more, h)
  {
    var with, without := es + [reg] + between + [brk], es + [Break(reg.height)] + between + [brk];
    forall g ensures SpareOf(with, g) == SpareOf(without, g) && RecoveryOf(with, g) == RecoveryOf(without, g) {
      VoidedAtBreak(es, reg, between, brk, g);
      var before := es + [Break(reg.height)] + between;
      assert without[..|before|] == before;
      BreakThenReveals(es, reg.height, between, brk.height);
    }
    AlikeForever(with, without, more);
  }

  lemma {:induction false} OnlyReveals(es: seq<Event>, between: seq<Event>, h: int)
    requires forall e :: e in between ==> e.Reveal?
    ensures SpareOf(es + between, h) == SpareOf(es, h)
    ensures RecoveryOf(es + between, h) == if between == [] then RecoveryOf(es, h) else between[|between| - 1].next
    decreases |between|
  {
    var all := es + between;
    if between == [] {
      assert all == es;
    } else {
      var front := between[..|between| - 1];
      assert all[..|all| - 1] == es + front;
      OnlyReveals(es, front, h);
    }
  }

  /** No earlier change of the account matures from `height` to `later`; one of the recovery
      commitment does not matter once that has been revealed. */
  predicate NothingMatures(es: seq<Event>, height: int, later: int, revealed: bool) {
    && SpareOf(es, height) == SpareOf(es, later)
    && (!revealed ==> RecoveryOf(es, height) == RecoveryOf(es, later))
  }

  /** A voided change leaves no trace, now or after any further events, exactly when no earlier
      change would have matured between it and the break. */
  lemma {:induction false} VoidedWithoutTrace(es: seq<Event>, reg: Event, between: seq<Event>, brk: Event)
    requires reg.Register? && brk.Break? && Opened(es) && forall e :: e in between ==> e.Reveal?
    requires brk.height < reg.height + MATURITY_BLOCKS
    ensures (forall more, h ::
               && SpareOf(es + [reg] + between + [brk] + more, h) == SpareOf(es + between + [brk] + more, h)
               && RecoveryOf(es + [reg] + between + [brk] + more, h) == RecoveryOf(es + between + [brk] + more, h))
            <==> NothingMatures(es, reg.height, brk.height, between != [])
  {
    hide NothingMatures, Alike;
    var with, without := es + [reg] + between + [brk], es + between + [brk];
    TraceAtBreak(es, reg, between, brk);
    if NothingMatures(es, reg.height, brk.height, between != []) {
      forall more: seq<Event>, h ensures SpareOf(with + more, h) == SpareOf(without + more, h) && RecoveryOf(with + more, h) == RecoveryOf(without + more, h) {
        AlikeForever(with, without, more);
        AlikeAt(with + more, without + more, h);
      }
    } else {
      var h := Apart(with, without);
      assert with + [] == with && without + [] == without;
    }
  }

  lemma AlikeAt(es: seq<Event>, fs: seq<Event>, h: int)
    requires Alike(es, fs)
    ensures SpareOf(es, h) == SpareOf(fs, h) && RecoveryOf(es, h) == RecoveryOf(fs, h)
  {
  }

  lemma Apart(es: seq<Event>, fs: seq<Event>) returns (h: int)
    requires LastHeight(es) == LastHeight(fs) && !Alike(es, fs)
    ensures SpareOf(es, h) != SpareOf(fs, h) || RecoveryOf(es, h) != RecoveryOf(fs, h)
  {
    h :| SpareOf(es, h) != SpareOf(fs, h) || RecoveryOf(es, h) != RecoveryOf(fs, h);
  }

  lemma {:induction false} TraceAtBreak(es: seq<Event>, reg: Event, between: seq<Event>, brk: Event)
    requires reg.Register? && brk.Break? && Opened(es) && forall e :: e in between ==> e.Reveal?
    requires brk.height < reg.height + MATURITY_BLOCKS
    ensures LastHeight(es + [reg] + between + [brk]) == LastHeight(es + between + [brk])
    ensures Alike(es + [reg] + between + [brk], es + between + [brk]) <==> NothingMatures(es, reg.height, brk.height, between != [])
  {
    var with, without := es + [reg] + between + [brk], es + between + [brk];
    assert without[..|es + between|] == es + between;
    OnlyReveals(es, between, brk.height);
    forall h
      ensures SpareOf(with, h) == SpareOf(es, reg.height) && SpareOf(without, h) == SpareOf(es, brk.height)
      ensures RecoveryOf(with, h) == RecoveryOf(without, h) <==> between != [] || RecoveryOf(es, reg.height) == RecoveryOf(es, brk.height)
    {
      VoidedAtBreak(es, reg, between, brk, h);
    }
    assert Alike(with, without) ==> SpareOf(with, 0) == SpareOf(without, 0) && RecoveryOf(with, 0) == RecoveryOf(without, 0);
  }

  /** It does cancel an earlier one: without the third event the spare would be 2. */
  lemma VoidedStillCancels(h: int)
    requires h >= 60600
    ensures var es := [Register(1, 0, 0), Register(2, 0, 100)];
            && SpareOf(es + [Register(3, 0, 50000)] + [Break(60600)], h) == 1
            && SpareOf(es + [Break(60600)], h) == 2
  {
    var one, es := [Register(1, 0, 0)], [Register(1, 0, 0), Register(2, 0, 100)];
    var three := es + [Register(3, 0, 50000)];
    assert one[..0] == [] && es[..1] == one && three[..2] == es;
    assert (three + [Break(60600)])[..3] == three && (es + [Break(60600)])[..2] == es;
    assert SpareOf([], 0) == 0 && SpareOf(one, 100) == 1;
    assert !Opened([]) && Opened(one);
    assert SpareOf(es, 50000) == 1 && SpareOf(es, 60600) == 2;
    assert SpareOf(es, 50000 + MATURITY_BLOCKS) == 2 && SpareOf(es, 100 + MATURITY_BLOCKS) == 2;
    assert Opened(es);
    assert SpareOf(three, 60600) == 1;
  }

  /** Spare and recovery commitments are set side by side, and a reveal replaces only the latter. */
  lemma SetAndRevealed(spare: Commit, recovery: Commit, next: Commit, h: int)
    ensures SpareOf([Register(spare, recovery, 5)], h) == spare && RecoveryOf([Register(spare, recovery, 5)], h) == recovery
    ensures SpareOf([Register(spare, recovery, 5), Reveal(next, 9)], h) == spare
    ensures RecoveryOf([Register(spare, recovery, 5), Reveal(next, 9)], h) == next
  {
    var one, two := [Register(spare, recovery, 5)], [Register(spare, recovery, 5), Reveal(next, 9)];
    assert one[..0] == [] && two[..1] == one;
    assert !Opened([]);
  }

  lemma {:induction false} SpareStays(es: seq<Event>, h: int, later: int)
    requires Chronological(es) && LastHeight(es) <= h <= later && SpareOf(es, h) != 0
    ensures SpareOf(es, later) != 0
    decreases |es|
  {
    if es != [] && es[|es| - 1].Reveal? { SpareStays(es[..|es| - 1], h, later); }
  }

  /** Once an account has a spare commitment in force it always has one. */
  lemma {:induction false} SpareNeverZeroAgain(es: seq<Event>, more: seq<Event>, h: int, later: int)
    requires Chronological(es + more) && LastHeight(es) <= h && LastHeight(es + more) <= later && h <= later
    requires SpareOf(es, h) != 0 && forall e :: e in more ==> h <= e.height
    ensures SpareOf(es + more, later) != 0
    decreases |more|
  {
    if more == [] {
      assert es + more == es;
      SpareStays(es, h, later);
    } else {
      var front, e := more[..|more| - 1], more[|more| - 1];
      var mid := es + front;
      assert es + more == mid + [e] && (mid + [e])[..|mid|] == mid;
      assert e in more && LastHeight(mid) <= e.height by { LastOfPrefix(mid, e); }
      SpareNeverZeroAgain(es, front, h, e.height);
      SpareNeverZeroAgain(es, front, h, later);
      SpareOpened(mid, e.height);
    }
  }

  lemma LastOfPrefix(mid: seq<Event>, e: Event)
    requires Chronological(mid + [e])
    ensures LastHeight(mid) <= e.height && Chronological(mid)
  {
    var all := mid + [e];
    assert all[|mid|] == e;
    if mid != [] { assert all[|mid| - 1] == mid[|mid| - 1]; }
    forall i, j | 0 <= i <= j < |mid| ensures 0 <= mid[i].height <= mid[j].height {
      assert all[i] == mid[i] && all[j] == mid[j];
    }
  }

  lemma {:induction false} SpareOpened(es: seq<Event>, h: int)
    requires Chronological(es) && LastHeight(es) <= h && SpareOf(es, h) != 0
    ensures Opened(es)
  {
    var late := LastHeight(es) + MATURITY_BLOCKS;
    if h <= late { SpareStays(es, h, late); } else { SpareSettled(es, late, h); }
  }

  /** After the maturity time nothing changes by itself. */
  lemma {:induction false} SpareSettled(es: seq<Event>, late: int, h: int)
    requires Chronological(es) && LastHeight(es) + MATURITY_BLOCKS <= late <= h
    ensures SpareOf(es, late) == SpareOf(es, h)
    decreases |es|
  {
    if es != [] && es[|es| - 1].Reveal? {
      var rest := es[..|es| - 1];
      if rest != [] { assert es[|rest| - 1].height <= es[|es| - 1].height; }
      SpareSettled(rest, late, h);
    }
  }
}
