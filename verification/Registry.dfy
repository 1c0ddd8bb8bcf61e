/** The registry of public keys with its heights and its rewind journal
    (blocks/processPubKey.go, pubkeys/registryHeight.go). The database is a handful of maps;
    journal and height writes succeed. */
module Registry {
  import opened Basics
  import opened Sums

  const MAX_KEYS_PER_IDENTITY := 32
  const PER_HEIGHT_SCAN_LIMIT := 2048
  const NO_HEIGHT_LIMIT := 0x7fff_ffff_ffff_ffff

  type Identity = nat

  /** A key by the address it derives, with what follows from its bytes. */
  datatype Key = Key(address: nat, primary: bool, length: nat)

  /** records: identity a key was stored for; lists: keys per identity in order of registration;
      heights: block that registered a key; journal: the same, by height, for rewinding. */
  datatype Reg = Reg(
    records: map<Key, Identity>,
    lists: map<Identity, seq<Key>>,
    heights: map<Key, int>,
    journal: map<(int, Key), Identity>)

  /** RegistrationHeight: a key without a record counts as registered at height 0. */
  function Height(s: Reg, k: Key): int {
    if k in s.heights then s.heights[k] else 0
  }

  function ListOf(s: Reg, m: Identity): seq<Key> {
    if m in s.lists then s.lists[m] else []
  }

  ghost predicate Lists(lists: map<Identity, seq<Key>>, m: Identity, k: Key) {
    m in lists && k in lists[m]
  }

  /** Every listed key has a record, and is listed by one identity only. A record need not be
      listed: a registration that is refused leaves one behind. */
  ghost predicate ListsSound(records: map<Key, Identity>, lists: map<Identity, seq<Key>>) {
    && (forall m :: m in lists ==> lists[m] != [])
    && (forall m, k :: Lists(lists, m, k) ==> k in records)
    && (forall m, n, k :: Lists(lists, m, k) && Lists(lists, n, k) ==> m == n)
  }

  /** The journal holds exactly the keys with a height, each under its height and the identity
      that lists it. */
  ghost predicate JournalSound(lists: map<Identity, seq<Key>>, heights: map<Key, int>, journal: map<(int, Key), Identity>) {
    && (forall k :: k in heights ==> (heights[k], k) in journal)
    && (forall e :: e in journal ==> e.1 in heights && heights[e.1] == e.0 && Lists(lists, journal[e], e.1))
  }

  ghost predicate Sound(s: Reg) {
    ListsSound(s.records, s.lists) && JournalSound(s.lists, s.heights, s.journal)
  }

  /** The same lists, heights and journal; records aside. */
  ghost predicate SameIndex(s: Reg, t: Reg) {
    s.lists == t.lists && s.heights == t.heights && s.journal == t.journal
  }

  // ---------------------------------------------------------------- taking keys out

  function Minus(l: seq<Key>, gone: set<Key>): seq<Key> {
    if l == [] then []
    else Minus(l[..|l| - 1], gone) + (if l[|l| - 1] in gone then [] else [l[|l| - 1]])
  }

  ghost function ListsWithout(lists: map<Identity, seq<Key>>, gone: set<Key>): map<Identity, seq<Key>> {
    map m | m in lists && Minus(lists[m], gone) != [] :: Minus(lists[m], gone)
  }

  ghost function JournalWithout(journal: map<(int, Key), Identity>, gone: set<Key>): map<(int, Key), Identity> {
    map e | e in journal && e.1 !in gone :: journal[e]
  }

  /** The registry as if the keys in `gone` had never been registered. */
  ghost function Without(s: Reg, gone: set<Key>): Reg {
    Reg(s.records - gone, ListsWithout(s.lists, gone), s.heights - gone, JournalWithout(s.journal, gone))
  }

  lemma {:induction false} MinusTwice(l: seq<Key>, a: set<Key>, b: set<Key>)
    ensures Minus(Minus(l, a), b) == Minus(l, a + b)
  {
    if l != [] {
      var front, k := l[..|l| - 1], l[|l| - 1];
      MinusTwice(front, a, b);
      if k !in a {
        var f := Minus(front, a);
        assert (f + [k])[..|f|] == f;
      } else {
        assert Minus(front, a) + [] == Minus(front, a);
      }
    }
  }

  lemma {:induction false} MinusMembers(l: seq<Key>, gone: set<Key>)
    ensures forall k :: k in Minus(l, gone) <==> k in l && k !in gone
  {
    if l != [] {
      MinusMembers(l[..|l| - 1], gone);
      assert l == l[..|l| - 1] + [l[|l| - 1]];
    }
  }

  lemma {:induction false} MinusNothing(l: seq<Key>, gone: set<Key>)
    requires forall k :: k in l ==> k !in gone
    ensures Minus(l, gone) == l
  {
    if l != [] {
      assert l == l[..|l| - 1] + [l[|l| - 1]];
      MinusNothing(l[..|l| - 1], gone);
    }
  }

  lemma {:induction false} WithoutTwice(s: Reg, a: set<Key>, b: set<Key>)
    ensures Without(Without(s, a), b) == Without(s, a + b)
  {
    hide Minus;
    forall m | m in s.lists ensures Minus(Minus(s.lists[m], a), b) == Minus(s.lists[m], a + b) {
      MinusTwice(s.lists[m], a, b);
    }
    MinusOfNone(b);
    var x, y := Without(Without(s, a), b), Without(s, a + b);
    assert x.records == y.records && x.heights == y.heights && x.journal == y.journal;
    assert x.lists == y.lists;
  }

  lemma MinusOfNone(gone: set<Key>)
    ensures Minus([], gone) == []
  {
  }

  lemma {:induction false} WithoutNothing(s: Reg)
    requires Sound(s)
    ensures Without(s, {}) == s
  {
    hide Minus;
    forall m | m in s.lists ensures Minus(s.lists[m], {}) == s.lists[m] { MinusNothing(s.lists[m], {}); }
    assert ListsWithout(s.lists, {}) == s.lists;
    assert s.records - {} == s.records && s.heights - {} == s.heights;
    assert JournalWithout(s.journal, {}) == s.journal;
  }

  lemma {:induction false} ListsWithoutSound(records: map<Key, Identity>, lists: map<Identity, seq<Key>>, gone: set<Key>)
    requires ListsSound(records, lists)
    ensures ListsSound(records - gone, ListsWithout(lists, gone))
  {
    hide Minus;
    ListsAfter(lists, gone);
    hide Lists;
  }

  lemma {:induction false} ListsAfter(lists: map<Identity, seq<Key>>, gone: set<Key>)
    ensures forall m, k :: Lists(ListsWithout(lists, gone), m, k) <==> Lists(lists, m, k) && k !in gone
    ensures forall m :: m in ListsWithout(lists, gone) ==> ListsWithout(lists, gone)[m] != []
  {
    hide Minus;
    forall m | m in lists ensures forall k :: k in Minus(lists[m], gone) <==> k in lists[m] && k !in gone {
      MinusMembers(lists[m], gone);
    }
  }

  lemma {:induction false} WithoutSound(s: Reg, gone: set<Key>)
    requires Sound(s)
    ensures Sound(Without(s, gone))
  {
    hide Minus, ListsSound, ListsWithout, Lists;
    ListsWithoutSound(s.records, s.lists, gone);
    ListsAfter(s.lists, gone);
  }

  // ---------------------------------------------------------------- as of a height

  /** The keys registered after a height. */
  ghost function After(s: Reg, a: int): set<Key> {
    set k | k in s.heights && s.heights[k] > a
  }

  /** The registry after block a. */
  ghost function AsOf(s: Reg, a: int): Reg {
    Without(s, After(s, a))
  }

  predicate RegisteredAsOf(s: Reg, k: Key, a: int) {
    a == NO_HEIGHT_LIMIT || Height(s, k) <= a
  }

  ghost function Younger(s: Reg, l: seq<Key>, a: int): set<Key> {
    set k | k in l && !RegisteredAsOf(s, k, a)
  }

  lemma {:induction false} MinusSame(l: seq<Key>, a: set<Key>, b: set<Key>)
    requires forall k :: k in l ==> (k in a <==> k in b)
    ensures Minus(l, a) == Minus(l, b)
  {
    if l != [] {
      assert l == l[..|l| - 1] + [l[|l| - 1]];
      MinusSame(l[..|l| - 1], a, b);
    }
  }

  /** What the as-of reader answers: the list of m without its younger keys. */
  ghost function ListAsOf(s: Reg, m: Identity, a: int): seq<Key> {
    Minus(ListOf(s, m), Younger(s, ListOf(s, m), a))
  }

  /** The reader sees the list that the registry held after block a. */
  lemma {:induction false} ReaderSeesThatBlock(s: Reg, m: Identity, a: int)
    requires 0 <= a < NO_HEIGHT_LIMIT
    ensures ListAsOf(s, m, a) == ListOf(AsOf(s, a), m)
  {
    MinusSame(ListOf(s, m), Younger(s, ListOf(s, m), a), After(s, a));
  }

  /** LoadAddressesAsOf: a filter loop; no key left is the same answer as no list. */
  method LoadAddressesAsOf(s: Reg, m: Identity, a: int) returns (r: Option<seq<Key>>)
    ensures r.Some? <==> m in s.lists && (ListAsOf(s, m, a) != [] || a == NO_HEIGHT_LIMIT)
    ensures r.Some? ==> r.value == ListAsOf(s, m, a)
  {
    if m !in s.lists { return None; }
    var l := s.lists[m];
    if a == NO_HEIGHT_LIMIT {
      MinusNothing(l, Younger(s, l, a));
      return Some(l);
    }
    var kept := [];
    for i := 0 to |l|
      invariant kept == Minus(l[..i], Younger(s, l, a))
    {
      assert l[..i + 1][..i] == l[..i];
      if RegisteredAsOf(s, l[i], a) { kept := kept + [l[i]]; }
    }
    assert l[..|l|] == l;
    if kept == [] { return None; }
    return Some(kept);
  }

  /** LoadPubKeyAsOf: by the key's address, not by an identity's list. It sees the records that the
      registry held after block a. */
  method LoadPubKeyAsOf(s: Reg, k: Key, a: int) returns (r: Option<Identity>)
    ensures 0 <= a < NO_HEIGHT_LIMIT ==> (r.Some? <==> k in AsOf(s, a).records)
    ensures a == NO_HEIGHT_LIMIT ==> (r.Some? <==> k in s.records)
    ensures r.Some? ==> k in s.records && r.value == s.records[k]
  {
    if !RegisteredAsOf(s, k, a) { return None; }
    if k !in s.records { return None; }
    return Some(s.records[k]);
  }

  /** No stored key of the list is of the wanted kind. */
  ghost predicate NoneOf(s: Reg, l: seq<Key>, primary: bool, length: nat) {
    forall k :: k in l && k in s.records ==> k.primary != primary || k.length != length
  }

  /** LoadPubKeyWithPrimaryOfLengthAsOf: the newest key of the wanted kind, found from the end. */
  method NewestKeyAsOf(s: Reg, m: Identity, primary: bool, length: nat, a: int) returns (r: Option<Key>)
    ensures r.None? <==> NoneOf(s, ListAsOf(s, m, a), primary, length)
    ensures r.Some? ==> r.value in s.records && r.value.primary == primary && r.value.length == length
    ensures r.Some? ==> exists i | 0 <= i < |ListAsOf(s, m, a)| ::
      ListAsOf(s, m, a)[i] == r.value && NoneOf(s, ListAsOf(s, m, a)[i + 1..], primary, length)
  {
    hide Minus, Younger;
    var found := LoadAddressesAsOf(s, m, a);
    MinusOfNone(Younger(s, [], a));
    if found == None { return None; }
    var l := found.value;
    var i := |l|;
    while i > 0
      invariant 0 <= i <= |l|
      invariant NoneOf(s, l[i..], primary, length)
    {
      i := i - 1;
      assert l[i..] == [l[i]] + l[i + 1..];
      if l[i].primary == primary && l[i] in s.records && l[i].length == length { return Some(l[i]); }
    }
    return None;
  }

  // ---------------------------------------------------------------- registering

  /** The registry after key k is registered for m by the block at height h. */
  function Registered(s: Reg, k: Key, m: Identity, h: int): Reg {
    var records := s.records[k := m];
    if k in ListOf(s, m) then s.(records := records)
    else Reg(records, s.lists[m := ListOf(s, m) + [k]], s.heights[k := h], s.journal[(h, k) := m])
  }

  /** No other identity lists the key. */
  ghost predicate Free(s: Reg, k: Key, m: Identity) {
    forall n :: Lists(s.lists, n, k) ==> n == m
  }

  lemma {:induction false} AddedSound(s: Reg, k: Key, m: Identity, h: int)
    requires Sound(s) && Free(s, k, m) && k !in ListOf(s, m)
    ensures Sound(Registered(s, k, m, h))
  {
    hide ListsSound, JournalSound, Free;
    AddedToList(s, k, m);
    AddedToJournal(s, k, m, h);
  }

  lemma {:induction false} AddedLists(lists: map<Identity, seq<Key>>, k: Key, m: Identity)
    ensures var before := if m in lists then lists[m] else [];
            forall n, j :: Lists(lists[m := before + [k]], n, j) <==> Lists(lists, n, j) || (n == m && j == k)
  {
    var before := if m in lists then lists[m] else [];
    var after := lists[m := before + [k]];
    assert forall j :: j in before + [k] <==> j in before || j == k;
    forall n, j ensures Lists(after, n, j) <==> Lists(lists, n, j) || (n == m && j == k) {
      if n == m { assert after[n] == before + [k]; } else { assert n in after <==> n in lists; }
    }
  }

  lemma {:induction false} AddedToList(s: Reg, k: Key, m: Identity)
    requires ListsSound(s.records, s.lists) && Free(s, k, m)
    ensures ListsSound(s.records[k := m], s.lists[m := ListOf(s, m) + [k]])
  {
    AddedLists(s.lists, k, m);
    var after := s.lists[m := ListOf(s, m) + [k]];
    assert after[m] != [] && forall n :: n in after && n != m ==> n in s.lists && after[n] == s.lists[n];
    forall n, j | Lists(after, n, j) ensures j in s.records[k := m] {
      if j != k { assert Lists(s.lists, n, j); }
    }
    forall n, o, j | Lists(after, n, j) && Lists(after, o, j) ensures n == o {
      assert (Lists(s.lists, n, j) || (n == m && j == k)) && (Lists(s.lists, o, j) || (o == m && j == k));
    }
  }

  lemma {:induction false} AddedToJournal(s: Reg, k: Key, m: Identity, h: int)
    requires JournalSound(s.lists, s.heights, s.journal) && Free(s, k, m) && k !in ListOf(s, m)
    ensures JournalSound(s.lists[m := ListOf(s, m) + [k]], s.heights[k := h], s.journal[(h, k) := m])
  {
    AddedLists(s.lists, k, m);
    assert !Lists(s.lists, m, k);
    hide Lists;
    assert k !in s.heights;
  }

  lemma {:induction false} RegisteredSound(s: Reg, k: Key, m: Identity, h: int)
    requires Sound(s) && Free(s, k, m)
    ensures Sound(Registered(s, k, m, h))
    ensures k in ListOf(s, m) ==> SameIndex(Registered(s, k, m, h), s)
  {
    hide JournalSound, Lists;
    if k !in ListOf(s, m) { AddedSound(s, k, m, h); }
  }

  /** A registration that is refused leaves the key's record and nothing else. */
  function Refused(s: Reg, k: Key, m: Identity): Reg {
    s.(records := s.records[k := m])
  }

  lemma RefusedSound(s: Reg, k: Key, m: Identity)
    requires Sound(s)
    ensures Sound(Refused(s, k, m)) && SameIndex(Refused(s, k, m), s)
  {
    hide JournalSound, Lists;
  }

  lemma {:induction false} MinusDrop(l: seq<Key>, k: Key, gone: set<Key>)
    requires k in gone
    ensures Minus(l + [k], gone) == Minus(l, gone)
  {
    assert (l + [k])[..|l|] == l;
  }

  /** A registration changes nothing but its own key. */
  lemma {:induction false} OnlyItsKey(s: Reg, k: Key, m: Identity, h: int, gone: set<Key>)
    requires k in gone
    ensures Without(Registered(s, k, m, h), gone) == Without(s, gone)
  {
    hide Minus;
    var t := Registered(s, k, m, h);
    assert t.records - gone == s.records - gone && t.heights - gone == s.heights - gone;
    assert JournalWithout(t.journal, gone) == JournalWithout(s.journal, gone);
    if k !in ListOf(s, m) { OnlyItsList(s, k, m, gone); }
  }

  lemma {:induction false} OnlyItsList(s: Reg, k: Key, m: Identity, gone: set<Key>)
    requires k in gone
    ensures ListsWithout(s.lists[m := ListOf(s, m) + [k]], gone) == ListsWithout(s.lists, gone)
  {
    hide Minus;
    MinusDrop(ListOf(s, m), k, gone);
    MinusOfNone(gone);
  }

  /** Taking out a key that nobody lists changes no list, height or journal entry. */
  lemma {:induction false} WithoutStranger(s: Reg, gone: set<Key>, k: Key)
    requires Sound(s) && forall m :: !Lists(s.lists, m, k)
    ensures SameIndex(Without(s, gone + {k}), Without(s, gone)) && k !in s.heights
  {
    hide Lists, ListsWithout;
    assert k !in s.heights;
    assert s.heights - (gone + {k}) == s.heights - gone;
    assert JournalWithout(s.journal, gone + {k}) == JournalWithout(s.journal, gone);
    StrangerToLists(s.lists, gone, k);
  }

  lemma {:induction false} StrangerToLists(lists: map<Identity, seq<Key>>, gone: set<Key>, k: Key)
    requires forall m :: !Lists(lists, m, k)
    ensures ListsWithout(lists, gone + {k}) == ListsWithout(lists, gone)
  {
    hide Minus;
    forall m | m in lists ensures Minus(lists[m], gone + {k}) == Minus(lists[m], gone) {
      assert !Lists(lists, m, k);
      MinusSame(lists[m], gone + {k}, gone);
    }
  }

  /** Some other identity had the key by block a. */
  ghost predicate TakesOver(s: Reg, k: Key, m: Identity, a: int) {
    Height(s, k) <= a && exists n :: n != m && Lists(s.lists, n, k)
  }

  /** The registry as of block a does not see a later registration, unless that one takes over
      a key which another identity already had by block a. */
  lemma {:induction false} LaterIsUnseen(s: Reg, k: Key, m: Identity, h: int, a: int)
    requires Sound(s) && 0 <= a < h
    ensures SameIndex(AsOf(Registered(s, k, m, h), a), AsOf(s, a)) <==> !(k !in ListOf(s, m) && TakesOver(s, k, m, a))
  {
    hide Minus, ListsWithout, JournalWithout;
    var t := Registered(s, k, m, h);
    var g := After(s, a);
    if k in ListOf(s, m) {
      assert After(t, a) == g;
    } else if forall n :: !Lists(s.lists, n, k) {
      WithoutStranger(s, g, k);
      assert After(t, a) == g + {k};
      OnlyItsKey(s, k, m, h, g + {k});
    } else if Height(s, k) > a {
      assert k in g && After(t, a) == g;
      OnlyItsKey(s, k, m, h, g);
    } else {
      var n :| Lists(s.lists, n, k);
      SeenToVanish(s, t, n, k, a);
    }
  }

  lemma {:induction false} SeenToVanish(s: Reg, t: Reg, n: Identity, k: Key, a: int)
    requires Lists(s.lists, n, k) && k !in After(s, a) && k in After(t, a)
    ensures AsOf(s, a).lists != AsOf(t, a).lists
  {
    ListsAfter(s.lists, After(s, a));
    ListsAfter(t.lists, After(t, a));
    assert Lists(AsOf(s, a).lists, n, k) && !Lists(AsOf(t, a).lists, n, k);
  }

  /** The key that changes hands disappears from the past of its first identity. */
  lemma TakenOver(k: Key)
    ensures var s := Registered(Reg(map[], map[], map[], map[]), k, 1, 5);
            ListAsOf(s, 1, 7) == [k] && ListAsOf(Registered(s, k, 2, 9), 1, 7) == []
  {
    var e := Reg(map[], map[], map[], map[]);
    var s := Registered(e, k, 1, 5);
    assert ListOf(s, 1) == [k];
    MinusNothing([k], Younger(s, [k], 7));
    var t := Registered(s, k, 2, 9);
    assert ListOf(t, 1) == [k];
    MinusDrop([], k, Younger(t, [k], 7));
    MinusOfNone(Younger(t, [k], 7));
    assert [] + [k] == [k];
  }

  // ---------------------------------------------------------------- runs

  /** A registration is accepted if the key's length fits an active scheme and there is room. */
  predicate Accepted(s: Reg, k: Key, m: Identity, validLength: bool) {
    validLength && (k in ListOf(s, m) || |ListOf(s, m)| < MAX_KEYS_PER_IDENTITY)
  }

  datatype Event =
    | Try(key: Key, identity: Identity, height: int, validLength: bool)
    | Rewind(target: int)

  ghost function Next(s: Reg, e: Event): Reg {
    match e
    case Try(k, m, h, valid) => if Accepted(s, k, m, valid) then Registered(s, k, m, h) else Refused(s, k, m)
    case Rewind(target) => AsOf(s, target)
  }

  ghost function RunAll(s: Reg, run: seq<Event>): Reg
    decreases |run|
  {
    if run == [] then s else RunAll(Next(s, run[0]), run[1..])
  }

  /** A step above block a: a registration of a key that no other identity lists, in a later
      block, or a rewind that does not go below a. */
  ghost predicate FairStep(s: Reg, e: Event, a: int) {
    match e
    case Try(k, m, h, valid) => h > a && (Accepted(s, k, m, valid) ==> Free(s, k, m))
    case Rewind(target) => target >= a
  }

  ghost predicate Fair(s: Reg, run: seq<Event>, a: int)
    decreases |run|
  {
    run == [] || (FairStep(s, run[0], a) && Fair(Next(s, run[0]), run[1..], a))
  }

  /** A rewind to block t is unseen as of an earlier block. */
  lemma {:induction false} RewindIsUnseen(s: Reg, t: int, a: int)
    requires a <= t
    ensures AsOf(AsOf(s, t), a) == AsOf(s, a)
  {
    hide Minus, ListsWithout, JournalWithout;
    WithoutTwice(s, After(s, t), After(AsOf(s, t), a));
    assert After(s, t) + After(AsOf(s, t), a) == After(s, a);
  }

  lemma {:induction false} StepIsUnseen(s: Reg, e: Event, a: int)
    requires Sound(s) && a >= 0 && FairStep(s, e, a)
    ensures Sound(Next(s, e)) && SameIndex(AsOf(Next(s, e), a), AsOf(s, a))
  {
    hide Sound, Registered, Without, Lists, ListOf;
    match e {
      case Try(k, m, h, valid) =>
        if Accepted(s, k, m, valid) {
          LaterIsUnseen(s, k, m, h, a);
          RegisteredSound(s, k, m, h);
        } else {
          RefusedSound(s, k, m);
          RefusedIsUnseen(s, k, m, a);
        }
      case Rewind(target) =>
        WithoutSound(s, After(s, target));
        RewindIsUnseen(s, target, a);
    }
  }

  lemma RefusedIsUnseen(s: Reg, k: Key, m: Identity, a: int)
    ensures SameIndex(AsOf(Refused(s, k, m), a), AsOf(s, a))
  {
    assert After(Refused(s, k, m), a) == After(s, a);
  }

  /** However many blocks register keys, are refused or are rewound, the lists, heights and
      journal as of block a stay what they were. */
  lemma {:induction false} RunIsUnseen(s: Reg, run: seq<Event>, a: int)
    requires Sound(s) && a >= 0 && Fair(s, run, a)
    ensures Sound(RunAll(s, run)) && SameIndex(AsOf(RunAll(s, run), a), AsOf(s, a))
    decreases |run|
  {
    hide Sound, AsOf, Next, FairStep;
    if run != [] {
      StepIsUnseen(s, run[0], a);
      RunIsUnseen(Next(s, run[0]), run[1..], a);
    }
  }

  /** No identity has more than 32 keys, whatever is tried. */
  ghost predicate Capped(s: Reg) {
    forall m :: |ListOf(s, m)| <= 32
  }

  lemma {:induction false} CapKept(s: Reg, run: seq<Event>)
    requires Capped(s)
    ensures Capped(RunAll(s, run))
    decreases |run|
  {
    hide Capped;
    if run != [] {
      CapStep(s, run[0]);
      CapKept(Next(s, run[0]), run[1..]);
    }
  }

  lemma {:induction false} CapStep(s: Reg, e: Event)
    requires Capped(s)
    ensures Capped(Next(s, e))
  {
    hide Minus;
    forall m ensures |ListOf(Next(s, e), m)| <= 32 {
      assert |ListOf(s, m)| <= 32;
      if e.Rewind? { MinusShorter(ListOf(s, m), After(s, e.target)); }
    }
  }

  lemma {:induction false} MinusShorter(l: seq<Key>, gone: set<Key>)
    ensures |Minus(l, gone)| <= |l|
  {
    if l != [] { MinusShorter(l[..|l| - 1], gone); }
  }

  /** A key of an active scheme is taken whenever its identity has fewer than 32, and again whenever
      it has it already; nothing else is. */
  lemma TakenExactly(s: Reg, k: Key, m: Identity, h: int, valid: bool)
    requires Sound(s) && Capped(s) && Free(s, k, m)
    ensures Lists(Next(s, Try(k, m, h, valid)).lists, m, k) <==> Lists(s.lists, m, k) || (valid && |ListOf(s, m)| != 32)
    ensures valid && k !in ListOf(s, m) && |ListOf(s, m)| != 32 ==>
              var t := Next(s, Try(k, m, h, valid));
              ListOf(t, m) == ListOf(s, m) + [k] && k in t.heights && t.heights[k] == h && k in t.records && t.records[k] == m
  {
    hide JournalSound, ListsSound;
    assert |ListOf(s, m)| <= 32;
  }

  /** The record of k is the same in both. */
  predicate SameRecord(s: Reg, t: Reg, k: Key) {
    (k in s.records <==> k in t.records) && (k in s.records ==> s.records[k] == t.records[k])
  }

  /** Some registration of k is tried, or one is refused. */
  ghost predicate Tried(run: seq<Event>, k: Key) {
    exists i :: 0 <= i < |run| && run[i].Try? && run[i].key == k
  }

  ghost predicate EverRefused(s: Reg, run: seq<Event>, k: Key)
    decreases |run|
  {
    run != [] &&
    ((run[0].Try? && run[0].key == k && !Accepted(s, k, run[0].identity, run[0].validLength))
     || EverRefused(Next(s, run[0]), run[1..], k))
  }

  /** k is known only from blocks above a: whatever record it has goes with a rewind. */
  ghost predicate Transient(s: Reg, k: Key, a: int) {
    k in s.records ==> k in s.heights && s.heights[k] > a
  }

  lemma {:induction false} TransientStep(s: Reg, e: Event, k: Key, a: int)
    requires Sound(s) && a >= 0 && FairStep(s, e, a) && Transient(s, k, a)
    requires !(e.Try? && e.key == k && !Accepted(s, k, e.identity, e.validLength))
    ensures Transient(Next(s, e), k, a)
  {
    hide Minus, ListsWithout, JournalWithout;
    if e.Try? && k in ListOf(s, e.identity) { assert Lists(s.lists, e.identity, k); }
  }

  lemma {:induction false} TransientRun(s: Reg, run: seq<Event>, k: Key, a: int)
    requires Sound(s) && a >= 0 && Fair(s, run, a) && Transient(s, k, a) && !EverRefused(s, run, k)
    ensures k !in AsOf(RunAll(s, run), a).records
    decreases |run|
  {
    hide Sound, Next, FairStep, Accepted;
    if run == [] {
    } else {
      TransientStep(s, run[0], k, a);
      StepIsUnseen(s, run[0], a);
      TransientRun(Next(s, run[0]), run[1..], k, a);
    }
  }

  lemma {:induction false} UntriedRun(s: Reg, run: seq<Event>, k: Key, a: int)
    requires a >= 0 && Fair(s, run, a) && !Tried(run, k) && Height(s, k) <= a
    ensures SameRecord(AsOf(RunAll(s, run), a), s, k)
    decreases |run|
  {
    hide Minus, ListsWithout, JournalWithout, ListOf, Free;
    if run != [] {
      var t := Next(s, run[0]);
      assert !(run[0].Try? && run[0].key == k);
      assert SameRecord(t, s, k) && Height(t, k) <= a;
      assert !Tried(run[1..], k) by { if Tried(run[1..], k) { TriedLater(run, k); } }
      UntriedRun(t, run[1..], k, a);
    }
  }

  lemma TriedLater(run: seq<Event>, k: Key)
    requires run != [] && Tried(run[1..], k)
    ensures Tried(run, k)
  {
    var i :| 0 <= i < |run[1..]| && run[1..][i].Try? && run[1..][i].key == k;
    assert run[i + 1] == run[1..][i];
  }

  ghost predicate Listed(s: Reg, k: Key) {
    exists m :: Lists(s.lists, m, k)
  }

  /** e tries to register k, which no identity lists. */
  ghost predicate FindsUnlisted(s: Reg, e: Event, k: Key) {
    e.Try? && e.key == k && !Listed(s, k)
  }

  /** The last try that found k unlisted was refused; if there was none, `was`. */
  ghost predicate LeftOver(s: Reg, run: seq<Event>, k: Key, was: bool)
    decreases |run|
  {
    if run == [] then was
    else LeftOver(Next(s, run[0]), run[1..], k, LeftAfter(s, run[0], k, was))
  }

  ghost predicate LeftAfter(s: Reg, e: Event, k: Key, was: bool) {
    if FindsUnlisted(s, e, k) then !Accepted(s, k, e.identity, e.validLength) else was
  }

  /** k is listed since block a or before. */
  ghost predicate OldListed(s: Reg, k: Key, a: int) {
    Listed(s, k) && Height(s, k) <= a
  }

  /** `was` says whether k has a record that a rewind to block a leaves behind. */
  ghost predicate Standing(s: Reg, k: Key, a: int, was: bool) {
    if Listed(s, k) then Height(s, k) > a ==> !was else was <==> k in s.records
  }

  lemma {:induction false} ListedAfter(s: Reg, e: Event, k: Key)
    requires Sound(s)
    ensures match e
            case Try(j, m, _, valid) => Listed(Next(s, e), k) <==> Listed(s, k) || (j == k && Accepted(s, k, m, valid))
            case Rewind(target) => Listed(Next(s, e), k) <==> Listed(s, k) && k !in After(s, target)
  {
    hide Minus, ListsWithout, JournalWithout, JournalSound;
    match e {
      case Try(j, m, h, valid) =>
        AddedLists(s.lists, j, m);
        assert forall n :: Lists(Next(s, e).lists, n, k) ==> Lists(s.lists, n, k) || (n == m && j == k && Accepted(s, k, m, valid));
        if j == k && Accepted(s, k, m, valid) {
          assert Lists(Next(s, e).lists, m, k);
        } else if Listed(s, k) {
          var n :| Lists(s.lists, n, k);
          assert Lists(Next(s, e).lists, n, k);
        }
      case Rewind(target) =>
        ListsAfter(s.lists, After(s, target));
        if Listed(s, k) {
          var n :| Lists(s.lists, n, k);
          assert Lists(Next(s, e).lists, n, k) <==> k !in After(s, target);
        }
    }
  }

  /** A listed key that is registered again keeps its height. */
  lemma OwnerAgain(s: Reg, k: Key, m: Identity)
    requires Listed(s, k) && Free(s, k, m)
    ensures k in ListOf(s, m)
  {
    var n :| Lists(s.lists, n, k);
  }

  lemma UnlistedHasNoHeight(s: Reg, k: Key)
    requires Sound(s) && !Listed(s, k)
    ensures k !in s.heights
  {
  }

  lemma {:induction false} StandingStep(s: Reg, e: Event, k: Key, a: int, was: bool)
    requires Sound(s) && a >= 0 && FairStep(s, e, a) && Standing(s, k, a, was)
    ensures Standing(Next(s, e), k, a, LeftAfter(s, e, k, was))
    ensures OldListed(Next(s, e), k, a) <==> OldListed(s, k, a)
  {
    hide Minus, ListsWithout, JournalWithout, Sound, Listed, Free;
    ListedAfter(s, e, k);
    if !Listed(s, k) { UnlistedHasNoHeight(s, k); }
    match e {
      case Try(j, m, h, valid) =>
        if j == k && Listed(s, k) && Accepted(s, k, m, valid) { OwnerAgain(s, k, m); }
        if k in ListOf(s, m) { assert Listed(s, k) by { ListedBy(s, m, k); } }
      case Rewind(target) =>
    }
  }

  lemma ListedBy(s: Reg, m: Identity, k: Key)
    requires k in ListOf(s, m)
    ensures Listed(s, k)
  {
    assert Lists(s.lists, m, k);
  }

  lemma {:induction false} SeenRun(s: Reg, run: seq<Event>, k: Key, a: int, was: bool)
    requires Sound(s) && a >= 0 && Fair(s, run, a) && Standing(s, k, a, was)
    ensures k in AsOf(RunAll(s, run), a).records <==> OldListed(s, k, a) || LeftOver(s, run, k, was)
    decreases |run|
  {
    hide Next, FairStep, LeftAfter, Minus, ListsWithout, JournalWithout, JournalSound;
    if run == [] {
      if Listed(s, k) {
        var m :| Lists(s.lists, m, k);
        assert k in s.records;
      } else {
        UnlistedHasNoHeight(s, k);
      }
    } else {
      StandingStep(s, run[0], k, a, was);
      StepIsUnseen(s, run[0], a);
      SeenRun(Next(s, run[0]), run[1..], k, a, LeftAfter(s, run[0], k, was));
    }
  }

  /** Which keys the reader by address sees as of block a, whatever was registered, refused and
      rewound since: those listed at block a, and those of which the last try that found them
      unlisted was refused. */
  lemma {:induction false} SeenAsOf(s: Reg, run: seq<Event>, k: Key, a: int)
    requires Sound(s) && a >= 0 && Fair(s, run, a)
    requires forall j :: j in s.heights ==> s.heights[j] <= a
    ensures k in AsOf(RunAll(s, run), a).records <==> Listed(s, k) || LeftOver(s, run, k, k in s.records)
  {
    hide AsOf, RunAll, LeftOver, Fair, Sound;
    SeenRun(s, run, k, a, k in s.records);
  }

  /** A key that is refused in block 9 counts as registered in block 0. */
  lemma RefusedLooksOld(k: Key, m: Identity)
    ensures var s := RunAll(Reg(map[], map[], map[], map[]), [Try(k, m, 9, false)]);
            k in AsOf(s, 0).records && !Listed(s, k)
  {
    var e := Reg(map[], map[], map[], map[]);
    assert RunAll(Next(e, Try(k, m, 9, false)), []) == Refused(e, k, m);
    assert [Try(k, m, 9, false)][1..] == [];
  }

  /** A key without a list that is accepted whenever it is tried leaves nothing, not even the
      record of an earlier refusal. */
  lemma {:induction false} NothingLeft(s: Reg, run: seq<Event>, k: Key, was: bool)
    requires Sound(s) && !EverRefused(s, run, k) && (was ==> !Listed(s, k) && Tried(run, k))
    requires exists a :: a >= 0 && Fair(s, run, a)
    ensures !LeftOver(s, run, k, was)
    decreases |run|
  {
    hide Next, FairStep, Sound, Accepted;
    if run != [] {
      var e := run[0];
      var a :| a >= 0 && Fair(s, run, a);
      ListedAfter(s, e, k);
      StepIsUnseen(s, e, a);
      if was && !(e.Try? && e.key == k) { TriedNext(run, k); }
      NothingLeft(Next(s, e), run[1..], k, LeftAfter(s, e, k, was));
    }
  }

  lemma TriedNext(run: seq<Event>, k: Key)
    requires run != [] && Tried(run, k) && !(run[0].Try? && run[0].key == k)
    ensures Tried(run[1..], k)
  {
    var i :| 0 <= i < |run| && run[i].Try? && run[i].key == k;
    assert run[1..][i - 1] == run[i];
  }

  /** A key listed by m that is never refused has the record of m once it is tried again. */
  lemma {:induction false} OwnerRun(s: Reg, run: seq<Event>, k: Key, m: Identity, a: int)
    requires Sound(s) && a >= 0 && Fair(s, run, a) && Lists(s.lists, m, k) && Height(s, k) <= a && !EverRefused(s, run, k)
    requires Tried(run, k) || s.records[k] == m
    ensures k in AsOf(RunAll(s, run), a).records && AsOf(RunAll(s, run), a).records[k] == m
    decreases |run|
  {
    hide Minus, ListsWithout, JournalWithout;
    if run != [] {
      var e := run[0];
      OwnerStep(s, e, k, m, a);
      StepIsUnseen(s, e, a);
      if Tried(run, k) && !(e.Try? && e.key == k) { TriedNext(run, k); }
      OwnerRun(Next(s, e), run[1..], k, m, a);
    }
  }

  lemma {:induction false} OwnerStep(s: Reg, e: Event, k: Key, m: Identity, a: int)
    requires Sound(s) && a >= 0 && FairStep(s, e, a) && Lists(s.lists, m, k) && Height(s, k) <= a
    requires !(e.Try? && e.key == k && !Accepted(s, k, e.identity, e.validLength))
    ensures var t := Next(s, e);
            && Lists(t.lists, m, k) && Height(t, k) <= a && k in t.records
            && t.records[k] == if e.Try? && e.key == k then m else s.records[k]
  {
    hide Minus, ListsWithout, JournalWithout, JournalSound;
    match e {
      case Try(j, n, h, valid) =>
        AddedLists(s.lists, j, n);
        if j == k { assert n == m; }
      case Rewind(target) =>
        ListsAfter(s.lists, After(s, target));
    }
  }

  /** Going back to block a after any such run gives the lists, heights and journal that block a
      left, and its records up to those of keys that were refused. Of the other keys, one that was
      not tried keeps its record; one that was tried has the record of the identity that lists it,
      and none if no identity does, even where a refusal before block a had left one. */
  lemma {:induction false} RewindRestores(s: Reg, run: seq<Event>, a: int)
    requires Sound(s) && a >= 0 && Fair(s, run, a)
    requires forall k :: k in s.heights ==> s.heights[k] <= a
    ensures var r := AsOf(RunAll(s, run), a);
            && SameIndex(r, s) && Sound(r)
            && (forall k :: !Tried(run, k) ==> SameRecord(r, s, k))
            && (forall m, k :: Lists(s.lists, m, k) ==> k in r.records)
            && (forall m, k :: Lists(s.lists, m, k) && !EverRefused(s, run, k) && (Tried(run, k) || s.records[k] == m) ==> r.records[k] == m)
            && (forall k :: Tried(run, k) && !EverRefused(s, run, k) && !Listed(s, k) ==> k !in r.records)
            && (forall k :: k !in s.records && !EverRefused(s, run, k) ==> k !in r.records)
  {
    hide Minus, ListsWithout, JournalWithout, JournalSound, Lists, Fair, Tried, EverRefused, RunAll, Listed, LeftOver;
    RunIsUnseen(s, run, a);
    assert After(s, a) == {};
    WithoutNothing(s);
    var r := AsOf(RunAll(s, run), a);
    WithoutSound(RunAll(s, run), After(RunAll(s, run), a));
    forall k | !Tried(run, k) ensures SameRecord(r, s, k) { UntriedRun(s, run, k, a); }
    forall k | k !in s.records && !EverRefused(s, run, k) ensures k !in r.records { TransientRun(s, run, k, a); }
    forall k | Tried(run, k) && !EverRefused(s, run, k) && !Listed(s, k) ensures k !in r.records {
      SeenAsOf(s, run, k, a);
      NothingLeft(s, run, k, k in s.records);
    }
    forall m, k | Lists(s.lists, m, k) && !EverRefused(s, run, k) && (Tried(run, k) || s.records[k] == m) ensures r.records[k] == m {
      OwnerRun(s, run, k, m, a);
    }
  }

  // ---------------------------------------------------------------- the stored registry

  /** The keys a rewind from top to target is to take out. */
  ghost function Between(s: Reg, low: int, high: int): set<Key> {
    set k | k in s.heights && low < s.heights[k] <= high
  }

  /** The list of m loses one key; a list that ends up empty is removed. */
  ghost function Dropped(lists: map<Identity, seq<Key>>, k: Key, m: Identity): map<Identity, seq<Key>> {
    if m !in lists || |Minus(lists[m], {k})| == |lists[m]| then lists
    else if Minus(lists[m], {k}) == [] then lists - {m}
    else lists[m := Minus(lists[m], {k})]
  }

  lemma {:induction false} MinusShortens(l: seq<Key>, k: Key)
    ensures |Minus(l, {k})| <= |l|
    ensures |Minus(l, {k})| == |l| <==> k !in l
  {
    if l != [] {
      assert l == l[..|l| - 1] + [l[|l| - 1]];
      MinusShortens(l[..|l| - 1], k);
    }
  }

  /** Dropping a key from the list of its owner takes it out of every list. */
  lemma {:induction false} DroppedEverywhere(s: Reg, k: Key, m: Identity)
    requires Sound(s) && Lists(s.lists, m, k)
    ensures Dropped(s.lists, k, m) == ListsWithout(s.lists, {k})
  {
    hide Minus, JournalSound;
    MinusShortens(s.lists[m], k);
    forall i | i in s.lists && i != m ensures Minus(s.lists[i], {k}) == s.lists[i] {
      assert !Lists(s.lists, i, k);
      MinusNothing(s.lists[i], {k});
    }
  }

  lemma {:induction false} UndoneOne(s: Reg, e: (int, Key))
    requires Sound(s) && e in s.journal
    ensures Reg(s.records - {e.1}, Dropped(s.lists, e.1, s.journal[e]), s.heights - {e.1}, s.journal - {e})
         == Without(s, {e.1})
  {
    hide Minus, Dropped, ListsSound, ListsWithout;
    DroppedEverywhere(s, e.1, s.journal[e]);
    assert JournalWithout(s.journal, {e.1}) == s.journal - {e};
  }

  class KeyStore {
    var records: map<Key, Identity>
    var lists: map<Identity, seq<Key>>
    var heights: map<Key, int>
    var journal: map<(int, Key), Identity>

    function Value(): Reg
      reads this
    {
      Reg(records, lists, heights, journal)
    }

    constructor ()
      ensures Sound(Value())
      ensures Value() == Reg(map[], map[], map[], map[])
    {
      records, lists, heights, journal := map[], map[], map[], map[];
    }

    /** registerPubKeyAtHeight. The key record is written first, so a registration refused for
        the key's length or for a full list leaves that record behind. */
    method Register(k: Key, m: Identity, h: int, validLength: bool) returns (ok: bool)
      modifies this
      ensures ok <==> Accepted(old(Value()), k, m, validLength)
      ensures Value() == Next(old(Value()), Try(k, m, h, validLength))
      ensures old(Sound(Value())) && (ok ==> old(Free(Value(), k, m))) ==> Sound(Value())
    {
      hide Sound, Free;
      var isNew := k !in ListOf(Value(), m);
      ghost var was := Value();
      if Sound(was) { RefusedSound(was, k, m); }
      if Sound(was) && Free(was, k, m) { RegisteredSound(was, k, m, h); }
      records := records[k := m];
      if !validLength { return false; }
      if isNew {
        if |ListOf(Value(), m)| >= MAX_KEYS_PER_IDENTITY { return false; }
        lists := lists[m := ListOf(Value(), m) + [k]];
        heights := heights[k := h];
        journal := journal[(h, k) := m];
      }
      return true;
    }

    /** unregisterPubKey. */
    method Unregister(k: Key, m: Identity)
      modifies this
      ensures Value() == Reg(old(records) - {k}, Dropped(old(lists), k, m), old(heights) - {k}, old(journal))
    {
      records, heights := records - {k}, heights - {k};
      if m !in lists { return; }
      var l, kept := lists[m], [];
      for i := 0 to |l|
        invariant kept == Minus(l[..i], {k})
        invariant Value() == Reg(old(records) - {k}, old(lists), old(heights) - {k}, old(journal))
      {
        assert l[..i + 1][..i] == l[..i];
        if l[i] != k { kept := kept + [l[i]]; }
      }
      assert l[..|l|] == l;
      if |kept| == |l| { return; }
      lists := if kept == [] then lists - {m} else lists[m := kept];
    }

    /** Undoes the journal entries of a set, one by one and in any order. */
    method UndoAll(entries: set<(int, Key)>)
      requires Sound(Value()) && entries <= journal.Keys
      modifies this
      ensures Sound(Value())
      ensures Value() == Without(old(Value()), set e | e in entries :: e.1)
    {
      hide Minus, Dropped, Sound, Without;
      var rest := entries;
      ghost var done: set<Key> := {};
      WithoutNothing(Value());
      while rest != {}
        invariant rest <= entries && rest <= journal.Keys && Sound(Value())
        invariant done == set e | e in entries - rest :: e.1
        invariant Value() == Without(old(Value()), done)
        decreases rest
      {
        var e := Pick(rest);
        ghost var s := Value();
        UndoneOne(s, e);
        Unregister(e.1, journal[e]);
        journal := journal - {e};
        rest := rest - {e};
        WithoutSound(s, {e.1});
        WithoutTwice(old(Value()), done, {e.1});
        done := done + {e.1};
      }
      assert entries - rest == entries;
    }

    /** UnregisterPubKeysAtHeight. */
    method UnregisterAtHeight(h: int)
      requires Sound(Value())
      modifies this
      ensures Sound(Value())
      ensures Value() == Without(old(Value()), Between(old(Value()), h - 1, h))
    {
      hide Minus, Without, ListsSound;
      var entries := set e | e in journal && e.0 == h;
      EntriesAreKeys(Value(), entries, h - 1, h);
      UndoAll(entries);
    }

    /** UnregisterPubKeysAboveHeight. A short rewind looks at one height after the other up to
        top, a deep one sweeps the journal. The sweep always gives the registry as of target;
        the short path does so exactly when nothing was registered above top. */
    method UnregisterAbove(target: int, top: int)
      requires Sound(Value())
      modifies this
      ensures Sound(Value())
      ensures target < top <= target + PER_HEIGHT_SCAN_LIMIT ==>
              Value() == Without(old(Value()), Between(old(Value()), target, top))
      ensures Value() == AsOf(old(Value()), target) <==>
              !(target < top <= target + PER_HEIGHT_SCAN_LIMIT) || After(old(Value()), top) == {}
    {
      hide Minus, Without, ListsSound;
      if target < top <= target + PER_HEIGHT_SCAN_LIMIT {
        WithoutNothing(Value());
        assert Between(Value(), target, target) == {};
        for h := target + 1 to top + 1
          invariant Sound(Value()) && Value() == Without(old(Value()), Between(old(Value()), target, h - 1))
        {
          NextHeight(old(Value()), target, h);
          UnregisterAtHeight(h);
        }
        ShortRewind(old(Value()), target, top);
      } else {
        var entries := set e | e in journal && e.0 > target;
        EntriesAbove(Value(), entries, target);
        UndoAll(entries);
      }
    }
  }

  lemma {:induction false} EntriesAreKeys(s: Reg, entries: set<(int, Key)>, low: int, high: int)
    requires Sound(s) && entries == set e | e in s.journal && low < e.0 <= high
    ensures (set e | e in entries :: e.1) == Between(s, low, high)
  {
    hide ListsSound;
    forall k | k in Between(s, low, high) ensures k in set e | e in entries :: e.1 {
      assert (s.heights[k], k) in entries;
    }
  }

  lemma {:induction false} EntriesAbove(s: Reg, entries: set<(int, Key)>, low: int)
    requires Sound(s) && entries == set e | e in s.journal && e.0 > low
    ensures (set e | e in entries :: e.1) == After(s, low)
  {
    hide ListsSound;
    forall k | k in After(s, low) ensures k in set e | e in entries :: e.1 {
      assert (s.heights[k], k) in entries;
    }
  }

  /** One more height taken out of what the heights below it have left. */
  lemma {:induction false} NextHeight(s: Reg, target: int, h: int)
    requires target < h
    ensures var t := Without(s, Between(s, target, h - 1));
            Without(t, Between(t, h - 1, h)) == Without(s, Between(s, target, h))
  {
    hide Minus, ListsWithout, JournalWithout;
    var t := Without(s, Between(s, target, h - 1));
    WithoutTwice(s, Between(s, target, h - 1), Between(t, h - 1, h));
    assert Between(s, target, h - 1) + Between(t, h - 1, h) == Between(s, target, h);
  }

  lemma {:induction false} ShortRewind(s: Reg, target: int, top: int)
    requires target < top && Sound(s)
    ensures Without(s, Between(s, target, top)) == AsOf(s, target) <==> After(s, top) == {}
  {
    hide Minus, ListsWithout, JournalWithout, ListsSound;
    if After(s, top) == {} {
      forall k | k in After(s, target) ensures k in Between(s, target, top) { assert k !in After(s, top); }
      assert Between(s, target, top) == After(s, target);
    } else {
      var k :| k in After(s, top);
      assert k in Without(s, Between(s, target, top)).heights && k !in AsOf(s, target).heights;
    }
  }
}
