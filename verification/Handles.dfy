/** The allocator of virtual peer addresses in tcpip/peerHandle.go: a stable handle per node,
    a bounded number per transport address, and eviction of the least recently used. */
module Handles {
  import opened Basics
  import opened Sums

  const MAX_HANDLES_PER_IP := 32

  type Node = nat
  type IP = nat

  /** The last two bytes of 240.254.x.y as a number; usable from 1 on. */
  type Handle = nat

  class Allocator {
    const space: nat                      // number of usable handles
    var handleOf: map<Node, Handle>
    var nodeOf: map<Handle, Node>
    var realIP: map<Handle, IP>
    var lastUse: map<Handle, int>
    var byIP: map<IP, set<Handle>>
    var clock: int
    var next: nat

    ghost predicate Valid()
      reads this
    {
      && space >= 1 && 1 <= next <= space && clock >= 0
      && Inverse(handleOf, nodeOf)
      && realIP.Keys == nodeOf.Keys && lastUse.Keys == nodeOf.Keys
      && Indexed(realIP, byIP)
      && InRange(nodeOf, space) && Timed(lastUse, clock)
    }

    constructor (space: nat)
      requires space >= 1
      ensures Valid() && handleOf == map[]
    {
      this.space := space;
      handleOf, nodeOf, realIP, lastUse, byIP, clock, next := map[], map[], map[], map[], map[], 0, 1;
    }

    function HandlesAt(ip: IP): set<Handle>
      reads this`byIP
    {
      At(byIP, ip)
    }

    /** h is the least recently used of a set. */
    ghost predicate Oldest(h: Handle, among: set<Handle>)
      reads this`lastUse
    {
      h in among && h in lastUse && forall g :: g in among && g in lastUse ==> lastUse[h] <= lastUse[g]
    }

    method OldestHandle(among: set<Handle>) returns (h: Handle)
      requires among <= lastUse.Keys && among != {} && forall g :: g in lastUse ==> lastUse[g] >= 0
      ensures Oldest(h, among)
    {
      var todo := among;
      var best := -1;
      h := 0;
      while todo != {}
        invariant todo <= among
        invariant best < 0 ==> todo == among
        invariant best >= 0 ==> h in among && best == lastUse[h] && forall g :: g in among - todo ==> best <= lastUse[g]
        decreases todo
      {
        var g := Pick(todo);
        todo := todo - {g};
        if best < 0 || lastUse[g] < best {
          h, best := g, lastUse[g];
        }
      }
    }

    /** freeHandleLocked: the cyclic search finds a free handle whenever there is one. */
    method FreeHandle() returns (h: Handle, ok: bool)
      requires Valid()
      modifies `next
      ensures Valid()
      ensures ok <==> |nodeOf| < space
      ensures ok ==> 1 <= h <= space && h !in nodeOf
    {
      hide Indexed, Inverse;
      h, ok := 0, false;
      if |nodeOf| >= space { return; }
      ghost var start, free := next, SomeFree(nodeOf, space);
      for i := 0 to space + 1
        invariant 1 <= next <= space && Ahead(start, next, space) == i <= Ahead(start, free, space)
      {
        var n := next;
        next := next + 1;
        if next > space { next := 1; }
        if n !in nodeOf { return n, true; }
      }
    }

    /** setHandleIPLocked. */
    method SetHandleIP(h: Handle, ip: IP)
      requires Indexed(realIP, byIP)
      modifies `realIP, `byIP
      ensures Indexed(realIP, byIP) && realIP == old(realIP)[h := ip]
      ensures HandlesAt(ip) == old(HandlesAt(ip)) + {h}
      ensures forall j :: j != ip ==> HandlesAt(j) == old(HandlesAt(j)) - {h}
    {
      hide Indexed;
      IndexedMove(realIP, byIP, h, ip);
      if h in realIP && realIP[h] != ip {
        IndexedHas(realIP, byIP, h);
        byIP := DropFrom(byIP, realIP[h], h);
      }
      realIP := realIP[h := ip];
      byIP := byIP[ip := At(byIP, ip) + {h}];
    }

    /** evictHandleLocked: h and its node disappear from all five maps. */
    method Evict(h: Handle)
      requires Valid()
      modifies `handleOf, `nodeOf, `realIP, `lastUse, `byIP
      ensures Valid()
      ensures nodeOf == old(nodeOf) - {h} && realIP == old(realIP) - {h} && lastUse == old(lastUse) - {h}
      ensures handleOf == if h in old(nodeOf) then old(handleOf) - {old(nodeOf)[h]} else old(handleOf)
      ensures forall j :: HandlesAt(j) == old(HandlesAt(j)) - {h}
    {
      hide Indexed, Inverse, InRange, Timed;
      WithoutOne(nodeOf, lastUse, space, clock, h);
      if h !in nodeOf {
        NotIndexed(realIP, byIP, h);
        assert nodeOf - {h} == nodeOf && realIP - {h} == realIP && lastUse - {h} == lastUse;
        return;
      }
      IndexedHas(realIP, byIP, h);
      IndexedDrop(realIP, byIP, h);
      InverseRemove(handleOf, nodeOf, h);
      handleOf := handleOf - {nodeOf[h]};
      nodeOf, lastUse := nodeOf - {h}, lastUse - {h};
      byIP := DropFrom(byIP, realIP[h], h);
      realIP := realIP - {h};
    }

    /** Who has to make room for a new node at ip: the oldest handle there when the address is
        at its limit, the oldest of all when every handle is in use, else nobody. */
    ghost predicate Victim(h: Handle, ip: IP)
      reads this
    {
      if |HandlesAt(ip)| >= MAX_HANDLES_PER_IP then Oldest(h, HandlesAt(ip))
      else |nodeOf| >= space && Oldest(h, nodeOf.Keys)
    }

    ghost predicate NeedsRoom(ip: IP)
      reads this
    {
      |HandlesAt(ip)| >= MAX_HANDLES_PER_IP || |nodeOf| >= space
    }

    /** HandleForPeer. A known node keeps its handle. A new one gets a handle nobody holds;
        at most one node loses its own for it, the least recently used where room is needed,
        and every other node keeps what it has. */
    method HandleForPeer(id: Node, ip: IP) returns (h: Handle)
      requires Valid()
      modifies this
      ensures Valid() && clock == old(clock) + 1
      ensures id in handleOf && handleOf[id] == h && realIP[h] == ip && lastUse[h] == clock
      ensures id in old(handleOf) ==> h == old(handleOf)[id] && handleOf == old(handleOf) && nodeOf == old(nodeOf)
      ensures id !in old(handleOf) && !old(NeedsRoom(ip)) ==> handleOf == old(handleOf)[id := h] && h !in old(nodeOf)
      ensures id !in old(handleOf) && old(NeedsRoom(ip)) ==>
                exists v :: old(Victim(v, ip)) && handleOf == (old(handleOf) - {old(nodeOf)[v]})[id := h]
                            && h !in old(nodeOf) - {v}
      ensures id !in old(handleOf) ==>
                |HandlesAt(ip)| <= (if old(|HandlesAt(ip)|) > MAX_HANDLES_PER_IP then old(|HandlesAt(ip)|) else MAX_HANDLES_PER_IP)
    {
      hide Indexed, Inverse;
      clock := clock + 1;
      if id in handleOf {
        h := handleOf[id];
        InverseHas(handleOf, nodeOf, id);
        SetHandleIP(h, ip);
        lastUse := lastUse[h := clock];
        return;
      }
      ghost var v;
      h, v := MakeRoom(ip);
      Bounded(At(byIP, ip), h);
      if v.Some? { BoundedAfter(old(HandlesAt(ip)), v.value); }
      Register(id, h, ip);
    }

    /** The middle of HandleForPeer: evict where room is needed and take a free handle. */
    method MakeRoom(ip: IP) returns (h: Handle, ghost v: Option<Handle>)
      requires Valid()
      modifies `handleOf, `nodeOf, `realIP, `lastUse, `byIP, `next
      ensures Valid() && 1 <= h <= space && h !in nodeOf
      ensures v.Some? <==> old(NeedsRoom(ip))
      ensures v.None? ==> nodeOf == old(nodeOf) && handleOf == old(handleOf) && HandlesAt(ip) == old(HandlesAt(ip))
      ensures v.Some? ==>
                && old(Victim(v.value, ip)) && nodeOf == old(nodeOf) - {v.value} && v.value in old(nodeOf)
                && handleOf == old(handleOf) - {old(nodeOf)[v.value]}
                && HandlesAt(ip) == old(HandlesAt(ip)) - {v.value}
    {
      hide Valid, Oldest;
      ghost var w;
      v := EvictAt(ip);
      h, w := TakeFree();
      if w.Some? { v := w; }
    }

    /** An address at its limit gives up its oldest handle. */
    method EvictAt(ip: IP) returns (ghost v: Option<Handle>)
      requires Valid()
      modifies `handleOf, `nodeOf, `realIP, `lastUse, `byIP
      ensures Valid()
      ensures v.Some? <==> old(|HandlesAt(ip)|) >= MAX_HANDLES_PER_IP
      ensures v.None? ==> unchanged(this)
      ensures v.Some? ==>
                && old(Oldest(v.value, HandlesAt(ip))) && nodeOf == old(nodeOf) - {v.value} && v.value in old(nodeOf)
                && handleOf == old(handleOf) - {old(nodeOf)[v.value]}
                && HandlesAt(ip) == old(HandlesAt(ip)) - {v.value}
                && |nodeOf| < space
    {
      hide Indexed, Inverse;
      v := None;
      if |HandlesAt(ip)| >= MAX_HANDLES_PER_IP {
        AtIsUsed(realIP, byIP, ip);
        var oldest := OldestHandle(HandlesAt(ip));
        v := Some(oldest);
        FitsAfter(this, oldest);
        Evict(oldest);
      }
    }

    /** A free handle; when there is none the oldest of all is given up first. */
    method TakeFree() returns (h: Handle, ghost v: Option<Handle>)
      requires Valid()
      modifies `handleOf, `nodeOf, `realIP, `lastUse, `byIP, `next
      ensures Valid() && 1 <= h <= space && h !in nodeOf
      ensures v.Some? <==> old(|nodeOf|) >= space
      ensures v.None? ==> nodeOf == old(nodeOf) && handleOf == old(handleOf) && byIP == old(byIP)
      ensures v.Some? ==>
                && old(Oldest(v.value, nodeOf.Keys)) && nodeOf == old(nodeOf) - {v.value} && v.value in old(nodeOf)
                && handleOf == old(handleOf) - {old(nodeOf)[v.value]}
                && forall j :: HandlesAt(j) == old(HandlesAt(j)) - {v.value}
    {
      hide Valid, Oldest;
      v := None;
      InUse(this);
      var ok;
      h, ok := FreeHandle();
      if !ok {
        assert nodeOf != map[];
        assert nodeOf.Keys != {};
        var oldest := OldestHandle(nodeOf.Keys);
        v := Some(oldest);
        FitsAfter(this, oldest);
        assert Oldest(oldest, nodeOf.Keys) && oldest in nodeOf;
        Evict(oldest);
        h, ok := FreeHandle();
      }
    }

    /** The end of HandleForPeer: a free handle becomes the new node's. */
    method Register(id: Node, h: Handle, ip: IP)
      requires Valid() && id !in handleOf && h !in nodeOf && 1 <= h <= space
      modifies `handleOf, `nodeOf, `realIP, `lastUse, `byIP
      ensures Valid() && handleOf == old(handleOf)[id := h] && nodeOf == old(nodeOf)[h := id]
      ensures realIP[h] == ip && lastUse[h] == clock
      ensures HandlesAt(ip) == old(HandlesAt(ip)) + {h}
    {
      hide Indexed, Inverse;
      InverseAdd(handleOf, nodeOf, id, h);
      handleOf := handleOf[id := h];
      nodeOf := nodeOf[h := id];
      SetHandleIP(h, ip);
      lastUse := lastUse[h := clock];
    }
  }

  function At(byIP: map<IP, set<Handle>>, ip: IP): set<Handle> {
    if ip in byIP then byIP[ip] else {}
  }

  /** Taking h out of the set of an address; an empty set goes. */
  function DropFrom(byIP: map<IP, set<Handle>>, ip: IP, h: Handle): map<IP, set<Handle>>
    requires ip in byIP
  {
    if byIP[ip] - {h} == {} then byIP - {ip} else byIP[ip := byIP[ip] - {h}]
  }

  lemma IndexedHas(realIP: map<Handle, IP>, byIP: map<IP, set<Handle>>, h: Handle)
    requires Indexed(realIP, byIP) && h in realIP
    ensures realIP[h] in byIP && h in byIP[realIP[h]]
  {
  }

  lemma NotIndexed(realIP: map<Handle, IP>, byIP: map<IP, set<Handle>>, h: Handle)
    requires Indexed(realIP, byIP) && h !in realIP
    ensures forall j :: At(byIP, j) == At(byIP, j) - {h}
  {
  }

  lemma AtIsUsed(realIP: map<Handle, IP>, byIP: map<IP, set<Handle>>, ip: IP)
    requires Indexed(realIP, byIP)
    ensures At(byIP, ip) <= realIP.Keys
  {
  }

  lemma {:induction false} IndexedDrop(realIP: map<Handle, IP>, byIP: map<IP, set<Handle>>, h: Handle)
    requires Indexed(realIP, byIP) && h in realIP
    ensures realIP[h] in byIP && Indexed(realIP - {h}, DropFrom(byIP, realIP[h], h))
    ensures forall j :: At(DropFrom(byIP, realIP[h], h), j) == At(byIP, j) - {h}
  {
  }

  lemma {:induction false} IndexedAdd(realIP: map<Handle, IP>, byIP: map<IP, set<Handle>>, h: Handle, ip: IP)
    requires Indexed(realIP, byIP) && h !in realIP
    ensures Indexed(realIP[h := ip], byIP[ip := At(byIP, ip) + {h}])
  {
  }

  lemma {:induction false} IndexedMove(realIP: map<Handle, IP>, byIP: map<IP, set<Handle>>, h: Handle, ip: IP)
    requires Indexed(realIP, byIP)
    ensures h in realIP ==> realIP[h] in byIP
    ensures var mid := if h in realIP && realIP[h] != ip then DropFrom(byIP, realIP[h], h) else byIP;
            var after := mid[ip := At(mid, ip) + {h}];
            && Indexed(realIP[h := ip], after)
            && At(after, ip) == At(byIP, ip) + {h} && forall j :: j != ip ==> At(after, j) == At(byIP, j) - {h}
  {
    hide Indexed;
    if h !in realIP {
      IndexedAdd(realIP, byIP, h, ip);
      NotIndexed(realIP, byIP, h);
    } else if realIP[h] == ip {
      IndexedHas(realIP, byIP, h);
      assert realIP[h := ip] == realIP && byIP[ip] + {h} == byIP[ip] && byIP[ip := byIP[ip]] == byIP;
      OnlyThere(realIP, byIP, h);
    } else {
      IndexedDrop(realIP, byIP, h);
      IndexedAdd(realIP - {h}, DropFrom(byIP, realIP[h], h), h, ip);
      assert (realIP - {h})[h := ip] == realIP[h := ip];
      OnlyThere(realIP, byIP, h);
    }
  }

  lemma OnlyThere(realIP: map<Handle, IP>, byIP: map<IP, set<Handle>>, h: Handle)
    requires Indexed(realIP, byIP) && h in realIP
    ensures forall j :: j != realIP[h] ==> At(byIP, j) == At(byIP, j) - {h}
  {
  }

  lemma InverseHas(handleOf: map<Node, Handle>, nodeOf: map<Handle, Node>, id: Node)
    requires Inverse(handleOf, nodeOf) && id in handleOf
    ensures handleOf[id] in nodeOf
  {
  }

  lemma InverseRemove(handleOf: map<Node, Handle>, nodeOf: map<Handle, Node>, h: Handle)
    requires Inverse(handleOf, nodeOf) && h in nodeOf
    ensures Inverse(handleOf - {nodeOf[h]}, nodeOf - {h})
  {
  }

  lemma InverseAdd(handleOf: map<Node, Handle>, nodeOf: map<Handle, Node>, id: Node, h: Handle)
    requires Inverse(handleOf, nodeOf) && id !in handleOf && h !in nodeOf
    ensures Inverse(handleOf[id := h], nodeOf[h := id])
  {
  }

  /** No more handles are in use than there are, so removing one leaves room. */
  lemma {:induction false} FitsAfter(a: Allocator, h: Handle)
    requires a.Valid() && h in a.nodeOf
    ensures |a.nodeOf - {h}| < a.space
  {
    hide Indexed, Inverse;
    RangeSize(a.space);
    assert a.nodeOf.Keys <= Range(a.space);
    SubsetSize(a.nodeOf.Keys, Range(a.space));
    assert (a.nodeOf - {h}).Keys == a.nodeOf.Keys - {h};
  }

  lemma Bounded(s: set<Handle>, h: Handle)
    ensures |s + {h}| <= |s| + 1
  {
    if h in s { assert s + {h} == s; }
  }

  lemma BoundedAfter(s: set<Handle>, h: Handle)
    ensures |s - {h}| == (if h in s then |s| - 1 else |s|)
  {
    if h !in s { assert s - {h} == s; }
  }

  ghost predicate InRange(nodeOf: map<Handle, Node>, space: nat) {
    forall h :: h in nodeOf ==> 1 <= h <= space
  }

  ghost predicate Timed(lastUse: map<Handle, int>, clock: int) {
    forall h :: h in lastUse ==> 0 <= lastUse[h] <= clock
  }

  lemma WithoutOne(nodeOf: map<Handle, Node>, lastUse: map<Handle, int>, space: nat, clock: int, h: Handle)
    requires InRange(nodeOf, space) && Timed(lastUse, clock)
    ensures InRange(nodeOf - {h}, space) && Timed(lastUse - {h}, clock)
  {
  }

  lemma InUse(a: Allocator)
    requires a.Valid()
    ensures a.space >= 1 && a.lastUse.Keys == a.nodeOf.Keys && forall g :: g in a.lastUse ==> a.lastUse[g] >= 0
  {
  }

  ghost predicate Inverse(handleOf: map<Node, Handle>, nodeOf: map<Handle, Node>) {
    && (forall id :: id in handleOf ==> handleOf[id] in nodeOf && nodeOf[handleOf[id]] == id)
    && (forall h :: h in nodeOf ==> nodeOf[h] in handleOf && handleOf[nodeOf[h]] == h)
  }

  /** The sets per address are exactly the handles behind it, and none is empty. */
  ghost predicate Indexed(realIP: map<Handle, IP>, byIP: map<IP, set<Handle>>) {
    && (forall ip :: ip in byIP ==> byIP[ip] != {} && forall h :: h in byIP[ip] ==> h in realIP && realIP[h] == ip)
    && (forall h :: h in realIP ==> realIP[h] in byIP && h in byIP[realIP[h]])
  }

  /** How far n is ahead of `start` on the circle of handles. */
  function Ahead(start: nat, n: nat, space: nat): int {
    if n >= start then n - start else n - start + space
  }

  function Range(n: nat): set<nat> {
    if n == 0 then {} else Range(n - 1) + {n}
  }

  lemma {:induction false} RangeSize(n: nat)
    ensures |Range(n)| == n && forall x: nat :: x in Range(n) <==> 1 <= x <= n
  {
    if n > 0 { RangeSize(n - 1); }
  }

  /** Fewer handles in use than there are leaves one free. */
  lemma {:induction false} SomeFreeExists(nodeOf: map<Handle, Node>, space: nat)
    requires |nodeOf| < space
    ensures exists h: Handle :: h in Range(space) && h !in nodeOf
  {
    RangeSize(space);
    if forall h: Handle :: h in Range(space) ==> h in nodeOf {
      assert Range(space) <= nodeOf.Keys;
      SubsetSize(Range(space), nodeOf.Keys);
    }
  }

  ghost function SomeFree(nodeOf: map<Handle, Node>, space: nat): (h: Handle)
    requires |nodeOf| < space
    ensures 1 <= h <= space && h !in nodeOf
  {
    SomeFreeExists(nodeOf, space);
    RangeSize(space);
    var h: Handle :| h in Range(space) && h !in nodeOf;
    h
  }
}
