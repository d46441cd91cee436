/** Descriptors and monitors of the host driver, from `manager.c` and `monitor.c`: who frees what, and when. */
module Lifetime {
  import opened LifetimeState
  import opened Options

  /**
   * What a count-down leaves as it was, when every monitor it may oust is younger than `floor`: slots only become
   * empty, and only those of younger monitors that are off the list. `but` are descriptors that it was to free.
   */
  ghost predicate Settled(s: State, t: State, floor: int, but: set<DescId>) {
    && t.slots.Keys <= s.slots.Keys && (forall k | k in t.slots :: t.slots[k] == s.slots[k])
    && t.handles == s.handles && t.inflight == s.inflight && t.ousting <= s.ousting && t.closing == s.closing - but
    && t.creator == s.creator && t.age == s.age && t.clock == s.clock
    && t.mons.Keys <= s.mons.Keys && (forall m | m in t.mons && t.mons[m].listed :: s.mons[m].listed)
    && t.descs.Keys <= s.descs.Keys
    && (forall d | d in t.descs :: t.descs[d].mon == s.descs[d].mon && t.descs[d].owner == s.descs[d].owner)
    && (forall d | d in s.closing - but && d in s.descs :: d in t.descs && t.descs[d] == s.descs[d])
    && (forall d | d in s.descs && d !in but && OwnsUpTo(s, d, floor) :: d in t.descs)
    && (forall k | k in s.slots && k.mon in s.age && s.age[k.mon] <= floor :: k in t.slots)
    && (forall k | k in s.slots && k !in t.slots :: k.mon in t.mons ==> !t.mons[k.mon].listed)
  }

  /** `d` owns a monitor that is not younger than `floor`. */
  ghost predicate OwnsUpTo(s: State, d: DescId, floor: int)
    requires d in s.descs
  {
    s.descs[d].owner && s.descs[d].mon.Some? && s.descs[d].mon.value in s.age && s.age[s.descs[d].mon.value] <= floor
  }

  lemma SettledTwice(s: State, t: State, u: State, floor: int)
    requires Settled(s, t, floor, {}) && Settled(t, u, floor, {})
    ensures Settled(s, u, floor, {})
  {
    assert forall d | d in s.descs && OwnsUpTo(s, d, floor) :: d in t.descs && OwnsUpTo(t, d, floor);
  }

  lemma DroppedSettles(s: State, d: DescId, floor: int)
    requires Inv(s) && d in s.descs && s.debts[d] > 0 && s.descs[d].refCount > 1
    ensures Settled(s, RefDropped(s, d), floor, {})
  {
    hide Links;
    hide FoundIsOwned;
    hide DescCounts;
    hide MonCounts;
    hide Ages;
  }

  lemma DroppedThenClosed(s: State, d: DescId, u: State, floor: int)
    requires Inv(s) && d in s.descs && s.debts[d] > 0 && s.descs[d].refCount == 1 && !OwnsUpTo(s, d, floor)
    requires Settled(RefDropped(s, d), u, floor, {d}) && d !in u.descs
    ensures Settled(s, u, floor, {})
  {
    hide Links;
    hide FoundIsOwned;
    hide DescCounts;
    hide MonCounts;
    hide Ages;
    assert d !in s.closing;
  }

  lemma ClearedSettles(s: State, k: Slot, floor: int)
    requires k in s.slots && k.mon in s.age && s.age[k.mon] > floor && k.mon in s.mons && !s.mons[k.mon].listed
    ensures Settled(s, SlotCleared(s, k), floor, {})
  {
  }

  /** Whoever sits in a slot of a monitor no older than `floor` owns, if any, a monitor that is younger still. */
  lemma HolderIsYounger(s: State, k: Slot, floor: int)
    requires Inv(s) && k in s.slots && k.mon in s.age && s.age[k.mon] >= floor
    ensures s.slots[k] in s.descs && !OwnsUpTo(s, s.slots[k], floor)
  {
  }

  lemma DelistedSettles(s: State, m: MonId, floor: int)
    requires m in s.mons
    ensures Settled(s, Delisted(s, m), floor, {})
  {
  }

  lemma CountedDownIs(s: State, m: MonId, owner: bool)
    requires m in s.mons
    ensures var t := CountedDown(s, m, owner);
      && t.slots == s.slots && t.descs == s.descs
      && forall n | n in t.mons :: n in s.mons && t.mons[n].listed == s.mons[n].listed
  {
  }

  lemma CountedDownSettles(s: State, m: MonId, owner: bool, floor: int)
    requires m in s.mons
    ensures Settled(s, CountedDown(s, m, owner), floor, {})
  {
  }

  lemma Detachable(s: State, d: DescId)
    requires Inv(s) && d in s.closing && d in s.descs && s.descs[d].mon.Some?
    ensures var m := s.descs[d].mon.value; m in s.mons && m in s.age && (m in s.ousting ==> s.releasing[m] > 0)
  {
  }

  lemma ClosedSettles(s: State, d: DescId, u: State, floor: int)
    requires Inv(s) && d in s.closing && d in s.descs && s.descs[d].mon.Some? && !OwnsUpTo(s, d, floor)
    requires Settled(Detached(s, d, s.descs[d].owner), u, floor, {})
    requires s.descs[d].owner ==> s.descs[d].mon.value !in u.ousting
    ensures d in u.closing && d in u.descs && u.descs[d].mon == None && Settled(s, Freed(u, d), floor, {d})
  {
    var t := Detached(s, d, s.descs[d].owner);
    forall e | e in s.descs && e != d && OwnsUpTo(s, e, floor)
      ensures e in u.descs
    {
      assert OwnsUpTo(t, e, floor);
    }
  }

  lemma FreedSettles(s: State, d: DescId, floor: int)
    requires d in s.closing
    ensures Settled(s, Freed(s, d), floor, {d})
  {
  }

  lemma StillThere(s: State, t: State, m: MonId, floor: int)
    requires Inv(t) && Settled(s, t, floor, {}) && t.releasing[m] > 0 && m in s.mons && (s.mons[m].listed ==> m !in t.mons || !t.mons[m].listed)
    ensures m in t.mons && !t.mons[m].listed && t.mons[m].refcount > 0
  {
  }

  /**
   * How the state `t` between two calls follows from `s`: a slot keeps what it holds exactly when the monitor of the slot
   * keeps its owner, and nothing changes hands. The slots in `but` are accounted for elsewhere.
   */
  ghost predicate Swept(s: State, t: State, but: set<Slot>) {
    && t.handles == s.handles && t.inflight == s.inflight && t.creator == s.creator && t.age == s.age
    && (forall k | k !in but :: k in t.slots <==> k in s.slots && Owned(t, k.mon))
    && (forall k | k in t.slots && k !in but :: t.slots[k] == s.slots[k])
    && (forall d | d in t.descs :: d in s.descs && t.descs[d].mon == s.descs[d].mon && t.descs[d].owner == s.descs[d].owner)
  }

  lemma Sweeps(s: State, t: State, floor: int)
    requires Settled(s, t, floor, {}) && Inv(t) && Quiet(t)
    ensures Swept(s, t, {})
  {
    hide Counts;
  }

  lemma SweptTwice(s: State, t: State, u: State, a: set<Slot>, b: set<Slot>)
    requires Swept(s, t, a) && Swept(t, u, b) && t.ousting == {} && u.ousting == {}
    ensures Swept(s, u, a + b)
  {
    assert forall m | Owned(u, m) :: Owned(t, m);
  }

  lemma SweptBut(s: State, t: State, k: Slot)
    requires k in s.slots && Swept(SlotCleared(s, k), t, {})
    ensures Swept(s, t, {k})
  {
  }

  lemma SweptSeat(s: State, t: State, k: Slot, d: DescId)
    requires Swept(s, t, {k}) && t.ousting == {} && d in t.descs
    ensures Swept(s, SlotSet(t, k, d), {k})
  {
    assert forall m :: Owned(t, m) <==> Owned(SlotSet(t, k, d), m);
  }

  /** Between calls an object is alive exactly when something refers to it, and its count is how many do. */
  lemma AliveIffReferenced(s: State)
    requires Inv(s) && Quiet(s)
    ensures forall d :: d in s.descs <==> d in s.handles || d in s.inflight || exists k :: k in s.slots && s.slots[k] == d
    ensures forall m: MonId :: m in s.mons <==> exists d :: d in s.descs && s.descs[d].mon == Some(m)
    ensures forall d | d in s.descs :: s.descs[d].refCount == HandleOf(s.handles, d) + |SlotsOf(s.slots, d)| + s.inflight[d]
    ensures forall m | m in s.mons :: s.mons[m].refcount == |Attached(s.descs, m)|
    ensures forall m | m in s.mons :: s.mons[m].listed <==> Owned(s, m)
  {
    forall d | d in s.descs
      ensures d in s.handles || d in s.inflight || exists k :: k in s.slots && s.slots[k] == d
    {
      NoSlotHolds(s.slots, d);
    }
    forall m: MonId | m in s.mons
      ensures exists d :: d in s.descs && s.descs[d].mon == Some(m)
    {
      SomeoneAttached(s.descs, m);
    }
  }

  lemma SomeoneAttached(descs: map<DescId, Desc>, m: MonId)
    requires |Attached(descs, m)| > 0
    ensures exists d :: d in descs && descs[d].mon == Some(m)
  {
    var d :| d in Attached(descs, m);
  }

  /** Ownership is passed down from older monitors to younger ones, so there is one way only for it to come out. */
  lemma {:induction false} OwnedAlike(s: State, t: State, u: State, but: set<Slot>, m: MonId)
    requires Inv(t) && Inv(u) && Quiet(t) && Quiet(u) && Swept(s, t, but) && Swept(s, u, but)
    requires forall k | k in but && k in t.slots :: k in u.slots && u.slots[k] == t.slots[k]
    requires Owned(t, m) && m in t.age
    ensures Owned(u, m)
    decreases t.age[m]
  {
    hide DescCounts;
    hide MonCounts;
    var c := t.creator[m];
    if c !in t.handles && c !in t.inflight {
      AliveIffReferenced(t);
      var k :| k in t.slots && t.slots[k] == c;
      if k !in but {
        OwnedAlike(s, t, u, but, k.mon);
      }
      assert k in u.slots && u.slots[k] == c;
    }
    assert c in u.descs;
  }

  lemma SlotsAlike(s: State, t: State, u: State, but: set<Slot>)
    requires Inv(t) && Inv(u) && Quiet(t) && Quiet(u) && Swept(s, t, but) && Swept(s, u, but)
    requires forall k | k in but && k in t.slots :: k in u.slots && u.slots[k] == t.slots[k]
    ensures forall k | k in t.slots :: k in u.slots && u.slots[k] == t.slots[k]
  {
    hide DescCounts;
    hide MonCounts;
    forall k | k in t.slots && k !in but
      ensures k in u.slots && u.slots[k] == t.slots[k]
    {
      OwnedAlike(s, t, u, but, k.mon);
    }
  }

  lemma DescsAlike(s: State, t: State, u: State, but: set<Slot>)
    requires Inv(t) && Inv(u) && Quiet(t) && Quiet(u) && Swept(s, t, but) && Swept(s, u, but) && t.slots == u.slots
    ensures t.descs == u.descs
  {
    hide Inv;
    hide Swept;
    AliveIffReferenced(t);
    AliveIffReferenced(u);
    SweptTells(s, t, but);
    SweptTells(s, u, but);
    assert forall d :: d in t.descs <==> d in u.descs;
    assert forall d | d in t.descs :: t.descs[d] == u.descs[d];
  }

  /** What is freed, and in which slots somebody is left, does not depend on the order in which things are let go. */
  lemma OneOutcome(s: State, t: State, u: State, but: set<Slot>)
    requires Inv(t) && Inv(u) && Quiet(t) && Quiet(u) && Swept(s, t, but) && Swept(s, u, but)
    requires forall k | k in but :: (k in t.slots <==> k in u.slots) && (k in t.slots ==> u.slots[k] == t.slots[k])
    ensures t.descs == u.descs && t.mons == u.mons && t.slots == u.slots
  {
    hide Inv;
    hide Swept;
    SlotsAlike(s, t, u, but);
    SlotsAlike(s, u, t, but);
    assert t.slots == u.slots;
    DescsAlike(s, t, u, but);
    AliveIffReferenced(t);
    AliveIffReferenced(u);
    SweptTells(s, t, but);
    SweptTells(s, u, but);
    forall m | m in t.mons
      ensures m in u.mons && t.mons[m] == u.mons[m]
    {
      assert Owned(t, m) <==> Owned(u, m);
    }
  }

  lemma SweptTells(s: State, t: State, but: set<Slot>)
    requires Swept(s, t, but)
    ensures t.handles == s.handles && t.inflight == s.inflight && t.creator == s.creator && t.age == s.age
    ensures forall d | d in t.descs :: d in s.descs && t.descs[d].mon == s.descs[d].mon && t.descs[d].owner == s.descs[d].owner
  {
  }

  lemma SweptSelf(s: State)
    requires Inv(s)
    ensures forall but :: Swept(s, s, but)
  {
  }

  lemma SweptHandle(s: State, t: State, d: DescId, but: set<Slot>)
    requires Swept(s, t, but)
    ensures Swept(HandleClosed(s, d), HandleClosed(t, d), but)
  {
    assert forall m :: Owned(t, m) <==> Owned(HandleClosed(t, d), m);
  }

  /** The modules of its own monitor that a descriptor sits in. */
  function SeatsOf(s: State, d: DescId): set<Slot> {
    set k | k in s.slots && s.slots[k] == d && d in s.descs && s.descs[d].mon == Some(k.mon)
  }

  function Seats(m: MonId, mods: seq<nat>): set<Slot> {
    set i | 0 <= i < |mods| :: Slot(m, mods[i])
  }

  lemma OneSeatMore(m: MonId, mods: seq<nat>, i: nat)
    requires i < |mods|
    ensures Seats(m, mods[..i + 1]) == Seats(m, mods[..i]) + {Slot(m, mods[i])}
  {
    assert mods[..i + 1] == mods[..i] + [mods[i]];
    forall k | k in Seats(m, mods[..i]) + {Slot(m, mods[i])}
      ensures k in Seats(m, mods[..i + 1])
    {
      var j: nat :| j <= i && k == Slot(m, mods[j]);
      assert mods[..i + 1][j] == mods[j];
    }
  }

  class Manager {
    /** CO_MONITOR_MODULES_COUNT */
    const modules: nat
    var descs: map<DescId, Desc>
    var mons: map<MonId, Mon>
    var slots: map<Slot, DescId>
    ghost var handles: set<DescId>
    ghost var inflight: multiset<DescId>
    ghost var debts: multiset<DescId>
    ghost var closing: set<DescId>
    ghost var releasing: multiset<MonId>
    ghost var ousting: set<MonId>
    ghost var creator: map<MonId, DescId>
    ghost var age: map<MonId, nat>
    ghost var clock: nat

    constructor (modules: nat)
      ensures Valid() && descs == map[] && mons == map[] && this.modules == modules
    {
      this.modules := modules;
      descs, mons, slots := map[], map[], map[];
      handles, inflight, debts, closing := {}, multiset{}, multiset{}, {};
      releasing, ousting, creator, age, clock := multiset{}, {}, map[], map[], 0;
    }

    ghost function S(): State
      reads this
    {
      State(descs, mons, slots, handles, inflight, debts, closing, releasing, ousting, creator, age, clock)
    }

    ghost predicate Busy()
      reads this
    {
      Inv(S()) && forall k | k in slots :: k.index < modules
    }

    ghost predicate Valid()
      reads this
    {
      Busy() && Quiet(S())
    }

    /** `co_manager_close` */
    method Close(d: DescId, ghost floor: int)
      requires Busy() && debts[d] > 0 && (d in descs ==> !OwnsUpTo(S(), d, floor))
      modifies this
      ensures Busy() && Settled(old(S()), S(), floor, {})
      ensures debts == old(debts) - multiset{d} && releasing == old(releasing)
      decreases slots.Keys, 5
    {
      hide Inv;
      hide Settled;
      hide Swept;
      ghost var s := S();
      Owed(s, d);
      descs := descs[d := descs[d].(refCount := descs[d].refCount - 1)];
      debts := debts - multiset{d};
      closing := if descs[d].refCount == 0 then closing + {d} else closing;
      assert S() == RefDropped(s, d);
      RefDroppedKeeps(s, d);
      if descs[d].refCount == 0 {
        CloseForGood(d, floor);
        SlotsShrink(RefDropped(s, d), S(), floor, {d});
        DroppedThenClosed(s, d, S(), floor);
      } else {
        DroppedSettles(s, d, floor);
      }
    }

    /** `co_manager_close_` */
    method CloseForGood(d: DescId, ghost floor: int)
      requires Busy() && d in closing && d in descs && !OwnsUpTo(S(), d, floor)
      modifies this
      ensures Busy() && Settled(old(S()), S(), floor, {d}) && d !in descs
      ensures debts == old(debts) && releasing == old(releasing)
      decreases slots.Keys, 4
    {
      hide Inv;
      hide Settled;
      hide Swept;
      ghost var s := S();
      if descs[d].mon.Some? {
        var m, owner := descs[d].mon.value, descs[d].owner;
        Detachable(s, d);
        descs := descs[d := descs[d].(mon := None)];
        releasing := releasing + multiset{m};
        ousting := if owner then ousting + {m} else ousting;
        assert S() == Detached(s, d, owner);
        DetachedKeeps(s, d, owner);
        RefDown(m, owner, floor);
        ClosedSettles(s, d, S(), floor);
      } else {
        FreedSettles(s, d, floor);
      }
      ghost var t := S();
      descs := descs - {d};
      closing := closing - {d};
      assert S() == Freed(t, d);
      FreedKeeps(t, d);
    }

    /** Lines 1296-1305 of `co_monitor_refdown` for an owner: off the list, and away from all modules. */
    method Oust(m: MonId, ghost floor: int)
      requires Busy() && releasing[m] > 0 && m in mons && m in ousting && m in age && age[m] > floor
      modifies this
      ensures Busy() && Settled(old(S()), S(), floor, {})
      ensures debts == old(debts) && releasing == old(releasing)
      ensures m in mons && !mons[m].listed && forall k | k in slots :: k.mon != m
      decreases slots.Keys, 2
    {
      hide Inv;
      hide Settled;
      hide Swept;
      ghost var s := S();
      if mons[m].listed {
        mons := mons[m := mons[m].(listed := false)];
        assert S() == Delisted(s, m);
        DelistedKeeps(s, m);
        DelistedSettles(s, m, floor);
      } else {
        SettledSelf(s, floor);
      }
      ghost var t := S();
      SendEnd(m, floor);
      StillThere(t, S(), m, floor);
      SettledTwice(s, t, S(), floor);
    }

    /** `co_monitor_refdown` */
    method RefDown(m: MonId, owner: bool, ghost floor: int)
      requires Busy() && releasing[m] > 0 && m in mons
      requires owner ==> m in age && age[m] > floor && m in ousting
      requires !owner && m in ousting ==> releasing[m] > 1
      modifies this
      ensures Busy() && Settled(old(S()), S(), floor, {})
      ensures debts == old(debts) && releasing == old(releasing) - multiset{m}
      ensures owner ==> m !in ousting && (m in mons ==> !mons[m].listed) && forall k | k in slots :: k.mon != m
      ensures !owner ==> slots == old(slots) && descs == old(descs)
                         && forall n | n in mons :: n in old(mons) && mons[n].listed == old(mons)[n].listed
      decreases slots.Keys, 3
    {
      hide Inv;
      hide Settled;
      hide Swept;
      ghost var s := S();
      SettledSelf(s, floor);
      if owner {
        Oust(m, floor);
      }
      ghost var t := S();
      CountDown(m, owner);
      CountedDownIs(t, m, owner);
      CountedDownSettles(t, m, owner, floor);
      SettledTwice(s, t, S(), floor);
    }

    /** Lines 1307-1310: one descriptor less; the monitor is freed with the last. */
    method CountDown(m: MonId, owner: bool)
      requires Busy() && releasing[m] > 0 && m in mons
      requires !owner && m in ousting ==> releasing[m] > 1
      requires owner ==> !mons[m].listed && forall k | k in slots :: k.mon != m
      modifies this
      ensures Busy() && S() == CountedDown(old(S()), m, owner)
    {
      hide Inv;
      ghost var t := S();
      var count := mons[m].refcount - 1;
      mons := if count == 0 then mons - {m} else mons[m := mons[m].(refcount := count)];
      releasing := releasing - multiset{m};
      ousting := if owner then ousting - {m} else ousting;
      assert S() == CountedDown(t, m, owner);
      CountedDownKeeps(t, m, owner);
    }

    /** `send_monitor_end_messages` */
    method SendEnd(m: MonId, ghost floor: int)
      requires Busy() && m in mons && !mons[m].listed && m in age && age[m] > floor && releasing[m] > 0
      modifies this
      ensures Busy() && Settled(old(S()), S(), floor, {})
      ensures forall k | k in slots :: k.mon != m
      ensures debts == old(debts) && releasing == old(releasing)
      decreases slots.Keys, 1
    {
      hide Inv;
      hide Settled;
      hide Swept;
      SettledSelf(S(), floor);
      for i := 0 to modules
        invariant Busy() && Settled(old(S()), S(), floor, {}) && slots.Keys <= old(slots).Keys && age == old(age)
        invariant forall k | k in slots && k.mon == m :: k.index >= i
        invariant debts == old(debts) && releasing == old(releasing) && m in mons && !mons[m].listed
      {
        if Slot(m, i) in slots {
          ghost var s := S();
          ClearSlot(Slot(m, i), floor);
          ClearedSettles(s, Slot(m, i), floor);
          SettledTwice(s, SlotCleared(s, Slot(m, i)), S(), floor);
          StillThere(s, S(), m, floor);
          SettledTwice(old(S()), s, S(), floor);
        }
      }
    }

    /** Takes what a slot holds out of it and counts it down. */
    method ClearSlot(k: Slot, ghost floor: int)
      requires Busy() && k in slots && k.mon in age && age[k.mon] >= floor
      modifies this
      ensures Busy() && Settled(SlotCleared(old(S()), k), S(), floor, {})
      ensures slots.Keys <= old(slots).Keys - {k} && age == old(age)
      ensures debts == old(debts) && releasing == old(releasing)
      decreases slots.Keys, 0
    {
      hide Inv;
      hide Settled;
      hide Swept;
      var d := slots[k];
      ghost var s := S();
      HolderIsYounger(s, k, floor);
      slots := slots - {k};
      debts := debts + multiset{d};
      ghost var t := S();
      assert t == SlotCleared(s, k);
      SlotClearedKeeps(s, k);
      Close(d, floor);
      SlotsShrink(t, S(), floor, {});
    }

    /** `co_manager_open`; `d` is the address that the allocator gives. */
    method Open(d: DescId)
      requires Valid() && d !in descs
      modifies this
      ensures Valid() && S() == Opened(old(S()), d)
      ensures descs == old(descs)[d := Desc(1, false, None)] && handles == old(handles) + {d}
      ensures mons == old(mons) && slots == old(slots) && inflight == old(inflight)
    {
      hide Inv;
      OpenedKeeps(S(), d);
      ghost var s := S();
      descs := descs[d := Desc(1, false, None)];
      handles := handles + {d};
      assert S() == Opened(s, d);
    }

    /** CO_MANAGER_IOCTL_CREATE, when nothing fails to be allocated: refused to who has a monitor already. */
    method Create(d: DescId, m: MonId) returns (ok: bool)
      requires Valid() && d in handles && d in descs && m !in mons
      modifies this
      ensures Valid() && (ok <==> old(descs)[d].mon == None)
      ensures S() == if ok then Created(old(S()), d, m) else old(S())
      ensures ok ==> mons == old(mons)[m := Mon(1, true)]
      ensures ok ==> descs == old(descs)[d := Desc(old(descs)[d].refCount, true, Some(m))]
      ensures slots == old(slots) && handles == old(handles) && inflight == old(inflight)
    {
      hide Inv;
      if descs[d].mon.Some? {
        return false;
      }
      ghost var s := S();
      CreatedKeeps(s, d, m);
      descs := descs[d := descs[d].(mon := Some(m), owner := true)];
      mons := mons[m := Mon(1, true)];
      creator, age, clock := creator[m := d], age[m := clock + 1], clock + 1;
      assert S() == Created(s, d, m);
      ok := true;
    }

    /** CO_MANAGER_IOCTL_ATTACH by a descriptor without a monitor. */
    method Attach(d: DescId, m: MonId, mods: seq<nat>) returns (ok: bool)
      requires Valid() && d in handles && d in descs && descs[d].mon == None
      requires forall i | 0 <= i < |mods| :: mods[i] < modules
      modifies this
      ensures Valid() && (ok <==> m in old(mons) && old(mons)[m].listed)
      ensures !ok ==> S() == old(S())
      ensures ok ==> Swept(AttachedTo(old(S()), d, m), S(), Seats(m, mods)) && d in descs && Owned(S(), m)
      ensures ok ==> forall k | k in Seats(m, mods) :: k in slots && slots[k] == d
      ensures ok ==> descs[d].mon == Some(m) && !descs[d].owner && m in mons && mons[m].listed
      ensures ok ==> forall e | e in descs && e != d ::
                e in old(descs) && descs[e].mon == old(descs)[e].mon && descs[e].owner == old(descs)[e].owner
      ensures ok ==> handles == old(handles) && inflight == old(inflight)
      ensures ok ==> forall k | k !in Seats(m, mods) :: k in slots ==> k in old(slots) && slots[k] == old(slots)[k]
      ensures ok ==> forall k | k in old(slots) && k.mon == m :: k in slots
    {
      hide Inv;
      hide Settled;
      hide Swept;
      if m !in mons || !mons[m].listed {
        return false;
      }
      ghost var s := S();
      descs := descs[d := descs[d].(mon := Some(m))];
      mons := mons[m := mons[m].(refcount := mons[m].refcount + 1)];
      ghost var t := S();
      assert t == AttachedTo(s, d, m);
      HandleOpen(s, d);
      AttachedToKeeps(s, d, m);
      AttachedOwned(s, d, m);
      SweptSelf(t);
      for i := 0 to |mods|
        invariant Valid() && m in mons && m in age && Owned(S(), m)
        invariant Swept(t, S(), Seats(m, mods[..i]))
        invariant d in handles && d in descs && !descs[d].owner
        invariant forall k | k in Seats(m, mods[..i]) :: k in slots && slots[k] == d
      {
        ghost var u := S();
        Connect(d, m, mods[i]);
        SweptTwice(t, u, S(), Seats(m, mods[..i]), {Slot(m, mods[i])});
        OneSeatMore(m, mods, i);
      }
      assert mods[..|mods|] == mods;
      SweptAttached(s, d, m, S(), Seats(m, mods));
      ok := true;
    }

    /** One turn of the loop of lines 471-478. */
    method Connect(d: DescId, m: MonId, mod: nat)
      requires Valid() && m in mons && m in age && Owned(S(), m) && mod < modules
      requires d in handles && d in descs && !descs[d].owner
      modifies this
      ensures Valid() && m in mons && age == old(age) && handles == old(handles) && Owned(S(), m)
      ensures Swept(old(S()), S(), {Slot(m, mod)}) && d in descs && !descs[d].owner
      ensures Slot(m, mod) in slots && slots[Slot(m, mod)] == d
      ensures forall i | Slot(m, i) in old(slots) && i != mod :: Slot(m, i) in slots && slots[Slot(m, i)] == old(slots)[Slot(m, i)]
    {
      hide Inv;
      hide Settled;
      hide Swept;
      var k := Slot(m, mod);
      ghost var s := S();
      if k in slots {
        ClearSlot(k, age[m]);
        OwnerStays(SlotCleared(s, k), S(), m);
        SettledKeepsHandle(SlotCleared(s, k), S(), d, age[m]);
        Sweeps(SlotCleared(s, k), S(), age[m]);
        SweptBut(s, S(), k);
      } else {
        SweptSelf(s);
      }
      ghost var t := S();
      HandleOpen(t, d);
      SlotSetKeeps(t, k, d);
      slots := slots[k := d];
      descs := descs[d := descs[d].(refCount := descs[d].refCount + 1)];
      assert S() == SlotSet(t, k, d);
      SweptSeat(s, t, k, d);
    }

    /** CO_MONITOR_IOCTL_CLOSE */
    method IoctlClose(d: DescId)
      requires Valid() && d in handles && d in descs && descs[d].mon.Some?
      modifies this
      ensures Valid() && Swept(Detached(old(S()), d, false), S(), {}) && d in descs
      ensures descs[d].mon == None && !descs[d].owner && handles == old(handles) && inflight == old(inflight)
      ensures forall e | e in descs && e != d ::
                e in old(descs) && descs[e].mon == old(descs)[e].mon && descs[e].owner == old(descs)[e].owner
      ensures old(descs)[d].owner ==>
                var m := old(descs)[d].mon.value; (m in mons ==> !mons[m].listed) && forall k | k in slots :: k.mon != m
      ensures !old(descs)[d].owner ==> slots == old(slots)
    {
      hide Inv;
      hide Settled;
      hide Swept;
      var m, owner := descs[d].mon.value, descs[d].owner;
      ghost var s := S();
      Pointed(s, d);
      descs := descs[d := descs[d].(mon := None, owner := false)];
      releasing := releasing + multiset{m};
      ousting := if owner then ousting + {m} else ousting;
      ghost var t := S();
      assert t == Detached(s, d, false);
      DetachedKeeps(s, d, false);
      assert slots == s.slots;
      RefDown(m, owner, -1);
      SettledKeepsHandle(t, S(), d, -1);
      Sweeps(t, S(), -1);
      SweptDetached(s, d, S());
      hide *;
    }

    /** `co_manager_open_desc_deactive_and_close`, when the device handle is closed. */
    method DeactiveAndClose(d: DescId)
      requires Valid() && d in handles && d in descs
      modifies this
      ensures Valid() && Swept(HandleClosed(old(S()), d), S(), SeatsOf(old(S()), d))
      ensures forall k | k in SeatsOf(old(S()), d) :: k !in slots
      ensures handles == old(handles) - {d} && inflight == old(inflight)
      ensures forall k | k in slots :: k in old(slots) && slots[k] == old(slots)[k]
      ensures forall e | e in descs :: e in old(descs) && descs[e].mon == old(descs)[e].mon && descs[e].owner == old(descs)[e].owner
    {
      hide Inv;
      hide Settled;
      hide Swept;
      ghost var s, but := S(), SeatsOf(S(), d);
      SweptSelf(s);
      if descs[d].mon.Some? {
        LeaveModules(d, descs[d].mon.value);
      }
      ghost var t := S();
      CloseHandle(d);
      SweptHandle(s, t, d, but);
      SweptTwice(HandleClosed(s, d), HandleClosed(t, d), S(), but, {});
      assert but + {} == but;
    }

    /** Line 299: the reference of the handle itself. */
    method CloseHandle(d: DescId)
      requires Valid() && d in handles
      modifies this
      ensures Valid() && Swept(HandleClosed(old(S()), d), S(), {}) && slots.Keys <= old(slots).Keys
    {
      hide Inv;
      hide Settled;
      hide Swept;
      ghost var t := S();
      handles := handles - {d};
      debts := debts + multiset{d};
      HandleClosedKeeps(t, d);
      ghost var u := S();
      assert u == HandleClosed(t, d);
      Close(d, -1);
      SettledLinks(u, S(), -1);
      Sweeps(u, S(), -1);
    }

    /** Lines 289-295: takes a descriptor out of the modules of its monitor. */
    method LeaveModules(d: DescId, mon: MonId)
      requires Valid() && d in descs && descs[d].mon == Some(mon)
      modifies this
      ensures Valid() && Swept(old(S()), S(), SeatsOf(old(S()), d)) && handles == old(handles)
      ensures forall k | k in SeatsOf(old(S()), d) :: k !in slots
    {
      hide Inv;
      hide Settled;
      hide Swept;
      ghost var s, but := S(), SeatsOf(S(), d);
      SweptSelf(s);
      for index := 0 to modules
        invariant Valid() && Swept(s, S(), but) && handles == old(handles)
        invariant forall k | k in slots :: k in s.slots && slots[k] == s.slots[k]
        invariant forall k | k in but && k in slots :: k.index >= index
      {
        var k := Slot(mon, index);
        if k in slots && slots[k] == d {
          ghost var t := S();
          SlotKnown(t, k);
          ClearSlot(k, -1);
          SettledLinks(SlotCleared(t, k), S(), -1);
          Sweeps(SlotCleared(t, k), S(), -1);
          SweptBut(t, S(), k);
          SweptTwice(s, t, S(), but, {k});
          assert but + {k} == but;
        }
      }
    }

    /** The first half of `incoming_message`: holds who is to get the message, so it must not be on its way out. */
    method BeginDelivery(m: MonId, to: nat) returns (who: Option<DescId>)
      requires Valid() && m in mons && to < modules
      modifies this
      ensures Valid() && who == if Slot(m, to) in old(slots) then Some(old(slots)[Slot(m, to)]) else None
      ensures who.Some? ==> who.value in old(descs) && S() == DeliveryBegun(old(S()), who.value)
      ensures who == None ==> S() == old(S())
      ensures who.Some? ==> var d := who.value;
        && descs == old(descs)[d := Desc(old(descs)[d].refCount + 1, old(descs)[d].owner, old(descs)[d].mon)]
        && inflight == old(inflight) + multiset{d}
      ensures mons == old(mons) && slots == old(slots) && handles == old(handles)
    {
      hide Inv;
      if Slot(m, to) !in slots {
        return None;
      }
      var d := slots[Slot(m, to)];
      ghost var s := S();
      HeldBySlot(s, Slot(m, to)); // so `co_manager_open_ref` does not refuse
      descs := descs[d := descs[d].(refCount := descs[d].refCount + 1)];
      inflight := inflight + multiset{d};
      DeliveryBegunKeeps(s, d);
      assert S() == DeliveryBegun(s, d);
      who := Some(d);
    }

    /** The second half, when the message has been sent. */
    method EndDelivery(d: DescId)
      requires Valid() && d in inflight
      modifies this
      ensures Valid() && Swept(DeliveryEnded(old(S()), d), S(), {})
      ensures inflight == old(inflight) - multiset{d} && handles == old(handles)
      ensures forall k | k in slots :: k in old(slots) && slots[k] == old(slots)[k]
    {
      hide Inv;
      hide Settled;
      hide Swept;
      ghost var s := S();
      inflight := inflight - multiset{d};
      debts := debts + multiset{d};
      DeliveryEndedKeeps(s, d);
      ghost var t := S();
      assert t == DeliveryEnded(s, d);
      Close(d, -1);
      SettledLinks(t, S(), -1);
      Sweeps(t, S(), -1);
    }
  }

  /** A monitor that has been created is found by whoever asks for it: they share it, and it belongs to who created it. */
  method CreateAndAttach(man: Manager, d: DescId, m: MonId, e: DescId, mods: seq<nat>) returns (created: bool, attached: bool)
    requires man.Valid() && d != e && d in man.handles && d in man.descs && e in man.handles && e in man.descs
    requires m !in man.mons && man.descs[d].mon == None && man.descs[e].mon == None
    requires forall i | 0 <= i < |mods| :: mods[i] < man.modules
    modifies man
    ensures man.Valid() && created && attached
    ensures d in man.descs && man.descs[d].mon == Some(m) && man.descs[d].owner
    ensures e in man.descs && man.descs[e].mon == Some(m) && !man.descs[e].owner
    ensures m in man.mons && man.mons[m] == Mon(2, true)
    ensures forall i | 0 <= i < |mods| :: Slot(m, mods[i]) in man.slots && man.slots[Slot(m, mods[i])] == e
  {
    hide Inv;
    hide Swept;
    hide Created;
    hide Seats;
    ghost var s := man.S();
    NobodyPoints(s, m);
    created := man.Create(d, m);
    attached := man.Attach(e, m, mods);
    HandleOpen(man.S(), d);
    SeatsAre(m, mods);
    TwoPoint(s, man.S(), m, d, e);
  }

  lemma NobodyPoints(s: State, m: MonId)
    requires Inv(s) && m !in s.mons
    ensures forall d | d in s.descs :: s.descs[d].mon != Some(m)
  {
  }

  lemma TwoPoint(s: State, t: State, m: MonId, d: DescId, e: DescId)
    requires Inv(t) && Quiet(t) && m in t.mons && t.mons[m].listed && d != e && d in t.descs && e in t.descs
    requires t.descs[d].mon == Some(m) == t.descs[e].mon
    requires forall x | x in t.descs && x != d && x != e :: x in s.descs && t.descs[x].mon == s.descs[x].mon
    requires forall x | x in s.descs :: s.descs[x].mon != Some(m)
    ensures t.mons[m] == Mon(2, true)
  {
    hide DescCounts;
    hide Links;
    hide ZeroIsClosing;
    hide Ages;
    hide FoundIsOwned;
    hide OwnersListed;
    assert Attached(t.descs, m) == {d, e};
  }

  lemma SeatsAre(m: MonId, mods: seq<nat>)
    ensures forall i | 0 <= i < |mods| :: Slot(m, mods[i]) in Seats(m, mods)
  {
  }

  /** What attaching has come to, seen from the tables. */
  lemma SweptAttached(s: State, d: DescId, m: MonId, t: State, but: set<Slot>)
    requires Inv(s) && d in s.descs && m in s.mons && !s.descs[d].owner
    requires Swept(AttachedTo(s, d, m), t, but) && Inv(t) && Quiet(t) && Owned(t, m) && d in t.descs
    ensures t.descs[d].mon == Some(m) && !t.descs[d].owner && m in t.mons && t.mons[m].listed
    ensures forall e | e in t.descs && e != d :: e in s.descs && t.descs[e].mon == s.descs[e].mon && t.descs[e].owner == s.descs[e].owner
    ensures t.handles == s.handles && t.inflight == s.inflight
    ensures forall k | k !in but && k in t.slots :: k in s.slots && t.slots[k] == s.slots[k]
    ensures forall k | k in s.slots && k.mon == m && k !in but :: k in t.slots
  {
    hide Counts;
    hide Links;
  }

  /** What letting a monitor go has come to. */
  lemma SweptDetached(s: State, d: DescId, t: State)
    requires d in s.descs && s.descs[d].mon.Some? && Swept(Detached(s, d, false), t, {}) && d in t.descs
    ensures t.descs[d].mon == None && !t.descs[d].owner && t.handles == s.handles && t.inflight == s.inflight
    ensures forall e | e in t.descs && e != d :: e in s.descs && t.descs[e].mon == s.descs[e].mon && t.descs[e].owner == s.descs[e].owner
  {
  }

  lemma HandleOpen(s: State, d: DescId)
    requires Inv(s) && d in s.handles
    ensures d in s.descs && s.descs[d].refCount > 0 && d !in s.closing
  {
    hide SlotsOf;
  }

  lemma AttachedOwned(s: State, d: DescId, m: MonId)
    requires Inv(s) && Quiet(s) && d in s.descs && d !in s.closing && s.descs[d].mon == None && m in s.mons && s.mons[m].listed
    ensures !s.descs[d].owner && m in s.age && Owned(AttachedTo(s, d, m), m)
  {
  }

  /** The owner of a monitor outlives whoever is ousted from its slots. */
  lemma OwnerStays(s: State, t: State, m: MonId)
    requires Inv(t) && Owned(s, m) && m in s.age && Settled(s, t, s.age[m], {}) && s.ousting == {}
    ensures Owned(t, m) && m in t.mons && m !in t.ousting
    ensures forall i | Slot(m, i) in s.slots :: Slot(m, i) in t.slots && t.slots[Slot(m, i)] == s.slots[Slot(m, i)]
  {
    assert OwnsUpTo(s, s.creator[m], s.age[m]);
  }

  lemma Pointed(s: State, d: DescId)
    requires Inv(s) && Quiet(s) && d in s.descs && s.descs[d].mon.Some?
    ensures s.descs[d].mon.value in s.mons && s.descs[d].mon.value in s.age
  {
  }

  lemma SlotKnown(s: State, k: Slot)
    requires Inv(s) && k in s.slots
    ensures k.mon in s.age && s.slots[k] in s.descs
  {
  }

  lemma HeldBySlot(s: State, k: Slot)
    requires Inv(s) && k in s.slots
    ensures s.slots[k] in s.descs && s.descs[s.slots[k]].refCount > 0
  {
    NoSlotHolds(s.slots, s.slots[k]);
  }

  lemma SettledLinks(s: State, t: State, floor: int)
    requires Settled(s, t, floor, {})
    ensures t.handles == s.handles && t.inflight == s.inflight && t.closing == s.closing && t.ousting <= s.ousting
    ensures forall k | k in t.slots :: k in s.slots && t.slots[k] == s.slots[k]
    ensures forall d | d in t.descs :: d in s.descs
  {
  }

  lemma SettledKeepsHandle(s: State, t: State, d: DescId, floor: int)
    requires Settled(s, t, floor, {}) && Inv(t) && d in s.handles
    ensures d in t.descs && d in s.descs && t.descs[d].mon == s.descs[d].mon && t.descs[d].owner == s.descs[d].owner
    ensures t.handles == s.handles && t.inflight == s.inflight && t.closing == s.closing && t.ousting <= s.ousting
    ensures forall k | k in t.slots :: k in s.slots && t.slots[k] == s.slots[k]
  {
  }

  lemma SettledSelf(s: State, floor: int)
    ensures Settled(s, s, floor, {})
  {
  }

  lemma SlotsShrink(s: State, t: State, floor: int, but: set<DescId>)
    requires Settled(s, t, floor, but)
    ensures t.slots.Keys <= s.slots.Keys && t.age == s.age
  {
  }
}
