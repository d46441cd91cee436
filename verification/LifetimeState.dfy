/** Who refers to what in `manager.c` and `monitor.c`, and what every small step of the protocol keeps. */
module LifetimeState {
  import opened Options

  type DescId = nat
  type MonId = nat

  /** `struct co_manager_open_desc`. */
  datatype Desc = Desc(refCount: int, owner: bool, mon: Option<MonId>)

  /** `struct co_monitor`, but for its `connected_modules`. */
  datatype Mon = Mon(refcount: int, listed: bool)

  /** An entry of the `connected_modules` of a monitor. */
  datatype Slot = Slot(mon: MonId, index: nat)

  /**
   * The live objects by address, the entries of `connected_modules` that are not null, and who holds references besides:
   *  - handles: descriptors whose device handle is open; inflight: deliveries that hold a descriptor;
   *  - debts: references that have been given up but not yet counted down;
   *  - closing: descriptors counted down to zero, on their way to being freed;
   *  - releasing: monitors that a descriptor has let go of but not yet counted down; ousting: those let go by an owner;
   *  - creator, age: the descriptor that created each monitor, and when; clock: the latest of these times.
   */
  datatype State = State(descs: map<DescId, Desc>, mons: map<MonId, Mon>, slots: map<Slot, DescId>,
                         handles: set<DescId>, inflight: multiset<DescId>, debts: multiset<DescId>,
                         closing: set<DescId>, releasing: multiset<MonId>, ousting: set<MonId>,
                         creator: map<MonId, DescId>, age: map<MonId, nat>, clock: nat)

  function SlotsOf(slots: map<Slot, DescId>, d: DescId): set<Slot> {
    set k | k in slots && slots[k] == d
  }

  function HandleOf(handles: set<DescId>, d: DescId): nat {
    if d in handles then 1 else 0
  }

  function Attached(descs: map<DescId, Desc>, m: MonId): set<DescId> {
    set d | d in descs && descs[d].mon == Some(m)
  }

  /** A descriptor counts its open handle, the module slots and the deliveries that hold it, and what is owed. */
  ghost predicate DescCounts(s: State) {
    forall d | d in s.descs ::
      s.descs[d].refCount == HandleOf(s.handles, d) + |SlotsOf(s.slots, d)| + s.inflight[d] + s.debts[d]
  }

  /** A monitor counts the descriptors that point at it. */
  ghost predicate MonCounts(s: State) {
    forall m | m in s.mons :: s.mons[m].refcount == |Attached(s.descs, m)| + s.releasing[m]
  }

  /** Nothing refers to a descriptor that has been freed, */
  ghost predicate NoDanglingDesc(s: State) {
    && s.handles <= s.descs.Keys
    && (forall d | s.inflight[d] > 0 :: d in s.descs)
    && (forall d | s.debts[d] > 0 :: d in s.descs)
    && (forall k | k in s.slots :: s.slots[k] in s.descs)
  }

  /** nor to a monitor. */
  ghost predicate NoDanglingMon(s: State) {
    && (forall k | k in s.slots :: k.mon in s.mons)
    && (forall d | d in s.descs && s.descs[d].mon.Some? :: s.descs[d].mon.value in s.mons)
    && (forall m | s.releasing[m] > 0 :: m in s.mons)
  }

  /** What is not on its way to being freed has references left, and only that. */
  ghost predicate ZeroIsClosing(s: State) {
    && (forall d | d in s.descs :: s.descs[d].refCount >= 0 && (s.descs[d].refCount == 0 <==> d in s.closing))
    && s.closing <= s.descs.Keys
    && (forall m | m in s.mons :: s.mons[m].refcount > 0)
  }

  /** The creator of a monitor still owns it, or is just letting it go. */
  ghost predicate Owned(s: State, m: MonId) {
    m in s.ousting || (m in s.creator && s.creator[m] in s.descs && s.descs[s.creator[m]].mon == Some(m)
                       && s.descs[s.creator[m]].owner)
  }

  /** Whatever others can still find, on the list or by a message, has an owner. */
  ghost predicate FoundIsOwned(s: State) {
    && (forall m | m in s.mons && s.mons[m].listed :: Owned(s, m))
    && (forall k | k in s.slots :: Owned(s, k.mon))
    && (forall m | m in s.ousting :: s.releasing[m] > 0)
  }

  /** Whoever owns a monitor created it, and keeps it on the list. */
  ghost predicate OwnersListed(s: State) {
    forall d | d in s.descs && s.descs[d].owner && s.descs[d].mon.Some? ::
      var m := s.descs[d].mon.value;
      m in s.creator && s.creator[m] == d && m in s.mons && s.mons[m].listed && m !in s.ousting
  }

  /** Who owns a monitor sits in slots of older monitors only: it came by them before it could create its own. */
  ghost predicate Ages(s: State) {
    && (forall m | m in s.mons :: m in s.age && s.age[m] <= s.clock)
    && (forall d | d in s.descs && d !in s.closing && s.descs[d].mon == None :: !s.descs[d].owner)
    && (forall k | k in s.slots && k.mon in s.age && s.slots[k] in s.descs ::
          var d := s.descs[s.slots[k]];
          d.owner && d.mon.Some? && d.mon.value in s.age ==> s.age[k.mon] < s.age[d.mon.value])
  }

  ghost predicate Counts(s: State) {
    DescCounts(s) && MonCounts(s) && ZeroIsClosing(s) && Ages(s)
  }

  ghost predicate Links(s: State) {
    NoDanglingDesc(s) && NoDanglingMon(s)
  }

  ghost predicate Inv(s: State) {
    Counts(s) && Links(s) && FoundIsOwned(s) && OwnersListed(s)
  }

  /** Between calls nothing is owed and nothing is half done. */
  ghost predicate Quiet(s: State) {
    s.debts == multiset{} && s.closing == {} && s.releasing == multiset{} && s.ousting == {}
  }

  // ---- counting

  lemma SameBut<T>(a: set<T>, b: set<T>, x: T)
    requires a - {x} == b - {x}
    ensures |a| - (if x in a then 1 else 0) == |b| - (if x in b then 1 else 0)
  {
    assert x in a ==> a == (a - {x}) + {x};
    assert x in b ==> b == (b - {x}) + {x};
  }

  /** One slot more or less changes the count of what it holds, before and after, and no other. */
  lemma SlotChanged(slots: map<Slot, DescId>, slots': map<Slot, DescId>, k: Slot)
    requires slots - {k} == slots' - {k}
    ensures forall d :: |SlotsOf(slots', d)| - (if k in slots' && slots'[k] == d then 1 else 0)
                     == |SlotsOf(slots, d)| - (if k in slots && slots[k] == d then 1 else 0)
  {
    forall d
      ensures |SlotsOf(slots', d)| - (if k in slots' && slots'[k] == d then 1 else 0)
           == |SlotsOf(slots, d)| - (if k in slots && slots[k] == d then 1 else 0)
    {
      forall x
        ensures x in SlotsOf(slots', d) - {k} <==> x in SlotsOf(slots, d) - {k}
      {
        assert x in slots - {k} <==> x in slots' - {k};
        assert x in slots && x != k ==> slots[x] == (slots - {k})[x] == slots'[x];
      }
      SameBut(SlotsOf(slots, d), SlotsOf(slots', d), k);
    }
  }

  /** One descriptor changed changes the count of the monitors it points at, before and after, and no other. */
  lemma PointerChanged(descs: map<DescId, Desc>, descs': map<DescId, Desc>, d: DescId)
    requires forall e | e != d :: (e in descs <==> e in descs') && (e in descs ==> descs[e].mon == descs'[e].mon)
    ensures forall m: MonId :: |Attached(descs', m)| - (if d in descs' && descs'[d].mon == Some(m) then 1 else 0)
                     == |Attached(descs, m)| - (if d in descs && descs[d].mon == Some(m) then 1 else 0)
  {
    forall m: MonId
      ensures |Attached(descs', m)| - (if d in descs' && descs'[d].mon == Some(m) then 1 else 0)
           == |Attached(descs, m)| - (if d in descs && descs[d].mon == Some(m) then 1 else 0)
    {
      SameBut(Attached(descs, m), Attached(descs', m), d);
    }
  }

  lemma NobodyAttached(s: State, m: MonId)
    requires NoDanglingMon(s) && m !in s.mons
    ensures |Attached(s.descs, m)| == 0 && s.releasing[m] == 0
  {
    assert Attached(s.descs, m) == {};
  }

  lemma NoneAttached(descs: map<DescId, Desc>, m: MonId)
    requires |Attached(descs, m)| == 0
    ensures forall d | d in descs :: descs[d].mon != Some(m)
  {
    assert forall d | d in descs && descs[d].mon == Some(m) :: d in Attached(descs, m);
  }

  lemma NoSlotHolds(slots: map<Slot, DescId>, d: DescId)
    ensures |SlotsOf(slots, d)| == 0 <==> forall k | k in slots :: slots[k] != d
  {
    assert forall k | k in slots && slots[k] == d :: k in SlotsOf(slots, d);
    assert (forall k | k in slots :: slots[k] != d) ==> SlotsOf(slots, d) == {};
  }

  /** What has been counted down to zero is referred to by nothing. */
  lemma NothingHolds(s: State, d: DescId)
    requires Inv(s) && (d in s.closing || d !in s.descs)
    ensures d !in s.handles && s.inflight[d] == 0 && s.debts[d] == 0 && forall k | k in s.slots :: s.slots[k] != d
    ensures |SlotsOf(s.slots, d)| == 0
  {
    NoSlotHolds(s.slots, d);
  }

  /** When the last reference is given up, nobody points at the monitor, so it is off the list and has no slots. */
  lemma LastOne(s: State, m: MonId, owner: bool)
    requires Inv(s) && m in s.mons && s.releasing[m] > 0 && s.mons[m].refcount == 1
    requires !owner && m in s.ousting ==> s.releasing[m] > 1
    requires owner ==> !s.mons[m].listed && forall k | k in s.slots :: k.mon != m
    ensures !s.mons[m].listed && (forall k | k in s.slots :: k.mon != m) && s.releasing[m] == 1
    ensures forall d | d in s.descs :: s.descs[d].mon != Some(m)
  {
    assert |Attached(s.descs, m)| == 0;
    NoneAttached(s.descs, m);
    assert !owner ==> !Owned(s, m);
  }

  lemma Owed(s: State, d: DescId)
    requires Inv(s) && s.debts[d] > 0
    ensures d in s.descs && s.descs[d].refCount > 0
  {
  }

  lemma NewMonitor(s: State, m: MonId)
    requires Inv(s) && m !in s.mons
    ensures |Attached(s.descs, m)| == 0 && s.releasing[m] == 0 && m !in s.ousting
    ensures forall k | k in s.slots :: k.mon != m && k.mon in s.age && s.age[k.mon] <= s.clock
    ensures forall d | d in s.descs :: s.descs[d].mon != Some(m)
  {
    NobodyAttached(s, m);
  }

  // ---- the steps

  /** `co_manager_open`. */
  function Opened(s: State, d: DescId): State
  {
    s.(descs := s.descs[d := Desc(1, false, None)], handles := s.handles + {d})
  }

  lemma OpenedCounts(s: State, d: DescId)
    requires Inv(s) && d !in s.descs
    ensures Counts(Opened(s, d))
  {
    hide SlotsOf;
    hide Attached;
    hide NoDanglingDesc;
    hide NoDanglingMon;
    hide FoundIsOwned;
    hide OwnersListed;
    NothingHolds(s, d);
    PointerChanged(s.descs, Opened(s, d).descs, d);
  }

  lemma OpenedLinks(s: State, d: DescId)
    requires Inv(s) && d !in s.descs
    ensures Links(Opened(s, d))
  {
    hide SlotsOf;
    hide Attached;
    hide DescCounts;
    hide MonCounts;
    hide ZeroIsClosing;
    hide FoundIsOwned;
    hide OwnersListed;
    hide Ages;
  }

  lemma OpenedOwners(s: State, d: DescId)
    requires Inv(s) && d !in s.descs
    ensures FoundIsOwned(Opened(s, d))
  {
    hide SlotsOf;
    hide Attached;
    hide DescCounts;
    hide MonCounts;
    hide ZeroIsClosing;
    hide NoDanglingDesc;
    hide OwnersListed;
    hide Ages;
  }

  lemma OpenedListed(s: State, d: DescId)
    requires Inv(s) && d !in s.descs
    ensures OwnersListed(Opened(s, d))
  {
    hide SlotsOf;
    hide Attached;
    hide DescCounts;
    hide MonCounts;
    hide ZeroIsClosing;
    hide NoDanglingDesc;
    hide FoundIsOwned;
    hide Ages;
  }

  lemma OpenedKeeps(s: State, d: DescId)
    requires Inv(s) && d !in s.descs
    ensures Inv(Opened(s, d))
  {
    OpenedCounts(s, d);
    OpenedLinks(s, d);
    OpenedOwners(s, d);
    OpenedListed(s, d);
  }

  /** A slot is cleared; what it held is still to be counted down. */
  function SlotCleared(s: State, k: Slot): State
    requires k in s.slots
  {
    s.(slots := s.slots - {k}, debts := s.debts + multiset{s.slots[k]})
  }

  lemma SlotClearedCounts(s: State, k: Slot)
    requires Inv(s) && k in s.slots
    ensures Counts(SlotCleared(s, k))
  {
    hide SlotsOf;
    hide Attached;
    hide NoDanglingDesc;
    hide NoDanglingMon;
    hide FoundIsOwned;
    hide OwnersListed;
    SlotChanged(s.slots, SlotCleared(s, k).slots, k);
  }

  lemma SlotClearedLinks(s: State, k: Slot)
    requires Inv(s) && k in s.slots
    ensures Links(SlotCleared(s, k)) && FoundIsOwned(SlotCleared(s, k))
  {
    hide SlotsOf;
    hide Attached;
    hide DescCounts;
    hide MonCounts;
    hide ZeroIsClosing;
    hide OwnersListed;
    hide Ages;
  }

  lemma SlotClearedListed(s: State, k: Slot)
    requires Inv(s) && k in s.slots
    ensures OwnersListed(SlotCleared(s, k))
  {
    hide SlotsOf;
    hide Attached;
    hide DescCounts;
    hide MonCounts;
    hide ZeroIsClosing;
    hide NoDanglingDesc;
    hide FoundIsOwned;
    hide Ages;
  }

  lemma SlotClearedKeeps(s: State, k: Slot)
    requires Inv(s) && k in s.slots
    ensures Inv(SlotCleared(s, k))
  {
    SlotClearedCounts(s, k);
    SlotClearedLinks(s, k);
    SlotClearedListed(s, k);
  }

  /** The device handle is closed. */
  function HandleClosed(s: State, d: DescId): State
  {
    s.(handles := s.handles - {d}, debts := s.debts + multiset{d})
  }

  lemma HandleClosedCounts(s: State, d: DescId)
    requires Inv(s) && d in s.handles
    ensures Counts(HandleClosed(s, d))
  {
    hide SlotsOf;
    hide Attached;
    hide NoDanglingDesc;
    hide NoDanglingMon;
    hide FoundIsOwned;
    hide OwnersListed;
  }

  lemma HandleClosedLinks(s: State, d: DescId)
    requires Inv(s) && d in s.handles
    ensures Links(HandleClosed(s, d)) && FoundIsOwned(HandleClosed(s, d))
  {
    hide SlotsOf;
    hide Attached;
    hide DescCounts;
    hide MonCounts;
    hide ZeroIsClosing;
    hide OwnersListed;
    hide Ages;
  }

  lemma HandleClosedListed(s: State, d: DescId)
    requires Inv(s) && d in s.handles
    ensures OwnersListed(HandleClosed(s, d))
  {
    hide SlotsOf;
    hide Attached;
    hide DescCounts;
    hide MonCounts;
    hide ZeroIsClosing;
    hide NoDanglingDesc;
    hide FoundIsOwned;
    hide Ages;
  }

  lemma HandleClosedKeeps(s: State, d: DescId)
    requires Inv(s) && d in s.handles
    ensures Inv(HandleClosed(s, d))
  {
    HandleClosedCounts(s, d);
    HandleClosedLinks(s, d);
    HandleClosedListed(s, d);
  }

  /** A delivery is over. */
  function DeliveryEnded(s: State, d: DescId): State
  {
    s.(inflight := s.inflight - multiset{d}, debts := s.debts + multiset{d})
  }

  lemma DeliveryEndedCounts(s: State, d: DescId)
    requires Inv(s) && s.inflight[d] > 0
    ensures Counts(DeliveryEnded(s, d))
  {
    hide SlotsOf;
    hide Attached;
    hide NoDanglingDesc;
    hide NoDanglingMon;
    hide FoundIsOwned;
    hide OwnersListed;
  }

  lemma DeliveryEndedLinks(s: State, d: DescId)
    requires Inv(s) && s.inflight[d] > 0
    ensures Links(DeliveryEnded(s, d)) && FoundIsOwned(DeliveryEnded(s, d))
  {
    hide SlotsOf;
    hide Attached;
    hide DescCounts;
    hide MonCounts;
    hide ZeroIsClosing;
    hide OwnersListed;
    hide Ages;
  }

  lemma DeliveryEndedListed(s: State, d: DescId)
    requires Inv(s) && s.inflight[d] > 0
    ensures OwnersListed(DeliveryEnded(s, d))
  {
    hide SlotsOf;
    hide Attached;
    hide DescCounts;
    hide MonCounts;
    hide ZeroIsClosing;
    hide NoDanglingDesc;
    hide FoundIsOwned;
    hide Ages;
  }

  lemma DeliveryEndedKeeps(s: State, d: DescId)
    requires Inv(s) && s.inflight[d] > 0
    ensures Inv(DeliveryEnded(s, d))
  {
    DeliveryEndedCounts(s, d);
    DeliveryEndedLinks(s, d);
    DeliveryEndedListed(s, d);
  }

  /** `co_manager_open_ref` by a delivery. */
  function DeliveryBegun(s: State, d: DescId): State
    requires d in s.descs
  {
    s.(descs := s.descs[d := s.descs[d].(refCount := s.descs[d].refCount + 1)], inflight := s.inflight + multiset{d})
  }

  lemma DeliveryBegunCounts(s: State, d: DescId)
    requires Inv(s) && d in s.descs && s.descs[d].refCount > 0
    ensures Counts(DeliveryBegun(s, d))
  {
    hide SlotsOf;
    hide Attached;
    hide NoDanglingDesc;
    hide NoDanglingMon;
    hide FoundIsOwned;
    hide OwnersListed;
    PointerChanged(s.descs, DeliveryBegun(s, d).descs, d);
  }

  lemma DeliveryBegunLinks(s: State, d: DescId)
    requires Inv(s) && d in s.descs && s.descs[d].refCount > 0
    ensures Links(DeliveryBegun(s, d))
  {
    hide SlotsOf;
    hide Attached;
    hide DescCounts;
    hide MonCounts;
    hide ZeroIsClosing;
    hide FoundIsOwned;
    hide OwnersListed;
    hide Ages;
  }

  lemma DeliveryBegunOwners(s: State, d: DescId)
    requires Inv(s) && d in s.descs && s.descs[d].refCount > 0
    ensures FoundIsOwned(DeliveryBegun(s, d))
  {
    hide SlotsOf;
    hide Attached;
    hide DescCounts;
    hide MonCounts;
    hide ZeroIsClosing;
    hide NoDanglingDesc;
    hide OwnersListed;
    hide Ages;
  }

  lemma DeliveryBegunListed(s: State, d: DescId)
    requires Inv(s) && d in s.descs && s.descs[d].refCount > 0
    ensures OwnersListed(DeliveryBegun(s, d))
  {
    hide SlotsOf;
    hide Attached;
    hide DescCounts;
    hide MonCounts;
    hide ZeroIsClosing;
    hide NoDanglingDesc;
    hide FoundIsOwned;
    hide Ages;
  }

  lemma DeliveryBegunKeeps(s: State, d: DescId)
    requires Inv(s) && d in s.descs && s.descs[d].refCount > 0
    ensures Inv(DeliveryBegun(s, d))
  {
    DeliveryBegunCounts(s, d);
    DeliveryBegunLinks(s, d);
    DeliveryBegunOwners(s, d);
    DeliveryBegunListed(s, d);
  }

  /** A slot that is empty is given to a descriptor, with a reference. */
  function SlotSet(s: State, k: Slot, d: DescId): State
    requires d in s.descs
  {
    s.(descs := s.descs[d := s.descs[d].(refCount := s.descs[d].refCount + 1)], slots := s.slots[k := d])
  }

  lemma SlotSetCounts(s: State, k: Slot, d: DescId)
    requires Inv(s) && d in s.descs && s.descs[d].refCount > 0 && k !in s.slots && k.mon in s.mons && Owned(s, k.mon)
    requires !s.descs[d].owner
    ensures Counts(SlotSet(s, k, d))
  {
    SlotSetRefs(s, k, d);
    SlotSetMons(s, k, d);
    SlotSetAges(s, k, d);
    hide DescCounts;
    hide MonCounts;
    hide Ages;
    hide Links;
    hide FoundIsOwned;
    hide OwnersListed;
  }

  lemma SlotSetRefs(s: State, k: Slot, d: DescId)
    requires DescCounts(s) && d in s.descs && k !in s.slots
    ensures DescCounts(SlotSet(s, k, d))
  {
    SlotChanged(s.slots, SlotSet(s, k, d).slots, k);
    hide SlotsOf;
  }

  lemma SlotSetMons(s: State, k: Slot, d: DescId)
    requires MonCounts(s) && d in s.descs
    ensures MonCounts(SlotSet(s, k, d))
  {
    PointerChanged(s.descs, SlotSet(s, k, d).descs, d);
    hide Attached;
  }

  lemma SlotSetAges(s: State, k: Slot, d: DescId)
    requires Ages(s) && d in s.descs && !s.descs[d].owner
    ensures Ages(SlotSet(s, k, d))
  {
  }

  lemma SlotSetLinks(s: State, k: Slot, d: DescId)
    requires Inv(s) && d in s.descs && s.descs[d].refCount > 0 && k !in s.slots && k.mon in s.mons && Owned(s, k.mon)
    requires !s.descs[d].owner
    ensures Links(SlotSet(s, k, d))
  {
    hide SlotsOf;
    hide Attached;
    hide DescCounts;
    hide MonCounts;
    hide ZeroIsClosing;
    hide FoundIsOwned;
    hide OwnersListed;
    hide Ages;
  }

  lemma SlotSetOwners(s: State, k: Slot, d: DescId)
    requires Inv(s) && d in s.descs && s.descs[d].refCount > 0 && k !in s.slots && k.mon in s.mons && Owned(s, k.mon)
    requires !s.descs[d].owner
    ensures FoundIsOwned(SlotSet(s, k, d))
  {
    hide SlotsOf;
    hide Attached;
    hide DescCounts;
    hide MonCounts;
    hide ZeroIsClosing;
    hide NoDanglingDesc;
    hide OwnersListed;
    hide Ages;
  }

  lemma SlotSetListed(s: State, k: Slot, d: DescId)
    requires Inv(s) && d in s.descs && s.descs[d].refCount > 0 && k !in s.slots && k.mon in s.mons && Owned(s, k.mon)
    requires !s.descs[d].owner
    ensures OwnersListed(SlotSet(s, k, d))
  {
    hide SlotsOf;
    hide Attached;
    hide DescCounts;
    hide MonCounts;
    hide ZeroIsClosing;
    hide NoDanglingDesc;
    hide FoundIsOwned;
    hide Ages;
  }

  lemma SlotSetKeeps(s: State, k: Slot, d: DescId)
    requires Inv(s) && d in s.descs && s.descs[d].refCount > 0 && k !in s.slots && k.mon in s.mons && Owned(s, k.mon)
    requires !s.descs[d].owner
    ensures Inv(SlotSet(s, k, d))
  {
    SlotSetCounts(s, k, d);
    SlotSetLinks(s, k, d);
    SlotSetOwners(s, k, d);
    SlotSetListed(s, k, d);
  }

  /** The first half of `co_manager_close`: one reference less; at zero the descriptor begins to close. */
  function RefDropped(s: State, d: DescId): State
    requires d in s.descs
  {
    s.(descs := s.descs[d := s.descs[d].(refCount := s.descs[d].refCount - 1)], debts := s.debts - multiset{d},
       closing := if s.descs[d].refCount == 1 then s.closing + {d} else s.closing)
  }

  lemma RefDroppedCounts(s: State, d: DescId)
    requires Inv(s) && d in s.descs && s.debts[d] > 0
    ensures Counts(RefDropped(s, d))
  {
    hide SlotsOf;
    hide Attached;
    hide NoDanglingDesc;
    hide NoDanglingMon;
    hide FoundIsOwned;
    hide OwnersListed;
    PointerChanged(s.descs, RefDropped(s, d).descs, d);
  }

  lemma RefDroppedLinks(s: State, d: DescId)
    requires Inv(s) && d in s.descs && s.debts[d] > 0
    ensures Links(RefDropped(s, d))
  {
    hide SlotsOf;
    hide Attached;
    hide DescCounts;
    hide MonCounts;
    hide ZeroIsClosing;
    hide FoundIsOwned;
    hide OwnersListed;
    hide Ages;
  }

  lemma RefDroppedOwners(s: State, d: DescId)
    requires Inv(s) && d in s.descs && s.debts[d] > 0
    ensures FoundIsOwned(RefDropped(s, d))
  {
    hide SlotsOf;
    hide Attached;
    hide DescCounts;
    hide MonCounts;
    hide ZeroIsClosing;
    hide NoDanglingDesc;
    hide OwnersListed;
    hide Ages;
  }

  lemma RefDroppedListed(s: State, d: DescId)
    requires Inv(s) && d in s.descs && s.debts[d] > 0
    ensures OwnersListed(RefDropped(s, d))
  {
    hide SlotsOf;
    hide Attached;
    hide DescCounts;
    hide MonCounts;
    hide ZeroIsClosing;
    hide NoDanglingDesc;
    hide FoundIsOwned;
    hide Ages;
  }

  lemma RefDroppedKeeps(s: State, d: DescId)
    requires Inv(s) && d in s.descs && s.debts[d] > 0
    ensures Inv(RefDropped(s, d))
  {
    RefDroppedCounts(s, d);
    RefDroppedLinks(s, d);
    RefDroppedOwners(s, d);
    RefDroppedListed(s, d);
  }

  /** A descriptor lets go of its monitor; the monitor is still to be counted down. */
  function Detached(s: State, d: DescId, owner: bool): State
    requires d in s.descs && s.descs[d].mon.Some?
  {
    var m := s.descs[d].mon.value;
    s.(descs := s.descs[d := s.descs[d].(mon := None, owner := owner)], releasing := s.releasing + multiset{m},
       ousting := if s.descs[d].owner then s.ousting + {m} else s.ousting)
  }

  lemma DetachedCounts(s: State, d: DescId, owner: bool)
    requires Inv(s) && d in s.descs && s.descs[d].mon.Some? && (owner ==> d in s.closing)
    ensures Counts(Detached(s, d, owner))
  {
    hide SlotsOf;
    hide Attached;
    hide NoDanglingDesc;
    hide NoDanglingMon;
    hide FoundIsOwned;
    hide OwnersListed;
    PointerChanged(s.descs, Detached(s, d, owner).descs, d);
  }

  lemma DetachedLinks(s: State, d: DescId, owner: bool)
    requires Inv(s) && d in s.descs && s.descs[d].mon.Some? && (owner ==> d in s.closing)
    ensures Links(Detached(s, d, owner))
  {
    hide SlotsOf;
    hide Attached;
    hide DescCounts;
    hide MonCounts;
    hide ZeroIsClosing;
    hide FoundIsOwned;
    hide OwnersListed;
    hide Ages;
  }

  lemma DetachedOwners(s: State, d: DescId, owner: bool)
    requires Inv(s) && d in s.descs && s.descs[d].mon.Some? && (owner ==> d in s.closing)
    ensures FoundIsOwned(Detached(s, d, owner))
  {
    hide SlotsOf;
    hide Attached;
    hide DescCounts;
    hide MonCounts;
    hide ZeroIsClosing;
    hide NoDanglingDesc;
    hide OwnersListed;
    hide Ages;
  }

  lemma DetachedListed(s: State, d: DescId, owner: bool)
    requires Inv(s) && d in s.descs && s.descs[d].mon.Some? && (owner ==> d in s.closing)
    ensures OwnersListed(Detached(s, d, owner))
  {
    hide SlotsOf;
    hide Attached;
    hide DescCounts;
    hide MonCounts;
    hide ZeroIsClosing;
    hide NoDanglingDesc;
    hide FoundIsOwned;
    hide Ages;
  }

  lemma DetachedKeeps(s: State, d: DescId, owner: bool)
    requires Inv(s) && d in s.descs && s.descs[d].mon.Some? && (owner ==> d in s.closing)
    ensures Inv(Detached(s, d, owner))
  {
    DetachedCounts(s, d, owner);
    DetachedLinks(s, d, owner);
    DetachedOwners(s, d, owner);
    DetachedListed(s, d, owner);
  }

  /** A monitor is taken off the list. */
  function Delisted(s: State, m: MonId): State
    requires m in s.mons
  {
    s.(mons := s.mons[m := s.mons[m].(listed := false)])
  }

  lemma DelistedCounts(s: State, m: MonId)
    requires Inv(s) && m in s.mons && m in s.ousting
    ensures Counts(Delisted(s, m))
  {
    hide SlotsOf;
    hide Attached;
    hide NoDanglingDesc;
    hide NoDanglingMon;
    hide FoundIsOwned;
    hide OwnersListed;
  }

  lemma DelistedLinks(s: State, m: MonId)
    requires Inv(s) && m in s.mons && m in s.ousting
    ensures Links(Delisted(s, m)) && FoundIsOwned(Delisted(s, m))
  {
    hide SlotsOf;
    hide Attached;
    hide DescCounts;
    hide MonCounts;
    hide ZeroIsClosing;
    hide OwnersListed;
    hide Ages;
  }

  lemma DelistedListed(s: State, m: MonId)
    requires Inv(s) && m in s.mons && m in s.ousting
    ensures OwnersListed(Delisted(s, m))
  {
    hide SlotsOf;
    hide Attached;
    hide DescCounts;
    hide MonCounts;
    hide ZeroIsClosing;
    hide NoDanglingDesc;
    hide FoundIsOwned;
    hide Ages;
  }

  lemma DelistedKeeps(s: State, m: MonId)
    requires Inv(s) && m in s.mons && m in s.ousting
    ensures Inv(Delisted(s, m))
  {
    DelistedCounts(s, m);
    DelistedLinks(s, m);
    DelistedListed(s, m);
  }

  /** `--cmon->refcount`; the monitor is freed when that makes zero. */
  function CountedDown(s: State, m: MonId, owner: bool): State
    requires m in s.mons
  {
    s.(mons := if s.mons[m].refcount == 1 then s.mons - {m} else s.mons[m := s.mons[m].(refcount := s.mons[m].refcount - 1)],
       releasing := s.releasing - multiset{m}, ousting := if owner then s.ousting - {m} else s.ousting)
  }

  lemma CountedDownCounts(s: State, m: MonId, owner: bool)
    requires Inv(s) && m in s.mons && s.releasing[m] > 0
    requires !owner && m in s.ousting ==> s.releasing[m] > 1
    requires owner ==> !s.mons[m].listed && forall k | k in s.slots :: k.mon != m
    ensures Counts(CountedDown(s, m, owner))
  {
    hide SlotsOf;
    hide Attached;
    hide NoDanglingDesc;
    hide NoDanglingMon;
    hide FoundIsOwned;
    hide OwnersListed;
  }

  lemma CountedDownDescs(s: State, m: MonId, owner: bool)
    requires Inv(s) && m in s.mons && s.releasing[m] > 0
    requires !owner && m in s.ousting ==> s.releasing[m] > 1
    requires owner ==> !s.mons[m].listed && forall k | k in s.slots :: k.mon != m
    ensures NoDanglingDesc(CountedDown(s, m, owner))
  {
    hide SlotsOf;
    hide Attached;
    hide DescCounts;
    hide MonCounts;
    hide ZeroIsClosing;
    hide FoundIsOwned;
    hide OwnersListed;
    hide Ages;
    hide NoDanglingMon;
  }

  lemma CountedDownLinks(s: State, m: MonId, owner: bool)
    requires Inv(s) && m in s.mons && s.releasing[m] > 0
    requires !owner && m in s.ousting ==> s.releasing[m] > 1
    requires owner ==> !s.mons[m].listed && forall k | k in s.slots :: k.mon != m
    ensures Links(CountedDown(s, m, owner))
  {
    CountedDownDescs(s, m, owner);
    hide SlotsOf;
    hide Attached;
    hide DescCounts;
    hide MonCounts;
    hide ZeroIsClosing;
    hide FoundIsOwned;
    hide OwnersListed;
    hide Ages;
    hide NoDanglingDesc;
    var t := CountedDown(s, m, owner);
    if s.mons[m].refcount == 1 {
      LastOne(s, m, owner);
    }
    assert NoDanglingMon(s);
    hide Inv;
    hide Owned;
    MonsKept(s, m, t);
  }

  lemma MonsKept(s: State, m: MonId, t: State)
    requires NoDanglingMon(s) && t.slots == s.slots && t.descs == s.descs && t.releasing == s.releasing - multiset{m}
    requires t.mons.Keys == s.mons.Keys || (t.mons.Keys == s.mons.Keys - {m} && s.releasing[m] == 1
      && (forall k | k in s.slots :: k.mon != m) && forall d | d in s.descs :: s.descs[d].mon != Some(m))
    ensures NoDanglingMon(t)
  {
    assert forall n | t.releasing[n] > 0 :: s.releasing[n] > 0;
  }

  lemma CountedDownOwners(s: State, m: MonId, owner: bool)
    requires Inv(s) && m in s.mons && s.releasing[m] > 0
    requires !owner && m in s.ousting ==> s.releasing[m] > 1
    requires owner ==> !s.mons[m].listed && forall k | k in s.slots :: k.mon != m
    ensures FoundIsOwned(CountedDown(s, m, owner))
  {
    hide SlotsOf;
    hide Attached;
    hide DescCounts;
    hide MonCounts;
    hide ZeroIsClosing;
    hide NoDanglingDesc;
    hide OwnersListed;
    hide Ages;
  }

  lemma CountedDownListed(s: State, m: MonId, owner: bool)
    requires Inv(s) && m in s.mons && s.releasing[m] > 0
    requires !owner && m in s.ousting ==> s.releasing[m] > 1
    requires owner ==> !s.mons[m].listed && forall k | k in s.slots :: k.mon != m
    ensures OwnersListed(CountedDown(s, m, owner))
  {
    hide SlotsOf;
    hide Attached;
    hide DescCounts;
    hide MonCounts;
    hide ZeroIsClosing;
    hide NoDanglingDesc;
    hide FoundIsOwned;
    hide Ages;
    if s.mons[m].refcount == 1 {
      LastOne(s, m, owner);
    }
  }

  lemma CountedDownKeeps(s: State, m: MonId, owner: bool)
    requires Inv(s) && m in s.mons && s.releasing[m] > 0
    requires !owner && m in s.ousting ==> s.releasing[m] > 1
    requires owner ==> !s.mons[m].listed && forall k | k in s.slots :: k.mon != m
    ensures Inv(CountedDown(s, m, owner))
  {
    CountedDownCounts(s, m, owner);
    CountedDownLinks(s, m, owner);
    CountedDownOwners(s, m, owner);
    CountedDownListed(s, m, owner);
  }

  /** The end of `co_manager_close_`. */
  function Freed(s: State, d: DescId): State
  {
    s.(descs := s.descs - {d}, closing := s.closing - {d})
  }

  lemma FreedCounts(s: State, d: DescId)
    requires Inv(s) && d in s.closing && s.descs[d].mon == None
    ensures Counts(Freed(s, d))
  {
    hide SlotsOf;
    hide Attached;
    hide NoDanglingDesc;
    hide NoDanglingMon;
    hide FoundIsOwned;
    hide OwnersListed;
    PointerChanged(s.descs, Freed(s, d).descs, d);
  }

  lemma FreedLinks(s: State, d: DescId)
    requires Inv(s) && d in s.closing && s.descs[d].mon == None
    ensures Links(Freed(s, d)) && FoundIsOwned(Freed(s, d))
  {
    NothingHolds(s, d);
    FreedOwned(s, d);
    FreedDescs(s, d);
    FreedMons(s, d);
    hide *;
  }

  lemma FreedDescs(s: State, d: DescId)
    requires NoDanglingDesc(s) && d !in s.handles && s.inflight[d] == 0 && s.debts[d] == 0
    requires forall k | k in s.slots :: s.slots[k] != d
    ensures NoDanglingDesc(Freed(s, d))
  {
  }

  lemma FreedMons(s: State, d: DescId)
    requires NoDanglingMon(s)
    ensures NoDanglingMon(Freed(s, d))
  {
  }

  lemma FreedOwned(s: State, d: DescId)
    requires FoundIsOwned(s) && d in s.descs && s.descs[d].mon == None
    ensures FoundIsOwned(Freed(s, d))
  {
    assert forall m | Owned(s, m) :: Owned(Freed(s, d), m);
    hide Owned;
  }

  lemma FreedListed(s: State, d: DescId)
    requires Inv(s) && d in s.closing && s.descs[d].mon == None
    ensures OwnersListed(Freed(s, d))
  {
    hide SlotsOf;
    hide Attached;
    hide DescCounts;
    hide MonCounts;
    hide ZeroIsClosing;
    hide NoDanglingDesc;
    hide FoundIsOwned;
    hide Ages;
  }

  lemma FreedKeeps(s: State, d: DescId)
    requires Inv(s) && d in s.closing && s.descs[d].mon == None
    ensures Inv(Freed(s, d))
  {
    FreedCounts(s, d);
    FreedLinks(s, d);
    FreedListed(s, d);
  }

  /** CO_MANAGER_IOCTL_CREATE: a new monitor, listed, owned by the descriptor that asked for it. */
  function Created(s: State, d: DescId, m: MonId): State
    requires d in s.descs
  {
    s.(descs := s.descs[d := s.descs[d].(mon := Some(m), owner := true)], mons := s.mons[m := Mon(1, true)],
       creator := s.creator[m := d], age := s.age[m := s.clock + 1], clock := s.clock + 1)
  }

  lemma CreatedCounts(s: State, d: DescId, m: MonId)
    requires Inv(s) && d in s.descs && d !in s.closing && s.descs[d].mon == None && m !in s.mons
    ensures Counts(Created(s, d, m))
  {
    CreatedRefs(s, d, m);
    CreatedMonCounts(s, d, m);
    CreatedAges(s, d, m);
    hide DescCounts;
    hide MonCounts;
    hide Ages;
    hide Links;
    hide FoundIsOwned;
    hide OwnersListed;
    hide SlotsOf;
  }

  lemma CreatedRefs(s: State, d: DescId, m: MonId)
    requires DescCounts(s) && d in s.descs
    ensures DescCounts(Created(s, d, m))
  {
    hide SlotsOf;
    hide HandleOf;
  }

  lemma CreatedAges(s: State, d: DescId, m: MonId)
    requires Ages(s) && NoDanglingMon(s) && d in s.descs && m !in s.mons
    ensures Ages(Created(s, d, m))
  {
  }

  lemma CreatedMonCounts(s: State, d: DescId, m: MonId)
    requires MonCounts(s) && NoDanglingMon(s) && d in s.descs && s.descs[d].mon == None && m !in s.mons
    ensures MonCounts(Created(s, d, m))
  {
    NobodyAttached(s, m);
    PointerChanged(s.descs, Created(s, d, m).descs, d);
    hide Attached;
    hide NoDanglingMon;
  }

  lemma CreatedLinks(s: State, d: DescId, m: MonId)
    requires Inv(s) && d in s.descs && d !in s.closing && s.descs[d].mon == None && m !in s.mons
    ensures Links(Created(s, d, m))
  {
    hide SlotsOf;
    hide Attached;
    hide DescCounts;
    hide MonCounts;
    hide ZeroIsClosing;
    hide FoundIsOwned;
    hide OwnersListed;
    hide Ages;
    NewMonitor(s, m);
  }

  lemma CreatedOwners(s: State, d: DescId, m: MonId)
    requires Inv(s) && d in s.descs && d !in s.closing && s.descs[d].mon == None && m !in s.mons
    ensures FoundIsOwned(Created(s, d, m))
  {
    hide SlotsOf;
    hide Attached;
    hide DescCounts;
    hide MonCounts;
    hide ZeroIsClosing;
    hide NoDanglingDesc;
    hide OwnersListed;
    hide Ages;
    NewMonitor(s, m);
  }

  lemma CreatedListed(s: State, d: DescId, m: MonId)
    requires Inv(s) && d in s.descs && d !in s.closing && s.descs[d].mon == None && m !in s.mons
    ensures OwnersListed(Created(s, d, m))
  {
    hide SlotsOf;
    hide Attached;
    hide DescCounts;
    hide MonCounts;
    hide ZeroIsClosing;
    hide NoDanglingDesc;
    hide FoundIsOwned;
    hide Ages;
    NewMonitor(s, m);
  }

  lemma CreatedKeeps(s: State, d: DescId, m: MonId)
    requires Inv(s) && d in s.descs && d !in s.closing && s.descs[d].mon == None && m !in s.mons
    ensures Inv(Created(s, d, m))
  {
    CreatedCounts(s, d, m);
    CreatedLinks(s, d, m);
    CreatedOwners(s, d, m);
    CreatedListed(s, d, m);
  }

  /** CO_MANAGER_IOCTL_ATTACH, lines 448-456: one more descriptor points at a monitor. */
  function AttachedTo(s: State, d: DescId, m: MonId): State
    requires d in s.descs && m in s.mons
  {
    s.(descs := s.descs[d := s.descs[d].(mon := Some(m))], mons := s.mons[m := s.mons[m].(refcount := s.mons[m].refcount + 1)])
  }

  lemma AttachedToCounts(s: State, d: DescId, m: MonId)
    requires Inv(s) && d in s.descs && d !in s.closing && s.descs[d].mon == None && m in s.mons
    ensures Counts(AttachedTo(s, d, m))
  {
    hide SlotsOf;
    hide Attached;
    hide NoDanglingDesc;
    hide NoDanglingMon;
    hide FoundIsOwned;
    hide OwnersListed;
    PointerChanged(s.descs, AttachedTo(s, d, m).descs, d);
  }

  lemma AttachedToLinks(s: State, d: DescId, m: MonId)
    requires Inv(s) && d in s.descs && d !in s.closing && s.descs[d].mon == None && m in s.mons
    ensures Links(AttachedTo(s, d, m))
  {
    hide SlotsOf;
    hide Attached;
    hide DescCounts;
    hide MonCounts;
    hide ZeroIsClosing;
    hide FoundIsOwned;
    hide OwnersListed;
    hide Ages;
  }

  lemma AttachedToOwners(s: State, d: DescId, m: MonId)
    requires Inv(s) && d in s.descs && d !in s.closing && s.descs[d].mon == None && m in s.mons
    ensures FoundIsOwned(AttachedTo(s, d, m))
  {
    hide SlotsOf;
    hide Attached;
    hide DescCounts;
    hide MonCounts;
    hide ZeroIsClosing;
    hide NoDanglingDesc;
    hide OwnersListed;
    hide Ages;
  }

  lemma AttachedToListed(s: State, d: DescId, m: MonId)
    requires Inv(s) && d in s.descs && d !in s.closing && s.descs[d].mon == None && m in s.mons
    ensures OwnersListed(AttachedTo(s, d, m))
  {
    hide SlotsOf;
    hide Attached;
    hide DescCounts;
    hide MonCounts;
    hide ZeroIsClosing;
    hide NoDanglingDesc;
    hide FoundIsOwned;
  }

  lemma AttachedToKeeps(s: State, d: DescId, m: MonId)
    requires Inv(s) && d in s.descs && d !in s.closing && s.descs[d].mon == None && m in s.mons
    ensures Inv(AttachedTo(s, d, m))
  {
    AttachedToCounts(s, d, m);
    AttachedToLinks(s, d, m);
    AttachedToOwners(s, d, m);
    AttachedToListed(s, d, m);
  }
}
