/** Guest memory as the host driver sees it: `pages.c`, `reversedpfns.c` (the setter), `transfer.c`, `monitor.c` (allocation). */
module GuestMemory {
  import opened Mbufs
  import opened Numbers
  import opened PageMap
  import opened GuestViews

  /** CO_ARCH_KERNEL_OFFSET, where guest RAM begins. */
  const KERNEL_OFFSET: nat := 0xC000_0000
  /** CO_LOWMEMORY_MAX_MB, in pages. */
  const MAX_RAM_PAGES: nat := 984 * 256
  /** The group between the largest RAM and the page tables: nothing is ever mapped there. */
  const GAP: nat := (KERNEL_OFFSET / PAGE + MAX_RAM_PAGES) / GROUP

  function PageOf(v: nat): nat {
    KERNEL_OFFSET / PAGE + v
  }

  /** One step of the page splitter: what lies between `offset` and the end of its page, or `size` if that is less. */
  function PartSize(offset: nat, size: nat): (n: nat)
    ensures n <= size && offset % PAGE + n <= PAGE && (size > 0 ==> n > 0)
    ensures n < size ==> (offset + n) % PAGE == 0
  {
    var part := (offset + PAGE) / PAGE * PAGE - offset;
    if part > size then size else part
  }

  /** What `copy_region_split_callback` writes: the data, or zeros when the pointer to it is null. */
  function Source(data: seq<Byte>, isNull: bool, size: nat): (s: seq<Byte>)
    requires !isNull ==> |data| == size
    ensures |s| == size
  {
    if isNull then seq(size, _ => 0) else data
  }

  /** A part of a range, inside one page. */
  datatype Part = Part(offset: nat, size: nat)

  /** The parts follow one another from `lo` to `hi`; none is empty, none crosses a page boundary, only the ends are partial. */
  ghost predicate Tiles(parts: seq<Part>, lo: nat, hi: nat) {
    && (forall i | 0 <= i < |parts| :: parts[i].size > 0 && parts[i].offset % PAGE + parts[i].size <= PAGE)
    && (parts != [] ==> parts[0].offset == lo)
    && (forall i | 0 < i < |parts| :: parts[i].offset == parts[i - 1].offset + parts[i - 1].size)
    && (forall i | 0 < i < |parts| :: parts[i].offset % PAGE == 0)
    && hi == if parts == [] then lo else parts[|parts| - 1].offset + parts[|parts| - 1].size
  }

  lemma TilesNothing(lo: nat)
    ensures Tiles([], lo, lo)
  {
  }

  lemma TilesMore(parts: seq<Part>, lo: nat, hi: nat, n: nat)
    requires Tiles(parts, lo, hi) && n > 0 && hi % PAGE + n <= PAGE && (parts == [] || hi % PAGE == 0)
    ensures Tiles(parts + [Part(hi, n)], lo, hi + n)
  {
  }

  /** `co_split_by_pages_and_callback`: the calls it makes while they succeed. */
  method SplitByPages(offset0: nat, size0: nat) returns (parts: seq<Part>)
    ensures Tiles(parts, offset0, offset0 + size0)
  {
    hide Tiles;
    var offset: nat, size: nat := offset0, size0;
    parts := [];
    TilesNothing(offset);
    while size > 0
      invariant offset + size == offset0 + size0
      invariant Tiles(parts, offset0, offset)
      invariant size == 0 || offset == offset0 || offset % PAGE == 0
      invariant offset == offset0 ==> parts == []
    {
      var n := PartSize(offset, size);
      TilesMore(parts, offset0, offset, n);
      parts := parts + [Part(offset, n)];
      size := size - n;
      offset := offset + n;
    }
  }

  /**
   * For every page of RAM there is a PTE slot. Those in `entered` have been written: such a slot holds the frame of its
   * page, or 0 when the page is not mapped. Mapped pages are among them, and the reverse entry of their frame is the page.
   * `but` names a page that is being worked on; -1 names none.
   */
  ghost predicate Linked(pp: Table, frames: Frames, reversed: seq<nat>, entered: set<nat>, ramPages: nat, but: int)
    requires Sound(pp, frames)
  {
    forall v: nat | v < ramPages ::
      Mapped(pp, PteAddress(v)) && PteAddress(v) % 4 == 0
      && (v != but && v in entered ==> WordAt(pp, frames, PteAddress(v)) == Pte(Entry(pp, PageOf(v))))
      && (v != but && Entry(pp, PageOf(v)) != 0 ==>
            v in entered && Entry(pp, PageOf(v)) < |reversed| && reversed[Entry(pp, PageOf(v))] == v)
  }

  /** A reverse entry that is not 0 leads back to its frame, so that the frames of unmapped pages have none. */
  ghost predicate Inverse(pp: Table, reversed: seq<nat>, ramPages: nat)
    requires Shape(pp)
  {
    forall f | 0 <= f < |reversed| && reversed[f] != 0 :: reversed[f] < ramPages && Entry(pp, PageOf(reversed[f])) == f != 0
  }

  /** Every frame that has been taken from the host is in the map. */
  ghost predicate NoneLost(pp: Table, taken: set<nat>)
    requires Shape(pp)
  {
    forall f | f in taken :: Used(pp, f)
  }

  ghost predicate Used(pp: Table, f: nat)
    requires Shape(pp)
  {
    exists p: nat :: Entry(pp, p) == f
  }

  /** Entering frames where there were none, and taking them from the host, loses none. */
  lemma NoneLostMore(pp: Table, pp': Table, taken: set<nat>, taken': set<nat>)
    requires Shape(pp) && Shape(pp') && NoneLost(pp, taken)
    requires forall p: nat | Entry(pp, p) != 0 :: Entry(pp', p) == Entry(pp, p)
    requires 0 !in taken && forall f | f in taken' && f !in taken :: Used(pp', f)
    ensures NoneLost(pp', taken')
  {
    forall f | f in taken'
      ensures Used(pp', f)
    {
      if f in taken {
        var p: nat :| Entry(pp, p) == f;
        assert Entry(pp', p) == f;
      }
    }
  }

  lemma UsedAt(pp: Table, page: nat)
    requires Shape(pp)
    ensures Used(pp, Entry(pp, page))
  {
  }

  lemma NoneLostLess(pp: Table, pp': Table, taken: set<nat>, page: nat)
    requires Shape(pp) && Shape(pp') && NoneLost(pp, taken)
    requires forall p: nat | p != page :: Entry(pp', p) == Entry(pp, p)
    ensures NoneLost(pp', taken - {Entry(pp, page)})
  {
    forall f | f in taken - {Entry(pp, page)}
      ensures Used(pp', f)
    {
      var p: nat :| Entry(pp, p) == f;
      assert Entry(pp', p) == f;
    }
  }

  /** Mapped bytes that stay, entries that stay and reverse entries that stay keep the links that rest on them. */
  lemma LinkedKept(pp: Table, frames: Frames, rev: seq<nat>, pp': Table, frames': Frames, rev': seq<nat>, entered: set<nat>, n: nat, but: int, but': int)
    requires Sound(pp, frames) && Sound(pp', frames') && Linked(pp, frames, rev, entered, n, but)
    requires but == -1 || but == but'
    requires forall a: nat | a >= PAGE_TABLES && Mapped(pp, a) ::
               Mapped(pp', a) && ByteAt(pp', frames', a) == ByteAt(pp, frames, a)
    requires forall v: nat | v < n && v != but' :: Entry(pp', PageOf(v)) == Entry(pp, PageOf(v))
    requires |rev'| == |rev|
    requires forall v: nat | v < n && v != but' && Entry(pp, PageOf(v)) != 0 && Entry(pp, PageOf(v)) < |rev| ::
               rev'[Entry(pp, PageOf(v))] == rev[Entry(pp, PageOf(v))]
    ensures Linked(pp', frames', rev', entered, n, but')
    ensures forall v: nat | v < n :: WordAt(pp', frames', PteAddress(v)) == WordAt(pp, frames, PteAddress(v))
  {
    forall v: nat | v < n
      ensures Mapped(pp', PteAddress(v)) && WordAt(pp', frames', PteAddress(v)) == WordAt(pp, frames, PteAddress(v))
    {
      AlignedWord(PteAddress(v));
    }
  }

  /** Writing the PTE of a page that is being worked on leaves all others as they were. */
  lemma PteWritten(pp: Table, frames: Frames, rev: seq<nat>, entered: set<nat>, n: nat, v: nat, w: nat)
    requires Sound(pp, frames) && Linked(pp, frames, rev, entered, n, v) && v < n && w < 0x1_0000_0000
    ensures var a := PteAddress(v);
      && Mapped(pp, a) && a % 4 == 0 && a % PAGE + 4 <= PAGE
      && var frames' := Poke(frames, Entry(pp, a / PAGE), a % PAGE, WordBytes(w));
      && Sound(pp, frames') && Linked(pp, frames', rev, entered + {v}, n, v)
      && WordAt(pp, frames', a) == w && Kept(pp, frames, pp, frames', v, 1)
  {
    var a := PteAddress(v);
    AlignedWord(a);
    PokeWord(pp, frames, a, w);
    PokeGives(pp, frames, a, WordBytes(w));
    hide Poke;
    hide ByteAt;
    hide WordAt;
    hide Sound;
  }

  lemma ReverseCleared(pp: Table, frames: Frames, rev: seq<nat>, entered: set<nat>, n: nat, v: nat)
    requires Sound(pp, frames) && Linked(pp, frames, rev, entered, n, v) && Inverse(pp, rev, n)
    requires 0 < Entry(pp, PageOf(v)) < |rev|
    ensures Linked(pp, frames, rev[Entry(pp, PageOf(v)) := 0], entered, n, v)
    ensures Inverse(pp, rev[Entry(pp, PageOf(v)) := 0], n)
  {
    hide WordAt;
    hide ByteAt;
  }

  /** The page that was being worked on agrees again. */
  lemma LinkedAll(pp: Table, frames: Frames, rev: seq<nat>, entered: set<nat>, n: nat, v: nat)
    requires Sound(pp, frames) && Linked(pp, frames, rev, entered, n, v) && v < n && v in entered
    requires Mapped(pp, PteAddress(v)) && WordAt(pp, frames, PteAddress(v)) == Pte(Entry(pp, PageOf(v)))
    requires Entry(pp, PageOf(v)) != 0 ==> Entry(pp, PageOf(v)) < |rev| && rev[Entry(pp, PageOf(v))] == v
    ensures Linked(pp, frames, rev, entered, n, -1)
  {
    hide WordAt;
    hide Sound;
  }

  /** With room for the page tables and nothing mapped yet there is nothing to agree on. */
  lemma NothingLinked(pp: Table, frames: Frames, reversed: seq<nat>, ramPages: nat)
    requires Sound(pp, frames)
    requires forall v: nat | v < ramPages :: Mapped(pp, PteAddress(v)) && Entry(pp, PageOf(v)) == 0
    ensures Linked(pp, frames, reversed, {}, ramPages, -1)
  {
    hide WordAt;
    forall v: nat
      ensures PteAddress(v) % 4 == 0
    {
      Aligned(v);
    }
    hide PteAddress;
    hide Sound;
  }

  lemma Aligned(v: nat)
    ensures PteAddress(v) % 4 == 0
  {
    assert PteAddress(v) == 4 * (PAGE_TABLES / 4 + v);
  }

  /** Whole tables and a partial one are room for every page of RAM. */
  lemma RoomForAll(pp: Table, ramPages: nat)
    requires Shape(pp) && ramPages <= MAX_RAM_PAGES
    requires forall x: nat | PAGE_TABLES <= x < PAGE_TABLES + PAGE * (ramPages / GROUP) + 4 * (ramPages % GROUP) :: Mapped(pp, x)
    ensures forall v: nat | v < ramPages :: Mapped(pp, PteAddress(v))
  {
    assert PAGE * (ramPages / GROUP) + 4 * (ramPages % GROUP) == 4 * ramPages;
    forall v: nat | v < ramPages
      ensures Mapped(pp, PteAddress(v))
    {
      assert PAGE_TABLES <= PteAddress(v) < PAGE_TABLES + 4 * ramPages;
    }
  }

  lemma CopiedBytesAre(pp: Table, frames: Frames, pp': Table, frames': Frames, at: nat, data: seq<Byte>, isNull: bool, size: nat, done: nat)
    requires Sound(pp, frames) && Sound(pp', frames') && done <= size && (!isNull ==> |data| == size)
    requires Copied(pp, frames, pp', frames', at, Source(data, isNull, size)[..done])
    ensures forall x: nat | at <= x < at + done ::
              Mapped(pp', x) && ByteAt(pp', frames', x) == if isNull then 0 else data[x - at]
  {
    hide Sound;
    hide ByteAt;
  }

  lemma StillMapped(before: Table, after: Table)
    requires Shape(before) && Shape(after)
    requires forall p: nat | Entry(before, p) != 0 :: Entry(after, p) == Entry(before, p)
    ensures forall x: nat | Mapped(before, x) :: Mapped(after, x)
  {
  }

  class Monitor {
    const hostPages: nat
    const ramPages: nat
    var pp: Table
    /** Host pages that belong to this guest. */
    var frames: Frames
    /** Page 0 of the host, to which an empty entry leads. */
    var pageZero: seq<Byte>
    /** The pages under `reversed_map_pfns`, as one array indexed by page frame number. */
    var reversed: seq<nat>
    /** Pages of RAM whose PTE has been written; what is in the other slots is up to the host. */
    ghost var entered: set<nat>

    constructor (hostPages: nat, ramPages: nat, pageZero: seq<Byte>)
      requires hostPages <= 0x10_0000 && ramPages <= MAX_RAM_PAGES && |pageZero| == PAGE
      ensures this.hostPages == hostPages && this.ramPages == ramPages && this.pageZero == pageZero
      ensures Consistent() && pp == map[] && frames == map[] && entered == {}
    {
      this.hostPages, this.ramPages, this.pageZero := hostPages, ramPages, pageZero;
      pp, frames, reversed, entered := map[], map[], seq(hostPages / GROUP * GROUP, _ => 0), {};
    }

    function End(): nat {
      KERNEL_OFFSET + ramPages * PAGE
    }

    /** What holds from the start, before there are any page tables. */
    ghost predicate Consistent()
      reads this
    {
      && hostPages <= 0x10_0000 && ramPages <= MAX_RAM_PAGES
      && Sound(pp, frames)
      && (forall f | f in frames :: 0 < f < hostPages)
      && |reversed| == hostPages / GROUP * GROUP && |pageZero| == PAGE
      && Inverse(pp, reversed, ramPages) && GAP !in pp && NoneLost(pp, frames.Keys)
    }

    /** Consistent, every host frame has a reverse slot, and map, inverse map and page tables agree. */
    ghost predicate Valid()
      reads this
    {
      ValidBut(-1)
    }

    ghost predicate ValidBut(v: int)
      reads this
    {
      Consistent() && hostPages % GROUP == 0 && Linked(pp, frames, reversed, entered, ramPages, v)
    }

    /**
     * After any run: what is mapped is mapped in all three, what has been freed is in none of them, and the host pages
     * that have been taken are those in the map.
     */
    lemma AllThreeAgree()
      requires Valid()
      ensures forall v: nat | v < ramPages :: Mapped(pp, PteAddress(v)) && PteAddress(v) % 4 == 0
      ensures forall v: nat | v < ramPages && Entry(pp, PageOf(v)) != 0 ::
                && WordAt(pp, frames, PteAddress(v)) == Pte(Entry(pp, PageOf(v)))
                && Entry(pp, PageOf(v)) < |reversed| && reversed[Entry(pp, PageOf(v))] == v
      ensures forall v: nat | v < ramPages && Entry(pp, PageOf(v)) != 0 :: OpensTo(WordAt(pp, frames, PteAddress(v)), Entry(pp, PageOf(v)))
      ensures forall v: nat | v < ramPages && v in entered && Entry(pp, PageOf(v)) == 0 ::
                WordAt(pp, frames, PteAddress(v)) == 0
      ensures forall f: nat | f < |reversed| && (forall v: nat | v < ramPages :: Entry(pp, PageOf(v)) != f) :: reversed[f] == 0
      ensures forall f: nat :: f in frames <==> f != 0 && Used(pp, f)
    {
      hide WordAt;
      hide OpensTo;
      forall v: nat | v < ramPages && Entry(pp, PageOf(v)) != 0
        ensures OpensTo(WordAt(pp, frames, PteAddress(v)), Entry(pp, PageOf(v)))
      {
        PteOpens(Entry(pp, PageOf(v)));
      }
    }

    predicate InRam(a: nat) {
      KERNEL_OFFSET <= a < End()
    }

    /**
     * `co_manager_get_page`: a page of the host's choice, unless it has none or offers one beyond those it reported.
     * The host hands out no page twice and never page 0.
     */
    method GetPage() returns (ok: bool, pfn: nat)
      modifies this`frames
      ensures !ok ==> frames == old(frames)
      ensures ok ==> 0 < pfn < hostPages && pfn !in old(frames) && pfn in frames && |frames[pfn]| == PAGE
      ensures ok ==> frames == old(frames)[pfn := frames[pfn]]
    {
      var content: seq<Byte> := *;
      pfn := *;
      ok := 0 < pfn < hostPages && pfn !in frames && |content| == PAGE;
      if ok {
        frames := frames[pfn := content];
      }
    }

    /** The second-level table of a group, made empty if there is none; fails when the host has no memory. */
    method EnsureGroup(g: nat) returns (ok: bool)
      requires Consistent() && g != GAP
      modifies this`pp
      ensures Consistent() && old(pp.Keys) <= pp.Keys && (ok <==> g in pp)
      ensures forall p: nat :: Entry(pp, p) == old(Entry(pp, p))
      ensures forall a: nat | old(Mapped(pp, a)) :: Mapped(pp, a) && ByteAt(pp, frames, a) == old(ByteAt(pp, frames, a))
    {
      if g !in pp {
        ok := *;
        if ok {
          ghost var before := pp;
          pp := pp[g := seq(GROUP, _ => 0)];
          assert Shape(pp) && forall p: nat :: Entry(pp, p) == old(Entry(pp, p));
          NoneLostMore(before, pp, frames.Keys, frames.Keys);
        }
      } else {
        ok := true;
      }
    }

    /** Gives an unmapped page a host page, as the second half of `scan_pfns_split_callback` does. */
    method Back(page: nat) returns (ok: bool)
      requires Consistent() && page / GROUP in pp && Entry(pp, page) == 0
      modifies this`pp, this`frames
      ensures Consistent()
      ensures forall p: nat | p != page || !ok :: Entry(pp, p) == old(Entry(pp, p))
      ensures forall f | f in old(frames) :: f in frames && frames[f] == old(frames)[f]
      ensures ok ==> Entry(pp, page) != 0 && Entry(pp, page) !in old(frames)
      ensures frames.Keys == old(frames).Keys + (if ok then {Entry(pp, page)} else {})
      ensures forall a: nat | old(Mapped(pp, a)) :: Mapped(pp, a) && ByteAt(pp, frames, a) == old(ByteAt(pp, frames, a))
      ensures old(pp).Keys == pp.Keys
    {
      hide NoneLost;
      hide Used;
      hide SetEntry;
      ghost var before, taken := pp, frames.Keys;
      var pfn;
      ok, pfn := GetPage();
      if ok {
        SetEntryGives(pp, page, pfn);
        pp := SetEntry(pp, page, pfn);
        UsedAt(pp, page);
        assert frames.Keys == taken + {pfn};
        NoneLostMore(before, pp, taken, frames.Keys);
      }
    }

    /** `co_manager_set_reversed_pfn`: fails for a frame that has no slot in the reverse map. */
    method SetReversed(pfn: nat, v: nat) returns (ok: bool)
      requires |reversed| == hostPages / GROUP * GROUP
      modifies this`reversed
      ensures ok <==> pfn / GROUP < hostPages / GROUP
      ensures ok <==> pfn < |old(reversed)|
      ensures reversed == if ok then old(reversed)[pfn := v] else old(reversed)
    {
      var topLevel := pfn / GROUP;
      if topLevel >= hostPages / GROUP {
        return false;
      }
      reversed := reversed[topLevel * GROUP + pfn % GROUP := v];
      ok := true;
    }

    /** `scan_pfns_split_callback` without a function to call: backs the page of `a` if nothing does yet. */
    method ScanPage(a: nat, n: nat) returns (ok: bool)
      requires Consistent() && a % PAGE + n <= PAGE && a / PAGE / GROUP > GAP
      modifies this`pp, this`frames
      ensures Consistent() && (ok ==> forall x: nat | a <= x < a + n :: Mapped(pp, x))
      ensures forall x: nat | old(Mapped(pp, x)) :: Mapped(pp, x)
      ensures forall p: nat | p != a / PAGE || old(Entry(pp, p)) != 0 :: Entry(pp, p) == old(Entry(pp, p))
    {
      ok := EnsureGroup(a / PAGE / GROUP);
      if ok && Entry(pp, a / PAGE) == 0 {
        ok := Back(a / PAGE);
      }
      forall x: nat | a <= x < a + n
        ensures ok ==> Mapped(pp, x)
      {
        assert x / PAGE == a / PAGE;
      }
    }

    /** `co_monitor_scan_and_create_pfns`. */
    method ScanAndCreate(address: nat, size: nat) returns (ok: bool)
      requires Consistent() && address % PAGE == 0 && address / PAGE / GROUP > GAP
      modifies this`pp, this`frames
      ensures Consistent()
      ensures ok ==> forall x: nat | address <= x < address + size :: Mapped(pp, x)
      ensures forall p: nat | p < address / PAGE || old(Entry(pp, p)) != 0 :: Entry(pp, p) == old(Entry(pp, p))
    {
      var parts := SplitByPages(address, size);
      ghost var done := address;
      assert parts != [] ==> parts[0].size > 0 && parts[0].offset == address;
      for i := 0 to |parts|
        invariant Consistent() && done == (if i == |parts| then address + size else parts[i].offset)
        invariant forall x: nat | address <= x < done :: Mapped(pp, x)
        invariant forall p: nat | p < address / PAGE || old(Entry(pp, p)) != 0 :: Entry(pp, p) == old(Entry(pp, p))
      {
        TilesInside(parts, address, address + size, i);
        ok := ScanPage(parts[i].offset, parts[i].size);
        if !ok {
          return;
        }
        done := done + parts[i].size;
      }
      ok := true;
    }

    /** `alloc_pp_ram_mapping` from line 867 on: room for the PTE of every page of RAM, in whole and partial tables. */
    method CreateTables() returns (ok: bool)
      requires Consistent() && pp == map[] && entered == {} && hostPages % GROUP == 0
      modifies this`pp, this`frames
      ensures ok ==> Valid() && forall v: nat | v < ramPages :: Entry(pp, PageOf(v)) == 0
    {
      hide NoneLost;
      hide Inverse;
      hide Linked;
      var full, partial := PAGE * (ramPages / GROUP), 4 * (ramPages % GROUP);
      ok := ScanAndCreate(PAGE_TABLES, full);
      if ok && partial > 0 {
        ghost var before := pp;
        ok := ScanAndCreate(PAGE_TABLES + full, partial);
        StillMapped(before, pp);
      }
      if ok {
        RoomForAll(pp, ramPages);
        NothingLinked(pp, frames, reversed, ramPages);
      }
    }

    /** `co_monitor_create_ptes` for the one PTE of page `v` of RAM. */
    method WritePte(v: nat, pfn: nat)
      requires ValidBut(v) && v < ramPages && pfn < 0x10_0000
      modifies this`frames, this`entered
      ensures ValidBut(v) && entered == old(entered) + {v} && Mapped(pp, PteAddress(v)) && PteAddress(v) % 4 == 0
      ensures WordAt(pp, frames, PteAddress(v)) == Pte(pfn)
      ensures frames.Keys == old(frames).Keys && Kept(pp, old(frames), pp, frames, v, 1)
    {
      PteDecodes(pfn);
      PteWritten(pp, frames, reversed, entered, ramPages, v, Pte(pfn));
      hide Linked;
      hide WordAt;
      hide Kept;
      hide NoneLost;
      hide Inverse;
      hide Pte;
      var a := PteAddress(v);
      ghost var taken := frames.Keys;
      frames := Poke(frames, Entry(pp, a / PAGE), a % PAGE, WordBytes(Pte(pfn)));
      assert frames.Keys == taken;
      entered := entered + {v};
    }

    /** Lines 377-393 of `co_monitor_alloc_and_map_page`: enters the frame of page `v`, new in the map, in the other two. */
    method Enter(v: nat) returns (ok: bool)
      requires ValidBut(v) && v < ramPages && Entry(pp, PageOf(v)) != 0
      modifies this`frames, this`reversed, this`entered
      ensures ok && Valid() && old(entered) <= entered
      ensures Kept(pp, old(frames), pp, frames, v, 1)
    {
      hide WordAt;
      hide ByteAt;
      hide NoneLost;
      var pfn := Entry(pp, PageOf(v));
      ghost var rev := reversed;
      ok := SetReversed(pfn, v);
      LinkedKept(pp, frames, rev, pp, frames, reversed, entered, ramPages, v, v);
      hide Linked;
      hide Kept;
      WritePte(v, pfn);
      LinkedAll(pp, frames, reversed, entered, ramPages, v);
    }

    /** Lines 372-394 of `co_monitor_alloc_and_map_page`: backs page `v` of RAM and enters it in the other two maps. */
    method MapPage(v: nat) returns (ok: bool)
      requires Valid() && v < ramPages && PageOf(v) / GROUP in pp && Entry(pp, PageOf(v)) == 0
      modifies this`pp, this`frames, this`reversed, this`entered
      ensures Valid() && old(entered) <= entered
      ensures ok <==> Entry(pp, PageOf(v)) != 0
      ensures forall p: nat | p != PageOf(v) :: Entry(pp, p) == old(Entry(pp, p))
      ensures Kept(old(pp), old(frames), pp, frames, v, 1)
    {
      hide WordAt;
      hide ByteAt;
      hide NoneLost;
      ghost var pp0, frames0 := pp, frames;
      ok := Back(PageOf(v));
      ghost var but: int := if ok then v else -1;
      LinkedKept(pp0, frames0, reversed, pp, frames, reversed, entered, ramPages, -1, but);
      if ok {
        ghost var pp1, frames1 := pp, frames;
        assert Kept(pp0, frames0, pp1, frames1, v, 1);
        hide Kept;
        ok := Enter(v);
        KeptOn(pp0, frames0, pp1, frames1, pp, frames, v, 1, v, 1);
      }
    }

    /** `co_monitor_alloc_and_map_page` for an address in RAM: no byte of the guest changes but for the page's own entry. */
    method AllocAndMap(address: nat) returns (ok: bool)
      requires Valid() && InRam(address)
      modifies this`pp, this`frames, this`reversed, this`entered
      ensures Valid() && old(entered) <= entered
      ensures ok <==> Entry(pp, address / PAGE) != 0
      ensures forall p: nat | p != address / PAGE || old(Entry(pp, p)) != 0 :: Entry(pp, p) == old(Entry(pp, p))
      ensures Kept(old(pp), old(frames), pp, frames, (address - KERNEL_OFFSET) / PAGE, 1)
    {
      hide WordAt;
      hide ByteAt;
      hide NoneLost;
      var page := address / PAGE;
      ghost var v, pp0, frames0 := (address - KERNEL_OFFSET) / PAGE, pp, frames;
      ok := EnsureGroup(page / GROUP);
      LinkedKept(pp0, frames, reversed, pp, frames, reversed, entered, ramPages, -1, -1);
      assert Kept(pp0, frames0, pp, frames, v, 1);
      if ok && Entry(pp, page) == 0 {
        ghost var pp1, frames1 := pp, frames;
        hide Kept;
        ok := MapPage((address - KERNEL_OFFSET) / PAGE);
        KeptOn(pp0, frames0, pp1, frames1, pp, frames, v, 1, v, 1);
      }
    }

    /** `co_monitor_free_and_unmap_page` for an address in RAM: fails only where there is no second-level table. */
    method FreeAndUnmap(address: nat) returns (ok: bool)
      requires Valid() && InRam(address)
      modifies this`pp, this`frames, this`reversed, this`entered
      ensures Valid() && Entry(pp, address / PAGE) == 0 && old(entered) <= entered
      ensures forall p: nat | p != address / PAGE :: Entry(pp, p) == old(Entry(pp, p))
      ensures frames.Keys == old(frames).Keys - {old(Entry(pp, address / PAGE))}
      ensures var pfn := old(Entry(pp, address / PAGE)); pfn != 0 ==> pfn < |reversed| && reversed[pfn] == 0
      ensures ok ==> (address - KERNEL_OFFSET) / PAGE in entered
                     && WordAt(pp, frames, PteAddress((address - KERNEL_OFFSET) / PAGE)) == 0
      ensures ok <==> address / PAGE / GROUP in old(pp)
      ensures !ok ==> pp == old(pp) && frames == old(frames) && reversed == old(reversed)
      ensures Kept(old(pp), old(frames), pp, frames, (address - KERNEL_OFFSET) / PAGE, 1)
    {
      hide WordAt;
      hide ByteAt;
      hide NoneLost;
      hide Linked;
      hide Kept;
      var page := address / PAGE;
      ghost var pp0, frames0 := pp, frames;
      var v := (address - KERNEL_OFFSET) / PAGE;
      if page / GROUP !in pp {
        KeptSelf(pp, frames, v, 1);
        return false;
      }
      ErasePte(v);
      ghost var frames1 := frames;
      if Entry(pp, page) != 0 {
        GiveBack(v);
        KeptOn(pp0, frames0, pp0, frames1, pp, frames, v, 1, v, 1);
      } else {
        LinkedAll(pp, frames, reversed, entered, ramPages, v);
      }
      ok := true;
    }

    /** Line 424. */
    method ErasePte(v: nat)
      requires Valid() && v < ramPages
      modifies this`frames, this`entered
      ensures ValidBut(v) && entered == old(entered) + {v} && frames.Keys == old(frames).Keys
      ensures Mapped(pp, PteAddress(v)) && PteAddress(v) % 4 == 0 && WordAt(pp, frames, PteAddress(v)) == 0
      ensures Entry(pp, PageOf(v)) < |reversed| || Entry(pp, PageOf(v)) == 0
      ensures Kept(pp, old(frames), pp, frames, v, 1)
    {
      LinkedKept(pp, frames, reversed, pp, frames, reversed, entered, ramPages, -1, v);
      hide WordAt;
      hide ByteAt;
      hide NoneLost;
      hide Kept;
      WritePte(v, 0);
    }

    /** Lines 426-431: frees the frame of a page whose PTE is 0 already. */
    method GiveBack(v: nat)
      requires ValidBut(v) && v < ramPages && Entry(pp, PageOf(v)) != 0 && v in entered
      requires WordAt(pp, frames, PteAddress(v)) == 0
      requires Entry(pp, PageOf(v)) < |reversed|
      modifies this`pp, this`frames, this`reversed
      ensures Valid() && WordAt(pp, frames, PteAddress(v)) == 0
      ensures forall p: nat :: Entry(pp, p) == if p == PageOf(v) then 0 else old(Entry(pp, p))
      ensures frames.Keys == old(frames).Keys - {old(Entry(pp, PageOf(v)))}
      ensures reversed == old(reversed[Entry(pp, PageOf(v)) := 0])
      ensures Kept(old(pp), old(frames), pp, frames, v, 1)
    {
      hide WordAt;
      hide ByteAt;
      hide NoneLost;
      hide Inverse;
      ClearReversed(v);
      ghost var pp0, frames0 := pp, frames;
      Unback(PageOf(v));
      assert Kept(pp0, frames0, pp, frames, v, 1);
      hide Kept;
      LinkedKept(pp0, frames0, reversed, pp, frames, reversed, entered, ramPages, v, v);
      hide Linked;
      LinkedAll(pp, frames, reversed, entered, ramPages, v);
    }

    /** Line 428. */
    method ClearReversed(v: nat)
      requires ValidBut(v) && v < ramPages && 0 < Entry(pp, PageOf(v)) < |reversed|
      modifies this`reversed
      ensures ValidBut(v) && reversed == old(reversed)[Entry(pp, PageOf(v)) := 0]
    {
      ReverseCleared(pp, frames, reversed, entered, ramPages, v);
      hide Linked;
      hide Inverse;
      hide NoneLost;
      hide Sound;
      var _ := SetReversed(Entry(pp, PageOf(v)), 0);
    }

    /** `co_os_put_page` and the clearing of the entry. */
    method Unback(page: nat)
      requires Consistent() && Entry(pp, page) != 0
      requires Entry(pp, page) < |reversed| && reversed[Entry(pp, page)] == 0
      modifies this`pp, this`frames
      ensures Consistent()
      ensures forall p: nat :: Entry(pp, p) == if p == page then 0 else old(Entry(pp, p))
      ensures frames.Keys == old(frames).Keys - {old(Entry(pp, page))}
      ensures forall a: nat | a / PAGE != page && old(Mapped(pp, a)) ::
                Mapped(pp, a) && ByteAt(pp, frames, a) == old(ByteAt(pp, frames, a))
    {
      SetEntryGives(pp, page, 0);
      NoneLostLess(pp, SetEntry(pp, page, 0), frames.Keys, page);
      hide NoneLost;
      hide SetEntry;
      frames, pp := frames - {Entry(pp, page)}, SetEntry(pp, page, 0);
    }

    /** `co_free_pages` on a range of RAM. */
    method FreePages(address: nat, count: nat)
      requires Valid() && KERNEL_OFFSET <= address && address % PAGE == 0 && address + count * PAGE <= End()
      modifies this`pp, this`frames, this`reversed, this`entered
      ensures Valid() && old(entered) <= entered
      ensures forall p: nat :: Entry(pp, p) == AfterFree(old(pp), address / PAGE, count, p)
      ensures Kept(old(pp), old(frames), pp, frames, (address - KERNEL_OFFSET) / PAGE, count)
    {
      hide Linked;
      hide Kept;
      hide NoneLost;
      ghost var v, pp0, frames0 := (address - KERNEL_OFFSET) / PAGE, pp, frames;
      KeptSelf(pp, frames, v, count);
      var scan := address;
      for j := 0 to count
        invariant Valid() && scan == address + j * PAGE && old(entered) <= entered
        invariant forall p: nat :: Entry(pp, p) == AfterFree(old(pp), address / PAGE, j, p)
        invariant Kept(pp0, frames0, pp, frames, v, count)
      {
        ghost var pp1, frames1 := pp, frames;
        var _ := FreeAndUnmap(scan);
        KeptOn(pp0, frames0, pp1, frames1, pp, frames, v + j, 1, v, count);
        scan := scan + PAGE;
      }
    }

    /**
     * `co_alloc_pages` on a range of RAM. When page `at` cannot be had, the pages before it are given back, also those
     * that were mapped before the call.
     */
    method AllocPages(address: nat, count: nat) returns (ok: bool, at: nat)
      requires Valid() && KERNEL_OFFSET <= address && address % PAGE == 0 && address + count * PAGE <= End()
      modifies this`pp, this`frames, this`reversed, this`entered
      ensures Valid() && old(entered) <= entered && (ok ==> at == count)
      ensures ok ==> forall p: nat ::
                if address / PAGE <= p < address / PAGE + count && old(Entry(pp, p)) == 0
                then Entry(pp, p) != 0 else Entry(pp, p) == old(Entry(pp, p))
      ensures !ok ==> MayFailAt(old(pp), address / PAGE, count, at)
      ensures !ok ==> forall p: nat :: Entry(pp, p) == AfterFree(old(pp), address / PAGE, at, p)
      ensures Kept(old(pp), old(frames), pp, frames, (address - KERNEL_OFFSET) / PAGE, count)
    {
      hide Linked;
      hide Kept;
      hide NoneLost;
      ghost var v, pp0, frames0 := (address - KERNEL_OFFSET) / PAGE, pp, frames;
      KeptSelf(pp, frames, v, count);
      var scan := address;
      ghost var first := address / PAGE;
      for i := 0 to count
        invariant Valid() && scan == address + i * PAGE && old(entered) <= entered
        invariant forall p: nat | !(first <= p < first + i && old(Entry(pp, p)) == 0) :: Entry(pp, p) == old(Entry(pp, p))
        invariant forall p: nat | first <= p < first + i :: Entry(pp, p) != 0
        invariant Kept(pp0, frames0, pp, frames, v, count)
      {
        ghost var pp1, frames1 := pp, frames;
        ok := AllocAndMap(scan);
        KeptOn(pp0, frames0, pp1, frames1, pp, frames, v + i, 1, v, count);
        if !ok {
          pp1, frames1 := pp, frames;
          FreePages(address, i);
          KeptOn(pp0, frames0, pp1, frames1, pp, frames, v, i, v, count);
          return false, i;
        }
        scan := scan + PAGE;
      }
      ok, at := true, count;
    }

    /** memcpy into the host page behind `a`, not past its end: exactly those bytes of the guest change. */
    method CopyIn(a: nat, bytes: seq<Byte>)
      requires Valid() && a + |bytes| <= PAGE_TABLES && a % PAGE + |bytes| <= PAGE && Mapped(pp, a)
      modifies this`frames
      ensures Valid() && Stored(pp, old(frames), frames, a, bytes)
    {
      hide NoneLost;
      ghost var frames0 := frames;
      PokeGives(pp, frames, a, bytes);
      frames := Poke(frames, Entry(pp, a / PAGE), a % PAGE, bytes);
      assert frames.Keys == frames0.Keys;
      LinkedKept(pp, frames0, reversed, pp, frames, reversed, entered, ramPages, -1, -1);
    }

    /** `copy_region_split_callback`: copies inside one page, mapping it first if need be. */
    method CopyPart(a: nat, bytes: seq<Byte>) returns (ok: bool)
      requires Valid() && InRam(a) && a % PAGE + |bytes| <= PAGE && bytes != []
      modifies this`pp, this`frames, this`reversed, this`entered
      ensures Valid() && old(entered) <= entered && (ok <==> Mapped(pp, a))
      ensures Copied(old(pp), old(frames), pp, frames, a, if ok then bytes else [])
    {
      hide ByteAt;
      hide Linked;
      hide NoneLost;
      SamePage(a, |bytes|);
      ok := AllocAndMap(a / PAGE * PAGE);
      if ok {
        CopyIn(a, bytes);
      }
    }

    /**
     * `co_monitor_copy_region` on a range of RAM: pages are mapped as they are needed, and get `data`, or zeros when
     * there is none. After a failure the first `done` bytes are in place.
     */
    method CopyRegion(address: nat, size: nat, data: seq<Byte>, isNull: bool) returns (ok: bool, done: nat)
      requires Valid() && KERNEL_OFFSET <= address && address + size <= End() && (!isNull ==> |data| == size)
      modifies this`pp, this`frames, this`reversed, this`entered
      ensures Valid() && old(entered) <= entered && done <= size && (ok <==> done == size)
      ensures !ok ==> !Mapped(pp, address + done)
      ensures Copied(old(pp), old(frames), pp, frames, address, Source(data, isNull, size)[..done])
      ensures forall x: nat | address <= x < address + done ::
                Mapped(pp, x) && ByteAt(pp, frames, x) == if isNull then 0 else data[x - address]
    {
      hide Copied;
      hide Linked;
      hide NoneLost;
      hide Source;
      var parts := SplitByPages(address, size);
      var source := Source(data, isNull, size);
      ghost var pp0, frames0 := pp, frames;
      CopiedNothing(pp, frames, address);
      done := 0;
      assert parts != [] ==> parts[0].size > 0 && parts[0].offset == address;
      for i := 0 to |parts|
        invariant Valid() && done == (if i == |parts| then size else parts[i].offset - address) <= size
        invariant old(entered) <= entered
        invariant Copied(pp0, frames0, pp, frames, address, source[..done])
      {
        var a, n := parts[i].offset, parts[i].size;
        TilesInside(parts, address, address + size, i);
        assert a == address + done;
        ghost var pp1, frames1 := pp, frames;
        ok := CopyPart(a, source[done..done + n]);
        CopiedOn(pp0, frames0, pp1, frames1, pp, frames, address, source[..done], if ok then source[done..done + n] else []);
        if !ok {
          assert source[..done] + [] == source[..done];
          CopiedBytesAre(pp0, frames0, pp, frames, address, data, isNull, size, done);
          return;
        }
        assert source[..done] + source[done..done + n] == source[..done + n];
        done := done + n;
      }
      CopiedBytesAre(pp0, frames0, pp, frames, address, data, isNull, size, done);
      ok := true;
    }

    /** `co_monitor_get_pfn`. */
    method GetPfn(address: nat) returns (ok: bool, pfn: nat)
      requires Shape(pp)
      ensures ok <==> address / PAGE / GROUP in pp
      ensures ok ==> pfn == Entry(pp, address / PAGE)
    {
      ok := address / PAGE / GROUP in pp;
      pfn := if ok then pp[address / PAGE / GROUP][address / PAGE % GROUP] else 0;
    }

    /** Lines 80-88 of `transfer.c`, in 32-bit arithmetic. */
    predicate InBounds(vaddr: nat, size: nat) {
      InRam(vaddr) && KERNEL_OFFSET <= (vaddr + size) % 0x1_0000_0000 <= End()
    }

    /** The check accepts a range outside RAM exactly when its end wraps around to an address in RAM. */
    lemma BoundsExact(vaddr: nat, size: nat)
      requires vaddr < 0x1_0000_0000 && size < 0x1_0000_0000 && ramPages <= MAX_RAM_PAGES
      ensures InRam(vaddr) && vaddr + size <= End() ==> InBounds(vaddr, size)
      ensures InBounds(vaddr, size) && !(InRam(vaddr) && vaddr + size <= End())
              <==> InRam(vaddr) && KERNEL_OFFSET + 0x1_0000_0000 <= vaddr + size <= End() + 0x1_0000_0000
    {
    }

    /** For every size of RAM from two pages on there is such a range. */
    lemma BoundsWrap()
      requires 2 <= ramPages <= MAX_RAM_PAGES
      ensures InBounds(KERNEL_OFFSET + PAGE, 0x1_0000_0000 - PAGE)
      ensures KERNEL_OFFSET + PAGE + (0x1_0000_0000 - PAGE) > End()
    {
    }

    /** `co_os_map`: the page of the host with this frame number. */
    function HostPage(pfn: nat): seq<Byte>
      requires pfn != 0 ==> pfn in frames
      reads this
    {
      if pfn == 0 then pageZero else frames[pfn]
    }

    /** What a transfer finds at `x`, where there is a table for it. */
    ghost function Seen(x: nat): Byte
      requires Sound(pp, frames) && |pageZero| == PAGE
      reads this
    {
      if Mapped(pp, x) then ByteAt(pp, frames, x) else pageZero[x % PAGE]
    }

    /** memcpy from the host inside the page of `a`: into host page 0 if no page is mapped there. */
    method CopyToPage(a: nat, bytes: seq<Byte>)
      requires Valid() && a + |bytes| <= PAGE_TABLES && a % PAGE + |bytes| <= PAGE
      modifies this`frames, this`pageZero
      ensures Valid() && pageZero == Stray(pp, old(pageZero), bytes, a) && Stored(pp, old(frames), frames, a, bytes)
    {
      hide ByteAt;
      hide Linked;
      hide NoneLost;
      SamePage(a, |bytes|);
      var pfn := Entry(pp, a / PAGE);
      if pfn != 0 {
        CopyIn(a, bytes);
        StrayNone(pp, pageZero, bytes, a);
      } else {
        StrayAll(pp, pageZero, bytes, a);
        pageZero := pageZero[..a % PAGE] + bytes + pageZero[a % PAGE + |bytes|..];
      }
    }

    /** Below `vaddr` everything has a table, so `vaddr` is not behind the gap; nor is what is left of its page. */
    lemma BelowGap(start: nat, vaddr: nat)
      requires Consistent() && InRam(start) && start <= vaddr && vaddr / PAGE / GROUP in pp
      requires forall x: nat | start <= x < vaddr :: x / PAGE / GROUP in pp
      ensures vaddr / PAGE * PAGE + PAGE <= PAGE_TABLES
    {
      var gap := GAP * GROUP * PAGE;
      assert gap / PAGE / GROUP == GAP;
      assert End() <= gap;
    }

    /**
     * `co_monitor_host_to_linuxvm`: the first `done` bytes have been copied, all of them when it succeeds. A range whose
     * end wraps around may pass the check, but there are tables for a part of it only.
     */
    method HostToGuest(from: seq<Byte>, to: nat) returns (ok: bool, done: nat)
      requires Valid() && to < 0x1_0000_0000 && |from| < 0x1_0000_0000
      modifies this`frames, this`pageZero
      ensures Valid() && done <= |from| && (ok ==> done == |from| && to + |from| <= End())
      ensures ok <==> InBounds(to, |from|) && forall x: nat | to <= x < to + |from| :: x / PAGE / GROUP in pp
      ensures forall x: nat | to <= x < to + done :: x / PAGE / GROUP in pp
      ensures !ok ==> if InBounds(to, |from|) then (to + done) / PAGE / GROUP !in pp else done == 0
      ensures Stored(pp, old(frames), frames, to, from[..done])
      ensures pageZero == Stray(pp, old(pageZero), from[..done], to)
    {
      hide Stored;
      hide Stray;
      hide Linked;
      hide NoneLost;
      ghost var frames0, zero := frames, pageZero;
      StoredNothing(pp, frames, to);
      StrayNone(pp, zero, [], to);
      done := 0;
      if !InBounds(to, |from|) {
        return false, 0;
      }
      var vaddr: nat, size: nat := to, |from|;
      while size > 0
        invariant Valid() && done + size == |from| && vaddr == to + done
        invariant forall x: nat | to <= x < vaddr :: x / PAGE / GROUP in pp
        invariant Stored(pp, frames0, frames, to, from[..done]) && pageZero == Stray(pp, zero, from[..done], to)
      {
        var pfn;
        ok, pfn := GetPfn(vaddr);
        if !ok {
          return;
        }
        BelowGap(to, vaddr);
        var oneCopy := PartSize(vaddr, size);
        SamePage(vaddr, oneCopy);
        ghost var frames1 := frames;
        CopyToPage(vaddr, from[done..done + oneCopy]);
        StoredOn(pp, frames0, frames1, frames, to, from[..done], from[done..done + oneCopy]);
        StrayOn(pp, zero, from[..done], from[done..done + oneCopy], to);
        assert from[..done] + from[done..done + oneCopy] == from[..done + oneCopy];
        done, size, vaddr := done + oneCopy, size - oneCopy, vaddr + oneCopy;
      }
      WithinRam(to, |from|);
      ok := true;
    }

    /** A range that passes the check and has tables everywhere ends inside RAM. */
    lemma WithinRam(vaddr: nat, size: nat)
      requires Consistent() && InBounds(vaddr, size) && vaddr < 0x1_0000_0000 && size < 0x1_0000_0000
      requires forall x: nat | vaddr <= x < vaddr + size :: x / PAGE / GROUP in pp
      ensures vaddr + size <= End()
    {
      var gap := GAP * GROUP * PAGE;
      assert gap / PAGE / GROUP == GAP;
      assert End() <= gap;
    }

    /** `co_monitor_linuxvm_to_host` */
    method GuestToHost(from: nat, size0: nat) returns (ok: bool, to: seq<Byte>)
      requires Valid() && from < 0x1_0000_0000 && size0 < 0x1_0000_0000
      ensures ok <==> InBounds(from, size0) && forall x: nat | from <= x < from + size0 :: x / PAGE / GROUP in pp
      ensures |to| <= size0 && (ok ==> |to| == size0 && from + size0 <= End())
      ensures forall x: nat | from <= x < from + |to| :: x / PAGE / GROUP in pp && to[x - from] == Seen(x)
      ensures !ok ==> if InBounds(from, size0) then (from + |to|) / PAGE / GROUP !in pp else to == []
    {
      to := [];
      if !InBounds(from, size0) {
        return false, [];
      }
      var vaddr: nat, size: nat := from, size0;
      while size > 0
        invariant |to| + size == size0 && vaddr == from + |to|
        invariant forall x: nat | from <= x < vaddr :: x / PAGE / GROUP in pp && to[x - from] == Seen(x)
      {
        var pfn;
        ok, pfn := GetPfn(vaddr);
        if !ok {
          return;
        }
        var oneCopy := PartSize(vaddr, size);
        SamePage(vaddr, oneCopy);
        to := to + HostPage(pfn)[vaddr % PAGE..vaddr % PAGE + oneCopy];
        size, vaddr := size - oneCopy, vaddr + oneCopy;
      }
      WithinRam(from, size0);
      ok := true;
    }
  }

  /** Every frame that the host may hand out has a reverse slot exactly when their number is a multiple of a table. */
  lemma EveryFrameHasSlot(hostPages: nat)
    ensures (forall pfn: nat | pfn < hostPages :: pfn / GROUP < hostPages / GROUP) <==> hostPages % GROUP == 0
  {
    if hostPages % GROUP != 0 {
      assert (hostPages - 1) / GROUP == hostPages / GROUP;
    }
  }

  lemma SamePage(a: nat, n: nat)
    requires a % PAGE + n <= PAGE
    ensures forall x: nat | a <= x < a + n :: x / PAGE == a / PAGE && x % PAGE == a % PAGE + (x - a)
  {
  }

  lemma {:induction false} TilesInside(parts: seq<Part>, lo: nat, hi: nat, i: nat)
    requires Tiles(parts, lo, hi) && i < |parts|
    ensures lo <= parts[i].offset && parts[i].offset + parts[i].size <= hi
    ensures (i + 1 < |parts| ==> parts[i + 1].offset == parts[i].offset + parts[i].size)
    ensures i + 1 == |parts| ==> parts[i].offset + parts[i].size == hi
    decreases |parts| - i
  {
    TilesAbove(parts, lo, hi, i);
    if i + 1 < |parts| {
      TilesInside(parts, lo, hi, i + 1);
    }
  }

  lemma {:induction false} TilesAbove(parts: seq<Part>, lo: nat, hi: nat, i: nat)
    requires Tiles(parts, lo, hi) && i < |parts|
    ensures lo <= parts[i].offset
  {
    if i > 0 {
      TilesAbove(parts, lo, hi, i - 1);
      assert parts[i - 1].size > 0 && parts[i].offset == parts[i - 1].offset + parts[i - 1].size;
    }
  }

  /** The entry of page `p` after the pages [first, first + n) have been freed. */
  function AfterFree(before: Table, first: nat, n: nat, p: nat): nat
    requires Shape(before)
  {
    if first <= p < first + n then 0 else Entry(before, p)
  }

  /** An allocation of `count` pages can fail at one that is not mapped yet. */
  predicate MayFailAt(before: Table, first: nat, count: nat, at: nat)
    requires Shape(before)
  {
    at < count && Entry(before, first + at) == 0
  }

  predicate Backed(before: Table, first: nat, i: nat)
    requires Shape(before)
  {
    Entry(before, first + i) != 0
  }

  /**
   * Wherever the host fails an allocation, the map is as before, if and only if no mapped page of the range is followed by
   * one that is not mapped.
   */
  lemma RollbackRestores(before: Table, first: nat, count: nat)
    requires Shape(before)
    ensures (forall at: nat | MayFailAt(before, first, count, at) ::
              forall p: nat :: AfterFree(before, first, at, p) == Entry(before, p))
            <==> forall i: nat, j: nat | i < j < count && Backed(before, first, i) :: Backed(before, first, j)
  {
    if i: nat, j: nat :| i < j < count && Backed(before, first, i) && !Backed(before, first, j) {
      assert MayFailAt(before, first, count, j);
      assert AfterFree(before, first, j, first + i) != Entry(before, first + i);
    } else {
      forall at: nat, p: nat | MayFailAt(before, first, count, at)
        ensures AfterFree(before, first, at, p) == Entry(before, p)
      {
        if first <= p < first + at {
          assert !Backed(before, first, at) && !Backed(before, first, p - first);
        }
      }
    }
  }

  /** A map with one page, of which a failed allocation of two pages leaves nothing. */
  lemma RollbackLoses()
    ensures var group := KERNEL_OFFSET / PAGE / GROUP;
      var before: Table := map[group := seq(GROUP, i => if i == 0 then 1 else 0)];
      && Shape(before) && MayFailAt(before, PageOf(0), 2, 1)
      && Entry(before, PageOf(0)) == 1 && AfterFree(before, PageOf(0), 1, PageOf(0)) == 0
  {
  }
}
