/** The address spaces of the passage page: the builders of `passage.c`, and what the processor makes of their tables. */
module TempTables {
  import opened Options
  import opened Numbers


  /** `_PAGE_PRESENT | _PAGE_RW | _PAGE_ACCESSED | _PAGE_DIRTY` */
  const KERNPG_TABLE := 0x63

  type Address = a: int | 0 <= a < TWO_32

  /** The address of a page. */
  type PageAddress = a: int | 0 <= a < TWO_32 && a % PAGE == 0

  /** An entry for a page or a table; the address of a page has no bits where the flags are, so `|` is a sum. */
  function Entry(p: PageAddress, flags: int): (e: int)
    requires 0 < flags < PAGE
    ensures e > 0 && e - e % PAGE == p && e % PAGE == flags
  {
    p + flags
  }

  predicate Present(e: int) { e % 2 == 1 }

  function Frame(e: int): int { e - e % PAGE }

  function PageOf(a: Address): int { a - a % PAGE }

  /** The indices of an address in the two levels of 1024 entries, */
  function Dir(a: Address): (i: nat)
    ensures i < 0x400
  {
    a / 0x40_0000
  }

  function Tab(a: Address): (i: nat)
    ensures i < 0x400
  {
    a / PAGE % 0x400
  }

  /** and in the levels of 4, 512 and 512 entries of PAE. */
  function Top(a: Address): (i: nat)
    ensures i < 4
  {
    a / 0x4000_0000
  }

  function Mid(a: Address): (i: nat)
    ensures i < 0x200
  {
    a / 0x20_0000 % 0x200
  }

  function Low(a: Address): (i: nat)
    ensures i < 0x200
  {
    a / PAGE % 0x200
  }

  /** Where a walk ends, if it maps these pages to `pa` and nothing else. */
  function Target(vas: seq<PageAddress>, pa: PageAddress, a: Address): Option<int> {
    if PageOf(a) in vas then Some(pa + a % PAGE) else None
  }

  /** `co_arch_passage_page_normal_address_space_t`, whose tables lie in physical pages of their own. */
  class NormalSpace {
    const pgd: array<int>
    const pte: array2<int>
    const phys: seq<PageAddress>

    ghost predicate Valid()
      reads this
    {
      pgd.Length == 0x400 && pte.Length0 == 2 && pte.Length1 == 0x400 && |phys| == 2 && phys[0] != phys[1]
    }

    ghost predicate Zero()
      requires Valid()
      reads this, pgd, pte
    {
      (forall i | 0 <= i < 0x400 :: pgd[i] == 0) && (forall j, i | 0 <= j < 2 && 0 <= i < 0x400 :: pte[j, i] == 0)
    }

    /** The zero-initialised structure. */
    constructor (phys: seq<PageAddress>)
      requires |phys| == 2 && phys[0] != phys[1]
      ensures Valid() && Zero() && this.phys == phys && fresh(pgd) && fresh(pte)
    {
      this.phys := phys;
      pgd := new int[0x400](_ => 0);
      pte := new int[2, 0x400]((_, _) => 0);
    }

    /** What the processor does with an address: two levels of 1024 entries. */
    function Walk(a: Address): Option<int>
      requires Valid()
      reads this, pgd, pte
    {
      var e := pgd[Dir(a)];
      if !Present(e) then None
      else if Frame(e) == phys[0] then Leaf(0, a)
      else if Frame(e) == phys[1] then Leaf(1, a)
      else None
    }

    function Leaf(j: nat, a: Address): Option<int>
      requires Valid() && j < 2
      reads this, pte
    {
      var p := pte[j, Tab(a)];
      if Present(p) then Some(Frame(p) + a % PAGE) else None
    }

    /** One page is mapped, by the first table. */
    ghost predicate Single(va: PageAddress, pa: PageAddress)
      requires Valid()
      reads this, pgd, pte
    {
      && (forall i | 0 <= i < 0x400 :: pgd[i] == if i == Dir(va) then Entry(phys[0], KERNPG_TABLE) else 0)
      && (forall i | 0 <= i < 0x400 :: pte[0, i] == if i == Tab(va) then Entry(pa, KERNPG_TABLE) else 0)
      && (forall i | 0 <= i < 0x400 :: pte[1, i] == 0)
    }

    /** `short_temp_address_space_init`: exactly the two pages are mapped, whatever tables they share. */
    method ShortInit(pa: PageAddress, va: seq<PageAddress>)
      requires Valid() && Zero() && |va| == 2
      modifies pgd, pte
      ensures forall a: Address :: Walk(a) == Target(va, pa, a)
    {
      hide Dir;
      hide Tab;
      hide PageOf;
      hide Present;
      hide Frame;
      var pmd0, pmd1, pte0, pte1 := Dir(va[0]), Dir(va[1]), Tab(va[0]), Tab(va[1]);
      Decoded(phys[0], KERNPG_TABLE);
      Decoded(phys[1], KERNPG_TABLE);
      Decoded(pa, KERNPG_TABLE);
      if pmd0 == pmd1 {
        pgd[pmd0] := Entry(phys[0], KERNPG_TABLE);
        pte[0, pte0] := Entry(pa, KERNPG_TABLE);
        pte[0, pte1] := Entry(pa, KERNPG_TABLE);
      } else {
        pgd[pmd0] := Entry(phys[0], KERNPG_TABLE);
        pgd[pmd1] := Entry(phys[1], KERNPG_TABLE);
        pte[0, pte0] := Entry(pa, KERNPG_TABLE);
        pte[1, pte1] := Entry(pa, KERNPG_TABLE);
      }
      forall a: Address
        ensures Walk(a) == Target(va, pa, a)
      {
        SamePage(a, va[0]);
        SamePage(a, va[1]);
      }
    }

    /** `normal_temp_address_space_init`: the page at `va`, and the page at its physical address. */
    method NormalInit(pa: PageAddress, va: PageAddress)
      requires Valid() && Zero()
      modifies pgd, pte
      ensures forall a: Address :: Walk(a) == Target([va, pa], pa, a)
    {
      hide Dir;
      hide Tab;
      hide PageOf;
      hide Present;
      hide Frame;
      Decoded(phys[0], KERNPG_TABLE);
      Decoded(phys[1], KERNPG_TABLE);
      Decoded(pa, KERNPG_TABLE);
      var vas := [va, pa];
      for i := 0 to 2
        invariant i == 0 ==> Zero()
        invariant i == 1 ==> Single(va, pa)
        invariant i == 2 ==> forall a: Address :: Walk(a) == Target(vas, pa, a)
      {
        var pmd, p := Dir(vas[i]), Tab(vas[i]);
        var j := i;
        if pgd[pmd] == 0 {
          pgd[pmd] := Entry(phys[j], KERNPG_TABLE);
        } else {
          j := 0;
        }
        pte[j, p] := Entry(pa, KERNPG_TABLE);
        if i == 1 {
          forall a: Address
            ensures Walk(a) == Target(vas, pa, a)
          {
            SamePage(a, va);
            SamePage(a, pa);
          }
        }
      }
    }
  }

  /** `co_arch_passage_page_pae_address_space_t`: a first level of which the processor uses four entries, and two more. */
  class PaeSpace {
    const main: array<int>
    const pgd: array2<int>
    const pte: array2<int>
    const pgdPhys: seq<PageAddress>
    const ptePhys: seq<PageAddress>

    ghost predicate Valid()
      reads this
    {
      && main.Length == 0x200 && pgd.Length0 == 2 && pgd.Length1 == 0x200 && pte.Length0 == 2 && pte.Length1 == 0x200
      && pgd != pte && |pgdPhys| == 2 && pgdPhys[0] != pgdPhys[1] && |ptePhys| == 2 && ptePhys[0] != ptePhys[1]
    }

    ghost predicate Zero()
      requires Valid()
      reads this, main, pgd, pte
    {
      && (forall i | 0 <= i < 0x200 :: main[i] == 0)
      && (forall j, i | 0 <= j < 2 && 0 <= i < 0x200 :: pgd[j, i] == 0)
      && (forall j, i | 0 <= j < 2 && 0 <= i < 0x200 :: pte[j, i] == 0)
    }

    constructor (pgdPhys: seq<PageAddress>, ptePhys: seq<PageAddress>)
      requires |pgdPhys| == 2 && pgdPhys[0] != pgdPhys[1] && |ptePhys| == 2 && ptePhys[0] != ptePhys[1]
      ensures Valid() && Zero() && this.pgdPhys == pgdPhys && this.ptePhys == ptePhys
    {
      this.pgdPhys, this.ptePhys := pgdPhys, ptePhys;
      main := new int[0x200](_ => 0);
      pgd := new int[2, 0x200]((_, _) => 0);
      pte := new int[2, 0x200]((_, _) => 0);
    }

    /** What the processor does with an address: levels of 4, 512 and 512 entries. */
    function Walk(a: Address): Option<int>
      requires Valid()
      reads this, main, pgd, pte
    {
      var e := main[Top(a)];
      if !Present(e) then None
      else if Frame(e) == pgdPhys[0] then Middle(0, a)
      else if Frame(e) == pgdPhys[1] then Middle(1, a)
      else None
    }

    function Middle(j: nat, a: Address): Option<int>
      requires Valid() && j < 2
      reads this, pgd, pte
    {
      var e := pgd[j, Mid(a)];
      if !Present(e) then None
      else if Frame(e) == ptePhys[0] then Leaf(0, a)
      else if Frame(e) == ptePhys[1] then Leaf(1, a)
      else None
    }

    function Leaf(k: nat, a: Address): Option<int>
      requires Valid() && k < 2
      reads this, pte
    {
      var p := pte[k, Low(a)];
      if Present(p) then Some(Frame(p) + a % PAGE) else None
    }

    /** One page is mapped, by the first tables. */
    ghost predicate Single(va: PageAddress, pa: PageAddress)
      requires Valid()
      reads this, main, pgd, pte
    {
      && (forall i | 0 <= i < 0x200 :: main[i] == if i == Top(va) then Entry(pgdPhys[0], 1) else 0)
      && (forall i | 0 <= i < 0x200 :: pgd[0, i] == if i == Mid(va) then Entry(ptePhys[0], KERNPG_TABLE) else 0)
      && (forall i | 0 <= i < 0x200 :: pgd[1, i] == 0)
      && (forall i | 0 <= i < 0x200 :: pte[0, i] == if i == Low(va) then Entry(pa, KERNPG_TABLE) else 0)
      && (forall i | 0 <= i < 0x200 :: pte[1, i] == 0)
    }

    /** `pae_temp_address_space_init` */
    method PaeInit(pa: PageAddress, va: PageAddress)
      requires Valid() && Zero()
      modifies main, pgd, pte
      ensures forall a: Address :: Walk(a) == Target([va, pa], pa, a)
    {
      hide Top;
      hide Mid;
      hide Low;
      hide PageOf;
      hide Present;
      hide Frame;
      Decoded(pgdPhys[0], 1);
      Decoded(pgdPhys[1], 1);
      Decoded(ptePhys[0], KERNPG_TABLE);
      Decoded(ptePhys[1], KERNPG_TABLE);
      Decoded(pa, KERNPG_TABLE);
      var vas := [va, pa];
      for i := 0 to 2
        invariant i == 0 ==> Zero()
        invariant i == 1 ==> Single(va, pa)
        invariant i == 2 ==> forall a: Address :: Walk(a) == Target(vas, pa, a)
      {
        var top, mid, low := Top(vas[i]), Mid(vas[i]), Low(vas[i]);
        var j, k := i, i;
        if main[top] == 0 {
          main[top] := Entry(pgdPhys[j], 1);
        } else {
          j := 0;
        }
        if pgd[j, mid] == 0 {
          pgd[j, mid] := Entry(ptePhys[k], KERNPG_TABLE);
        } else {
          k := 0;
        }
        pte[k, low] := Entry(pa, KERNPG_TABLE);
        if i == 1 {
          forall a: Address
            ensures Walk(a) == Target(vas, pa, a)
          {
            SamePage(a, va);
            SamePage(a, pa);
          }
        }
      }
    }
  }

  lemma Decoded(p: PageAddress, flags: int)
    requires 0 < flags < PAGE && flags % 2 == 1
    ensures Present(Entry(p, flags)) && Frame(Entry(p, flags)) == p && !Present(0)
  {
    EvenBase(p / PAGE, flags);
    assert p == PAGE * (p / PAGE);
  }

  lemma EvenBase(k: nat, flags: nat)
    ensures (4096 * k + flags) % 2 == flags % 2
  {
    assert 4096 * k + flags == 2 * (2048 * k) + flags;
  }

  /** Two addresses are in the same page when all their table indices are the same. */
  lemma SamePage(a: Address, v: PageAddress)
    ensures PageOf(a) == v <==> Dir(a) == Dir(v) && Tab(a) == Tab(v)
    ensures PageOf(a) == v <==> Top(a) == Top(v) && Mid(a) == Mid(v) && Low(a) == Low(v)
  {
    assert a / 0x40_0000 == a / PAGE / 0x400 && v / 0x40_0000 == v / PAGE / 0x400;
    assert a / 0x20_0000 == a / PAGE / 0x200 && v / 0x20_0000 == v / PAGE / 0x200;
    assert a / 0x4000_0000 == a / 0x20_0000 / 0x200 && v / 0x4000_0000 == v / 0x20_0000 / 0x200;
    assert v == v / PAGE * PAGE;
    assert PageOf(a) == a / PAGE * PAGE;
  }
}
