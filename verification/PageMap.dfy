/** The pseudo-physical map of `pages.c`, and guest bytes read through it. */
module PageMap {
  import opened Mbufs
  import opened Numbers

  /** PTRS_PER_PTE, the number of entries of a second-level table. */
  const GROUP: nat := 1024

  /** `pp_pfns`: a second-level table of page frame numbers for each group that has one; 0 is "no frame". */
  type Table = map<nat, seq<nat>>
  /** The host pages that have been handed out, by page frame number. */
  type Frames = map<nat, seq<Byte>>

  ghost predicate Shape(pp: Table) {
    forall g | g in pp :: |pp[g]| == GROUP
  }

  function Entry(pp: Table, page: nat): nat
    requires Shape(pp)
  {
    if page / GROUP in pp then pp[page / GROUP][page % GROUP] else 0
  }

  function SetEntry(pp: Table, page: nat, pfn: nat): (r: Table)
    requires Shape(pp) && page / GROUP in pp
  {
    var row: seq<nat> := pp[page / GROUP][page % GROUP := pfn];
    pp[page / GROUP := row]
  }

  lemma SetEntryGives(pp: Table, page: nat, pfn: nat)
    requires Shape(pp) && page / GROUP in pp
    ensures Shape(SetEntry(pp, page, pfn)) && SetEntry(pp, page, pfn).Keys == pp.Keys
    ensures forall q: nat :: Entry(SetEntry(pp, page, pfn), q) == if q == page then pfn else Entry(pp, q)
  {
    forall q: nat
      ensures Entry(SetEntry(pp, page, pfn), q) == if q == page then pfn else Entry(pp, q)
    {
      assert q == q / GROUP * GROUP + q % GROUP && page == page / GROUP * GROUP + page % GROUP;
    }
  }

  /** Entries name whole host pages, and no two name the same one. */
  ghost predicate Sound(pp: Table, frames: Frames) {
    && Shape(pp)
    && (forall p: nat | Entry(pp, p) != 0 :: Entry(pp, p) in frames && |frames[Entry(pp, p)]| == PAGE)
    && (forall p: nat, q: nat | Entry(pp, p) == Entry(pp, q) != 0 :: p == q)
  }

  ghost predicate Mapped(pp: Table, a: nat)
    requires Shape(pp)
  {
    Entry(pp, a / PAGE) != 0
  }

  /** The guest's byte at address `a`. */
  function ByteAt(pp: Table, frames: Frames, a: nat): Byte
    requires Sound(pp, frames) && Mapped(pp, a)
  {
    frames[Entry(pp, a / PAGE)][a % PAGE]
  }

  /** memcpy into a host page. */
  function Poke(frames: Frames, pfn: nat, off: nat, bytes: seq<Byte>): Frames
    requires pfn in frames && off + |bytes| <= |frames[pfn]|
  {
    frames[pfn := frames[pfn][..off] + bytes + frames[pfn][off + |bytes|..]]
  }

  /** Writing inside one page changes exactly the bytes written, for all who look through the map. */
  lemma PokeGives(pp: Table, frames: Frames, a: nat, bytes: seq<Byte>)
    requires Sound(pp, frames) && Mapped(pp, a) && a % PAGE + |bytes| <= PAGE
    ensures Sound(pp, Poke(frames, Entry(pp, a / PAGE), a % PAGE, bytes))
    ensures forall x: nat | Mapped(pp, x) ::
              ByteAt(pp, Poke(frames, Entry(pp, a / PAGE), a % PAGE, bytes), x)
              == if a <= x < a + |bytes| then bytes[x - a] else ByteAt(pp, frames, x)
  {
    var after := Poke(frames, Entry(pp, a / PAGE), a % PAGE, bytes);
    forall x: nat | Mapped(pp, x)
      ensures ByteAt(pp, after, x) == if a <= x < a + |bytes| then bytes[x - a] else ByteAt(pp, frames, x)
    {
      assert a == a / PAGE * PAGE + a % PAGE && x == x / PAGE * PAGE + x % PAGE;
    }
  }

  /** A page-table entry: a frame number shifted, with the present, rw, accessed and dirty bits; 0 maps nothing. */
  function Pte(pfn: nat): nat {
    if pfn == 0 then 0 else pfn * PAGE + 0x63
  }

  function PteFrame(pte: nat): nat {
    pte / PAGE
  }

  lemma PteDecodes(pfn: nat)
    ensures PteFrame(Pte(pfn)) == pfn && (Pte(pfn) % 2 == 1 <==> pfn != 0)
    ensures pfn < 0x10_0000 ==> Pte(pfn) < 0x1_0000_0000
  {
  }

  /** An entry for the processor: present, writable, not for user mode, with this frame. */
  predicate OpensTo(pte: nat, pfn: nat) {
    pte % 2 == 1 && pte / 2 % 2 == 1 && pte / 4 % 2 == 0 && pte / 4096 == pfn
  }

  lemma PteOpens(pfn: nat)
    requires pfn != 0
    ensures OpensTo(Pte(pfn), pfn)
  {
    var e := Pte(pfn);
    assert e == 4096 * pfn + 99;
    hide Pte;
    Parts(e, 2048 * pfn + 49, 2, 1);
    Parts(e, 1024 * pfn + 24, 4, 3);
    Parts(e, pfn, 4096, 99);
    Parts(2048 * pfn + 49, 1024 * pfn + 24, 2, 1);
    Parts(1024 * pfn + 24, 512 * pfn + 12, 2, 0);
  }

  lemma Parts(e: nat, q: nat, k: nat, r: nat)
    requires k == 2 || k == 4 || k == 4096
    requires e == q * k + r && r < k
    ensures e / k == q && e % k == r
  {
  }

  /** A 32-bit word in guest byte order. */
  function WordBytes(w: nat): (b: seq<Byte>)
    requires w < 0x1_0000_0000
    ensures |b| == 4
  {
    [w % 0x100, w / 0x100 % 0x100, w / 0x1_0000 % 0x100, w / 0x100_0000]
  }

  function WordAt(pp: Table, frames: Frames, a: nat): nat
    requires Sound(pp, frames) && Mapped(pp, a) && a % 4 == 0
  {
    AlignedWord(a);
    ByteAt(pp, frames, a) + 0x100 * ByteAt(pp, frames, a + 1)
    + 0x1_0000 * ByteAt(pp, frames, a + 2) + 0x100_0000 * ByteAt(pp, frames, a + 3)
  }

  lemma AlignedWord(a: nat)
    requires a % 4 == 0
    ensures (a + 1) / PAGE == a / PAGE && (a + 2) / PAGE == a / PAGE && (a + 3) / PAGE == a / PAGE
    ensures a % PAGE + 4 <= PAGE
  {
  }

  /** A word written is the word read, and words apart from it stay. */
  lemma PokeWord(pp: Table, frames: Frames, a: nat, w: nat)
    requires Sound(pp, frames) && Mapped(pp, a) && a % 4 == 0 && w < 0x1_0000_0000 && a % PAGE + 4 <= PAGE
    ensures Sound(pp, Poke(frames, Entry(pp, a / PAGE), a % PAGE, WordBytes(w)))
    ensures forall b: nat | b % 4 == 0 && Mapped(pp, b) ::
              WordAt(pp, Poke(frames, Entry(pp, a / PAGE), a % PAGE, WordBytes(w)), b)
              == if b == a then w else WordAt(pp, frames, b)
  {
    PokeGives(pp, frames, a, WordBytes(w));
    WordParts(w);
    var after := Poke(frames, Entry(pp, a / PAGE), a % PAGE, WordBytes(w));
    hide Poke;
    hide WordBytes;
    hide Sound;
    hide ByteAt;
    forall b: nat | b % 4 == 0 && Mapped(pp, b)
      ensures WordAt(pp, after, b) == if b == a then w else WordAt(pp, frames, b)
    {
      AlignedWord(b);
    }
  }

  lemma WordParts(w: nat)
    requires w < 0x1_0000_0000
    ensures var b := WordBytes(w);
      b[0] + (0x100 * b[1] as int) + (0x1_0000 * b[2] as int) + (0x100_0000 * b[3] as int) == w
  {
    var x, y, z := w / 0x100, w / 0x1_0000, w / 0x100_0000;
    assert w == 0x100 * x + w % 0x100;
    Halves(w, 0x100);
    Halves(w, 0x1_0000);
    assert x == 0x100 * y + x % 0x100;
    assert y == 0x100 * z + y % 0x100;
  }

  lemma Halves(w: nat, k: nat)
    requires k == 0x100 || k == 0x1_0000
    ensures w / k / 0x100 == w / (0x100 * k)
  {
  }
}
