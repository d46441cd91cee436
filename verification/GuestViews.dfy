/** How the guest's view of its memory changes: what is kept, what is copied, and what goes astray. */
module GuestViews {
  import opened Mbufs
  import opened Numbers
  import opened PageMap

  /** CO_VPTR_PSEUDO_RAM_PAGE_TABLES, where the PTEs of guest RAM lie. */
  const PAGE_TABLES: nat := 0xFEB0_0000

  function PteAddress(v: nat): nat {
    PAGE_TABLES + 4 * v
  }

  /** An address outside the page-table entries of the pages [v, v + n). */
  ghost predicate Elsewhere(a: nat, v: nat, n: nat) {
    a < PteAddress(v) || PteAddress(v + n) <= a
  }

  /** What is mapped before and after holds the same byte, except in the page-table entries of the pages [v, v + n). */
  ghost predicate Kept(pp: Table, frames: Frames, pp': Table, frames': Frames, v: nat, n: nat)
    requires Sound(pp, frames) && Sound(pp', frames')
  {
    forall a: nat | Mapped(pp, a) && Mapped(pp', a) && Elsewhere(a, v, n) :: ByteAt(pp', frames', a) == ByteAt(pp, frames, a)
  }

  lemma KeptSelf(pp: Table, frames: Frames, v: nat, n: nat)
    requires Sound(pp, frames)
    ensures Kept(pp, frames, pp, frames, v, n)
  {
  }

  lemma KeptOn(pp: Table, frames: Frames, pp1: Table, frames1: Frames, pp2: Table, frames2: Frames, u: nat, m: nat, v: nat, n: nat)
    requires Sound(pp, frames) && Sound(pp1, frames1) && Sound(pp2, frames2)
    requires Kept(pp, frames, pp1, frames1, v, n) && Kept(pp1, frames1, pp2, frames2, u, m) && v <= u && u + m <= v + n
    requires forall p: nat | Entry(pp, p) != 0 && Entry(pp2, p) != 0 :: Entry(pp1, p) != 0
    ensures Kept(pp, frames, pp2, frames2, v, n)
  {
    hide ByteAt;
    forall a: nat | Mapped(pp, a) && Mapped(pp2, a) && Elsewhere(a, v, n)
      ensures ByteAt(pp2, frames2, a) == ByteAt(pp, frames, a)
    {
      assert Mapped(pp1, a) && Elsewhere(a, u, m);
    }
  }

  /** The pages that `n` bytes at `at` lie in. */
  predicate Touched(page: nat, at: nat, n: nat) {
    n > 0 && at / PAGE <= page <= (at + n - 1) / PAGE
  }

  /** `data` has come to `at`, on pages that are new where there were none; below the page tables all else is as before. */
  ghost predicate Copied(pp: Table, frames: Frames, pp': Table, frames': Frames, at: nat, data: seq<Byte>)
    requires Sound(pp, frames) && Sound(pp', frames')
  {
    && (forall p: nat | !Touched(p, at, |data|) || Entry(pp, p) != 0 :: Entry(pp', p) == Entry(pp, p))
    && (forall x: nat | at <= x < at + |data| :: Mapped(pp', x) && ByteAt(pp', frames', x) == data[x - at])
    && (forall x: nat | x < PAGE_TABLES && Mapped(pp, x) && !(at <= x < at + |data|) ::
          Mapped(pp', x) && ByteAt(pp', frames', x) == ByteAt(pp, frames, x))
  }

  lemma CopiedNothing(pp: Table, frames: Frames, at: nat)
    requires Sound(pp, frames)
    ensures Copied(pp, frames, pp, frames, at, [])
  {
  }

  lemma CopiedOn(pp: Table, frames: Frames, pp1: Table, frames1: Frames, pp2: Table, frames2: Frames, at: nat, a: seq<Byte>, b: seq<Byte>)
    requires Sound(pp, frames) && Sound(pp1, frames1) && Sound(pp2, frames2)
    requires Copied(pp, frames, pp1, frames1, at, a) && Copied(pp1, frames1, pp2, frames2, at + |a|, b)
    requires at + |a| <= PAGE_TABLES
    ensures Copied(pp, frames, pp2, frames2, at, a + b)
  {
    hide ByteAt;
    hide Sound;
    TouchedOn(at, |a|, |b|);
  }

  /** The pages that a copy has to do with are mapped afterwards, and no others are new. */
  lemma CopiedMaps(pp: Table, frames: Frames, pp': Table, frames': Frames, at: nat, data: seq<Byte>)
    requires Sound(pp, frames) && Sound(pp', frames') && Copied(pp, frames, pp', frames', at, data)
    ensures forall p: nat :: Entry(pp', p) != 0 <==> Entry(pp, p) != 0 || Touched(p, at, |data|)
  {
    assert Shape(pp) && Shape(pp');
    hide Sound;
    hide Shape;
    hide ByteAt;
    forall p: nat | Touched(p, at, |data|)
      ensures Entry(pp', p) != 0
    {
      var y := if p == at / PAGE then at else if p == (at + |data| - 1) / PAGE then at + |data| - 1 else p * PAGE;
      assert y / PAGE == p && at <= y < at + |data|;
      assert Mapped(pp', y);
    }
  }

  lemma TouchedOn(at: nat, m: nat, n: nat)
    ensures forall p: nat | Touched(p, at, m) || Touched(p, at + m, n) :: Touched(p, at, m + n)
  {
  }

  /** `data` has been written to `at`, as far as there are pages. */
  ghost predicate Stored(pp: Table, frames: Frames, frames': Frames, at: nat, data: seq<Byte>)
    requires Sound(pp, frames) && Sound(pp, frames')
  {
    forall x: nat | Mapped(pp, x) ::
      ByteAt(pp, frames', x) == if at <= x < at + |data| then data[x - at] else ByteAt(pp, frames, x)
  }

  lemma StoredNothing(pp: Table, frames: Frames, at: nat)
    requires Sound(pp, frames)
    ensures Stored(pp, frames, frames, at, [])
  {
  }

  lemma StoredOn(pp: Table, frames: Frames, frames1: Frames, frames2: Frames, at: nat, a: seq<Byte>, b: seq<Byte>)
    requires Sound(pp, frames) && Sound(pp, frames1) && Sound(pp, frames2)
    requires Stored(pp, frames, frames1, at, a) && Stored(pp, frames1, frames2, at + |a|, b)
    ensures Stored(pp, frames, frames2, at, a + b)
  {
    hide ByteAt;
    hide Sound;
  }

  // ---- what goes to host page 0

  /**
   * Host page 0 after `data` has been copied to `at`: it takes the bytes of pages that are not mapped, because an empty
   * entry is a frame number like any other to `co_monitor_get_pfn`.
   */
  ghost function Stray(pp: Table, zero: seq<Byte>, data: seq<Byte>, at: nat): (r: seq<Byte>)
    requires Shape(pp) && |zero| == PAGE
    ensures |r| == PAGE
  {
    if data == [] then zero
    else
      var n := |data| - 1;
      var before := Stray(pp, zero, data[..n], at);
      if Mapped(pp, at + n) then before else before[(at + n) % PAGE := data[n]]
  }

  lemma {:induction false} StrayNone(pp: Table, zero: seq<Byte>, data: seq<Byte>, at: nat)
    requires Shape(pp) && |zero| == PAGE && forall x: nat | at <= x < at + |data| :: Mapped(pp, x)
    ensures Stray(pp, zero, data, at) == zero
  {
    if data != [] {
      StrayNone(pp, zero, data[..|data| - 1], at);
    }
  }

  lemma {:induction false} StrayAll(pp: Table, zero: seq<Byte>, data: seq<Byte>, at: nat)
    requires Shape(pp) && |zero| == PAGE && at % PAGE + |data| <= PAGE && !Mapped(pp, at)
    ensures Stray(pp, zero, data, at) == zero[..at % PAGE] + data + zero[at % PAGE + |data|..]
  {
    if data != [] {
      var n := |data| - 1;
      StrayAll(pp, zero, data[..n], at);
      assert (at + n) / PAGE == at / PAGE && (at + n) % PAGE == at % PAGE + n;
    }
  }

  lemma {:induction false} StrayOn(pp: Table, zero: seq<Byte>, a: seq<Byte>, b: seq<Byte>, at: nat)
    requires Shape(pp) && |zero| == PAGE
    ensures Stray(pp, zero, a + b, at) == Stray(pp, Stray(pp, zero, a, at), b, at + |a|)
  {
    if b == [] {
      assert a + b == a;
    } else {
      var n := |b| - 1;
      StrayOn(pp, zero, a, b[..n], at);
      assert (a + b)[..|a| + n] == a + b[..n];
    }
  }

  lemma {:induction false} StrayHits(pp: Table, zero: seq<Byte>, data: seq<Byte>, at: nat, x: nat, c: Byte)
    requires Shape(pp) && |zero| == PAGE && at <= x < at + |data| && !Mapped(pp, x)
    requires forall i | 0 <= i < |data| :: data[i] == c
    ensures Stray(pp, zero, data, at)[x % PAGE] == c
  {
    if x < at + |data| - 1 {
      StrayHits(pp, zero, data[..|data| - 1], at, x, c);
    }
  }

  /** A transfer leaves host page 0 alone, whatever it copies, exactly when every byte of its range is mapped. */
  lemma StaysInside(pp: Table, zero: seq<Byte>, at: nat, n: nat)
    requires Shape(pp) && |zero| == PAGE
    ensures (forall data: seq<Byte> | |data| == n :: Stray(pp, zero, data, at) == zero)
            <==> forall x: nat | at <= x < at + n :: Mapped(pp, x)
  {
    if x: nat :| at <= x < at + n && !Mapped(pp, x) {
      var c: Byte := if zero[x % PAGE] == 0 then 1 else 0;
      var data := seq(n, _ => c);
      StrayHits(pp, zero, data, at, x, c);
      assert Stray(pp, zero, data, at) != zero;
    } else {
      forall data: seq<Byte> | |data| == n
        ensures Stray(pp, zero, data, at) == zero
      {
        StrayNone(pp, zero, data, at);
      }
    }
  }
}
