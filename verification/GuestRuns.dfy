/** Guest RAM as a flat array of bytes, over whole runs of allocations, frees, region copies and transfers. */
module GuestRuns {
  import opened Mbufs
  import opened Numbers
  import opened Options
  import opened PageMap
  import opened GuestViews
  import opened GuestMemory

  datatype Op =
    | Alloc(address: nat, count: nat)
    | Free(address: nat, count: nat)
    | Region(address: nat, size: nat, data: seq<Byte>, isNull: bool)
    | ToGuest(data: seq<Byte>, to: nat)
    | ToHost(from: nat, size: nat)

  /** A call that has been made: whether it succeeded, how many pages or bytes it got to, and what it read. */
  datatype Call = Call(op: Op, ok: bool, done: nat, got: seq<Byte>)

  /** The byte at each address that is mapped; none where the page is new and its contents are up to the host. */
  type Flat = map<nat, Option<Byte>>

  predicate In(x: nat, lo: nat, hi: nat) {
    lo <= x < hi
  }

  function Range(lo: nat, hi: nat): set<nat> {
    set x: nat | x < hi && In(x, lo, hi)
  }

  function Grown(f: Flat, lo: nat, hi: nat): Flat {
    f + map x | x in Range(lo, hi) - f.Keys :: None
  }

  function Without(f: Flat, lo: nat, hi: nat): Flat {
    map x | x in f && !(lo <= x < hi) :: f[x]
  }

  function Written(f: Flat, at: nat, data: seq<Byte>): Flat {
    map x | x in f :: if at <= x < at + |data| then Some(data[x - at]) else f[x]
  }

  /** Where the pages begin and end that `n` bytes at `at` lie in. */
  function Floor(at: nat): nat {
    at / PAGE * PAGE
  }

  function Ceiling(at: nat, n: nat): nat {
    if n == 0 then Floor(at) else (at + n - 1) / PAGE * PAGE + PAGE
  }

  predicate WellFormed(c: Call) {
    match c.op
    case Alloc(_, count) => c.done <= count && (c.ok <==> c.done == count)
    case Free(_, count) => c.ok
    case Region(_, size, data, isNull) => (isNull || |data| == size) && c.done <= size && (c.ok <==> c.done == size)
    case ToGuest(data, _) => c.done <= |data| && (c.ok ==> c.done == |data|)
    case ToHost(_, size) => c.done == |c.got| <= size && (c.ok ==> c.done == size)
  }

  /** What a call does to a flat array of bytes. */
  function Update(f: Flat, c: Call): Flat
    requires WellFormed(c)
  {
    match c.op
    case Alloc(address, count) =>
      if c.ok then Grown(f, address, address + count * PAGE) else Without(f, address, address + c.done * PAGE)
    case Free(address, count) => Without(f, address, address + count * PAGE)
    case Region(address, size, data, isNull) =>
      Written(Grown(f, Floor(address), Ceiling(address, c.done)), address, Source(data, isNull, size)[..c.done])
    case ToGuest(data, to) => Written(f, to, data[..c.done])
    case ToHost(_, _) => f
  }

  /** What a flat array of bytes answers: reads give what is there, and copies within what is mapped succeed. */
  ghost predicate Answers(f: Flat, c: Call, end: nat)
    requires WellFormed(c)
  {
    match c.op
    case Alloc(address, count) => !c.ok ==> address + c.done * PAGE !in f
    case Free(_, _) => true
    case Region(address, size, _, _) => !c.ok ==> address + c.done !in f
    case ToGuest(data, to) => (KERNEL_OFFSET <= to < end && to + |data| <= end && Range(to, to + |data|) <= f.Keys) ==> c.ok
    case ToHost(from, size) =>
      && ((KERNEL_OFFSET <= from < end && from + size <= end && Range(from, from + size) <= f.Keys) ==> c.ok)
      && (forall x: nat | from <= x < from + c.done && x in f && f[x] != None :: f[x] == Some(c.got[x - from]))
  }

  /** The flat array has the addresses of RAM that are mapped, and the bytes that are known are those of the guest. */
  ghost predicate Shows(pp: Table, frames: Frames, end: nat, f: Flat)
    requires Sound(pp, frames)
  {
    && (forall x: nat :: x in f <==> KERNEL_OFFSET <= x < end && Mapped(pp, x))
    && (forall x: nat | x in f && f[x] != None :: f[x] == Some(ByteAt(pp, frames, x)))
  }

  lemma ShowsGrown(pp: Table, frames: Frames, pp': Table, frames': Frames, end: nat, f: Flat, v: nat, n: nat, first: nat, count: nat)
    requires Sound(pp, frames) && Sound(pp', frames') && Shows(pp, frames, end, f) && end <= PAGE_TABLES
    requires Kept(pp, frames, pp', frames', v, n)
    requires KERNEL_OFFSET <= first * PAGE && (first + count) * PAGE <= end
    requires forall p: nat ::
      if first <= p < first + count && Entry(pp, p) == 0 then Entry(pp', p) != 0 else Entry(pp', p) == Entry(pp, p)
    ensures Shows(pp', frames', end, Grown(f, first * PAGE, (first + count) * PAGE))
  {
    hide ByteAt;
    var g := Grown(f, first * PAGE, (first + count) * PAGE);
    forall x: nat
      ensures x in g <==> KERNEL_OFFSET <= x < end && Mapped(pp', x)
    {
      assert first <= x / PAGE < first + count <==> first * PAGE <= x < (first + count) * PAGE;
    }
  }

  lemma ShowsWithout(pp: Table, frames: Frames, pp': Table, frames': Frames, end: nat, f: Flat, v: nat, n: nat, first: nat, count: nat)
    requires Sound(pp, frames) && Sound(pp', frames') && Shows(pp, frames, end, f) && end <= PAGE_TABLES
    requires Kept(pp, frames, pp', frames', v, n)
    requires forall p: nat :: Entry(pp', p) == AfterFree(pp, first, count, p)
    ensures Shows(pp', frames', end, Without(f, first * PAGE, (first + count) * PAGE))
  {
    hide ByteAt;
    var g := Without(f, first * PAGE, (first + count) * PAGE);
    forall x: nat
      ensures x in g <==> KERNEL_OFFSET <= x < end && Mapped(pp', x)
    {
      assert first <= x / PAGE < first + count <==> first * PAGE <= x < (first + count) * PAGE;
    }
  }

  lemma ShowsWritten(pp: Table, frames: Frames, frames': Frames, end: nat, f: Flat, at: nat, data: seq<Byte>)
    requires Sound(pp, frames) && Sound(pp, frames') && Shows(pp, frames, end, f) && Stored(pp, frames, frames', at, data)
    ensures Shows(pp, frames', end, Written(f, at, data))
  {
    hide ByteAt;
  }

  lemma CopiedThere(pp: Table, frames: Frames, pp': Table, frames': Frames, end: nat, f: Flat, at: nat, data: seq<Byte>)
    requires Sound(pp, frames) && Sound(pp', frames') && Shows(pp, frames, end, f) && end % PAGE == 0
    requires KERNEL_OFFSET <= at && at + |data| <= end && Copied(pp, frames, pp', frames', at, data)
    ensures forall x: nat :: x in Grown(f, Floor(at), Ceiling(at, |data|)) <==> KERNEL_OFFSET <= x < end && Mapped(pp', x)
  {
    CopiedMaps(pp, frames, pp', frames', at, data);
    assert Shape(pp) && Shape(pp');
    var lo, hi := Floor(at), Ceiling(at, |data|);
    hide Copied;
    hide ByteAt;
    hide Touched;
    hide Floor;
    hide Ceiling;
    hide Sound;
    hide Shape;
    forall x: nat
      ensures x in Grown(f, lo, hi) <==> KERNEL_OFFSET <= x < end && Mapped(pp', x)
    {
      InTouched(x, at, |data|, end);
      assert x in Grown(f, lo, hi) <==> x in f || In(x, lo, hi);
    }
  }

  lemma ShowsCopied(pp: Table, frames: Frames, pp': Table, frames': Frames, end: nat, f: Flat, at: nat, data: seq<Byte>)
    requires Sound(pp, frames) && Sound(pp', frames') && Shows(pp, frames, end, f) && end <= PAGE_TABLES && end % PAGE == 0
    requires KERNEL_OFFSET <= at && at + |data| <= end && Copied(pp, frames, pp', frames', at, data)
    ensures Shows(pp', frames', end, Written(Grown(f, Floor(at), Ceiling(at, |data|)), at, data))
  {
    CopiedThere(pp, frames, pp', frames', end, f, at, data);
    CopiedBytes(pp, frames, pp', frames', end, f, Grown(f, Floor(at), Ceiling(at, |data|)), at, data);
  }

  lemma CopiedBytes(pp: Table, frames: Frames, pp': Table, frames': Frames, end: nat, f: Flat, g: Flat, at: nat, data: seq<Byte>)
    requires Sound(pp, frames) && Sound(pp', frames') && Shows(pp, frames, end, f) && end <= PAGE_TABLES
    requires Copied(pp, frames, pp', frames', at, data)
    requires forall x: nat :: x in g <==> KERNEL_OFFSET <= x < end && Mapped(pp', x)
    requires forall x | x in g && g[x] != None :: x in f && g[x] == f[x]
    ensures Shows(pp', frames', end, Written(g, at, data))
  {
    hide ByteAt;
    hide Touched;
    hide Copied;
    hide Written;
    var w := Written(g, at, data);
    WrittenIs(g, at, data);
    forall x | x in w && w[x] != None
      ensures w[x] == Some(ByteAt(pp', frames', x))
    {
      CopiedByte(pp, frames, pp', frames', end, f, at, data, x);
    }
  }

  lemma WrittenIs(g: Flat, at: nat, data: seq<Byte>)
    ensures var w := Written(g, at, data); w.Keys == g.Keys
    ensures forall x | x in g :: Written(g, at, data)[x] == if at <= x < at + |data| then Some(data[x - at]) else g[x]
  {
  }

  lemma CopiedByte(pp: Table, frames: Frames, pp': Table, frames': Frames, end: nat, f: Flat, at: nat, data: seq<Byte>, x: nat)
    requires Sound(pp, frames) && Sound(pp', frames') && Shows(pp, frames, end, f) && x < end <= PAGE_TABLES
    requires Copied(pp, frames, pp', frames', at, data) && Mapped(pp', x)
    ensures at <= x < at + |data| ==> ByteAt(pp', frames', x) == data[x - at]
    ensures !(at <= x < at + |data|) && x in f && f[x] != None ==> f[x] == Some(ByteAt(pp', frames', x))
  {
    hide Sound;
    hide Touched;
    hide ByteAt;
  }

  lemma InTouched(x: nat, at: nat, n: nat, end: nat)
    requires KERNEL_OFFSET <= at && at + n <= end && end % PAGE == 0
    ensures Floor(at) <= x < Ceiling(at, n) <==> Touched(x / PAGE, at, n)
    ensures Floor(at) <= x < Ceiling(at, n) ==> KERNEL_OFFSET <= x < end
  {
  }

  lemma {:induction false} NotThere(pp: Table, frames: Frames, end: nat, f: Flat, x: nat)
    requires Sound(pp, frames) && Shows(pp, frames, end, f) && !Mapped(pp, x)
    ensures x !in f
  {
  }

  lemma ReadKnown(m: Monitor, end: nat, f: Flat, from: nat, got: seq<Byte>)
    requires Sound(m.pp, m.frames) && |m.pageZero| == PAGE && Shows(m.pp, m.frames, end, f)
    requires forall x: nat | from <= x < from + |got| :: got[x - from] == m.Seen(x)
    ensures forall x: nat | from <= x < from + |got| && x in f && f[x] != None :: f[x] == Some(got[x - from])
  {
    forall x: nat | from <= x < from + |got| && x in f && f[x] != None
      ensures f[x] == Some(got[x - from])
    {
      assert got[x - from] == m.Seen(x) && Mapped(m.pp, x);
    }
  }

  lemma AllThere(pp: Table, frames: Frames, end: nat, f: Flat, at: nat, n: nat)
    requires Sound(pp, frames) && Shows(pp, frames, end, f) && Range(at, at + n) <= f.Keys
    ensures forall x: nat | at <= x < at + n :: x / PAGE / GROUP in pp
  {
    forall x: nat | at <= x < at + n
      ensures x / PAGE / GROUP in pp
    {
      assert x in Range(at, at + n);
    }
  }

  /** What a call asks of its caller. */
  predicate Callable(op: Op, ramPages: nat) {
    match op
    case Alloc(address, count) => InPages(address, count, ramPages)
    case Free(address, count) => InPages(address, count, ramPages)
    case Region(address, size, data, isNull) =>
      KERNEL_OFFSET <= address && address + size <= KERNEL_OFFSET + ramPages * PAGE && (isNull || |data| == size)
    case ToGuest(data, to) => to < 0x1_0000_0000 && |data| < 0x1_0000_0000
    case ToHost(from, size) => from < 0x1_0000_0000 && size < 0x1_0000_0000
  }

  predicate InPages(address: nat, count: nat, ramPages: nat) {
    KERNEL_OFFSET <= address && address % PAGE == 0 && address + count * PAGE <= KERNEL_OFFSET + ramPages * PAGE
  }

  method DoAlloc(m: Monitor, address: nat, count: nat, ghost f: Flat) returns (c: Call)
    requires m.Valid() && InPages(address, count, m.ramPages) && Shows(m.pp, m.frames, m.End(), f)
    modifies m
    ensures m.Valid() && Follows(m, f, Alloc(address, count), c)
  {
    hide Shows;
    hide Kept;
    hide Grown;
    hide Without;
    hide AfterFree;
    ghost var pp, frames, end := m.pp, m.frames, m.End();
    ghost var v, first := (address - KERNEL_OFFSET) / PAGE, address / PAGE;
    var ok, at := m.AllocPages(address, count);
    c := Call(Alloc(address, count), ok, at, []);
    if ok {
      ShowsGrown(pp, frames, m.pp, m.frames, end, f, v, count, first, count);
    } else {
      NotThere(pp, frames, end, f, address + at * PAGE);
      ShowsWithout(pp, frames, m.pp, m.frames, end, f, v, count, first, at);
    }
  }

  method DoFree(m: Monitor, address: nat, count: nat, ghost f: Flat) returns (c: Call)
    requires m.Valid() && InPages(address, count, m.ramPages) && Shows(m.pp, m.frames, m.End(), f)
    modifies m
    ensures m.Valid() && Follows(m, f, Free(address, count), c)
  {
    hide Shows;
    hide Kept;
    hide Without;
    hide AfterFree;
    ghost var pp, frames := m.pp, m.frames;
    m.FreePages(address, count);
    c := Call(Free(address, count), true, count, []);
    ShowsWithout(pp, frames, m.pp, m.frames, m.End(), f, (address - KERNEL_OFFSET) / PAGE, count, address / PAGE, count);
  }

  method DoRegion(m: Monitor, address: nat, size: nat, data: seq<Byte>, isNull: bool, ghost f: Flat) returns (c: Call)
    requires m.Valid() && Callable(Region(address, size, data, isNull), m.ramPages) && Shows(m.pp, m.frames, m.End(), f)
    modifies m
    ensures m.Valid() && Follows(m, f, Region(address, size, data, isNull), c)
  {
    hide Shows;
    hide Copied;
    hide Grown;
    hide Written;
    hide Source;
    ghost var pp, frames := m.pp, m.frames;
    var ok, done := m.CopyRegion(address, size, data, isNull);
    c := Call(Region(address, size, data, isNull), ok, done, []);
    ShowsCopied(pp, frames, m.pp, m.frames, m.End(), f, address, Source(data, isNull, size)[..done]);
    if !ok {
      CopiedMaps(pp, frames, m.pp, m.frames, address, Source(data, isNull, size)[..done]);
      NotThere(pp, frames, m.End(), f, address + done);
    }
  }

  method DoToGuest(m: Monitor, data: seq<Byte>, to: nat, ghost f: Flat) returns (c: Call)
    requires m.Valid() && Callable(ToGuest(data, to), m.ramPages) && Shows(m.pp, m.frames, m.End(), f)
    modifies m
    ensures m.Valid() && Follows(m, f, ToGuest(data, to), c)
  {
    hide Shows;
    hide Stored;
    hide Written;
    hide Stray;
    if Range(to, to + |data|) <= f.Keys {
      AllThere(m.pp, m.frames, m.End(), f, to, |data|);
    }
    hide Range;
    ghost var frames := m.frames;
    var ok, done := m.HostToGuest(data, to);
    c := Call(ToGuest(data, to), ok, done, []);
    ShowsWritten(m.pp, frames, m.frames, m.End(), f, to, data[..done]);
  }

  method DoToHost(m: Monitor, from: nat, size: nat, ghost f: Flat) returns (c: Call)
    requires m.Valid() && Callable(ToHost(from, size), m.ramPages) && Shows(m.pp, m.frames, m.End(), f)
    modifies m
    ensures m.Valid() && Follows(m, f, ToHost(from, size), c)
  {
    hide Shows;
    if Range(from, from + size) <= f.Keys {
      AllThere(m.pp, m.frames, m.End(), f, from, size);
    }
    hide Range;
    var ok, got := m.GuestToHost(from, size);
    c := Call(ToHost(from, size), ok, |got|, got);
    ReadKnown(m, m.End(), f, from, got);
  }

  /** `c` is a call of `op`, and guest memory has answered it, and has changed, as the flat array does. */
  ghost predicate Follows(m: Monitor, f: Flat, op: Op, c: Call)
    requires m.Valid()
    reads m
  {
    c.op == op && WellFormed(c) && Answers(f, c, m.End()) && Shows(m.pp, m.frames, m.End(), Update(f, c))
  }

  method Execute(m: Monitor, op: Op, ghost f: Flat) returns (c: Call)
    requires m.Valid() && Callable(op, m.ramPages) && Shows(m.pp, m.frames, m.End(), f)
    modifies m
    ensures m.Valid() && Follows(m, f, op, c)
  {
    hide Shows;
    hide Follows;
    match op
    case Alloc(address, count) => c := DoAlloc(m, address, count, f);
    case Free(address, count) => c := DoFree(m, address, count, f);
    case Region(address, size, data, isNull) => c := DoRegion(m, address, size, data, isNull, f);
    case ToGuest(data, to) => c := DoToGuest(m, data, to, f);
    case ToHost(from, size) => c := DoToHost(m, from, size, f);
  }

  // ---- runs

  /** The calls are those of `ops`, and each has been answered as by the flat array that the ones before it leave. */
  ghost predicate Log(f: Flat, ops: seq<Op>, calls: seq<Call>, end: nat) {
    && |calls| == |ops|
    && (forall i | 0 <= i < |calls| :: calls[i].op == ops[i] && WellFormed(calls[i]))
    && (forall i | 0 <= i < |calls| :: Answers(After(f, calls[..i]), calls[i], end))
  }

  ghost function After(f: Flat, calls: seq<Call>): Flat
    requires forall i | 0 <= i < |calls| :: WellFormed(calls[i])
  {
    if calls == [] then f else Update(After(f, calls[..|calls| - 1]), calls[|calls| - 1])
  }

  /** All that is mapped in RAM, with its contents. */
  ghost function Whole(pp: Table, frames: Frames, end: nat): Flat
    requires Sound(pp, frames)
  {
    map x: nat | x < end && KERNEL_OFFSET <= x && Mapped(pp, x) :: Some(ByteAt(pp, frames, x))
  }

  /** Any run of calls is a run of the flat array that guest RAM was at the start. */
  method Run(m: Monitor, ops: seq<Op>) returns (calls: seq<Call>)
    requires m.Valid() && forall i | 0 <= i < |ops| :: Callable(ops[i], m.ramPages)
    modifies m
    ensures m.Valid() && Log(old(Whole(m.pp, m.frames, m.End())), ops, calls, m.End())
    ensures Shows(m.pp, m.frames, m.End(), After(old(Whole(m.pp, m.frames, m.End())), calls))
  {
    ghost var f := Whole(m.pp, m.frames, m.End());
    assert Shows(m.pp, m.frames, m.End(), f);
    hide Shows;
    hide Answers;
    hide Update;
    hide WellFormed;
    hide Log;
    LogNothing(f, m.End());
    calls := [];
    for i := 0 to |ops|
      invariant m.Valid() && Log(f, ops[..i], calls, m.End()) && Shows(m.pp, m.frames, m.End(), After(f, calls))
    {
      var c := Execute(m, ops[i], After(f, calls));
      LogMore(f, ops[..i], calls, m.End(), c);
      assert ops[..i + 1] == ops[..i] + [ops[i]];
      calls := calls + [c];
    }
    assert ops[..|ops|] == ops;
  }

  lemma LogNothing(f: Flat, end: nat)
    ensures Log(f, [], [], end)
  {
  }

  lemma LogMore(f: Flat, ops: seq<Op>, calls: seq<Call>, end: nat, c: Call)
    requires Log(f, ops, calls, end) && WellFormed(c) && Answers(After(f, calls), c, end)
    ensures Log(f, ops + [c.op], calls + [c], end)
    ensures After(f, calls + [c]) == Update(After(f, calls), c)
  {
    assert (calls + [c])[..|calls|] == calls;
    forall i | 0 <= i <= |calls|
      ensures Answers(After(f, (calls + [c])[..i]), (calls + [c])[i], end)
    {
      if i < |calls| {
        assert (calls + [c])[..i] == calls[..i];
      }
    }
  }

  /** The call has written to `x`, if there is a page. */
  predicate Writes(c: Call, x: nat)
    requires WellFormed(c)
  {
    match c.op
    case Region(address, _, _, _) => address <= x < address + c.done
    case ToGuest(_, to) => to <= x < to + c.done
    case _ => false
  }

  function Wrote(c: Call, x: nat): Byte
    requires WellFormed(c) && Writes(c, x)
  {
    match c.op
    case Region(address, size, data, isNull) => if isNull then 0 else data[x - address]
    case ToGuest(data, to) => data[x - to]
  }

  /** The call has freed the page of `x`. */
  predicate Drops(c: Call, x: nat)
    requires WellFormed(c)
  {
    match c.op
    case Alloc(address, _) => !c.ok && address <= x < address + c.done * PAGE
    case Free(address, count) => address <= x < address + count * PAGE
    case _ => false
  }

  /** None of the calls from `lo` up to `hi` writes to `x` or frees its page. */
  ghost predicate Untouched(calls: seq<Call>, lo: nat, hi: nat, x: nat) {
    forall j | lo <= j < hi && j < |calls| :: WellFormed(calls[j]) ==> !Writes(calls[j], x) && !Drops(calls[j], x)
  }

  lemma UpdateKeeps(f: Flat, c: Call, x: nat)
    requires WellFormed(c) && x in f && !Writes(c, x) && !Drops(c, x)
    ensures x in Update(f, c) && Update(f, c)[x] == f[x]
  {
  }

  lemma UpdateWrites(f: Flat, c: Call, x: nat)
    requires WellFormed(c) && Writes(c, x) && x in Update(f, c)
    ensures Update(f, c)[x] == Some(Wrote(c, x))
  {
  }

  /**
   * A byte that a call has written to a mapped address stays there as long as no other call writes to it or frees it,
   * whatever else is allocated, freed, written and read in between.
   */
  lemma {:induction false} LastWrite(f: Flat, calls: seq<Call>, i: nat, n: nat, x: nat)
    requires i < n <= |calls| && forall j | 0 <= j < |calls| :: WellFormed(calls[j])
    requires Writes(calls[i], x) && x in After(f, calls[..i + 1]) && Untouched(calls, i + 1, n, x)
    ensures x in After(f, calls[..n]) && After(f, calls[..n])[x] == Some(Wrote(calls[i], x))
  {
    hide WellFormed;
    hide Writes;
    hide Drops;
    hide Update;
    hide Wrote;
    assert calls[..n][..n - 1] == calls[..n - 1];
    if i == n - 1 {
      UpdateWrites(After(f, calls[..i]), calls[i], x);
    } else {
      LastWrite(f, calls, i, n - 1, x);
      UpdateKeeps(After(f, calls[..n - 1]), calls[n - 1], x);
    }
  }

  lemma ReadAt(f: Flat, c: Call, end: nat, x: nat)
    requires WellFormed(c) && Answers(f, c, end) && x in f && f[x] != None
    requires c.op.ToHost? && c.op.from <= x < c.op.from + |c.got|
    ensures f[x] == Some(c.got[x - c.op.from])
  {
  }

  /** So a read gets what was written to an address last, as long as it has not been freed in between. */
  lemma ReadBack(f: Flat, ops: seq<Op>, calls: seq<Call>, end: nat, i: nat, k: nat, x: nat)
    requires Log(f, ops, calls, end) && i < k < |calls|
    requires Writes(calls[i], x) && x in After(f, calls[..i + 1]) && Untouched(calls, i + 1, k, x)
    requires calls[k].op.ToHost? && calls[k].op.from <= x < calls[k].op.from + |calls[k].got|
    ensures calls[k].got[x - calls[k].op.from] == Wrote(calls[i], x)
  {
    hide After;
    hide Writes;
    hide Wrote;
    hide Untouched;
    hide Answers;
    hide WellFormed;
    LastWrite(f, calls, i, k, x);
    ReadAt(After(f, calls[..k]), calls[k], end, x);
  }

  /** What a caller gets who copies to the guest and reads the same range back: the data, if all of it is mapped. */
  method CopyThere(m: Monitor, data: seq<Byte>, at: nat) returns (ok: bool, back: seq<Byte>)
    requires m.Valid() && at < 0x1_0000_0000 && |data| < 0x1_0000_0000
    modifies m`frames, m`pageZero
    ensures m.Valid() && (ok && (forall x: nat | at <= x < at + |data| :: Mapped(m.pp, x)) ==> back == data)
    ensures ok <==> m.InBounds(at, |data|) && forall x: nat | at <= x < at + |data| :: x / PAGE / GROUP in m.pp
  {
    hide Stored;
    hide Stray;
    back := [];
    ghost var frames := m.frames;
    var done;
    ok, done := m.HostToGuest(data, at);
    if ok {
      assert data[..done] == data;
      ok, back := m.GuestToHost(at, |data|);
      if forall x: nat | at <= x < at + |data| :: Mapped(m.pp, x) {
        BackIsData(m, frames, data, at, back);
      }
    }
  }

  lemma BackIsData(m: Monitor, frames: Frames, data: seq<Byte>, at: nat, back: seq<Byte>)
    requires Sound(m.pp, frames) && Sound(m.pp, m.frames) && |m.pageZero| == PAGE && |back| == |data|
    requires Stored(m.pp, frames, m.frames, at, data)
    requires forall x: nat | at <= x < at + |data| :: Mapped(m.pp, x) && back[x - at] == m.Seen(x)
    ensures back == data
  {
    forall i | 0 <= i < |back|
      ensures back[i] == data[i]
    {
      assert Mapped(m.pp, at + i) && back[at + i - at] == m.Seen(at + i);
    }
  }
}
