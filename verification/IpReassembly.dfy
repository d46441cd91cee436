/** Fragment reassembly, `ip_input.c`: `ip_reass`, `ip_enq`, `ip_deq`, `ip_freef`, `ip_slowtimo`. */
module IpReassembly {
  import opened Mbufs

  /** IPFRAGTTL: ticks of `ip_slowtimo` that an unfinished queue survives. */
  const FRAGMENT_TTL: nat := 60
  /** `ip_len` and `ip_off` have 16 bits. */
  const U16_LIMIT: nat := 0x1_0000

  function End(m: Mbuf): int
    reads m
  {
    m.ipOff + m.ipLen
  }

  /** `m` holds bytes [ipOff, End) of the datagram `d`, and says rightly whether more follow. */
  ghost predicate Slice(m: Mbuf, d: seq<Byte>)
    reads m
  {
    && m.Valid()
    && 0 <= m.ipOff && 0 < m.ipLen == m.len && End(m) <= |d|
    && m.mff == (End(m) < |d|)
    && m.Contents() == d[m.ipOff..End(m)]
  }

  /** A fragment on a queue. Only one that starts the datagram is sure to follow its own header directly. */
  ghost predicate Queueable(m: Mbuf, d: seq<Byte>, key: FlowKey)
    reads m
  {
    && Slice(m, d) && m.key == key && m.ipLen <= GROWTH
    && m.hdr + m.hlen <= m.data
    && (m.ipOff == 0 ==> m.data == m.hdr + m.hlen)
  }

  /** What every queue of a datagram looks like: slices of it, in order and without overlap. */
  ghost predicate Chain(q: seq<Mbuf>, d: seq<Byte>, key: FlowKey)
    reads q
  {
    && (forall i | 0 <= i < |q| :: Queueable(q[i], d, key))
    && (forall i, j | 0 <= i < j < |q| :: End(q[i]) <= q[j].ipOff)
  }

  /** A range of offsets [lo, hi). */
  datatype Piece = Piece(lo: int, hi: int)

  function PieceOf(m: Mbuf): Piece
    reads m
  {
    Piece(m.ipOff, End(m))
  }

  ghost function Pieces(q: seq<Mbuf>): (v: seq<Piece>)
    reads q
    ensures |v| == |q| && forall i | 0 <= i < |q| :: v[i] == PieceOf(q[i])
  {
    seq(|q|, i requires 0 <= i < |q| reads q => PieceOf(q[i]))
  }

  predicate In(x: int, p: Piece) {
    p.lo <= x < p.hi
  }

  ghost predicate Covered(x: int, v: seq<Piece>) {
    exists p :: p in v && In(x, p)
  }

  /** The offsets that some ranges hold between them. */
  ghost function Cover(v: seq<Piece>): iset<int> {
    iset x | Covered(x, v)
  }

  lemma CoverConcat(a: seq<Piece>, b: seq<Piece>)
    ensures Cover(a + b) == Cover(a) + Cover(b)
  {
    assert forall p :: p in a + b <==> p in a || p in b;
  }

  lemma CoverSwallowed(v: seq<Piece>, big: Piece, small: Piece)
    requires big in v && big.lo <= small.lo && small.hi <= big.hi
    ensures Cover(v) + Cover([small]) == Cover(v)
  {
    assert forall x | Covered(x, [small]) :: In(x, small) && In(x, big);
  }

  function Max(a: int, b: int): int {
    if a < b then b else a
  }

  /** The head of `v` loses what lies below `lo`. */
  function TrimFirst(v: seq<Piece>, lo: int): seq<Piece> {
    if v == [] then [] else [Piece(Max(v[0].lo, lo), v[0].hi)] + v[1..]
  }

  lemma TrimFirstCover(v: seq<Piece>, s: Piece)
    requires v != [] ==> s.lo <= v[0].lo
    ensures Cover(TrimFirst(v, s.hi)) + Cover([s]) == Cover(v) + Cover([s])
  {
    if v != [] {
      var t := Piece(Max(v[0].lo, s.hi), v[0].hi);
      assert v == [v[0]] + v[1..];
      CoverConcat([v[0]], v[1..]);
      CoverConcat([t], v[1..]);
      assert Cover([t]) + Cover([s]) == Cover([v[0]]) + Cover([s]) by {
        assert forall x :: In(x, t) || In(x, s) <==> In(x, v[0]) || In(x, s);
      }
    }
  }

  /** With what the range before it holds, the rest of a newcomer covers as much as the whole. */
  lemma NewcomerCover(v: seq<Piece>, p: Piece, n: nat, s: Piece)
    requires n <= |v| && s == Piece(if n > 0 then Max(v[n - 1].hi, p.lo) else p.lo, p.hi)
    requires n > 0 ==> v[n - 1].lo <= p.lo
    ensures Cover(v[..n]) + Cover([p]) == Cover(v[..n]) + Cover([s])
  {
    if n > 0 {
      assert v[n - 1] in v[..n];
      assert forall x :: In(x, p) ==> In(x, s) || In(x, v[n - 1]);
    }
    assert s in [s] && p in [p] && forall x :: In(x, s) ==> In(x, p);
  }

  /**
   * Replacing the ranges [n, k) of `v` by `s` covers what `v` and `p` cover, when `s` is `p` without what the range
   * before it holds, swallows all that is dropped, and the range after it gives way.
   */
  lemma SurgeryCover(v: seq<Piece>, p: Piece, n: nat, k: nat, s: Piece)
    requires n <= k <= |v|
    requires s == Piece(if n > 0 then Max(v[n - 1].hi, p.lo) else p.lo, p.hi)
    requires n > 0 ==> v[n - 1].lo <= p.lo
    requires forall i | n <= i < |v| :: s.lo <= v[i].lo
    requires forall i | n <= i < k :: v[i].hi <= s.hi
    ensures Cover(v[..n] + [s] + TrimFirst(v[k..], s.hi)) == Cover(v) + Cover([p])
  {
    assert Cover(v[n..k]) <= Cover([s]) by {
      assert forall x, p | p in v[n..k] && In(x, p) :: In(x, s);
      assert s in [s];
    }
    NewcomerCover(v, p, n, s);
    assert v == v[..n] + v[n..k] + v[k..];
    CoverConcat(v[..n] + v[n..k], v[k..]);
    CoverConcat(v[..n], v[n..k]);
    CoverConcat(v[..n] + [s], TrimFirst(v[k..], s.hi));
    CoverConcat(v[..n], [s]);
    TrimFirstCover(v[k..], s);
    hide Cover;
    hide TrimFirst;
  }

  /** Cuts `i` bytes off the head of a fragment. */
  method TrimHead(m: Mbuf, i: int, ghost d: seq<Byte>)
    requires Queueable(m, d, m.key) && 0 < i < m.ipLen && |d| < U16_LIMIT
    modifies m`data, m`len, m`ipOff, m`ipLen
    ensures Queueable(m, d, m.key)
    ensures m.ipOff == old(m.ipOff) + i && End(m) == old(End(m))
  {
    m.Adj(i);
    m.ipOff := (m.ipOff + i) % U16_LIMIT;
    m.ipLen := m.ipLen - i;
  }

  /** Lines 279-285: the first fragment that begins after this one does. */
  method Successor(q: seq<Mbuf>, off: int) returns (n: nat)
    requires forall i, j | 0 <= i < j < |q| :: q[i].ipOff <= q[j].ipOff
    ensures n <= |q|
    ensures forall i | 0 <= i < |q| :: q[i].ipOff <= off <==> i < n
  {
    n := 0;
    while n < |q| && q[n].ipOff <= off
      invariant n <= |q|
      invariant forall i | 0 <= i < n :: q[i].ipOff <= off
    {
      n := n + 1;
    }
  }

  /** Lines 304-319: dequeues the successors that the newcomer covers, up to `k`, and trims the one it overlaps. */
  method TrimSuccessors(q: seq<Mbuf>, n: nat, ip: Mbuf, ghost d: seq<Byte>) returns (k: nat)
    requires Chain(q, d, ip.key) && Queueable(ip, d, ip.key) && ip !in q && |d| < U16_LIMIT
    requires n <= |q| && forall i | n <= i < |q| :: ip.ipOff <= q[i].ipOff
    modifies q[n..]`data, q[n..]`len, q[n..]`ipOff, q[n..]`ipLen
    ensures n <= k <= |q| && forall i | 0 <= i < |q| && i != k :: unchanged(q[i])
    ensures forall i | n <= i < k :: End(q[i]) <= End(ip)
    ensures unchanged(ip) && Queueable(ip, d, ip.key) && forall i | 0 <= i < |q| :: Queueable(q[i], d, ip.key)
    ensures forall i | 0 <= i < |q| && i != k :: PieceOf(q[i]) == old(PieceOf(q[i]))
    ensures k < |q| ==> End(q[k]) == old(End(q[k]))
    ensures k < |q| ==> End(ip) <= q[k].ipOff == (if old(q[k].ipOff) < End(ip) then End(ip) else old(q[k].ipOff))
  {
    k := n;
    while k < |q| && End(ip) > q[k].ipOff
      invariant n <= k <= |q|
      invariant forall i | n <= i < k :: End(q[i]) <= End(ip)
    {
      var i := End(ip) - q[k].ipOff;
      if i < q[k].ipLen {
        TrimHead(q[k], i, d);
        break;
      }
      k := k + 1;
    }
  }

  /** Lines 287-302: drops the data that the preceding fragment provides already, unless that is all of it. */
  method TrimAgainst(prev: Mbuf, ip: Mbuf, ghost d: seq<Byte>) returns (kept: bool)
    requires Queueable(prev, d, ip.key) && Queueable(ip, d, ip.key) && prev != ip && prev.ipOff <= ip.ipOff
    requires |d| < U16_LIMIT
    modifies ip`data, ip`len, ip`ipOff, ip`ipLen
    ensures !kept ==> unchanged(ip) && End(ip) <= End(prev)
    ensures kept ==> Queueable(ip, d, ip.key)
    ensures kept ==> PieceOf(ip) == Piece(Max(End(prev), old(ip.ipOff)), old(End(ip)))
  {
    var i := End(prev) - ip.ipOff;
    if i > 0 {
      if i >= ip.ipLen {
        return false;
      }
      TrimHead(ip, i, d);
    }
    return true;
  }

  lemma AllLinked(q: seq<Mbuf>, n: nat, k: nat, ip: Mbuf, d: seq<Byte>)
    requires n <= k <= |q| && Queueable(ip, d, ip.key)
    requires forall i | 0 <= i < |q| :: Queueable(q[i], d, ip.key)
    ensures var r := q[..n] + [ip] + q[k..]; forall i | 0 <= i < |r| :: Queueable(r[i], d, ip.key)
  {
    hide Queueable;
  }

  /** The list with the newcomer in it, when `v` are the ranges before the one at `k` has given way. */
  lemma ChainLinked(q: seq<Mbuf>, n: nat, k: nat, ip: Mbuf, d: seq<Byte>, v: seq<Piece>)
    requires n <= k <= |q| == |v| && Queueable(ip, d, ip.key)
    requires forall i | 0 <= i < |q| :: Queueable(q[i], d, ip.key)
    requires forall i, j | 0 <= i < j < |v| :: v[i].hi <= v[j].lo
    requires forall i | 0 <= i < |q| && i != k :: PieceOf(q[i]) == v[i]
    requires k < |q| ==> PieceOf(q[k]) == Piece(Max(v[k].lo, End(ip)), v[k].hi)
    requires n > 0 ==> v[n - 1].hi <= ip.ipOff
    ensures Chain(q[..n] + [ip] + q[k..], d, ip.key)
    ensures Pieces(q[..n] + [ip] + q[k..]) == v[..n] + [PieceOf(ip)] + TrimFirst(v[k..], End(ip))
  {
    var r := q[..n] + [ip] + q[k..];
    AllLinked(q, n, k, ip, d);
    assert forall i | 0 <= i < |v| && i != k :: v[i].lo < v[i].hi;
    assert k < |q| ==> 0 < q[k].ipLen;
    assert v[k..] != [] ==> v[k..][0] == v[k];
    hide Queueable;
    PiecesLinked(q, n, k, ip, v);
    SpliceSorted(v, n, k, PieceOf(ip));
    hide TrimFirst;
    PiecesOrdered(r);
  }

  lemma PiecesOrdered(q: seq<Mbuf>)
    requires var v := Pieces(q); forall i, j | 0 <= i < j < |v| :: v[i].hi <= v[j].lo
    ensures forall i, j | 0 <= i < j < |q| :: End(q[i]) <= q[j].ipOff
  {
    var v := Pieces(q);
    forall i, j | 0 <= i < j < |q|
      ensures End(q[i]) <= q[j].ipOff
    {
      assert v[i].hi <= v[j].lo;
    }
  }

  lemma SpliceSorted(v: seq<Piece>, n: nat, k: nat, p: Piece)
    requires n <= k <= |v| && (forall i, j | 0 <= i < j < |v| :: v[i].hi <= v[j].lo) && (n > 0 ==> v[n - 1].hi <= p.lo)
    requires p.lo < p.hi && forall i | 0 <= i < |v| :: v[i].lo < v[i].hi
    requires k < |v| ==> p.hi < v[k].hi
    ensures var w := v[..n] + [p] + TrimFirst(v[k..], p.hi); forall i, j | 0 <= i < j < |w| :: w[i].hi <= w[j].lo
  {
    var t := TrimFirst(v[k..], p.hi);
    assert forall i | 0 <= i < n :: v[i].hi <= p.lo;
    assert forall i | 0 <= i < |t| :: p.hi <= t[i].lo && v[k + i].lo <= t[i].lo && t[i].hi == v[k + i].hi;
  }

  lemma PiecesLinked(q: seq<Mbuf>, n: nat, k: nat, ip: Mbuf, v: seq<Piece>)
    requires n <= k <= |q| == |v|
    requires forall i | 0 <= i < |q| && (i < n || k < i) :: PieceOf(q[i]) == v[i]
    requires k < |q| ==> PieceOf(q[k]) == Piece(Max(v[k].lo, End(ip)), v[k].hi)
    ensures Pieces(q[..n] + [ip] + q[k..]) == v[..n] + [PieceOf(ip)] + TrimFirst(v[k..], End(ip))
  {
  }

  lemma Spliced(q: seq<Mbuf>, n: nat, k: nat, ip: Mbuf)
    requires n <= k <= |q|
    ensures multiset(q[..n] + [ip] + q[k..]) + multiset(q[n..k]) == multiset(q) + multiset{ip}
  {
    assert q == q[..n] + q[n..k] + q[k..];
  }

  /** Lines 304-317, and what the list will be with the newcomer in it. */
  method MakeWay(q: seq<Mbuf>, n: nat, ip: Mbuf, ghost d: seq<Byte>) returns (k: nat)
    requires Chain(q, d, ip.key) && Queueable(ip, d, ip.key) && ip !in q && n <= |q| && |d| < U16_LIMIT
    requires n > 0 ==> End(q[n - 1]) <= ip.ipOff
    requires forall i | n <= i < |q| :: ip.ipOff <= q[i].ipOff
    modifies q`data, q`len, q`ipOff, q`ipLen
    ensures n <= k <= |q| && unchanged(ip) && Chain(q[..n] + [ip] + q[k..], d, ip.key)
    ensures forall i | 0 <= i < |q| :: old(q[i].ipOff) <= q[i].ipOff
    ensures forall i | n <= i < k :: old(PieceOf(q[i]).hi) <= End(ip)
    ensures var v := old(Pieces(q));
      Pieces(q[..n] + [ip] + q[k..]) == v[..n] + [PieceOf(ip)] + TrimFirst(v[k..], End(ip))
  {
    ghost var v := Pieces(q);
    assert forall i, j | 0 <= i < j < |v| :: v[i].hi <= v[j].lo;
    k := TrimSuccessors(q, n, ip, d);
    hide Queueable;
    hide TrimFirst;
    assert forall i | 0 <= i < |q| && i != k :: PieceOf(q[i]) == v[i];
    ChainLinked(q, n, k, ip, d, v);
    hide Chain;
    hide Pieces;
  }

  /** Lines 304-326: makes the successors give way and links the newcomer in before them. */
  method Link(q: seq<Mbuf>, n: nat, ip: Mbuf, ghost d: seq<Byte>, ghost p: Piece)
    returns (r: seq<Mbuf>, freed: seq<Mbuf>)
    requires Chain(q, d, ip.key) && Queueable(ip, d, ip.key) && ip !in q && n <= |q| && |d| < U16_LIMIT
    requires n > 0 ==> End(q[n - 1]) <= ip.ipOff && q[n - 1].ipOff <= p.lo
    requires forall i | n <= i < |q| :: ip.ipOff <= q[i].ipOff
    requires PieceOf(ip) == Piece(if n > 0 then Max(End(q[n - 1]), p.lo) else p.lo, p.hi)
    modifies q`data, q`len, q`ipOff, q`ipLen
    ensures Chain(r, d, ip.key) && r != [] && unchanged(ip) && forall i | 0 <= i < |q| :: old(q[i].ipOff) <= q[i].ipOff
    ensures Cover(Pieces(r)) == old(Cover(Pieces(q))) + Cover([p])
    ensures multiset(r) + multiset(freed) == multiset(q) + multiset{ip}
  {
    hide Cover;
    hide TrimFirst;
    ghost var v := Pieces(q);
    var k := MakeWay(q, n, ip, d);
    SurgeryCover(v, p, n, k, PieceOf(ip));
    hide Chain;
    hide Pieces;
    r, freed := q[..n] + [ip] + q[k..], q[n..k];
    Spliced(q, n, k, ip);
    assert r[n] == ip;
  }

  /** Lines 279-302: finds the place of the newcomer and trims it against its predecessor. */
  method FindPlace(q: seq<Mbuf>, ip: Mbuf, ghost d: seq<Byte>, ghost p: Piece) returns (kept: bool, n: nat)
    requires Chain(q, d, ip.key) && Queueable(ip, d, ip.key) && ip !in q && |d| < U16_LIMIT && PieceOf(ip) == p
    modifies ip`data, ip`len, ip`ipOff, ip`ipLen
    ensures n <= |q| && p.lo <= ip.ipOff
    ensures forall i | 0 <= i < |q| :: q[i].ipOff <= p.lo <==> i < n
    ensures !kept ==> n > 0 && p.hi <= End(q[n - 1])
    ensures kept ==> Queueable(ip, d, ip.key) && PieceOf(ip) == Piece(if n > 0 then Max(End(q[n - 1]), p.lo) else p.lo, p.hi)
  {
    n := Successor(q, ip.ipOff);
    kept := true;
    if n > 0 {
      kept := TrimAgainst(q[n - 1], ip, d);
    }
  }

  lemma BehindPlace(q: seq<Mbuf>, n: nat, ip: Mbuf, d: seq<Byte>, p: Piece)
    requires Chain(q, d, ip.key) && n <= |q| && forall i | n <= i < |q| :: p.lo <= q[i].ipOff
    requires ip.ipOff == if n > 0 then Max(End(q[n - 1]), p.lo) else p.lo
    ensures forall i | n <= i < |q| :: ip.ipOff <= q[i].ipOff
  {
    hide Queueable;
  }

  /** Lines 279-326: trims the newcomer against its predecessor, then links it in. */
  method Place(q: seq<Mbuf>, ip: Mbuf, ghost d: seq<Byte>)
    returns (kept: bool, r: seq<Mbuf>, freed: seq<Mbuf>)
    requires Chain(q, d, ip.key) && Queueable(ip, d, ip.key) && ip !in q && |d| < U16_LIMIT
    modifies q`data, q`len, q`ipOff, q`ipLen, ip`data, ip`len, ip`ipOff, ip`ipLen
    ensures Chain(r, d, ip.key) && r != [] && (!kept ==> Cover(Pieces(r)) == old(Cover(Pieces(q))))
    ensures Cover(Pieces(r)) == old(Cover(Pieces(q)) + Cover([PieceOf(ip)]))
    ensures multiset(r) + multiset(freed) == multiset(q) + multiset{ip}
    ensures old(ip.ipOff) <= ip.ipOff && forall i | 0 <= i < |q| :: old(q[i].ipOff) <= q[i].ipOff
  {
    hide Queueable;
    hide Cover;
    ghost var p, v := PieceOf(ip), Pieces(q);
    var n;
    kept, n := FindPlace(q, ip, d, p);
    assert Chain(q, d, ip.key) && Pieces(q) == v;
    if kept {
      BehindPlace(q, n, ip, d, p);
      r, freed := Link(q, n, ip, d, p);
    } else {
      assert PieceOf(q[n - 1]) == v[n - 1];
      CoverSwallowed(v, v[n - 1], p);
      r, freed := q, [ip];
    }
  }

  /** Nothing of the datagram is left out. */
  ghost predicate Fills(c: iset<int>, d: seq<Byte>) {
    forall x | 0 <= x < |d| :: x in c
  }

  /** The fragments follow one another from offset zero. */
  ghost predicate Seamless(q: seq<Mbuf>)
    reads q
  {
    && (q != [] ==> q[0].ipOff == 0)
    && (forall i | 0 < i < |q| :: q[i].ipOff == End(q[i - 1]))
  }

  lemma GapIsUncovered(q: seq<Mbuf>, d: seq<Byte>, key: FlowKey, i: nat, x: nat)
    requires Chain(q, d, key) && i <= |q|
    requires x == if i == 0 then 0 else End(q[i - 1])
    requires if i < |q| then q[i].ipOff != x else i > 0 && x < |d|
    ensures !Fills(Cover(Pieces(q)), d)
  {
    assert x < |d|;
    assert !Covered(x, Pieces(q));
    assert x !in Cover(Pieces(q));
  }

  lemma SeamlessIsWhole(q: seq<Mbuf>, d: seq<Byte>, x: int, n: nat)
    requires Seamless(q) && n <= |q| && 0 <= x < if n == 0 then 0 else End(q[n - 1])
    ensures Covered(x, Pieces(q))
  {
    if x < q[n - 1].ipOff {
      SeamlessIsWhole(q, d, x, n - 1);
    } else {
      assert Pieces(q)[n - 1] in Pieces(q) && In(x, PieceOf(q[n - 1]));
    }
  }

  lemma SeamlessFills(q: seq<Mbuf>, d: seq<Byte>)
    requires Seamless(q) && q != [] && End(q[|q| - 1]) == |d|
    ensures Fills(Cover(Pieces(q)), d)
  {
    forall x | 0 <= x < |d|
      ensures x in Cover(Pieces(q))
    {
      SeamlessIsWhole(q, d, x, |q|);
    }
  }

  /** Lines 327-335: are there no gaps, and is the last fragment the last one of the datagram? */
  method Complete(q: seq<Mbuf>, ghost d: seq<Byte>, ghost key: FlowKey) returns (done: bool, next: int)
    requires Chain(q, d, key) && q != []
    ensures done <==> Fills(Cover(Pieces(q)), d)
    ensures done ==> next == |d| && Seamless(q) && End(q[|q| - 1]) == |d|
  {
    hide Cover;
    next := 0;
    for i := 0 to |q|
      invariant next == if i == 0 then 0 else End(q[i - 1])
      invariant Seamless(q[..i])
    {
      if q[i].ipOff != next {
        GapIsUncovered(q, d, key, i, next);
        return false, next;
      }
      next := next + q[i].ipLen;
    }
    assert q[..|q|] == q;
    if q[|q| - 1].mff {
      GapIsUncovered(q, d, key, |q|, next);
      return false, next;
    }
    SeamlessFills(q, d);
    return true, next;
  }

  /** Line 348. */
  method JoinOne(m: Mbuf, t: Mbuf, ghost d: seq<Byte>, ghost key: FlowKey)
    requires m != t && m.Valid() && m.len <= |d| && m.Contents() == d[..m.len] && Queueable(t, d, key) && t.ipOff == m.len
    modifies m`store, m`len
    ensures m.Valid() && m.len == End(t) && m.Contents() == d[..m.len]
    ensures m.store[..m.data] == old(m.store[..m.data])
  {
    assert d[..m.len] + d[m.len..End(t)] == d[..End(t)];
    m.Cat(t);
  }

  /** Lines 340-349: joins the data of all fragments behind that of the first. */
  method Join(q: seq<Mbuf>, ghost d: seq<Byte>, ghost key: FlowKey) returns (m: Mbuf)
    requires Chain(q, d, key) && q != [] && Seamless(q)
    modifies q[0]
    ensures m == q[0] && m.Valid() && m.data == old(m.data) && m.ipOff == old(m.ipOff) && m.store[..m.data] == old(m.store[..m.data])
    ensures m.len == old(End(q[|q| - 1])) && m.Contents() == d[..m.len]
  {
    m := q[0];
    ghost var head := m.store[..m.data];
    assert forall j | 0 < j < |q| :: End(q[0]) <= q[j].ipOff && q[j] != m;
    for i := 1 to |q|
      modifies m`store, m`len
      invariant m.Valid() && m.store[..m.data] == head
      invariant m.len == End(q[i - 1]) <= |d|
      invariant m.Contents() == d[..m.len]
    {
      assert Queueable(q[i], d, key) && q[i].ipOff == End(q[i - 1]);
      JoinOne(m, q[i], d, key);
    }
  }

  /** A whole datagram as handed up: header first, payload `d` right behind it, its length in 16 bits. */
  ghost predicate Deliverable(m: Mbuf, d: seq<Byte>)
    reads m
  {
    && m.Valid() && m.data == m.hdr && m.len == m.hlen + |d|
    && m.ipOff == 0 && m.ipLen == |d| % U16_LIMIT && !m.mff
    && m.Contents()[m.hlen..] == d
  }

  /** The bytes of the header that came with a fragment. */
  ghost function Header(m: Mbuf): seq<Byte>
    reads m
  {
    if 0 <= m.hdr <= m.hdr + m.hlen <= |m.store| then m.store[m.hdr..m.hdr + m.hlen] else []
  }

  ghost predicate HasHeader(m: Mbuf, head: seq<Byte>)
    reads m
  {
    m.Valid() && m.hlen <= m.len && m.Contents()[..m.hlen] == head
  }

  /**
   * Lines 340-385: joins the data and makes the header of the first fragment the header of the whole. It tells the length
   * if and only if that has 16 bits.
   */
  method Finish(q: seq<Mbuf>, ghost d: seq<Byte>, ghost key: FlowKey, next: int) returns (m: Mbuf)
    requires Chain(q, d, key) && q != [] && Seamless(q) && End(q[|q| - 1]) == |d| == next
    modifies q[0]
    ensures m == q[0] && Deliverable(m, d) && (m.ipLen == |d| <==> |d| < U16_LIMIT)
    ensures HasHeader(m, old(Header(m)))
  {
    ghost var head := q[0].store[..q[0].data];
    m := Join(q, d, key);
    m.ipLen := next % U16_LIMIT;
    m.mff := false;
    m.len := m.len + m.hlen;
    m.data := m.data - m.hlen;
    assert m.Contents()[..m.hlen] == head[m.hdr..];
  }

  /** The fragment as `ip_input` passes it on: a slice behind its own header, not a whole datagram by itself. */
  ghost predicate Arriving(m: Mbuf, d: seq<Byte>)
    reads m
  {
    && m.Valid() && m.data == m.hdr && m.len == m.hlen + m.ipLen
    && 0 <= m.ipOff && 0 < m.ipLen <= GROWTH && End(m) <= |d| < U16_LIMIT
    && m.mff == (End(m) < |d|)
    && m.Contents()[m.hlen..] == d[m.ipOff..End(m)]
  }

  lemma OnlyFrom(r: seq<Mbuf>, rest: multiset<Mbuf>, q: seq<Mbuf>, ip: Mbuf)
    requires multiset(r) + rest == multiset(q) + multiset{ip}
    ensures forall m | m in r :: m in q || m == ip
  {
    forall m | m in r
      ensures m in q || m == ip
    {
      assert m in multiset(r) + rest;
      assert m in multiset(q) + multiset{ip};
    }
  }

  /** `ip_reass` up to line 326: leaves the header aside and puts the data in its place; `q` is empty when `fp` is null. */
  method Insert(q: seq<Mbuf>, ip: Mbuf, ghost d: seq<Byte>) returns (kept: bool, r: seq<Mbuf>, freed: seq<Mbuf>)
    requires Chain(q, d, ip.key) && Arriving(ip, d) && ip !in q
    modifies q`data, q`len, q`ipOff, q`ipLen, ip`data, ip`len, ip`ipOff, ip`ipLen
    ensures Chain(r, d, ip.key) && r != [] && (!kept ==> Cover(Pieces(r)) == old(Cover(Pieces(q))))
    ensures Cover(Pieces(r)) == old(Cover(Pieces(q)) + Cover([PieceOf(ip)]))
    ensures multiset(r) + multiset(freed) == multiset(q) + multiset{ip}
    ensures forall m | m in r :: m.key == ip.key && (m in q || m == ip) && old(m.ipOff) <= m.ipOff
  {
    ghost var v, p := Pieces(q), PieceOf(ip);
    ip.data := ip.data + ip.hlen;
    ip.len := ip.len - ip.hlen;
    assert Queueable(ip, d, ip.key) && Pieces(q) == v;
    if q == [] {
      kept, r, freed := true, [ip], [];
      assert Pieces(r) == v + [p];
      CoverConcat(v, [p]);
    } else {
      kept, r, freed := Place(q, ip, d);
    }
    OnlyFrom(r, multiset(freed), q, ip);
    KeysAlike(r, d, ip.key);
  }

  lemma KeysAlike(q: seq<Mbuf>, d: seq<Byte>, key: FlowKey)
    requires Chain(q, d, key)
    ensures forall m | m in q :: m.key == key
  {
  }

  /** `ip_reass` from line 327 on: hands the datagram up when nothing is missing. */
  method Conclude(q: seq<Mbuf>, before: seq<Mbuf>, ghost d: seq<Byte>, ghost key: FlowKey)
    returns (whole: Mbuf?, r: seq<Mbuf>, freed: seq<Mbuf>)
    requires Chain(q, d, key) && q != []
    modifies q[0]
    ensures if old(Fills(Cover(Pieces(q)), d)) then whole != null && Deliverable(whole, d) && r == []
            else whole == null && r == q && unchanged(q[0])
    ensures Chain(r, d, key)
    ensures whole != null ==> whole == q[0] && old(whole.ipOff) == 0 && HasHeader(whole, old(Header(q[0])))
    ensures multiset(r) + multiset(freed) + (if whole == null then multiset{} else multiset{whole}) == multiset(q) + multiset(before)
  {
    hide Deliverable;
    hide HasHeader;
    hide Header;
    hide Cover;
    hide Fills;
    var done, next := Complete(q, d, key);
    assert done ==> q[0].ipOff == 0;
    hide Seamless;
    if done {
      NoChain(d, key);
      FirstApart(q, before);
      hide Chain;
      whole := Finish(q, d, key, next);
      r, freed := [], before + q[1..];
    } else {
      whole, r, freed := null, q, before;
    }
  }

  lemma NoChain(d: seq<Byte>, key: FlowKey)
    ensures Chain([], d, key)
  {
  }

  lemma FirstApart<T>(q: seq<T>, before: seq<T>)
    requires q != []
    ensures multiset(before + q[1..]) + multiset{q[0]} == multiset(q) + multiset(before)
  {
    assert q == [q[0]] + q[1..];
  }

  lemma Rebalance<T>(a: multiset<T>, b: multiset<T>, c: multiset<T>, x: multiset<T>, y: multiset<T>, more: multiset<T>)
    requires a + b + c == x + y
    ensures a + (more + b) + c == x + more + y
  {
    forall t: T
      ensures (a + (more + b) + c)[t] == (x + more + y)[t]
    {
      assert (a + b + c)[t] == (x + y)[t];
    }
  }

  /** A queue between two arrivals: an orderly chain that holds the bytes at `c` and still lacks some. */
  ghost predicate Waiting(q: seq<Mbuf>, d: seq<Byte>, key: FlowKey, c: iset<int>)
    reads q
  {
    q != [] && Chain(q, d, key) && Cover(Pieces(q)) == c && !Fills(c, d)
  }

  lemma NothingWaits(d: seq<Byte>, key: FlowKey, ip: Mbuf)
    requires Arriving(ip, d)
    ensures Chain([], d, key) && Cover(Pieces([])) == iset{} && !Fills(iset{}, d)
  {
    assert 0 <= ip.ipOff < |d|;
    assert ip.ipOff !in Cover(Pieces([]));
  }

  /** `ip_reass` on one queue. */
  method Accept(q: seq<Mbuf>, ip: Mbuf, ghost d: seq<Byte>)
    returns (whole: Mbuf?, r: seq<Mbuf>, freed: seq<Mbuf>)
    requires Chain(q, d, ip.key) && !Fills(Cover(Pieces(q)), d)
    requires Arriving(ip, d) && ip !in q
    modifies q, ip
    ensures Chain(r, d, ip.key) && (r == [] <==> whole != null) && forall m | m in r :: m.key == ip.key && (m in q || m == ip)
    ensures var total := old(Cover(Pieces(q)) + Cover([PieceOf(ip)]));
            if Fills(total, d)
            then whole != null && Deliverable(whole, d) else whole == null && Cover(Pieces(r)) == total
    ensures whole != null ==> (whole in q || whole == ip) && old(whole.ipOff) <= 0 && HasHeader(whole, old(Header(whole)))
    ensures multiset(r) + multiset(freed) + (if whole == null then multiset{} else multiset{whole})
            == multiset(q) + multiset{ip}
  {
    hide Cover;
    hide Deliverable;
    hide Chain;
    var kept;
    kept, r, freed := Insert(q, ip, d);
    whole := null;
    if kept {
      assert r[0] in r;
      whole, r, freed := Conclude(r, freed, d, ip.key);
    }
  }

  /** `struct ipq`: the fragments of one datagram so far and the time they have left. */
  datatype Queue = Queue(ttl: nat, frags: seq<Mbuf>)

  /** Every queue is an orderly chain that still lacks something, of buffers known in `repr`. */
  ghost predicate Orderly(ipq: map<FlowKey, Queue>, held: map<FlowKey, iset<int>>, origin: FlowKey -> seq<Byte>, repr: set<Mbuf>)
    reads repr
  {
    forall k | k in ipq ::
      && 0 < ipq[k].ttl <= FRAGMENT_TTL && k in held
      && (forall m | m in ipq[k].frags :: m in repr && m.key == k)
      && Waiting(ipq[k].frags, origin(k), k, held[k])
  }

  function Members(q: seq<Mbuf>): set<Mbuf> {
    set m | m in q
  }

  /** The queues when those of `key` become `r`; a new queue gets its time to live. */
  function Requeued(ipq: map<FlowKey, Queue>, key: FlowKey, r: seq<Mbuf>): map<FlowKey, Queue> {
    if r == [] then ipq - {key}
    else ipq[key := Queue(if key in ipq then ipq[key].ttl else FRAGMENT_TTL, r)]
  }

  lemma RequeuedOrderly(ipq: map<FlowKey, Queue>, held: map<FlowKey, iset<int>>, origin: FlowKey -> seq<Byte>, repr: set<Mbuf>, key: FlowKey, r: seq<Mbuf>, c: iset<int>)
    requires Orderly(ipq - {key}, held, origin, repr) && (key in ipq ==> 0 < ipq[key].ttl <= FRAGMENT_TTL)
    requires r != [] ==> Waiting(r, origin(key), key, c) && forall m | m in r :: m.key == key
    ensures Orderly(Requeued(ipq, key, r), held[key := c], origin, repr + Members(r))
  {
    hide Waiting;
    var after, held' := Requeued(ipq, key, r), held[key := c];
    forall k | k in after
      ensures 0 < after[k].ttl <= FRAGMENT_TTL && k in held'
      ensures forall m | m in after[k].frags :: m in repr + Members(r) && m.key == k
      ensures Waiting(after[k].frags, origin(k), k, held'[k])
    {
      if k != key {
        assert k in ipq - {key} && after[k] == (ipq - {key})[k];
      }
    }
  }

  function FragsOf(ipq: map<FlowKey, Queue>, key: FlowKey): seq<Mbuf> {
    if key in ipq then ipq[key].frags else []
  }

  ghost function PendingOf(ipq: map<FlowKey, Queue>, held: map<FlowKey, iset<int>>, key: FlowKey): iset<int> {
    if key in ipq && key in held then held[key] else iset{}
  }

  lemma RequeuedIs(ipq: map<FlowKey, Queue>, held: map<FlowKey, iset<int>>, key: FlowKey, r: seq<Mbuf>, c: iset<int>)
    ensures var after, held' := Requeued(ipq, key, r), held[key := c];
      && (key in after <==> r != []) && FragsOf(after, key) == r
      && PendingOf(after, held', key) == (if r == [] then iset{} else c)
      && (forall k | k != key :: PendingOf(after, held', k) == PendingOf(ipq, held, k) && FragsOf(after, k) == FragsOf(ipq, k))
      && (forall k | k in after :: after[k].ttl == if k in ipq then ipq[k].ttl else FRAGMENT_TTL)
  {
  }

  /** The reassembly state of `ip_input.c`: the queues under `ipq`, at most one for each key. */
  class Reassembler {
    var ipq: map<FlowKey, Queue>
    /** Buffers given back with `m_free`, in order. */
    var freed: seq<Mbuf>
    /** The datagram that the sender cut up under each key. */
    ghost const origin: FlowKey -> seq<Byte>
    ghost var repr: set<Mbuf>
    /** The offsets that each queue holds. */
    ghost var held: map<FlowKey, iset<int>>

    constructor (ghost origin: FlowKey -> seq<Byte>)
      ensures Valid() && ipq == map[] && freed == [] && this.origin == origin
    {
      ipq, freed, repr, held := map[], [], {}, map[];
      this.origin := origin;
    }

    function Frags(key: FlowKey): seq<Mbuf>
      reads this
    {
      FragsOf(ipq, key)
    }

    /** Valid but for the queue of `key`. */
    ghost predicate ValidBut(key: FlowKey)
      reads this, repr
    {
      Orderly(ipq - {key}, held, origin, repr)
    }

    ghost predicate Valid()
      reads this, repr
    {
      Orderly(ipq, held, origin, repr)
    }

    /** The part of a datagram that has arrived and waits. */
    ghost function Pending(key: FlowKey): iset<int>
      reads this
    {
      PendingOf(ipq, held, key)
    }

    /** Records what became of the queue of `key`: the fragments `r` wait on, or none do. */
    method Store(key: FlowKey, r: seq<Mbuf>, dropped: seq<Mbuf>, ghost c: iset<int>)
      requires ValidBut(key) && (key in ipq ==> 0 < ipq[key].ttl <= FRAGMENT_TTL)
      requires r != [] ==> Waiting(r, origin(key), key, c) && forall m | m in r :: m.key == key
      modifies this
      ensures Valid() && repr == old(repr) + Members(r)
      ensures freed == old(freed) + dropped
      ensures held == old(held)[key := c] && ipq == Requeued(old(ipq), key, r)
    {
      RequeuedOrderly(ipq, held, origin, repr, key, r, c);
      hide Requeued;
      hide Orderly;
      hide Waiting;
      hide Members;
      repr, held, freed, ipq := repr + Members(r), held[key := c], freed + dropped, Requeued(ipq, key, r);
    }

    /** `ip_reass` but for the changes to `ipq` itself. */
    method Work(ip: Mbuf) returns (whole: Mbuf?, r: seq<Mbuf>, dropped: seq<Mbuf>)
      requires Valid() && Arriving(ip, origin(ip.key)) && ip !in Frags(ip.key)
      modifies ip, Frags(ip.key)
      ensures ValidBut(ip.key)
      ensures forall m | m in r :: m.key == ip.key && m in repr + {ip}
      ensures var total := Pending(ip.key) + old(Cover([PieceOf(ip)]));
              if Fills(total, origin(ip.key))
              then whole != null && r == [] && Deliverable(whole, origin(ip.key))
              else whole == null && Waiting(r, origin(ip.key), ip.key, total)
      ensures whole != null ==> (whole in Frags(ip.key) || whole == ip) && old(whole.ipOff) <= 0
      ensures whole != null ==> HasHeader(whole, old(Header(whole)))
      ensures multiset(r) + multiset(dropped) + (if whole == null then multiset{} else multiset{whole})
              == multiset(Frags(ip.key)) + multiset{ip}
    {
      hide Cover;
      NothingWaits(origin(ip.key), ip.key, ip);
      var q := Frags(ip.key);
      whole, r, dropped := Accept(q, ip, origin(ip.key));
      forall k | k in ipq && k != ip.key
        ensures Waiting(ipq[k].frags, origin(k), k, held[k])
      {
        assert forall m | m in ipq[k].frags :: m.key == k && m !in q;
      }
    }

    /** `ip_reass`: returns the whole datagram if this fragment completes it. */
    method IpReass(ip: Mbuf) returns (whole: Mbuf?)
      requires Valid() && Arriving(ip, origin(ip.key)) && ip !in Frags(ip.key)
      modifies this, ip, Frags(ip.key)
      ensures Valid() && repr <= old(repr) + {ip}
      ensures forall k | k != ip.key :: Pending(k) == old(Pending(k)) && Frags(k) == old(Frags(k))
      ensures forall k | k in ipq :: ipq[k].ttl == if k in old(ipq) then old(ipq)[k].ttl else 60
      ensures var total := old(Pending(ip.key) + Cover([PieceOf(ip)]));
              if Fills(total, origin(ip.key))
              then whole != null && ip.key !in ipq && Deliverable(whole, origin(ip.key))
              else whole == null && ip.key in ipq && Pending(ip.key) == total
      ensures whole != null ==> (whole in old(Frags(ip.key)) || whole == ip) && old(whole.ipOff) <= 0
      ensures whole != null ==> HasHeader(whole, old(Header(whole)))
      ensures multiset(Frags(ip.key)) + multiset(freed) + (if whole == null then multiset{} else multiset{whole})
              == old(multiset(Frags(ip.key)) + multiset(freed)) + multiset{ip}
    {
      hide Chain;
      hide Cover;
      hide Pieces;
      hide Deliverable;
      hide Requeued;
      hide FragsOf;
      hide PendingOf;
      ghost var before, heldBefore := ipq, held;
      ghost var q, spent, total := Frags(ip.key), multiset(freed), Pending(ip.key) + Cover([PieceOf(ip)]);
      var r, dropped;
      whole, r, dropped := Work(ip);
      ghost var up := if whole == null then multiset{} else multiset{whole};
      Store(ip.key, r, dropped, total);
      RequeuedIs(before, heldBefore, ip.key, r, total);
      Rebalance(multiset(r), multiset(dropped), up, multiset(q), multiset{ip}, spent);
    }

    /** `ip_freef`: gives up a queue and all of its fragments. */
    method IpFreef(key: FlowKey)
      requires Valid() && key in ipq
      modifies this
      ensures Valid() && ipq == old(ipq) - {key} && freed == old(freed) + old(ipq)[key].frags
      ensures held == old(held) && repr == old(repr)
    {
      hide Chain;
      hide Cover;
      hide Pieces;
      freed := freed + ipq[key].frags;
      ipq := ipq - {key};
    }

    /** The body of the loop in `ip_slowtimo`. */
    method Tick(key: FlowKey)
      requires Valid() && key in ipq
      modifies this
      ensures Valid()
      ensures ipq == Ticked(old(ipq), key)
      ensures freed == old(freed) + (if old(ipq)[key].ttl == 1 then old(ipq)[key].frags else [])
    {
      hide Chain;
      hide Cover;
      hide Pieces;
      var ttl := ipq[key].ttl - 1;
      if ttl == 0 {
        IpFreef(key);
      } else {
        ipq := ipq[key := ipq[key].(ttl := ttl)];
      }
    }

    /** `ip_slowtimo`: every queue ages by one tick, and those whose time is up are given up. */
    method IpSlowtimo()
      requires Valid()
      modifies this
      ensures Valid() && ipq == Aged(old(ipq))
      ensures old(freed) <= freed
      ensures forall k, m | k in old(ipq) && k !in ipq && m in old(ipq)[k].frags :: m in freed
      ensures Buffers(ipq) + multiset(freed) == Buffers(old(ipq)) + multiset(old(freed))
    {
      hide Waiting;
      hide AgedBut;
      hide Ticked;
      AgedButEnds(ipq);
      var todo := ipq.Keys;
      ghost var before := ipq;
      while todo != {}
        invariant Valid() && todo <= before.Keys
        invariant ipq == AgedBut(before, todo)
        invariant old(freed) <= freed
        invariant Buffers(ipq) + multiset(freed) == Buffers(before) + multiset(old(freed))
        invariant forall k, m | k in before && k !in todo && before[k].ttl == 1 && m in before[k].frags :: m in freed
        decreases todo
      {
        var k :| k in todo;
        AgedButStep(before, todo, k);
        todo := todo - {k};
        TickedBuffers(ipq, k);
        Tick(k);
      }
    }
  }

  ghost function Pick(ipq: map<FlowKey, Queue>): (k: FlowKey)
    requires ipq != map[]
    ensures k in ipq
  {
    assert exists k :: k in ipq by {
      assert ipq.Keys != {};
    }
    var k :| k in ipq; k
  }

  /** All buffers that wait in some queue. */
  ghost function Buffers(ipq: map<FlowKey, Queue>): multiset<Mbuf>
    decreases |ipq|
  {
    if ipq == map[] then multiset{} else var k := Pick(ipq); multiset(ipq[k].frags) + Buffers(ipq - {k})
  }

  lemma {:induction false} BuffersOut(ipq: map<FlowKey, Queue>, key: FlowKey)
    requires key in ipq
    ensures Buffers(ipq) == multiset(ipq[key].frags) + Buffers(ipq - {key})
    decreases |ipq|
  {
    BuffersStep(ipq);
    var k := Pick(ipq);
    hide Buffers;
    if k != key {
      assert k in ipq - {key} && (ipq - {key})[k] == ipq[k] && key in ipq - {k} && (ipq - {k})[key] == ipq[key];
      BuffersOut(ipq - {k}, key);
      BuffersOut(ipq - {key}, k);
      assert ipq - {k} - {key} == ipq - {key} - {k};
      Interchange(multiset(ipq[k].frags), multiset(ipq[key].frags), Buffers(ipq - {k} - {key}));
    }
  }

  lemma BuffersStep(ipq: map<FlowKey, Queue>)
    requires ipq != map[]
    ensures Buffers(ipq) == multiset(ipq[Pick(ipq)].frags) + Buffers(ipq - {Pick(ipq)})
  {
  }

  lemma Interchange<T>(a: multiset<T>, b: multiset<T>, c: multiset<T>)
    ensures a + (b + c) == b + (a + c)
  {
  }

  /** A tick gives back the buffers of the queue that it drops, and keeps all others. */
  lemma TickedBuffers(ipq: map<FlowKey, Queue>, key: FlowKey)
    requires key in ipq && ipq[key].ttl > 0
    ensures Buffers(ipq) == Buffers(Ticked(ipq, key)) + if ipq[key].ttl == 1 then multiset(ipq[key].frags) else multiset{}
  {
    BuffersOut(ipq, key);
    if ipq[key].ttl != 1 {
      BuffersOut(Ticked(ipq, key), key);
      assert Ticked(ipq, key) - {key} == ipq - {key};
    }
  }

  /** One tick later for one queue, which is given up when its time is up. */
  function Ticked(ipq: map<FlowKey, Queue>, key: FlowKey): map<FlowKey, Queue>
    requires key in ipq && ipq[key].ttl > 0
  {
    if ipq[key].ttl == 1 then ipq - {key} else ipq[key := ipq[key].(ttl := ipq[key].ttl - 1)]
  }

  /** One tick later: each queue one tick older, without those that reach zero. */
  function Aged(ipq: map<FlowKey, Queue>): map<FlowKey, Queue> {
    map k | k in ipq && ipq[k].ttl > 1 :: ipq[k].(ttl := ipq[k].ttl - 1)
  }

  function AgedBut(ipq: map<FlowKey, Queue>, todo: set<FlowKey>): map<FlowKey, Queue> {
    map k | k in ipq && (k in todo || ipq[k].ttl > 1) :: if k in todo then ipq[k] else ipq[k].(ttl := ipq[k].ttl - 1)
  }

  lemma AgedButStep(ipq: map<FlowKey, Queue>, todo: set<FlowKey>, key: FlowKey)
    requires key in todo && key in ipq && ipq[key].ttl > 0
    ensures key in AgedBut(ipq, todo) && AgedBut(ipq, todo)[key] == ipq[key]
    ensures AgedBut(ipq, todo - {key}) == Ticked(AgedBut(ipq, todo), key)
  {
  }

  lemma AgedButEnds(ipq: map<FlowKey, Queue>)
    ensures AgedBut(ipq, ipq.Keys) == ipq && AgedBut(ipq, {}) == Aged(ipq)
  {
  }
}
