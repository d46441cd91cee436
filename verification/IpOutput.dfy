/** Sending a datagram, `ip_output.c`: cuts what the interface cannot take into fragments. */
module IpOutput {
  import opened Mbufs

  const IP_MF: nat := 0x2000
  const IP_DF: nat := 0x4000
  /** sizeof (struct ip): `ip_output` adds no options. */
  const IP_HEADER: nat := 20
  /** if_maxlinkhdr, as `if_init` sets it. */
  const LINK_HEADER: nat := 56

  /** A packet on the wire; `field` is the 16-bit word of flags and offset, `frame` starts with the header. */
  datatype Packet = Packet(key: FlowKey, hlen: nat, ipLen: U16, field: U16, frame: seq<Byte>) {
    function Offset(): nat {
      field % 0x2000 * 8
    }

    predicate More() {
      field / IP_MF % 2 == 1
    }

    function Payload(): seq<Byte>
      requires hlen <= |frame|
    {
      frame[hlen..]
    }

    function PayloadEnd(): int {
      Offset() + |frame| - hlen
    }
  }

  /** `p` carries bytes [Offset, PayloadEnd) of `d` behind the header `head`, and nothing else. */
  ghost predicate Carries(p: Packet, d: seq<Byte>, head: seq<Byte>) {
    && |head| == p.hlen == IP_HEADER <= |p.frame| == p.ipLen && p.frame[..p.hlen] == head
    && p.field < IP_DF && p.PayloadEnd() <= |d| && p.Payload() == d[p.Offset()..p.PayloadEnd()]
  }

  /** The packets carry `d` piece by piece, in order, leaving nothing out. */
  ghost predicate Partition(ps: seq<Packet>, d: seq<Byte>, head: seq<Byte>, key: FlowKey) {
    && ps != [] && ps[0].Offset() == 0 && ps[|ps| - 1].PayloadEnd() == |d|
    && (forall i | 0 <= i < |ps| :: Carries(ps[i], d, head) && ps[i].key == key)
    && (forall i | 0 < i < |ps| :: ps[i].Offset() == ps[i - 1].PayloadEnd())
    && (forall i | 0 <= i < |ps| :: ps[i].Offset() < ps[i].PayloadEnd() && (ps[i].More() <==> i < |ps| - 1))
  }

  /** Ip data bytes in each packet but the last. */
  function ChunkSize(mtu: nat): int {
    (mtu - IP_HEADER) / 8 * 8
  }

  /** The largest multiple of 8 that a packet has room for behind its header. */
  predicate IsChunk(c: nat, mtu: nat) {
    c % 8 == 0 && c <= mtu - 20 < c + 8
  }

  lemma ChunkIs(c: nat, mtu: nat)
    requires IsChunk(c, mtu)
    ensures c == ChunkSize(mtu) && (c >= 8 <==> mtu >= 28)
  {
  }

  ghost predicate Ready(m: Mbuf)
    reads m
  {
    m.Valid() && 0 <= m.ipLen < 0x1_0000 && 0 <= m.ipOff < 0x1_0000
  }

  /** What the receiver sees of an mbuf whose header is filled in. */
  function Wire(m: Mbuf): Packet
    requires Ready(m)
    reads m
  {
    Packet(m.key, m.hlen, m.ipLen, m.ipOff, m.Contents())
  }

  function Wires(ms: seq<Mbuf>): (ps: seq<Packet>)
    requires forall i | 0 <= i < |ms| :: Ready(ms[i])
    reads ms
    ensures |ps| == |ms| && forall i | 0 <= i < |ms| :: ps[i] == Wire(ms[i])
  {
    seq(|ms|, i requires 0 <= i < |ms| && Ready(ms[i]) reads ms => Wire(ms[i]))
  }

  /** `m` is an unsent datagram: its header, then its payload. */
  ghost predicate Unsent(m: Mbuf)
    reads m
  {
    m.Valid() && m.hlen == IP_HEADER <= m.len == m.ipLen < 0x1_0000
  }

  function Head(m: Mbuf): seq<Byte>
    requires m.Valid() && IP_HEADER <= m.len
    reads m
  {
    m.Contents()[..IP_HEADER]
  }

  function Body(m: Mbuf): seq<Byte>
    requires m.Valid() && IP_HEADER <= m.len
    reads m
  {
    m.Contents()[IP_HEADER..]
  }

  lemma Middle(a: seq<Byte>, b: seq<Byte>, c: seq<Byte>)
    ensures (a + b + c)[|a|..|a| + |b|] == b
  {
  }

  lemma BodySlice(all: seq<Byte>, off: nat, size: nat)
    requires IP_HEADER <= off && off + size <= |all|
    ensures all[off..off + size] == all[IP_HEADER..][off - IP_HEADER..off + size - IP_HEADER]
  {
  }

  /** Lines 143-172: a new mbuf with the header and then `size` bytes of `m` from `off`; `m_copy` has room for them. */
  method MakeFragment(m: Mbuf, mtu: nat, off: nat, size: nat) returns (f: Mbuf, ok: bool)
    requires Unsent(m) && IP_HEADER <= off && off + size <= m.len && (off - IP_HEADER) % 8 == 0
    requires 0 < size && size + IP_HEADER <= mtu
    ensures fresh(f) && ok && Ready(f)
    ensures Wire(f) == Packet(m.key, IP_HEADER, size + IP_HEADER,
                              (off - IP_HEADER) / 8 + (if off + size < m.len then IP_MF else 0),
                              Head(m) + Body(m)[off - IP_HEADER..off + size - IP_HEADER])
  {
    ghost var head, body, all := Head(m), Body(m), m.Contents();
    var block := seq(LINK_HEADER, _ => 0) + Head(m) + seq(mtu + 6 - IP_HEADER, _ => 0);
    Middle(seq(LINK_HEADER, _ => 0), head, seq(mtu + 6 - IP_HEADER, _ => 0));
    BodySlice(all, off, size);
    f := new Mbuf(block, LINK_HEADER, IP_HEADER, m.key, m.hlen, 0, 0, false);
    f.ipOff := (off - IP_HEADER) / 8 + (if off + size < m.ipLen then IP_MF else 0);
    f.ipLen := size + IP_HEADER;
    assert f.Contents() == head && m.Contents() == all;
    ok := f.Copy(m, off, size);
    assert f.Contents() == head + body[off - IP_HEADER..off + size - IP_HEADER];
    assert Head(m) == head && Body(m) == body;
  }

  /** Packets for the bytes [chunk, upTo) of `d`: of `chunk` bytes each, and marked as followed, unless at the end. */
  ghost predicate Cut(ps: seq<Packet>, d: seq<Byte>, head: seq<Byte>, key: FlowKey, chunk: nat, upTo: int) {
    && (forall i | 0 <= i < |ps| :: Carries(ps[i], d, head) && ps[i].key == key && ps[i].ipLen <= IP_HEADER + chunk)
    && (forall i | 0 <= i < |ps| :: ps[i].Offset() == (if i == 0 then chunk else ps[i - 1].PayloadEnd()))
    && (forall i | 0 <= i < |ps| :: ps[i].Offset() < ps[i].PayloadEnd())
    && (forall i | 0 <= i < |ps| :: ps[i].More() <==> ps[i].PayloadEnd() < |d|)
    && (forall i | 0 <= i < |ps| :: ps[i].More() ==> ps[i].ipLen == IP_HEADER + chunk)
    && upTo == (if ps == [] then chunk else ps[|ps| - 1].PayloadEnd())
  }

  /** The header fields that the loop fills in say where the data belongs and whether more follow. */
  lemma FieldsTell(p: Packet, d: seq<Byte>, head: seq<Byte>, key: FlowKey, from: nat, size: nat)
    requires |head| == IP_HEADER && from % 8 == 0 && from + size <= |d| && |d| + IP_HEADER < 0x1_0000
    requires p == Packet(key, IP_HEADER, size + IP_HEADER, from / 8 + (if from + size < |d| then IP_MF else 0),
                         head + d[from..from + size])
    ensures p.Offset() == from && p.PayloadEnd() == from + size && (p.More() <==> from + size < |d|)
    ensures Carries(p, d, head)
  {
    assert from / 8 < 0x2000;
  }

  lemma CutNothing(d: seq<Byte>, head: seq<Byte>, key: FlowKey, chunk: nat)
    ensures Cut([], d, head, key, chunk, chunk)
  {
  }

  lemma CutMore(ps: seq<Packet>, d: seq<Byte>, head: seq<Byte>, key: FlowKey, chunk: nat, upTo: nat, size: nat, p: Packet)
    requires Cut(ps, d, head, key, chunk, upTo) && |head| == IP_HEADER && |d| + IP_HEADER < 0x1_0000
    requires 0 < size <= chunk && upTo + size <= |d| && upTo % 8 == 0 && (size == chunk || upTo + size == |d|)
    requires p == Packet(key, IP_HEADER, size + IP_HEADER, upTo / 8 + (if upTo + size < |d| then IP_MF else 0),
                         head + d[upTo..upTo + size])
    ensures Cut(ps + [p], d, head, key, chunk, upTo + size)
  {
    hide Carries;
    FieldsTell(p, d, head, key, upTo, size);
  }

  lemma CutPartition(first: Packet, ps: seq<Packet>, d: seq<Byte>, head: seq<Byte>, key: FlowKey, chunk: nat)
    requires Cut(ps, d, head, key, chunk, |d|) && 0 < chunk < |d| && |d| + IP_HEADER < 0x1_0000 && |head| == IP_HEADER
    requires first == Packet(key, IP_HEADER, chunk + IP_HEADER, IP_MF, head + d[..chunk])
    ensures Partition([first] + ps, d, head, key)
    ensures forall i | 0 <= i < |ps| :: ([first] + ps)[i].ipLen == IP_HEADER + chunk
  {
    hide Carries;
    FieldsTell(first, d, head, key, 0, chunk);
    CutOffsets(first, ps, d, head, key, chunk);
    CutFlags(first, ps, d, head, key, chunk);
    hide Packet.PayloadEnd;
    hide Packet.Offset;
    hide Packet.More;
    var all := [first] + ps;
    assert forall i | 0 < i < |all| :: all[i] == ps[i - 1];
  }

  lemma CutOffsets(first: Packet, ps: seq<Packet>, d: seq<Byte>, head: seq<Byte>, key: FlowKey, chunk: nat)
    requires Cut(ps, d, head, key, chunk, |d|) && first.PayloadEnd() == chunk
    ensures var all := [first] + ps; forall i | 0 < i < |all| :: all[i].Offset() == all[i - 1].PayloadEnd()
  {
    hide Carries;
    hide Packet.PayloadEnd;
    hide Packet.Offset;
    var all := [first] + ps;
    forall i | 0 < i < |all|
      ensures all[i].Offset() == all[i - 1].PayloadEnd()
    {
      var k := i - 1;
      assert ps[k].Offset() == (if k == 0 then chunk else ps[k - 1].PayloadEnd());
      assert all[i] == ps[k] && (if k == 0 then all[i - 1] == first else all[i - 1] == ps[k - 1]);
    }
  }

  lemma CutFlags(first: Packet, ps: seq<Packet>, d: seq<Byte>, head: seq<Byte>, key: FlowKey, chunk: nat)
    requires Cut(ps, d, head, key, chunk, |d|) && chunk < |d| && first.More() && first.ipLen == IP_HEADER + chunk
    ensures var all := [first] + ps; forall i | 0 <= i < |all| :: all[i].More() <==> i < |all| - 1
    ensures var all := [first] + ps; forall i | 0 <= i < |ps| :: all[i].ipLen == IP_HEADER + chunk
  {
    hide Carries;
    hide Packet.Offset;
    hide Packet.More;
    var all := [first] + ps;
    forall i | 0 < i < |all|
      ensures all[i] == ps[i - 1] && (all[i].More() <==> i < |all| - 1)
    {
      var k := i - 1;
      if k + 1 < |ps| {
        assert ps[k + 1].Offset() == ps[k].PayloadEnd();
        EndsInside(ps, d, head, key, chunk, |d|, k + 1);
        assert ps[k + 1].Offset() < ps[k + 1].PayloadEnd() <= |d|;
      }
      hide Packet.PayloadEnd;
    }
  }

  lemma EndsInside(ps: seq<Packet>, d: seq<Byte>, head: seq<Byte>, key: FlowKey, chunk: nat, upTo: int, i: nat)
    requires Cut(ps, d, head, key, chunk, upTo) && i < |ps|
    ensures ps[i].PayloadEnd() <= |d|
  {
  }

  /** How much payload fits the first fragment and `spare` more. */
  function Room(chunk: nat, spare: nat): nat {
    chunk * (1 + spare)
  }

  lemma RoomNext(chunk: nat, n: nat)
    ensures Room(chunk, n + 1) == Room(chunk, n) + chunk && Room(chunk, 0) == chunk
    ensures chunk % 8 == 0 ==> Room(chunk, n) % 8 == 0
  {
    if chunk % 8 == 0 {
      assert chunk * (1 + n) == 8 * (chunk / 8 * (1 + n));
    }
  }

  lemma RoomMonotone(chunk: nat, x: nat, y: nat)
    requires x <= y
    ensures Room(chunk, x) <= Room(chunk, y)
  {
  }

  /** Can the datagram be cut up: may it be, do 8 bytes fit, are there buffers for all but the first fragment? */
  predicate CanFragment(size: nat, mtu: nat, df: bool, spare: nat) {
    !df && ChunkSize(mtu) >= 8 && size <= Room(ChunkSize(mtu), spare)
  }

  lemma SplitBy8(mtu: nat, size: nat, df: bool, spare: nat)
    ensures CanFragment(size, mtu, df, spare) <==> !df && ChunkSize(mtu) >= 8 && size <= Room(ChunkSize(mtu), spare)
    ensures ChunkSize(mtu) % 8 == 0
    ensures ChunkSize(mtu) >= 8 ==> ChunkSize(mtu) + IP_HEADER <= mtu && IsChunk(ChunkSize(mtu), mtu)
  {
  }

  /** More chunks than there are buffers: the packet's own and `spare` others. */
  ghost predicate NeedsMore(size: nat, mtu: nat, spare: nat) {
    exists c: nat :: IsChunk(c, mtu) && size > c * (spare + 1)
  }

  /** The same in plain numbers. */
  lemma Chunks(mtu: nat, size: nat, df: bool, spare: nat)
    ensures forall c: nat | IsChunk(c, mtu) :: c == ChunkSize(mtu)
    ensures CanFragment(size, mtu, df, spare) <==>
              !df && mtu >= 28 && !NeedsMore(size, mtu, spare)
  {
    if mtu >= 20 {
      assert IsChunk(ChunkSize(mtu), mtu);
    }
    forall c: nat | IsChunk(c, mtu)
      ensures c == ChunkSize(mtu)
    {
      ChunkIs(c, mtu);
    }
  }

  /** Lines 130-174: fragments for all that follows the first `len0` bytes of payload; stops when buffers run out. */
  method CutRest(m: Mbuf, mtu: nat, len0: nat, spare: nat) returns (rest: seq<Mbuf>, ok: bool)
    requires Unsent(m) && 0 < len0 < |Body(m)| && len0 % 8 == 0 && len0 + IP_HEADER <= mtu
    ensures ok <==> |Body(m)| <= Room(len0, spare)
    ensures ok ==> forall i | 0 <= i < |rest| :: fresh(rest[i]) && Ready(rest[i])
    ensures ok ==> Cut(Wires(rest), Body(m), Head(m), m.key, len0, |Body(m)|)
  {
    hide Room;
    hide Carries;
    hide Packet.PayloadEnd;
    hide Cut;
    CutNothing(Body(m), Head(m), m.key, len0);
    RoomNext(len0, 0);
    var len := len0;
    rest := [];
    ghost var ps: seq<Packet> := [];
    var off, left := IP_HEADER + len, spare;
    while off < m.ipLen
      invariant off <= m.ipLen && 0 < len <= len0
      invariant off < m.ipLen ==> len == len0 && off - IP_HEADER == Room(len0, |ps|)
      invariant off == m.ipLen ==> |Body(m)| <= Room(len0, |ps|)
      invariant 0 <= left == spare - |ps|
      invariant |rest| == |ps| && forall i | 0 <= i < |ps| :: fresh(rest[i]) && Ready(rest[i]) && Wire(rest[i]) == ps[i]
      invariant Cut(ps, Body(m), Head(m), m.key, len0, off - IP_HEADER)
    {
      if left == 0 {
        return rest, false;
      }
      left := left - 1;
      if off + len >= m.ipLen {
        len := m.ipLen - off;
      }
      RoomNext(len0, |ps|);
      var f;
      f, ok := MakeFragment(m, mtu, off, len);
      if !ok {
        return rest, false;
      }
      CutMore(ps, Body(m), Head(m), m.key, len0, off - IP_HEADER, len, Wire(f));
      rest := rest + [f];
      ps := ps + [Wire(f)];
      off := off + len;
    }
    RoomMonotone(len0, |ps|, spare);
    assert Wires(rest) == ps;
    ok := true;
  }

  /** Lines 179-182: trims what has been copied out of the first fragment and updates its header. */
  method TrimFirst(m: Mbuf, firstlen: nat)
    requires Unsent(m) && m.ipOff == 0 && firstlen < |Body(m)|
    modifies m
    ensures Ready(m)
    ensures Wire(m) == Packet(m.key, IP_HEADER, firstlen + IP_HEADER, IP_MF, old(Head(m) + Body(m)[..firstlen]))
  {
    m.Adj(IP_HEADER + firstlen - m.ipLen);
    m.ipLen := m.len;
    m.ipOff := m.ipOff + IP_MF;
  }

  lemma WiresCons(m: Mbuf, rest: seq<Mbuf>)
    requires Ready(m) && forall i | 0 <= i < |rest| :: Ready(rest[i])
    ensures forall i | 0 <= i < |rest| + 1 :: Ready(([m] + rest)[i])
    ensures Wires([m] + rest) == [Wire(m)] + Wires(rest)
  {
  }

  lemma ShortPackets(ps: seq<Packet>, d: seq<Byte>, head: seq<Byte>, key: FlowKey, chunk: nat)
    requires Cut(ps, d, head, key, chunk, |d|) && chunk < |d|
    ensures ps != [] && forall i | 0 <= i < |ps| :: ps[i].ipLen <= IP_HEADER + chunk
  {
  }

  /** Packets of at most the MTU that cut `d` up, of which all but the last carry `chunk` bytes. */
  ghost predicate Fragmented(sent: seq<Mbuf>, d: seq<Byte>, head: seq<Byte>, key: FlowKey, mtu: nat, chunk: nat)
    reads sent
  {
    && |sent| > 1 && (forall i | 0 <= i < |sent| :: Ready(sent[i]) && Wire(sent[i]).ipLen <= mtu)
    && Partition(Wires(sent), d, head, key)
    && forall i | 0 <= i < |sent| - 1 :: Wire(sent[i]).ipLen == 20 + chunk
  }

  lemma FirstAndRest(m: Mbuf, rest: seq<Mbuf>, ps: seq<Packet>, d: seq<Byte>, head: seq<Byte>, mtu: nat, chunk: nat)
    requires Ready(m) && (forall i | 0 <= i < |rest| :: Ready(rest[i])) && Wires(rest) == ps
    requires Cut(ps, d, head, m.key, chunk, |d|) && 0 < chunk < |d| && |d| + IP_HEADER < 0x1_0000 && |head| == IP_HEADER
    requires Wire(m) == Packet(m.key, IP_HEADER, chunk + IP_HEADER, IP_MF, head + d[..chunk]) && chunk + IP_HEADER <= mtu
    ensures Fragmented([m] + rest, d, head, m.key, mtu, chunk)
  {
    WiresCons(m, rest);
    ShortPackets(ps, d, head, m.key, chunk);
    CutPartition(Wire(m), ps, d, head, m.key, chunk);
    hide Cut;
    hide Partition;
    var sent, all := [m] + rest, [Wire(m)] + ps;
    forall i | 0 <= i < |sent|
      ensures Wire(sent[i]) == all[i] && Wire(sent[i]).ipLen <= mtu
    {
      assert Wires(sent)[i] == all[i];
    }
  }

  /** Lines 125-183: all the fragments, the first made of what is left of `m`. */
  method FragmentAll(m: Mbuf, mtu: nat, firstlen: nat, spare: nat) returns (sent: seq<Mbuf>, ok: bool)
    requires Unsent(m) && m.ipOff == 0
    requires 0 < firstlen < |Body(m)| && firstlen % 8 == 0 && firstlen + IP_HEADER <= mtu
    modifies m
    ensures ok <==> old(|Body(m)|) <= Room(firstlen, spare)
    ensures ok ==> Fragmented(sent, old(Body(m)), old(Head(m)), m.key, mtu, firstlen)
  {
    hide Carries;
    ghost var d, head := Body(m), Head(m);
    var rest;
    rest, ok := CutRest(m, mtu, firstlen, spare);
    if !ok {
      return [], false;
    }
    ghost var ps := Wires(rest);
    TrimFirst(m, firstlen);
    sent := [m] + rest;
    FirstAndRest(m, rest, ps, d, head, mtu, firstlen);
  }

  /**
   * `ip_output`: the packets handed to `if_output`, none when it reports an error. `spare` is how many more
   * buffers `m_get` can find.
   */
  method IpOutput(m: Mbuf, mtu: nat, df: bool, spare: nat) returns (sent: seq<Mbuf>, error: bool)
    requires Unsent(m)
    modifies m
    ensures error ==> sent == []
    ensures error <==> old(m.len) > mtu && !CanFragment(old(|Body(m)|), mtu, df, spare)
    ensures old(m.len) <= mtu ==>
              sent == [m] && Ready(m)
              && Wire(m) == Packet(m.key, IP_HEADER, old(m.len), if df then IP_DF else 0, old(m.Contents()))
    ensures old(m.len) > mtu && !error ==> exists c: nat :: IsChunk(c, mtu) && Fragmented(sent, old(Body(m)), old(Head(m)), m.key, mtu, c)
    ensures error <==> old(m.len) > mtu && (df || mtu < 28 || NeedsMore(old(|Body(m)|), mtu, spare))
  {
    hide Room;
    hide IsChunk;
    hide NeedsMore;
    hide CanFragment;
    hide Fragmented;
    ghost var d, head := Body(m), Head(m);
    Chunks(mtu, |d|, df, spare);
    m.ipOff := if df then IP_DF else 0;
    assert Body(m) == d && Head(m) == head;
    if m.ipLen <= mtu {
      return [m], false;
    }
    sent, error := CutUp(m, mtu, df, spare);
  }

  /** Lines 109-184, for a datagram that does not fit. */
  method CutUp(m: Mbuf, mtu: nat, df: bool, spare: nat) returns (sent: seq<Mbuf>, error: bool)
    requires Unsent(m) && m.len > mtu && m.ipOff == if df then IP_DF else 0
    modifies m
    ensures error ==> sent == []
    ensures error <==> !CanFragment(old(|Body(m)|), mtu, df, spare)
    ensures !error ==> exists c: nat :: IsChunk(c, mtu) && Fragmented(sent, old(Body(m)), old(Head(m)), m.key, mtu, c)
  {
    SplitBy8(mtu, |Body(m)|, df, spare);
    hide Room;
    hide IsChunk;
    hide CanFragment;
    hide ChunkSize;
    hide Fragmented;
    if df {
      return [], true;
    }
    var len := ChunkSize(mtu);
    if len < 8 {
      return [], true;
    }
    var ok;
    sent, ok := FragmentAll(m, mtu, len, spare);
    error := !ok;
    if error {
      sent := [];
    }
  }
}
