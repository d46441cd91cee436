/** Receiving packets, `ip_input.c`: `ip_input` up to the switch to the protocols, and whole runs of it. */
module IpInput {
  import opened Mbufs
  import opened Options
  import opened IpReassembly
  import opened IpOutput

  /** The checks of lines 83-139 but the checksum, the version and the ttl, which `intact` stands for. */
  predicate Accepted(p: Packet, intact: bool) {
    intact && IP_HEADER <= p.hlen <= p.ipLen <= |p.frame|
  }

  /** The data that `ip_len` admits; longer mbufs are trimmed. */
  function Data(p: Packet): seq<Byte>
    requires Accepted(p, true)
  {
    p.frame[p.hlen..p.ipLen]
  }

  predicate IsFragment(p: Packet) {
    p.More() || p.Offset() > 0
  }

  /** The offsets that a packet carries. */
  function Extent(p: Packet): Piece {
    Piece(p.Offset(), p.Offset() + p.ipLen - p.hlen)
  }

  /** A fragment is a slice of the datagram that its sender cut up, whose length 16 bits can tell. */
  ghost predicate CutFrom(p: Packet, d: seq<Byte>)
    requires Accepted(p, true)
  {
    var e := Extent(p);
    e.lo < e.hi <= |d| < U16_LIMIT && |Data(p)| <= GROWTH && (p.More() <==> e.hi < |d|) && Data(p) == d[e.lo..e.hi]
  }

  /** The mbuf as `slirp_input` fills it: the frame behind the space for the link header. */
  method Receive(p: Packet) returns (m: Mbuf)
    requires Accepted(p, true)
    ensures fresh(m) && m.Valid() && m.data == m.hdr && m.hlen == p.hlen && m.key == p.key
    ensures m.len == p.ipLen && m.Contents() == p.frame[..p.ipLen]
    ensures m.ipLen == p.ipLen && m.ipOff == p.field
  {
    var pad := seq(16, _ => 0);
    m := new Mbuf(pad + p.frame, 16, |p.frame|, p.key, p.hlen, p.field, p.ipLen, false);
    assert m.Contents() == p.frame;
    if m.len > p.ipLen {
      m.Adj(p.ipLen - m.len);
    }
  }

  lemma ShiftKeepsOffset(field: U16)
    ensures field * 8 % 0x1_0000 == field % 0x2000 * 8
  {
  }

  /** Lines 176-187: the length without the header, the more flag apart, the offset in bytes, all in 16 bits. */
  method Convert(m: Mbuf, p: Packet, ghost d: seq<Byte>)
    requires Accepted(p, true) && m.Valid() && m.data == m.hdr && m.hlen == p.hlen && m.key == p.key
    requires m.len == p.ipLen == m.ipLen && m.Contents() == p.frame[..p.ipLen] && m.ipOff == p.field
    requires IsFragment(p) ==> CutFrom(p, d)
    modifies m`ipLen, m`mff, m`ipOff
    ensures m.mff == p.More() && m.ipOff == p.Offset() && m.ipLen == p.ipLen - p.hlen
    ensures IsFragment(p) ==> Arriving(m, d) && PieceOf(m) == Extent(p)
  {
    ShiftKeepsOffset(p.field);
    m.ipLen := m.ipLen - m.hlen;
    m.mff := p.More();
    m.ipOff := m.ipOff * 8 % 0x1_0000;
  }

  /** Lines 88-187: takes the packet in and, if its flags ask for that, makes a fragment of it. */
  method Prepare(p: Packet, ghost d: seq<Byte>) returns (m: Mbuf, plain: bool)
    requires Accepted(p, true) && (IsFragment(p) ==> CutFrom(p, d))
    ensures fresh(m) && m.Valid() && m.hlen <= m.len && m.Contents()[m.hlen..] == Data(p) && m.key == p.key
    ensures plain ==> !IsFragment(p)
    ensures !plain ==> (IsFragment(p) <==> m.mff || m.ipOff != 0)
    ensures !plain && IsFragment(p) ==> Arriving(m, d) && PieceOf(m) == Extent(p)
  {
    m := Receive(p);
    plain := m.ipOff == 0 || m.ipOff == IP_DF;
    if !plain {
      Convert(m, p, d);
    }
  }

  /** What is pending after a fragment with the bytes at `e` has come in: none if it makes the datagram whole. */
  ghost function After(pending: iset<int>, e: Piece, d: seq<Byte>): iset<int> {
    var total := pending + Cover([e]);
    if Fills(total, d) then iset{} else total
  }

  ghost function Upwards(pending: iset<int>, e: Piece, d: seq<Byte>): Option<seq<Byte>> {
    if Fills(pending + Cover([e]), d) then Some(d) else None
  }

  /** Lines 189-203, for a packet that has the flags of a fragment: `m` is its mbuf, freshly made. */
  method Assemble(r: Reassembler, m: Mbuf, ghost e: Piece) returns (up: Option<seq<Byte>>)
    requires r.Valid() && m !in r.repr
    requires m.mff || m.ipOff != 0 ==> Arriving(m, r.origin(m.key)) && PieceOf(m) == e
    requires m.Valid() && m.hlen <= m.len
    modifies r, r.repr, m
    ensures r.Valid() && r.repr <= old(r.repr) + {m}
    ensures forall k | k != m.key :: r.Pending(k) == old(r.Pending(k))
    ensures if old(m.mff || m.ipOff != 0)
            then up == Upwards(old(r.Pending(m.key)), e, r.origin(m.key))
                 && r.Pending(m.key) == After(old(r.Pending(m.key)), e, r.origin(m.key))
            else up == Some(old(m.Contents()[m.hlen..]))
  {
    hide Cover;
    hide Chain;
    hide Pieces;
    hide Fills;
    if m.mff || m.ipOff != 0 {
      var whole := r.IpReass(m);
      return if whole == null then None else Some(whole.Contents()[whole.hlen..]);
    }
    up := Some(m.Contents()[m.hlen..]);
    if m.key in r.ipq {
      r.IpFreef(m.key);
    }
  }

  /** `ip_input`: what goes up to the protocol, if anything does. */
  method Input(r: Reassembler, p: Packet, intact: bool) returns (up: Option<seq<Byte>>)
    requires r.Valid()
    requires Accepted(p, intact) && IsFragment(p) ==> CutFrom(p, r.origin(p.key))
    modifies r, r.repr
    ensures r.Valid() && fresh(r.repr - old(r.repr))
    ensures forall k | k != p.key :: r.Pending(k) == old(r.Pending(k))
    ensures !Accepted(p, intact) ==> up == None && r.Pending(p.key) == old(r.Pending(p.key))
    ensures intact && 20 <= p.hlen <= p.ipLen <= |p.frame| && !IsFragment(p) ==> up == Some(p.frame[p.hlen..p.ipLen])
    ensures Accepted(p, intact) && IsFragment(p) ==>
              up == Upwards(old(r.Pending(p.key)), Extent(p), r.origin(p.key))
              && r.Pending(p.key) == After(old(r.Pending(p.key)), Extent(p), r.origin(p.key))
  {
    if !Accepted(p, intact) {
      return None;
    }
    hide After;
    hide Upwards;
    var m, plain := Prepare(p, r.origin(p.key));
    if plain {
      return Some(m.Contents()[m.hlen..]);
    }
    up := Assemble(r, m, Extent(p));
  }
}
