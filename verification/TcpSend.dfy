/** The send side of a TCP connection as a value: what `tcp_output` and the timers decide, and what that keeps. */
module TcpSend {
  import opened Mbufs
  import opened Numbers
  import opened TcpSequence

  const PR_SLOWHZ := 2
  const TCP_MAXWIN := 65535
  const TCP_MAXRXTSHIFT := 12
  const TCPTV_PERSMIN := 5 * PR_SLOWHZ
  const TCPTV_PERSMAX := 60 * PR_SLOWHZ
  const TCPTV_REXMTMAX := 12 * PR_SLOWHZ

  /** The states from ESTABLISHED on. */
  datatype Phase = Established | CloseWait | FinWait1 | Closing | LastAck | FinWait2 | TimeWait

  /** `tcp_outflags` has TH_FIN for these. */
  predicate SendsFin(p: Phase) {
    p == FinWait1 || p == Closing || p == LastAck
  }

  /**
   * The fields of `struct tcpcb` that the send side uses, and of the two buffers of the socket: `snd` holds the data that
   * has not been acknowledged, `rcvCc` and `rcvLen` are `sb_cc` and `sb_datalen` of the receive buffer.
   * `rcvUnit` is 1 shifted by `rcv_scale`.
   */
  datatype Tcb = Tcb(
    phase: Phase, rexmt: int, persist: int, rxtShift: int, rxtCur: int, maxSeg: int, force: bool,
    ackNow: bool, delAck: bool, sentFin: bool,
    sndUna: Seq, sndNxt: Seq, sndUp: Seq, sndMax: Seq, sndWnd: int, sndCwnd: int, ssThresh: int, maxSndWnd: int,
    rcvNxt: Seq, rcvAdv: Seq, rcvUnit: int, lastAckSent: Seq,
    idle: int, rtt: int, rtSeq: Seq, srtt: int, rttVar: int, rttMin: int, dupAcks: int,
    snd: seq<Byte>, rcvCc: int, rcvLen: int)

  /** What goes to `ip_output`. */
  datatype Segment = Segment(sq: Seq, ack: Seq, fin: bool, psh: bool, urg: bool, win: int, data: seq<Byte>)

  /** An int stored in a short. */
  function Short(v: int): int { (v + 0x8000) % 0x1_0000 - 0x8000 }

  // ---- what is kept

  function Outstanding(s: Tcb): int { Sub(s.sndMax, s.sndUna) }

  /** A FIN is on its way. */
  predicate FinOut(s: Tcb) { s.sentFin && SendsFin(s.phase) }

  /** `rcv_adv - rcv_nxt`: how much of the window that the peer knows of is left. */
  function Promised(s: Tcb): int { Diff(s.rcvAdv, s.rcvNxt) }

  /** sbspace(&so->so_rcv) */
  function Space(s: Tcb): int { s.rcvLen - s.rcvCc }

  /** snd_una <= snd_nxt <= snd_max, and what is between them is data of the buffer, and the FIN behind it. */
  ghost predicate SendOrder(s: Tcb) {
    && Sub(s.sndNxt, s.sndUna) <= Outstanding(s) <= |s.snd| + 1
    && (if FinOut(s) then Outstanding(s) == |s.snd| + 1 else Outstanding(s) <= |s.snd|)
    && |s.snd| < 0x4000_0000
  }

  /** The peer has not been promised more than there is room for. */
  ghost predicate Room(s: Tcb) {
    && 0 <= s.rcvCc <= s.rcvLen < 0x4000_0000
    && -0x4000_0000 < Promised(s) <= Space(s)
    && 1 <= s.rcvUnit <= 0x4000 && Promised(s) <= TCP_MAXWIN * s.rcvUnit
  }

  ghost predicate Timers(s: Tcb) {
    && s.rexmt >= 0 && s.persist >= 0 && s.rxtCur >= 1 && 0 <= s.rxtShift <= TCP_MAXRXTSHIFT
    && 32 <= s.maxSeg <= 65535
    && 0 <= s.sndWnd < TWO_31 && 1 <= s.sndCwnd < TWO_31
    && 1 <= s.rttMin <= TCPTV_REXMTMAX
  }

  ghost predicate Inv(s: Tcb) {
    SendOrder(s) && Room(s) && Timers(s)
  }

  // ---- deciding what to send, lines 92-268 of `tcp_output.c`

  /** Lines 92-99: after a pause the congestion window begins at one segment again. */
  function Started(s: Tcb): Tcb {
    if s.sndMax == s.sndUna && s.idle >= s.rxtCur then s.(sndCwnd := s.maxSeg) else s
  }

  /** What the peer and the congestion window allow. */
  function Window(s: Tcb): int { Min(s.sndWnd, s.sndCwnd) }

  function Usable(s: Tcb): int { if s.force && Window(s) == 0 then 1 else Window(s) }

  function Offset(s: Tcb): int { Sub(s.sndNxt, s.sndUna) }

  function Sendable(s: Tcb): int { Min(|s.snd|, Usable(s)) - Offset(s) }

  /** How many bytes go into the next segment. */
  function Length(s: Tcb): int {
    if Sendable(s) < 0 then 0 else Min(Sendable(s), s.maxSeg)
  }

  predicate SendAlot(s: Tcb) { Sendable(s) > s.maxSeg }

  /** Lines 115-160: what the decision changes. */
  function Prepared(s: Tcb): Tcb {
    var t := if s.force && Window(s) != 0 then s.(persist := 0, rxtShift := 0) else s;
    if Sendable(s) < 0 && Usable(s) == 0 then t.(rexmt := 0, sndNxt := s.sndUna) else t
  }

  /** Is the FIN bit set? `t` is the prepared `s`. */
  predicate FinBit(s: Tcb, t: Tcb) {
    && SendsFin(s.phase) && !(s.force && Window(s) == 0 && Offset(s) < |s.snd|)
    && !Lt(Add(t.sndNxt, Length(s)), Add(s.sndUna, |s.snd|))
  }

  /** Lines 181-193. */
  predicate WorthSending(s: Tcb, t: Tcb) {
    Length(s) > 0 && (Length(s) == s.maxSeg || Length(s) + Offset(s) >= |s.snd| || s.force
                      || (s.maxSndWnd > 0 && Length(s) >= s.maxSndWnd / 2) || Lt(t.sndNxt, s.sndMax))
  }

  /** Lines 202-215: the peer should hear of a larger window. */
  predicate WindowUpdate(s: Tcb) {
    var adv := Min(Space(s), TCP_MAXWIN * s.rcvUnit) - Promised(s);
    Space(s) > 0 && (adv >= 2 * s.maxSeg || 2 * adv >= s.rcvLen)
  }

  /** Lines 220-233. */
  predicate Owes(s: Tcb, t: Tcb) {
    s.ackNow || Gt(s.sndUp, s.sndUna) || (FinBit(s, t) && (!s.sentFin || t.sndNxt == s.sndUna))
  }

  predicate MustSend(s: Tcb) {
    var t := Prepared(s);
    WorthSending(s, t) || WindowUpdate(s) || Owes(s, t)
  }

  /** `tcp_backoff` */
  const BACKOFF: seq<int> := [1, 2, 4, 8, 16, 32, 64, 64, 64, 64, 64, 64, 64]

  /** TCPT_RANGESET into a short. */
  function RangeSet(value: int, low: int, high: int): int {
    if Short(value) < low then low else if Short(value) > high then high else Short(value)
  }

  /** `tcp_setpersist` */
  function Persisting(s: Tcb): Tcb
    requires 0 <= s.rxtShift <= TCP_MAXRXTSHIFT
  {
    var t := (s.srtt / 4 + s.rttVar) / 2;
    s.(persist := RangeSet(t * BACKOFF[s.rxtShift], TCPTV_PERSMIN, TCPTV_PERSMAX),
       rxtShift := if s.rxtShift < TCP_MAXRXTSHIFT then s.rxtShift + 1 else s.rxtShift)
  }

  /** Lines 257-268: nothing is sent. */
  function Withheld(s: Tcb): Tcb {
    var t := Prepared(s);
    if |s.snd| > 0 && t.rexmt == 0 && t.persist == 0 then Persisting(t.(rxtShift := 0)) else t
  }

  // ---- the segment, lines 270-526

  /** Lines 412-414: a FIN that is sent again keeps its number. */
  function Backed(s: Tcb, fin: bool): Tcb {
    if fin && s.sentFin && s.sndNxt == s.sndMax then s.(sndNxt := Add(s.sndNxt, -1)) else s
  }

  /** Lines 442-447: the window to advertise. */
  function Advertised(s: Tcb): int {
    var w0 := if Space(s) < s.rcvLen / 4 && Space(s) < s.maxSeg then 0 else Space(s);
    var w1 := if w0 > TCP_MAXWIN * s.rcvUnit then TCP_MAXWIN * s.rcvUnit else w0;
    if w1 < Promised(s) then Promised(s) else w1
  }

  function SegmentOf(s: Tcb): Segment
    requires Length(s) > 0 ==> Offset(s) + Length(s) <= |s.snd|
    requires s.rcvUnit > 0
  {
    var len, fin := Length(s), FinBit(s, Prepared(s));
    var t := Backed(Prepared(s), fin);
    Segment(if len > 0 || fin || t.persist != 0 then t.sndNxt else t.sndMax, s.rcvNxt, fin,
            len > 0 && Offset(s) + len == |s.snd|, Gt(s.sndUp, s.sndUna), (Advertised(s) / s.rcvUnit) % 0x1_0000,
            if len > 0 then s.snd[Offset(s)..Offset(s) + len] else [])
  }

  /** Lines 479-526: the sequence space of the segment, and the retransmit timer. */
  function Advanced(s: Tcb, len: int, fin: bool): Tcb {
    if !s.force || s.persist == 0 then
      var nxt := Add(s.sndNxt, len + if fin then 1 else 0);
      var more := Gt(nxt, s.sndMax);
      var t := s.(sndNxt := nxt, sentFin := s.sentFin || fin, sndMax := if more then nxt else s.sndMax,
                  rtt := if more && s.rtt == 0 then 1 else s.rtt, rtSeq := if more && s.rtt == 0 then s.sndNxt else s.rtSeq);
      if t.rexmt == 0 && t.sndNxt != t.sndUna then
        if t.persist != 0 then t.(rexmt := t.rxtCur, persist := 0, rxtShift := 0) else t.(rexmt := t.rxtCur)
      else t
    else
      if Gt(Add(s.sndNxt, len), s.sndMax) then s.(sndMax := Add(s.sndNxt, len)) else s
  }

  function Emitted(s: Tcb): Tcb {
    var fin := FinBit(s, Prepared(s));
    var t := Backed(Prepared(s), fin);
    var u := if Gt(t.sndUp, t.sndUna) then t else t.(sndUp := t.sndUna);
    Advanced(u, Length(s), fin)
  }

  /** Lines 578-581, when `ip_output` has not failed. */
  function Acknowledged(s: Tcb, win: int): Tcb {
    s.(rcvAdv := if win > 0 && Gt(Add(s.rcvNxt, win), s.rcvAdv) then Add(s.rcvNxt, win) else s.rcvAdv,
       lastAckSent := s.rcvNxt, ackNow := false, delAck := false)
  }

  // ---- what the sequence numbers mean

  /** Comparisons of sequence numbers are comparisons of their distances from snd_una. */
  lemma Distances(s: Tcb, n: int)
    requires SendOrder(s) && 0 <= n <= 0x4000_0001
    ensures s.sndNxt == Add(s.sndUna, Offset(s)) && s.sndMax == Add(s.sndUna, Outstanding(s))
    ensures Lt(Add(s.sndNxt, n), Add(s.sndUna, |s.snd|)) <==> Offset(s) + n < |s.snd|
    ensures Gt(Add(s.sndNxt, n), s.sndMax) <==> Offset(s) + n > Outstanding(s)
    ensures Add(s.sndNxt, n) == Add(s.sndUna, Offset(s) + n)
    ensures Offset(s) == Outstanding(s) <==> s.sndNxt == s.sndMax
  {
    var u, a, m, c := s.sndUna, Offset(s), Outstanding(s), |s.snd|;
    AddSub(s.sndNxt, u);
    AddSub(s.sndMax, u);
    AddTwice(u, a, n);
    Near(u, a + n, c);
    Near(u, a + n, m);
  }

  lemma UnaItself(s: Tcb)
    ensures Sub(s.sndUna, s.sndUna) == 0
  {
  }

  /** What the decision leaves: the window closed, or everything as it was. */
  lemma PreparedKeeps(s: Tcb)
    requires Inv(s)
    ensures Inv(Prepared(s)) && Outstanding(Prepared(s)) == Outstanding(s)
    ensures Offset(Prepared(s)) == if Sendable(s) < 0 && Usable(s) == 0 then 0 else Offset(s)
  {
    UnaItself(s);
  }

  lemma WithheldKeeps(s: Tcb)
    requires Inv(s)
    ensures Inv(Withheld(s)) && Withheld(s).rcvAdv == s.rcvAdv && Withheld(s).snd == s.snd && Withheld(s).sndUna == s.sndUna
  {
    PreparedKeeps(s);
  }

  /** A FIN comes behind all data of the buffer, and data comes from where the sequence number says. */
  lemma Placed(s: Tcb)
    requires Inv(s)
    ensures var len, fin, t := Length(s), FinBit(s, Prepared(s)), Backed(Prepared(s), FinBit(s, Prepared(s)));
      && SendOrder(t) && t.sndUna == s.sndUna && t.snd == s.snd && Outstanding(t) == Outstanding(s)
      && (len > 0 ==> Offset(t) == Offset(s) && Offset(s) + len <= |s.snd|)
      && (fin ==> Offset(t) + len == |s.snd|)
  {
    PreparedKeeps(s);
    var len, p := Length(s), Prepared(s);
    assert len == 0 || len == Sendable(s) || len == s.maxSeg;
    Distances(p, len);
    var fin := FinBit(s, p);
    if fin && p.sentFin && p.sndNxt == p.sndMax {
      assert Outstanding(p) == |s.snd| + 1 == Offset(p);
      assert p.sndNxt == Add(p.sndUna, |s.snd| + 1);
      AddTwice(p.sndUna, |s.snd| + 1, -1);
      SubAdd(p.sndUna, |s.snd|);
    }
  }

  lemma AdvancedOrder(s: Tcb, len: int, fin: bool)
    requires SendOrder(s) && len >= 0 && Offset(s) + len <= |s.snd| + 1 && (len > 0 ==> Offset(s) + len <= |s.snd|)
    requires fin ==> SendsFin(s.phase) && Offset(s) + len == |s.snd|
    ensures SendOrder(Advanced(s, len, fin)) && Advanced(s, len, fin).sndUna == s.sndUna
    ensures !s.force || s.persist == 0 ==> Offset(Advanced(s, len, fin)) == Offset(s) + len + if fin then 1 else 0
    ensures Outstanding(Advanced(s, len, fin)) >= Outstanding(s)
  {
    hide Add;
    hide Sub;
    hide Gt;
    hide Lt;
    var n := len + if fin then 1 else 0;
    Distances(s, n);
    Distances(s, len);
    SubAdd(s.sndUna, Offset(s) + n);
    SubAdd(s.sndUna, Offset(s) + len);
  }

  // ---- what is sent

  /**
   * Data is taken from inside the buffer, inside what peer and congestion window allow (but for the one byte of a probe),
   * at most a segment of it, and carries the sequence number of its place.
   */
  lemma InsideWindow(s: Tcb)
    requires Inv(s) && Length(s) > 0
    ensures Offset(s) + Length(s) <= |s.snd| && Offset(s) + Length(s) <= Window(s) + (if s.force && Window(s) == 0 then 1 else 0)
    ensures SegmentOf(s).data == s.snd[Offset(s)..Offset(s) + Length(s)] && |SegmentOf(s).data| <= s.maxSeg
    ensures SegmentOf(s).sq == Add(s.sndUna, Offset(s))
  {
    Placed(s);
    Distances(Backed(Prepared(s), FinBit(s, Prepared(s))), 0);
  }

  /** The FIN is behind the last byte of the buffer, each time it is sent. */
  lemma FinBehindData(s: Tcb)
    requires Inv(s) && FinBit(s, Prepared(s))
    ensures Length(s) > 0 ==> Offset(s) + Length(s) <= |s.snd|
    ensures SegmentOf(s).fin && Add(SegmentOf(s).sq, |SegmentOf(s).data|) == Add(s.sndUna, |s.snd|)
  {
    Placed(s);
    Distances(Backed(Prepared(s), true), Length(s));
    hide FinBit;
    hide Prepared;
    hide Add;
  }

  lemma EmittedKeepsOrder(s: Tcb)
    requires Inv(s)
    ensures SendOrder(Emitted(s)) && Emitted(s).sndUna == s.sndUna && Outstanding(Emitted(s)) >= Outstanding(s)
  {
    Placed(s);
    var fin := FinBit(s, Prepared(s));
    var t := Backed(Prepared(s), fin);
    var u := if Gt(t.sndUp, t.sndUna) then t else t.(sndUp := t.sndUna);
    assert Offset(u) == Offset(t) && Outstanding(u) == Outstanding(t);
    hide Offset;
    hide Outstanding;
    assert SendOrder(u);
    assert Offset(u) + Length(s) <= |u.snd| + 1 by {
      OffsetSmall(u);
    }
    AdvancedOrder(u, Length(s), fin);
  }

  lemma OffsetSmall(s: Tcb)
    requires SendOrder(s)
    ensures Offset(s) <= |s.snd| + 1
  {
  }

  lemma EmittedKeeps(s: Tcb)
    requires Inv(s)
    ensures Inv(Emitted(s)) && Emitted(s).rcvUnit == s.rcvUnit && Emitted(s).rcvAdv == s.rcvAdv && Emitted(s).rcvNxt == s.rcvNxt && Emitted(s).snd == s.snd
    ensures Emitted(s).rcvCc == s.rcvCc && Emitted(s).rcvLen == s.rcvLen
  {
    EmittedKeepsOrder(s);
    PreparedKeeps(s);
    var fin := FinBit(s, Prepared(s));
    var t := Backed(Prepared(s), fin);
    hide SendOrder;
    hide Prepared;
    hide FinBit;
    hide Length;
    hide Gt;
    hide Add;
    AdvancedRest(if Gt(t.sndUp, t.sndUna) then t else t.(sndUp := t.sndUna), Length(s), fin);
  }

  lemma AdvancedRest(s: Tcb, len: int, fin: bool)
    requires Timers(s)
    ensures var t := Advanced(s, len, fin);
      && Timers(t) && t.rcvAdv == s.rcvAdv && t.rcvNxt == s.rcvNxt && t.snd == s.snd && t.rcvCc == s.rcvCc && t.rcvLen == s.rcvLen
      && t.rcvUnit == s.rcvUnit
  {
    hide Gt;
    hide Add;
  }

  // ---- the window that is advertised

  /** No more than there is room for, no less than was promised, and it fits the field. */
  lemma AdvertisedFits(s: Tcb)
    requires Inv(s)
    ensures Promised(s) <= Advertised(s) && 0 <= Advertised(s) <= Space(s) && Advertised(s) <= TCP_MAXWIN * s.rcvUnit
    ensures Advertised(s) / s.rcvUnit <= 0xffff
  {
    var w, k := Advertised(s), s.rcvUnit;
    assert w <= TCP_MAXWIN * k;
    DivideBound(w, k);
  }

  lemma NotPositive(x: int, k: int)
    requires k >= 1 && x * k <= 0
    ensures x <= 0
  {
    assert x >= 0 ==> x * k >= x;
  }

  lemma DivideBound(w: int, k: int)
    requires k >= 1 && 0 <= w <= TCP_MAXWIN * k
    ensures w / k <= TCP_MAXWIN
  {
    var q := w / k;
    assert q * k <= w;
    assert (q - TCP_MAXWIN) * k == q * k - TCP_MAXWIN * k <= 0;
    NotPositive(q - TCP_MAXWIN, k);
  }

  /** The right edge never moves back, and what was promised still fits the buffer. */
  lemma AcknowledgedKeeps(s: Tcb, win: int)
    requires Inv(s) && 0 <= win <= Space(s) && win <= TCP_MAXWIN * s.rcvUnit
    ensures Inv(Acknowledged(s, win)) && Diff(Acknowledged(s, win).rcvAdv, s.rcvAdv) >= 0
    ensures Promised(Acknowledged(s, win)) == if win > Promised(s) && win > 0 then win else Promised(s)
  {
    var d := Promised(s);
    assert s.rcvAdv == Add(s.rcvNxt, d) by { BySign(s.rcvAdv, s.rcvNxt); }
    Near(s.rcvNxt, win, d);
    Near(s.rcvNxt, win, 0);
    Near(s.rcvNxt, d, d);
    assert Add(s.rcvNxt, 0) == s.rcvNxt;
  }

  lemma BySign(a: Seq, b: Seq)
    ensures a == Add(b, Diff(a, b))
  {
  }

  /** What `goto again` relies on: the next turn has a segment less to send. */
  lemma AgainShrinks(s: Tcb, win: int)
    requires Inv(s) && SendAlot(s)
    ensures var t := Acknowledged(Emitted(s), win);
      && Length(s) == s.maxSeg && 0 < Sendable(t) == Sendable(s) - s.maxSeg < Sendable(s)
      && t.maxSeg == s.maxSeg && t.force == s.force && Window(t) == Window(s) && t.snd == s.snd
  {
    Placed(s);
    var fin := FinBit(s, Prepared(s));
    var t := Backed(Prepared(s), fin);
    var u := if Gt(t.sndUp, t.sndUna) then t else t.(sndUp := t.sndUna);
    assert Offset(u) == Offset(s) && Outstanding(u) == Outstanding(t) && (!u.force || u.persist == 0);
    assert !fin by {
      assert Offset(s) + Length(s) < |s.snd|;
    }
    AdvancedOrder(u, Length(s), fin);
  }

  /** While a segment waits for its acknowledgment, sending more does not touch the count of retransmissions. */
  lemma SameBackoff(s: Tcb, win: int)
    requires s.rexmt != 0 && !s.force && (Sendable(s) >= 0 || Window(s) != 0)
    ensures Withheld(s).rexmt != 0 && Withheld(s).rxtShift == s.rxtShift && Withheld(s).maxSeg == s.maxSeg
    ensures var t := Acknowledged(Emitted(s), win); t.rexmt != 0 && t.rxtShift == s.rxtShift && t.maxSeg == s.maxSeg
  {
    hide Gt;
    hide Add;
    hide FinBit;
  }

  // ---- the retransmit timer, lines 166-263 of `tcp_timer.c`

  /** The connection dies of one more expiry. */
  predicate Drops(s: Tcb) {
    s.rxtShift + 1 > TCP_MAXRXTSHIFT && s.maxSeg / 2 < 32
  }

  /** Lines 166-206: back off, or halve the segment size and begin again at 6. */
  function BackedOff(s: Tcb): Tcb {
    if s.rxtShift + 1 > TCP_MAXRXTSHIFT then s.(rxtShift := 6, maxSeg := s.maxSeg / 2) else s.(rxtShift := s.rxtShift + 1)
  }

  /** Lines 208-261: go back to what has not been acknowledged, with a window of one segment. */
  function Retried(s: Tcb): Tcb
    requires 0 <= s.rxtShift <= TCP_MAXRXTSHIFT && s.maxSeg > 0
  {
    var cur := RangeSet((s.srtt / 8 + s.rttVar) * BACKOFF[s.rxtShift], Short(s.rttMin), TCPTV_REXMTMAX);
    var segs := Min(s.sndWnd, s.sndCwnd) / 2 / s.maxSeg;
    var t := s.(rxtCur := cur, rexmt := cur, sndNxt := s.sndUna, rtt := 0, sndCwnd := s.maxSeg,
                ssThresh := (if segs < 2 then 2 else segs) * s.maxSeg, dupAcks := 0);
    if s.rxtShift > TCP_MAXRXTSHIFT / 4 then t.(rttVar := Short(s.rttVar + s.srtt / 8), srtt := 0) else t
  }

  lemma RetriedKeeps(s: Tcb)
    requires Inv(s) && !Drops(s)
    ensures var t := Retried(BackedOff(s));
      Inv(t) && t.rexmt != 0 && Offset(t) == 0 && Sendable(t) >= 0 && t.rxtShift == BackedOff(s).rxtShift && t.maxSeg == BackedOff(s).maxSeg
  {
    var b := BackedOff(s);
    RetriedTells(b);
    var t := Retried(b);
    hide Retried;
    UnaItself(s);
    assert SendOrder(t);
    assert Room(t) && Timers(t);
  }

  lemma RetriedTells(s: Tcb)
    requires 0 <= s.rxtShift <= TCP_MAXRXTSHIFT && s.maxSeg > 0 && 1 <= s.rttMin <= TCPTV_REXMTMAX
    ensures var t := Retried(s);
      && t == s.(rxtCur := t.rxtCur, rexmt := t.rexmt, sndNxt := s.sndUna, rtt := 0, sndCwnd := s.maxSeg,
                 ssThresh := t.ssThresh, dupAcks := 0, rttVar := t.rttVar, srtt := t.srtt)
      && t.rexmt == t.rxtCur && s.rttMin <= t.rxtCur <= TCPTV_REXMTMAX
  {
    RangeWithin((s.srtt / 8 + s.rttVar) * BACKOFF[s.rxtShift], Short(s.rttMin), TCPTV_REXMTMAX);
    assert Short(s.rttMin) == s.rttMin;
    hide RangeSet;
    hide Short;
    hide Min;
  }

  lemma RangeWithin(value: int, low: int, high: int)
    requires low <= high
    ensures low <= RangeSet(value, low, high) <= high
  {
  }

  /** How many expiries it takes, without an acknowledgment in between, until the connection is dropped. */
  function Expiries(maxSeg: nat, rxtShift: nat): nat
    requires rxtShift <= TCP_MAXRXTSHIFT
    decreases maxSeg, TCP_MAXRXTSHIFT - rxtShift
  {
    if rxtShift < TCP_MAXRXTSHIFT then 1 + Expiries(maxSeg, rxtShift + 1)
    else if maxSeg / 2 < 32 then 1
    else 1 + Expiries(maxSeg / 2, 6)
  }

  /** How often the segment size can be halved and still be of 32 bytes. */
  function Halvings(maxSeg: nat): nat {
    if maxSeg / 2 < 32 then 0 else 1 + Halvings(maxSeg / 2)
  }

  lemma {:induction false} ExpiriesAre(maxSeg: nat, rxtShift: nat)
    requires rxtShift <= TCP_MAXRXTSHIFT
    ensures Expiries(maxSeg, rxtShift) == TCP_MAXRXTSHIFT + 1 - rxtShift + 7 * Halvings(maxSeg)
    decreases maxSeg, TCP_MAXRXTSHIFT - rxtShift
  {
    if rxtShift < TCP_MAXRXTSHIFT {
      ExpiriesAre(maxSeg, rxtShift + 1);
    } else if maxSeg / 2 >= 32 {
      ExpiriesAre(maxSeg / 2, 6);
    }
  }
}
