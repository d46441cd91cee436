/** What `tcp_output` and its timers do, said of the fields of the connection: when something is sent, what, and what is timed. */
module TcpLaws {
  import opened Mbufs
  import opened Numbers
  import opened TcpSequence
  import opened TcpSend
  import opened TcpTurns

  // ---- when something is sent

  /** How far behind snd_una data may be sent. */
  function Allowed(s: Tcb): int {
    var w := if s.sndWnd < s.sndCwnd then s.sndWnd else s.sndCwnd;
    if s.force && w == 0 then 1 else w
  }

  /** A full segment, or all that is left of the buffer, is behind snd_nxt and inside the window. */
  predicate DataIsDue(s: Tcb) {
    && Offset(s) < |s.snd|
    && (|s.snd| <= Allowed(s) || (Offset(s) + s.maxSeg <= Allowed(s) && Offset(s) + s.maxSeg <= |s.snd|))
  }

  function Smaller(a: int, b: int): int { if a < b then a else b }

  /** Then it is sent: the bytes that are next, as many as fit a segment. */
  lemma DataIsSent(s: Tcb, answers: seq<Answer>)
    requires Inv(s) && answers != [] && answers[0] == Taken && DataIsDue(s)
    ensures var segs := Turns(s, answers).segs;
      segs != [] && segs[0].data == s.snd[Offset(s)..Offset(s) + Smaller(s.maxSeg, |s.snd| - Offset(s))]
  {
    Unfold(s, answers);
    InsideWindow(s);
    assert Length(s) == Smaller(s.maxSeg, |s.snd| - Offset(s));
    hide Turns;
    hide Emitted;
    hide Acknowledged;
    hide Advertised;
    hide SegmentOf;
  }

  lemma AckIsSent(s: Tcb, answers: seq<Answer>)
    requires Inv(s) && answers != [] && answers[0] == Taken && s.ackNow
    ensures Turns(s, answers).segs != [] && Turns(s, answers).segs[0].ack == s.rcvNxt
  {
    Unfold(s, answers);
    hide Turns;
    hide Emitted;
    hide Acknowledged;
    hide Advertised;
  }

  /** A FIN that has not been sent goes with the last of the data. */
  lemma FinIsSent(s: Tcb, answers: seq<Answer>)
    requires Inv(s) && answers != [] && answers[0] == Taken && SendsFin(s.phase) && !s.sentFin && !s.force
    requires |s.snd| <= Allowed(s) && |s.snd| - Offset(s) <= s.maxSeg
    ensures Turns(s, answers).segs != [] && Turns(s, answers).segs[0].fin
  {
    Unfold(s, answers);
    Distances(s, Length(s));
    hide Turns;
    hide Emitted;
    hide Acknowledged;
    hide Advertised;
    hide Lt;
    hide Add;
  }

  /** Where snd_nxt is, behind snd_una, when a segment is made: a window that has closed takes it back. */
  function NextOffset(s: Tcb): int {
    if Allowed(s) == 0 && Offset(s) > 0 then 0 else Offset(s)
  }

  /**
   * All reasons to send, and there are no others: data that makes a full segment, or empties the buffer, or is forced, or
   * is half of what the peer has ever offered, or is sent again; a larger window; an acknowledgment that is owed; urgent
   * data; and a FIN that has not been sent, or is to be sent again.
   */
  lemma SendsIff(s: Tcb)
    requires Inv(s)
    ensures MustSend(s) <==>
        var a, n, c := NextOffset(s), Length(s), |s.snd|;
        || (n > 0 && (n == s.maxSeg || a + n == c || s.force || (s.maxSndWnd > 0 && n >= s.maxSndWnd / 2) || a < Outstanding(s)))
        || LargerWindow(s)
        || s.ackNow || Diff(s.sndUp, s.sndUna) > 0
        || (SendsFin(s.phase) && !(s.force && Smaller(s.sndWnd, s.sndCwnd) == 0 && Offset(s) < c) && a + n >= c && (!s.sentFin || a == 0))
  {
    WorthIff(s);
    OwesIff(s);
    hide Inv;
    hide WorthSending;
    hide Owes;
    hide Diff;
    hide Sub;
    hide Length;
    hide NextOffset;
  }

  lemma WorthIff(s: Tcb)
    requires Inv(s)
    ensures WorthSending(s, Prepared(s)) <==>
        var a, n := NextOffset(s), Length(s);
        n > 0 && (n == s.maxSeg || a + n == |s.snd| || s.force || (s.maxSndWnd > 0 && n >= s.maxSndWnd / 2) || a < Outstanding(s))
  {
    if Length(s) > 0 {
      Distances(s, 0);
      Behind(s);
      hide Add;
      hide Sub;
    }
  }

  /** snd_nxt is before snd_max exactly when less is behind it. */
  lemma Behind(s: Tcb)
    requires SendOrder(s)
    ensures Lt(s.sndNxt, s.sndMax) <==> Offset(s) < Outstanding(s)
  {
    var u, a, m := s.sndUna, Offset(s), Outstanding(s);
    AddSub(s.sndNxt, u);
    AddSub(s.sndMax, u);
    Near(u, a, m);
    hide Add;
    hide Sub;
  }

  lemma OwesIff(s: Tcb)
    requires Inv(s)
    ensures Owes(s, Prepared(s)) <==>
        var a, n, c := NextOffset(s), Length(s), |s.snd|;
        || s.ackNow || Diff(s.sndUp, s.sndUna) > 0
        || (SendsFin(s.phase) && !(s.force && Smaller(s.sndWnd, s.sndCwnd) == 0 && Offset(s) < c) && a + n >= c && (!s.sentFin || a == 0))
  {
    var p := Prepared(s);
    PreparedKeeps(s);
    PreparedOffset(s);
    Distances(p, Length(s));
    SameNumber(p);
    assert p.sndUna == s.sndUna && p.snd == s.snd;
    hide Add;
    hide Sub;
    hide Diff;
    hide Prepared;
    hide Length;
  }

  /** The peer would hear of two segments more, or of half the buffer. */
  predicate LargerWindow(s: Tcb) {
    var free := s.rcvLen - s.rcvCc;
    var more := Smaller(free, 65535 * s.rcvUnit) - Diff(s.rcvAdv, s.rcvNxt);
    free > 0 && (more >= 2 * s.maxSeg || 2 * more >= s.rcvLen)
  }

  lemma DataMustGo(s: Tcb)
    requires Inv(s) && DataIsDue(s)
    ensures MustSend(s)
  {
  }

  /** A segment moves snd_nxt on by what is in it; a FIN takes a number, behind all data. */
  lemma EmittedOffset(s: Tcb)
    requires Inv(s) && !s.force
    ensures Offset(Emitted(s)) == if FinBit(s, Prepared(s)) then |s.snd| + 1 else NextOffset(s) + Length(s)
  {
    Placed(s);
    PreparedOffset(s);
    var fin := FinBit(s, Prepared(s));
    var t := Backed(Prepared(s), fin);
    var u := if Gt(t.sndUp, t.sndUna) then t else t.(sndUp := t.sndUna);
    assert Offset(u) == Offset(t) && Outstanding(u) == Outstanding(t);
    assert !fin ==> Offset(u) == NextOffset(s);
    assert Length(s) >= 0 && !u.force && u.snd == s.snd && u.phase == s.phase;
    hide Offset;
    hide Outstanding;
    assert SendOrder(u);
    OffsetSmall(u);
    hide NextOffset;
    hide Prepared;
    hide Length;
    hide Gt;
    FinFits(s, u, fin);
    AdvancedOrder(u, Length(s), fin);
    hide FinBit;
  }

  lemma FinFits(s: Tcb, u: Tcb, fin: bool)
    requires u.snd == s.snd && (fin ==> Offset(u) + Length(s) == |s.snd|) && Offset(u) <= |s.snd| + 1
    requires !fin ==> Offset(u) == NextOffset(s)
    requires Length(s) > 0 ==> Offset(s) + Length(s) <= |s.snd|
    ensures Offset(u) + Length(s) <= |u.snd| + 1
    ensures Length(s) > 0 ==> Offset(u) + Length(s) <= |u.snd|
  {
    hide Sub;
  }

  lemma PreparedOffset(s: Tcb)
    requires Inv(s)
    ensures Offset(Prepared(s)) == NextOffset(s)
  {
    PreparedKeeps(s);
    hide Sub;
  }

  /** What can still be sent is less by what has been, and is nothing after that when it was nothing before. */
  lemma SentMoves(s: Tcb)
    requires Inv(s) && !s.force
    ensures var t := Acknowledged(Emitted(s), Advertised(s));
      && Window(t) == Window(s) && t.snd == s.snd && t.maxSeg == s.maxSeg && !t.force
      && Sendable(t) <= if Sendable(s) > 0 then Sendable(s) - Length(s) else 0
  {
    EmittedSame(s);
    EmittedOffset(s);
    hide Inv;
    hide FinBit;
    hide Prepared;
    hide Sub;
    hide Emitted;
    hide Advertised;
  }

  lemma WithheldStays(s: Tcb)
    requires Inv(s) && !s.force
    ensures Sendable(Withheld(s)) == if Sendable(s) < 0 && Usable(s) == 0 then 0 else Sendable(s)
    ensures Withheld(s).snd == s.snd && Withheld(s).maxSeg == s.maxSeg
    ensures Sendable(s) >= 0 ==> Offset(Withheld(s)) == Offset(s)
  {
    PreparedKeeps(s);
    hide Sub;
  }

  /** What is left inside the window, when every segment is taken, is less than one, and not the end of the buffer. */
  lemma {:induction false} WindowIsUsed(s: Tcb, answers: seq<Answer>)
    requires Inv(s) && !s.force && |answers| > Sendable(s) && |answers| > 0 && forall i | 0 <= i < |answers| :: answers[i] == Taken
    ensures var t := Turns(s, answers).tp;
      Sendable(t) <= 0 || (Sendable(t) < t.maxSeg && Offset(t) + Sendable(t) < |t.snd|)
    decreases |answers|
  {
    Unfold(s, answers);
    TurnKeeps(s);
    SentMoves(s);
    WithheldStays(s);
    assert 32 <= s.maxSeg;
    var t := Acknowledged(Emitted(s), Advertised(s));
    if DataIsDue(s) {
      DataMustGo(s);
    }
    hide Turns;
    hide Inv;
    hide Emitted;
    hide Advertised;
    hide Acknowledged;
    hide MustSend;
    hide Withheld;
    hide Prepared;
    hide SegmentOf;
    if MustSend(s) && SendAlot(s) {
      WindowIsUsed(t, answers[1..]);
    }
  }

  // ---- what a segment says

  /** Every segment acknowledges what has been received; one without data or FIN has the number behind all that was sent. */
  lemma SegmentSays(s: Tcb)
    requires Inv(s)
    ensures Length(s) > 0 ==> Offset(s) + Length(s) <= |s.snd|
    ensures var g := SegmentOf(s);
      && g.ack == s.rcvNxt && g.win == Advertised(s) / s.rcvUnit && (g.urg <==> Diff(s.sndUp, s.sndUna) > 0)
      && (g.psh <==> g.data != [] && Offset(s) + |g.data| == |s.snd|)
      && (g.data == [] && !g.fin && Prepared(s).persist == 0 ==> g.sq == s.sndMax)
  {
    hide *;
    TurnData(s);
    NumberOf(s);
    UnitsPositive(s);
    FieldsOf(s);
  }

  lemma UnitsPositive(s: Tcb)
    requires Inv(s)
    ensures s.rcvUnit > 0 && Offset(s) >= 0 && 0 <= Advertised(s) && Advertised(s) / s.rcvUnit <= 0xffff
  {
    AdvertisedFits(s);
  }

  lemma FieldsOf(s: Tcb)
    requires (Length(s) > 0 ==> 0 <= Offset(s) && Offset(s) + Length(s) <= |s.snd|) && Length(s) >= 0 && s.rcvUnit > 0
    requires 0 <= Advertised(s) && Advertised(s) / s.rcvUnit <= 0xffff
    ensures var g := SegmentOf(s);
      && g.ack == s.rcvNxt && g.win == Advertised(s) / s.rcvUnit && (g.urg <==> Diff(s.sndUp, s.sndUna) > 0)
      && (g.psh <==> g.data != [] && Offset(s) + |g.data| == |s.snd|)
      && (g.fin <==> FinBit(s, Prepared(s))) && |g.data| == Length(s)
  {
    hide Prepared;
    hide FinBit;
    hide Length;
    hide Offset;
    hide Advertised;
    hide Diff;
    hide Backed;
    var q := Advertised(s) / s.rcvUnit;
    assert q >= 0;
    assert q % 0x1_0000 == q;
  }

  /** Data and a FIN begin where sending has come to; a segment without them has the number behind all that was sent. */
  lemma NumberOf(s: Tcb)
    requires Inv(s)
    ensures Length(s) > 0 ==> Offset(s) + Length(s) <= |s.snd|
    ensures var p := Prepared(s); var t := Backed(p, FinBit(s, p));
      && (t.persist == p.persist && t.sndMax == s.sndMax)
      && SegmentOf(s).sq == if Length(s) > 0 || FinBit(s, p) || p.persist != 0 then t.sndNxt else s.sndMax
  {
    TurnData(s);
    hide FinBit;
    hide Length;
    hide Add;
    hide Inv;
    hide Advertised;
  }

  lemma {:induction false} AllAcknowledge(s: Tcb, answers: seq<Answer>)
    requires Inv(s)
    ensures forall g | g in Turns(s, answers).segs :: g.ack == s.rcvNxt
    decreases |answers|
  {
    Unfold(s, answers);
    TurnKeeps(s);
    SegmentSays(s);
    var t := Acknowledged(Emitted(s), Advertised(s));
    assert t.rcvNxt == s.rcvNxt;
    hide *;
    if MustSend(s) && answers != [] && answers[0] == Taken && SendAlot(s) {
      AllAcknowledge(t, answers[1..]);
    }
  }

  function Larger(a: int, b: int): int { if a > b then a else b }

  /** The window: what is free and fits the field, or nothing if that is not worth it; but never less than was promised. */
  lemma WindowTold(s: Tcb)
    ensures var free := s.rcvLen - s.rcvCc;
      Advertised(s) == Larger(Diff(s.rcvAdv, s.rcvNxt),
                              if free < s.rcvLen / 4 && free < s.maxSeg then Smaller(0, 65535 * s.rcvUnit) else Smaller(free, 65535 * s.rcvUnit))
  {
    hide Diff;
  }

  /** With the segment nothing is owed any more. */
  lemma NothingOwed(s: Tcb, answers: seq<Answer>)
    requires Inv(s) && answers != [] && answers[0] == Taken && MustSend(s) && !SendAlot(s)
    ensures var t := Turns(s, answers).tp; !t.ackNow && !t.delAck && t.lastAckSent == s.rcvNxt
  {
    Unfold(s, answers);
    EmittedSame(s);
    hide Emitted;
    hide MustSend;
    hide SegmentOf;
    hide Advertised;
    hide Turns;
    hide Same;
    assert Emitted(s).rcvNxt == s.rcvNxt by { EmittedKeeps(s); }
  }

  // ---- what is timed

  /** Short is what 16 bits make of a number, and leaves alone what they hold. */
  lemma ShortIs(v: int)
    ensures -0x8000 <= Short(v) < 0x8000 && (Short(v) - v) % 0x1_0000 == 0 && (-0x8000 <= v < 0x8000 ==> Short(v) == v)
  {
  }

  /** Whatever is sent and not acknowledged is timed, by a timer that runs on, or begins with the current value. */
  lemma SentIsTimed(s: Tcb)
    requires Inv(s) && !s.force
    ensures var t := Emitted(s);
      && (Offset(t) != 0 ==> t.rexmt != 0)
      && (Offset(t) != 0 && Prepared(s).rexmt == 0 ==> t.rexmt == s.rxtCur && t.persist == 0)
      && (Prepared(s).rexmt != 0 ==> t.rexmt == s.rexmt)
  {
    assert s.rxtCur >= 1;
    PreparedSame(s);
    var p := Prepared(s);
    assert p.rxtCur == s.rxtCur && (p.rexmt == 0 || p.rexmt == s.rexmt);
    var fin := FinBit(s, p);
    var b := Backed(p, fin);
    assert b.rxtCur == s.rxtCur && b.rexmt == p.rexmt && !b.force;
    var u := if Gt(b.sndUp, b.sndUna) then b else b.(sndUp := b.sndUna);
    hide Prepared;
    hide FinBit;
    hide Backed;
    hide Inv;
    hide Length;
    hide Gt;
    AdvancedTimed(u, Length(s), fin);
    hide Advanced;
    SameNumber(Emitted(s));
  }

  lemma AdvancedTimed(s: Tcb, len: int, fin: bool)
    requires !s.force && s.rxtCur >= 1
    ensures var t := Advanced(s, len, fin);
      && (t.sndNxt != t.sndUna ==> t.rexmt != 0)
      && (t.sndNxt != t.sndUna && s.rexmt == 0 ==> t.rexmt == s.rxtCur && t.persist == 0)
      && (s.rexmt != 0 ==> t.rexmt == s.rexmt)
  {
    hide Gt;
    hide Add;
  }

  lemma SameNumber(s: Tcb)
    ensures Offset(s) == 0 <==> s.sndNxt == s.sndUna
  {
  }

  /** The first segment of new data is timed for the estimate of the round trip, if none is yet; sending again is not. */
  lemma RoundTripTimed(s: Tcb)
    requires Inv(s) && !s.force
    ensures Length(s) > 0 ==> Offset(s) + Length(s) <= |s.snd|
    ensures var t := Emitted(s);
      if s.rtt == 0 && t.sndMax != s.sndMax then t.rtt == 1 && t.rtSeq == SegmentOf(s).sq
      else t.rtt == s.rtt && t.rtSeq == s.rtSeq
  {
    hide *;
    NumberOf(s);
    var p := Prepared(s);
    var fin := FinBit(s, p);
    var b := Backed(p, fin);
    var u := if Gt(b.sndUp, b.sndUna) then b else b.(sndUp := b.sndUna);
    NothingNew(s);
    MoreIsTimed(u, Length(s), fin);
    EmittedBy(s);
  }

  lemma EmittedBy(s: Tcb)
    ensures var b := Backed(Prepared(s), FinBit(s, Prepared(s)));
      Emitted(s) == Advanced(if Gt(b.sndUp, b.sndUna) then b else b.(sndUp := b.sndUna), Length(s), FinBit(s, Prepared(s)))
  {
    hide Advanced;
    hide Prepared;
    hide Length;
  }

  /** What goes before the segment leaves the timing alone, and snd_nxt where it was, or before. */
  lemma NothingNew(s: Tcb)
    requires Inv(s)
    ensures Length(s) >= 0
    ensures var b := Backed(Prepared(s), FinBit(s, Prepared(s)));
      && b.force == s.force && b.rtt == s.rtt && b.rtSeq == s.rtSeq && b.sndMax == s.sndMax
      && Add(b.sndNxt, 0) == b.sndNxt && !Gt(b.sndNxt, b.sndMax)
  {
    Placed(s);
    var b := Backed(Prepared(s), FinBit(s, Prepared(s)));
    Distances(b, 0);
    assert Add(b.sndNxt, 0) == b.sndNxt;
    hide FinBit;
    hide Add;
    hide Gt;
  }

  lemma MoreIsTimed(s: Tcb, len: int, fin: bool)
    requires !s.force && len >= 0 && (len == 0 && !fin ==> Add(s.sndNxt, 0) == s.sndNxt && !Gt(s.sndNxt, s.sndMax))
    ensures var t := Advanced(s, len, fin);
      if s.rtt == 0 && t.sndMax != s.sndMax then t.rtt == 1 && t.rtSeq == s.sndNxt && (len > 0 || fin)
      else t.rtt == s.rtt && t.rtSeq == s.rtSeq
  {
    hide Add;
    assert forall a: Seq :: !Gt(a, a);
    hide Gt;
  }

  // ---- the timers

  /** The estimate of the round trip and what it may vary: TCP_REXMTVAL. */
  function Base(s: Tcb): int { s.srtt / 8 + s.rttVar }

  /** `v` in 16 bits, brought into a range. */
  function Cut(v: int, low: int, high: int): int {
    if Short(v) < low then low else if Short(v) > high then high else Short(v)
  }

  /** The factor doubles with every retransmission up to the sixth. */
  function Factor(shift: int): int {
    Pow2(if shift <= 0 then 0 else if shift < 6 then shift else 6)
  }

  lemma FactorIs(shift: int)
    requires 0 <= shift <= 12
    ensures BACKOFF[shift] == Factor(shift) <= 64 && Factor(shift) >= 1
    ensures Factor(shift + 1) == if shift < 6 then 2 * Factor(shift) else Factor(shift)
  {
    assert Pow2(1) == 2 && Pow2(2) == 4 && Pow2(3) == 8;
    assert Pow2(4) == 16 && Pow2(5) == 32 && Pow2(6) == 64;
  }

  /** An expiry sets the timer to the estimate, times 1, 2, 4 and so on up to 64, within its range. */
  lemma RetriedBacksOff(s: Tcb)
    requires 0 <= s.rxtShift <= 12 && s.maxSeg > 0 && 1 <= s.rttMin <= 24
    ensures var t := Retried(s); t.rxtCur == t.rexmt == Cut(Base(s) * Factor(s.rxtShift), s.rttMin, 24)
  {
    FactorIs(s.rxtShift);
    ShortIs(s.rttMin);
    hide Short;
    hide Min;
  }

  /** It keeps the estimate, of which a variation may take the place. */
  lemma RetriedEstimate(s: Tcb)
    requires 0 <= s.rxtShift <= 12 && s.maxSeg > 0 && -0x8000 <= Base(s) < 0x8000
    ensures Base(Retried(s)) == Base(s) && Retried(s).rttMin == s.rttMin
  {
    ShortIs(s.rttVar + s.srtt / 8);
    hide Short;
    hide RangeSet;
    hide Min;
  }

  lemma CutGrows(v: int, w: int, low: int, high: int)
    requires 0 <= v <= w < 0x8000 && low <= high
    ensures Cut(v, low, high) <= Cut(w, low, high)
    ensures low <= v <= high ==> Cut(v, low, high) == v
  {
    ShortIs(v);
    ShortIs(w);
    hide Short;
  }

  /**
   * From one expiry to the next, with the estimate as it was, the timer doubles, until the range or the seventh
   * retransmission stops it, and it never becomes shorter.
   */
  lemma BackoffDoubles(s: Tcb, t: Tcb)
    requires 0 <= s.rxtShift <= 12 && 0 <= t.rxtShift <= 12 && s.maxSeg > 0 && t.maxSeg > 0 && 1 <= s.rttMin == t.rttMin <= 24
    requires 0 <= Base(s) == Base(t) < 512 && (t.rxtShift == s.rxtShift + 1 || (s.rxtShift == 12 && t.rxtShift == 6))
    ensures Retried(s).rxtCur <= Retried(t).rxtCur
    ensures s.rxtShift < 6 && s.rttMin <= Base(s) * Factor(s.rxtShift) <= 12 ==> Retried(t).rxtCur == 2 * Retried(s).rxtCur
  {
    RetriedBacksOff(s);
    RetriedBacksOff(t);
    FactorIs(s.rxtShift);
    FactorIs(t.rxtShift);
    var v, w := Base(s) * Factor(s.rxtShift), Base(t) * Factor(t.rxtShift);
    Times(Base(s), Factor(s.rxtShift), Factor(t.rxtShift));
    hide Retried;
    hide Base;
    hide Factor;
    CutGrows(v, w, s.rttMin, 24);
    CutGrows(w, w, s.rttMin, 24);
    hide Cut;
  }

  lemma Times(b: int, f: int, g: int)
    requires 0 <= b < 512 && 1 <= f <= g <= 64
    ensures 0 <= b * f <= b * g < 0x8000 && (g == 2 * f ==> b * g == 2 * (b * f))
  {
    NotLess(b, 0, f);
    NotLess(b, f, g);
    NotLess(b, g, 64);
    if g == 2 * f {
      Twice(b, f);
    }
  }

  lemma NotLess(b: int, f: int, g: int)
    requires b >= 0 && f <= g
    ensures b * f <= b * g
  {
    assert b * g - b * f == b * (g - f);
  }

  lemma Twice(b: int, f: int)
    ensures b * (2 * f) == 2 * (b * f)
  {
  }

  /**
   * Besides, sending begins again at snd_una with one segment, no round trip is timed, and the threshold is half the window
   * in whole segments, but two at least.
   */
  lemma RetriedRestarts(s: Tcb)
    requires 0 <= s.rxtShift <= 12 && s.maxSeg > 0 && s.sndWnd >= 0 && s.sndCwnd >= 0
    ensures var t := Retried(s);
      && t.sndNxt == s.sndUna && t.sndCwnd == s.maxSeg && t.rtt == 0 && t.dupAcks == 0
      && t.sndUna == s.sndUna && t.sndMax == s.sndMax && t.snd == s.snd && t.sndWnd == s.sndWnd && t.maxSeg == s.maxSeg
    ensures HalfInSegments(Smaller(s.sndWnd, s.sndCwnd) / 2, s.maxSeg, Retried(s).ssThresh)
  {
    var half, m := Smaller(s.sndWnd, s.sndCwnd) / 2, s.maxSeg;
    hide RangeSet;
    hide Short;
    HalfIs(half, m);
    hide HalfInSegments;
  }

  /** `th` is `half` cut down to whole segments of `m`, or two of them if that is more. */
  predicate HalfInSegments(half: int, m: int, th: int)
    requires m > 0
  {
    th % m == 0 && th >= 2 * m && half < th + m && (th <= half || th == 2 * m)
  }

  lemma HalfIs(half: int, m: int)
    requires m > 0 && half >= 0
    ensures HalfInSegments(half, m, (if half / m < 2 then 2 else half / m) * m)
  {
    var q := half / m;
    WholeSegments(half, m, q);
    if q < 2 {
      AtLeastTwo(half, m, q);
    }
  }

  lemma WholeSegments(half: int, m: int, q: int)
    requires m > 0 && half >= 0 && q == half / m
    ensures q >= 0 && q * m <= half < q * m + m && (q * m) % m == 0 && (2 * m) % m == 0 && (q >= 2 ==> q * m >= 2 * m)
  {
    assert half == q * m + half % m;
    MultipleOf(q, m);
    MultipleOf(2, m);
    assert q >= 2 ==> (q - 2) * m >= 0;
  }

  lemma AtLeastTwo(half: int, m: int, q: int)
    requires m > 0 && half < q * m + m && q < 2
    ensures half < 2 * m
  {
    assert (1 - q) * m >= 0;
  }

  /** The persist timer: half of the estimate's mean, times 1, 2, 4 and so on up to 64, within its range. */
  lemma PersistBacksOff(s: Tcb)
    requires 0 <= s.rxtShift <= 12
    ensures var t := Persisting(s);
      && t.persist == Cut((s.srtt / 4 + s.rttVar) / 2 * Factor(s.rxtShift), 10, 120)
      && t.rxtShift == Smaller(s.rxtShift + 1, 12)
  {
    FactorIs(s.rxtShift);
    hide Short;
  }

  /** Data that is not sent waits for an acknowledgment or for the next probe. */
  lemma DataWaits(s: Tcb)
    requires Inv(s) && s.snd != []
    ensures Withheld(s).rexmt != 0 || Withheld(s).persist != 0
  {
    var p := Prepared(s);
    if p.rexmt == 0 && p.persist == 0 {
      PersistBacksOff(p.(rxtShift := 0));
    }
    hide Prepared;
    hide Short;
  }

  /** A probe of a closed window is the byte behind snd_una. */
  lemma ProbeIsSent(s: Tcb, answers: seq<Answer>)
    requires Inv(s) && answers != [] && answers[0] == Taken && s.force && s.snd != [] && Offset(s) == 0
    requires Smaller(s.sndWnd, s.sndCwnd) == 0
    ensures Turns(s, answers).segs != [] && Turns(s, answers).segs[0].data == s.snd[..1]
  {
    Unfold(s, answers);
    InsideWindow(s);
    hide Turns;
    hide Emitted;
    hide Acknowledged;
    hide Advertised;
    hide SegmentOf;
  }

  /** A window that has closed takes sending back to snd_una and stops the retransmit timer; an open one that is forced ends the probes. */
  lemma PreparedIs(s: Tcb)
    ensures var p := Prepared(s);
      && (Sendable(s) < 0 && Allowed(s) == 0 ==> p.rexmt == 0 && p.sndNxt == s.sndUna)
      && (!(Sendable(s) < 0 && Allowed(s) == 0) ==> p.rexmt == s.rexmt && p.sndNxt == s.sndNxt)
      && (if s.force && Smaller(s.sndWnd, s.sndCwnd) != 0 then p.persist == 0 == p.rxtShift
          else p.persist == s.persist && p.rxtShift == s.rxtShift)
  {
    hide Offset;
  }

  /** After a pause in which all was acknowledged, the congestion window begins at one segment again. */
  lemma StartedIs(s: Tcb)
    ensures Started(s) == s.(sndCwnd := if s.sndMax == s.sndUna && s.idle >= s.rxtCur then s.maxSeg else s.sndCwnd)
  {
  }

  /** What sending does not touch: the estimate, and the value that the timer begins with. */
  ghost predicate SameEstimate(s: Tcb, t: Tcb) {
    t.srtt == s.srtt && t.rttVar == s.rttVar && t.rttMin == s.rttMin && t.rxtCur == s.rxtCur
  }

  lemma TurnEstimate(s: Tcb)
    requires Inv(s)
    ensures SameEstimate(s, Prepared(s)) && SameEstimate(s, Withheld(s)) && SameEstimate(s, Emitted(s))
    ensures SameEstimate(s, Acknowledged(Emitted(s), Advertised(s)))
  {
    var p := Prepared(s);
    assert SameEstimate(s, p);
    var fin := FinBit(s, p);
    var b := Backed(p, fin);
    var u := if Gt(b.sndUp, b.sndUna) then b else b.(sndUp := b.sndUna);
    assert SameEstimate(s, u);
    hide Prepared;
    hide Backed;
    hide FinBit;
    hide Gt;
    hide Length;
    hide Add;
    AdvancedEstimate(u, Length(s), fin);
    hide Advanced;
    hide RangeSet;
    hide Advertised;
  }

  lemma AdvancedEstimate(s: Tcb, len: int, fin: bool)
    ensures SameEstimate(s, Advanced(s, len, fin))
  {
    hide Gt;
    hide Add;
  }

  lemma {:induction false} TurnsEstimate(s: Tcb, answers: seq<Answer>)
    requires Inv(s)
    ensures SameEstimate(s, Turns(s, answers).tp)
    decreases |answers|
  {
    Unfold(s, answers);
    TurnEstimate(s);
    hide Turns;
    hide Inv;
    hide Emitted;
    hide Withheld;
    hide Prepared;
    hide Advertised;
    hide Acknowledged;
    hide SegmentOf;
    hide MustSend;
    hide SendAlot;
    var t := Acknowledged(Emitted(s), Advertised(s));
    if MustSend(s) && answers != [] && answers[0] == Taken && SendAlot(s) {
      TurnsEstimate(t, answers[1..]);
    }
  }
}
