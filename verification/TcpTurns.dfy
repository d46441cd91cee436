/** The turns of `tcp_output`: what one call sends, and what all of it together is. */
module TcpTurns {
  import opened Mbufs
  import opened Numbers
  import opened TcpSequence
  import opened TcpSend

  /** What becomes of a segment: no mbuf for it, an error of `ip_output`, or neither. */
  datatype Answer = NoBuffer | Refused | Taken

  datatype Outcome = Outcome(tp: Tcb, segs: seq<Segment>, error: bool)

  /** What output does not touch, and how it moves the edge of the window that the peer knows of: not back. */
  ghost predicate Same(s: Tcb, t: Tcb) {
    && t.phase == s.phase && t.maxSeg == s.maxSeg && t.force == s.force && t.snd == s.snd && t.sndUna == s.sndUna
    && t.rcvNxt == s.rcvNxt && t.rcvCc == s.rcvCc && t.rcvLen == s.rcvLen && t.rcvUnit == s.rcvUnit
    && t.sndWnd == s.sndWnd && t.sndCwnd == s.sndCwnd
    && Promised(t) >= Promised(s) && (t.sentFin ==> s.sentFin || SendsFin(s.phase))
  }

  lemma PreparedSame(s: Tcb)
    ensures Same(s, Prepared(s)) && Prepared(s).rcvAdv == s.rcvAdv && Prepared(s).sndUp == s.sndUp
  {
    hide Diff;
    hide Sendable;
  }

  lemma WithheldSame(s: Tcb)
    requires Timers(s)
    ensures Same(s, Withheld(s))
  {
    hide Diff;
    PreparedSame(s);
    hide Prepared;
    hide RangeSet;
  }

  lemma AdvancedSame(s: Tcb, len: int, fin: bool)
    requires fin ==> SendsFin(s.phase)
    ensures Same(s, Advanced(s, len, fin))
  {
    hide Diff;
    hide Gt;
    hide Add;
  }

  lemma SameTwice(s: Tcb, t: Tcb, u: Tcb)
    requires Same(s, t) && Same(t, u)
    ensures Same(s, u)
  {
  }

  lemma EmittedSame(s: Tcb)
    ensures Same(s, Emitted(s))
  {
    PreparedSame(s);
    var fin := FinBit(s, Prepared(s));
    assert fin ==> SendsFin(s.phase);
    var t := Backed(Prepared(s), fin);
    hide Prepared;
    hide FinBit;
    hide Gt;
    hide Add;
    hide Diff;
    hide Length;
    hide Advanced;
    var u := if Gt(t.sndUp, t.sndUna) then t else t.(sndUp := t.sndUna);
    assert Same(s, u);
    AdvancedSame(u, Length(s), fin);
    SameTwice(s, u, Advanced(u, Length(s), fin));
  }

  lemma TurnKeeps(s: Tcb)
    requires Inv(s)
    ensures Length(s) > 0 ==> Offset(s) + Length(s) <= |s.snd|
    ensures Inv(Withheld(s)) && Inv(Prepared(s)) && Inv(Emitted(s)) && Inv(Acknowledged(Emitted(s), Advertised(s)))
    ensures Same(s, Withheld(s)) && Same(s, Prepared(s)) && Same(s, Emitted(s)) && Same(s, Acknowledged(Emitted(s), Advertised(s)))
  {
    WithheldKeeps(s);
    PreparedKeeps(s);
    EmittedKeeps(s);
    AdvertisedFits(s);
    EmittedSame(s);
    PreparedSame(s);
    WithheldSame(s);
    if Length(s) > 0 {
      InsideWindow(s);
    }
    hide Inv;
    hide Emitted;
    hide Withheld;
    hide Prepared;
    hide Advertised;
    AcknowledgedKeeps(Emitted(s), Advertised(s));
  }

  /** The turns of `tcp_output`, with what becomes of each segment. */
  ghost function Turns(s: Tcb, answers: seq<Answer>): Outcome
    requires Inv(s)
    decreases |answers|
  {
    TurnKeeps(s);
    if !MustSend(s) then Outcome(Withheld(s), [], false)
    else if answers == [] || answers[0] == NoBuffer then Outcome(Prepared(s), [], true)
    else if answers[0] == Refused then Outcome(Emitted(s), [SegmentOf(s)], true)
    else
      var t := Acknowledged(Emitted(s), Advertised(s));
      if SendAlot(s) then
        var r := Turns(t, answers[1..]);
        r.(segs := [SegmentOf(s)] + r.segs)
      else Outcome(t, [SegmentOf(s)], false)
  }

  predicate SegmentFits(s: Tcb) {
    (Length(s) > 0 ==> Offset(s) + Length(s) <= |s.snd|) && s.rcvUnit > 0
  }

  /** What the first turn does, and what is left for the others. */
  lemma Unfold(s: Tcb, answers: seq<Answer>)
    requires Inv(s)
    ensures SegmentFits(s) && Inv(Acknowledged(Emitted(s), Advertised(s)))
    ensures var a := if answers == [] then NoBuffer else answers[0];
      Turns(s, answers) ==
      if !MustSend(s) then Outcome(Withheld(s), [], false)
      else if a == NoBuffer then Outcome(Prepared(s), [], true)
      else if a == Refused then Outcome(Emitted(s), [SegmentOf(s)], true)
      else if !SendAlot(s) then Outcome(Acknowledged(Emitted(s), Advertised(s)), [SegmentOf(s)], false)
      else
        var r := Turns(Acknowledged(Emitted(s), Advertised(s)), answers[1..]);
        r.(segs := [SegmentOf(s)] + r.segs)
  {
    TurnKeeps(s);
    hide Emitted;
    hide Withheld;
    hide Prepared;
    hide Advertised;
    hide Acknowledged;
    hide SegmentOf;
    hide MustSend;
    hide SendAlot;
  }

  function Bytes(segs: seq<Segment>): seq<Byte> {
    if segs == [] then [] else segs[0].data + Bytes(segs[1..])
  }

  lemma {:induction false} TurnsKeep(s: Tcb, answers: seq<Answer>)
    requires Inv(s)
    ensures Inv(Turns(s, answers).tp) && Same(s, Turns(s, answers).tp)
    decreases |answers|
  {
    TurnKeeps(s);
    hide Inv;
    hide Emitted;
    hide Withheld;
    hide Prepared;
    hide Advertised;
    hide Acknowledged;
    hide SegmentOf;
    hide MustSend;
    hide SendAlot;
    if MustSend(s) && answers != [] && answers[0] == Taken && SendAlot(s) {
      TurnsKeep(Acknowledged(Emitted(s), Advertised(s)), answers[1..]);
    }
  }

  /** Data from `snd_nxt` on, inside the buffer and inside the window, but for the one byte of a probe. */
  ghost predicate Piece(s: Tcb, data: seq<Byte>) {
    && 0 <= Offset(s) && Offset(s) + |data| <= |s.snd| && data == s.snd[Offset(s)..Offset(s) + |data|]
    && Offset(s) + |data| <= Window(s) + if s.force && Window(s) == 0 then 1 else 0
  }

  lemma PieceMore(s: Tcb, t: Tcb, a: seq<Byte>, b: seq<Byte>)
    requires Piece(s, a) && Piece(t, b) && t.snd == s.snd && Offset(t) == Offset(s) + |a|
    requires Window(t) == Window(s) && t.force == s.force
    ensures Piece(s, a + b)
  {
    hide Offset;
    hide Window;
    var o := Offset(s);
    assert s.snd[o..o + |a|] + s.snd[o + |a|..o + |a| + |b|] == s.snd[o..o + |a| + |b|];
  }

  lemma TurnData(s: Tcb)
    requires Inv(s)
    ensures |SegmentOf(s).data| == Length(s) >= 0
    ensures Length(s) > 0 ==> Piece(s, SegmentOf(s).data)
    ensures SendAlot(s) ==>
      var t := Acknowledged(Emitted(s), Advertised(s));
      && Length(s) > 0 && Offset(t) == Offset(s) + Length(s) && Window(t) == Window(s) && t.force == s.force && t.snd == s.snd
      && Sendable(t) > 0
  {
    if Length(s) > 0 {
      InsideWindow(s);
    }
    if SendAlot(s) {
      AgainShrinks(s, Advertised(s));
    }
    hide Emitted;
    hide Acknowledged;
    hide Advertised;
  }

  /** All data of one call is a piece of the buffer from `snd_nxt` on, inside the window, cut into segments in order. */
  lemma {:induction false} OnePiece(s: Tcb, answers: seq<Answer>)
    requires Inv(s)
    ensures Bytes(Turns(s, answers).segs) != [] ==> Piece(s, Bytes(Turns(s, answers).segs))
    decreases |answers|
  {
    TurnKeeps(s);
    TurnData(s);
    var t := Acknowledged(Emitted(s), Advertised(s));
    hide Inv;
    hide Emitted;
    hide Withheld;
    hide Prepared;
    hide Advertised;
    hide Acknowledged;
    hide SegmentOf;
    hide MustSend;
    hide SendAlot;
    hide Window;
    hide Offset;
    hide Length;
    hide Piece;
    if MustSend(s) && answers != [] && answers[0] == Taken && SendAlot(s) {
      var rest := Turns(t, answers[1..]).segs;
      OnePiece(t, answers[1..]);
      OneMore(SegmentOf(s), rest);
      if Bytes(rest) != [] {
        PieceMore(s, t, SegmentOf(s).data, Bytes(rest));
      } else {
        assert SegmentOf(s).data + Bytes(rest) == SegmentOf(s).data;
      }
    } else if MustSend(s) && answers != [] && answers[0] != NoBuffer {
      OneMore(SegmentOf(s), []);
    }
  }

  lemma OneMore(g: Segment, segs: seq<Segment>)
    ensures Bytes([g] + segs) == g.data + Bytes(segs) && Bytes([g]) == g.data
  {
    assert ([g] + segs)[1..] == segs;
    assert Bytes([g]) == g.data + Bytes([g][1..]);
  }

  // ---- waiting for an acknowledgment that does not come

  /** The retransmit timer runs, and what it is for is what the window lets be sent. */
  predicate Running(s: Tcb) {
    s.rexmt != 0 && (Window(s) != 0 || Offset(s) == 0)
  }

  /** Only a FIN is left to be sent and acknowledged. */
  predicate FinOnly(s: Tcb) {
    s.snd == [] && SendsFin(s.phase)
  }

  /** The connection retransmits, and does not probe a closed window. */
  predicate Waiting(s: Tcb) {
    !s.force && s.persist == 0 && (Running(s) || FinOnly(s))
  }

  /** `t` has counted as many retransmissions as `s`, and goes on waiting. */
  ghost predicate WaitsOn(s: Tcb, t: Tcb) {
    && Waiting(t) && t.rxtShift == s.rxtShift && t.maxSeg == s.maxSeg && t.sndWnd == s.sndWnd
    && (s.rexmt != 0 && s.sndWnd != 0 ==> t.rexmt != 0)
  }

  lemma StartedWaits(s: Tcb)
    requires Inv(s) && Waiting(s)
    ensures WaitsOn(s, Started(s))
  {
  }

  lemma PreparedWaits(s: Tcb)
    requires Inv(s) && Waiting(s)
    ensures WaitsOn(s, Prepared(s)) && WaitsOn(s, Withheld(s))
    ensures Running(s) ==> Prepared(s) == s
  {
    hide Diff;
  }

  lemma AdvancedWaits(s: Tcb, len: int, fin: bool)
    requires Waiting(s) && (Window(s) != 0 || FinOnly(s) || (len == 0 && !fin))
    ensures WaitsOn(s, Advanced(s, len, fin))
  {
    hide Gt;
  }

  /** With a closed window there is nothing to send but a FIN that has nothing before it. */
  lemma ClosedWindow(s: Tcb)
    requires Inv(s) && Running(s) && !s.force && Window(s) == 0
    ensures Length(s) == 0 && (FinBit(s, s) ==> FinOnly(s))
  {
    Distances(s, 0);
    hide Lt;
    hide Add;
  }

  lemma EmittedWaits(s: Tcb, win: int)
    requires Inv(s) && Waiting(s)
    ensures WaitsOn(s, Emitted(s)) && WaitsOn(s, Acknowledged(Emitted(s), win))
  {
    PreparedWaits(s);
    hide Advanced;
    hide FinBit;
    hide Length;
    if Running(s) && Window(s) == 0 {
      ClosedWindow(s);
    }
    hide Prepared;
    hide Inv;
    hide Backed;
    hide Gt;
    var p := Prepared(s);
    FilledWaits(p, Length(s), FinBit(s, p));
    var e := Emitted(s);
    assert WaitsOn(p, e);
    hide Emitted;
    WaitsTwice(s, p, e);
    AcknowledgedWaits(s, e, win);
  }

  lemma AcknowledgedWaits(s: Tcb, t: Tcb, win: int)
    requires WaitsOn(s, t)
    ensures WaitsOn(s, Acknowledged(t, win))
  {
  }

  lemma FilledWaits(p: Tcb, len: int, fin: bool)
    requires Waiting(p) && (Window(p) != 0 || FinOnly(p) || (len == 0 && !fin))
    ensures var t := Backed(p, fin);
      WaitsOn(p, Advanced(if Gt(t.sndUp, t.sndUna) then t else t.(sndUp := t.sndUna), len, fin))
  {
    hide Gt;
    hide Advanced;
    var t := Backed(p, fin);
    var u := if Gt(t.sndUp, t.sndUna) then t else t.(sndUp := t.sndUna);
    assert WaitsOn(p, u) && Window(u) == Window(p) && FinOnly(u) == FinOnly(p);
    AdvancedWaits(u, len, fin);
    WaitsTwice(p, u, Advanced(u, len, fin));
  }

  lemma WaitsTwice(s: Tcb, t: Tcb, u: Tcb)
    requires WaitsOn(s, t) && WaitsOn(t, u)
    ensures WaitsOn(s, u) && Waiting(t)
  {
  }

  lemma {:induction false} TurnsWait(s: Tcb, answers: seq<Answer>)
    requires Inv(s) && Waiting(s)
    ensures WaitsOn(s, Turns(s, answers).tp)
    decreases |answers|
  {
    Unfold(s, answers);
    PreparedWaits(s);
    EmittedWaits(s, Advertised(s));
    hide *;
    var t := Acknowledged(Emitted(s), Advertised(s));
    if MustSend(s) && answers != [] && answers[0] == Taken && SendAlot(s) {
      TurnsWait(t, answers[1..]);
      WaitsTwice(s, t, Turns(t, answers[1..]).tp);
    }
  }

  /** A segment carries the bytes of the stream that its sequence number names, and a FIN the end of the stream. */
  ghost predicate Carried(g: Segment, start: Seq, stream: seq<Byte>) {
    && (g.data != [] ==> exists p: nat :: p + |g.data| <= |stream| && g.data == stream[p..p + |g.data|] && g.sq == Add(start, p))
    && (g.fin ==> Add(g.sq, |g.data|) == Add(start, |stream|))
  }

  /** The FIN has been acknowledged. */
  predicate FinAcked(p: Phase) { p == FinWait2 || p == TimeWait }

  /** The buffer holds the end of the stream, and `snd_una` is the number of its first byte. */
  ghost predicate HoldsEnd(s: Tcb, start: Seq, stream: seq<Byte>) {
    && |s.snd| <= |stream| && s.snd == stream[|stream| - |s.snd|..]
    && (if FinAcked(s.phase) then s.snd == [] else s.sndUna == Add(start, |stream| - |s.snd|))
  }

  lemma HeldAlike(s: Tcb, t: Tcb, start: Seq, stream: seq<Byte>)
    requires HoldsEnd(s, start, stream) && t.snd == s.snd && t.sndUna == s.sndUna && t.phase == s.phase
    ensures HoldsEnd(t, start, stream)
  {
  }

  lemma SegmentCarried(s: Tcb, start: Seq, stream: seq<Byte>)
    requires Inv(s) && HoldsEnd(s, start, stream)
    ensures Length(s) > 0 ==> Offset(s) + Length(s) <= |s.snd|
    ensures Carried(SegmentOf(s), start, stream)
  {
    TurnData(s);
    DataCarried(s, start, stream);
    FinCarried(s, start, stream);
    hide *;
  }

  lemma DataCarried(s: Tcb, start: Seq, stream: seq<Byte>)
    requires Inv(s) && HoldsEnd(s, start, stream)
    ensures Length(s) > 0 ==> Offset(s) + Length(s) <= |s.snd|
    ensures var g := SegmentOf(s);
      g.data != [] ==> exists p: nat :: p + |g.data| <= |stream| && g.data == stream[p..p + |g.data|] && g.sq == Add(start, p)
  {
    TurnData(s);
    var g := SegmentOf(s);
    var k := |stream| - |s.snd|;
    if Length(s) > 0 {
      InsideWindow(s);
      AddTwice(start, k, Offset(s));
      var p: nat := k + Offset(s);
      hide SegmentOf;
      hide Add;
      assert g.data == stream[p..p + |g.data|] && g.sq == Add(start, p);
    }
  }

  lemma FinCarried(s: Tcb, start: Seq, stream: seq<Byte>)
    requires Inv(s) && HoldsEnd(s, start, stream)
    ensures Length(s) > 0 ==> Offset(s) + Length(s) <= |s.snd|
    ensures var g := SegmentOf(s); g.fin ==> Add(g.sq, |g.data|) == Add(start, |stream|)
  {
    TurnData(s);
    if FinBit(s, Prepared(s)) {
      FinBehindData(s);
      AddTwice(start, |stream| - |s.snd|, |s.snd|);
      hide Add;
    }
  }

  lemma {:induction false} AllCarried(s: Tcb, answers: seq<Answer>, start: Seq, stream: seq<Byte>)
    requires Inv(s) && HoldsEnd(s, start, stream)
    ensures forall g | g in Turns(s, answers).segs :: Carried(g, start, stream) && (g.fin ==> SendsFin(s.phase))
    decreases |answers|
  {
    TurnKeeps(s);
    SegmentCarried(s, start, stream);
    assert SegmentOf(s).fin ==> SendsFin(s.phase);
    Unfold(s, answers);
    var t := Acknowledged(Emitted(s), Advertised(s));
    assert t.snd == s.snd && t.sndUna == s.sndUna && t.phase == s.phase;
    hide *;
    if MustSend(s) && answers != [] && answers[0] == Taken && SendAlot(s) {
      HeldAlike(s, t, start, stream);
      AllCarried(t, answers[1..], start, stream);
    }
  }

  /** Output that is not forced leaves the back-off alone while the retransmit timer runs. */
  lemma {:induction false} TurnsBackoff(s: Tcb, answers: seq<Answer>)
    requires Inv(s) && s.rexmt != 0 && !s.force && (Sendable(s) >= 0 || Window(s) != 0)
    ensures var t := Turns(s, answers).tp; t.rexmt != 0 && t.rxtShift == s.rxtShift && t.maxSeg == s.maxSeg
    decreases |answers|
  {
    TurnKeeps(s);
    SameBackoff(s, Advertised(s));
    TurnData(s);
    assert Prepared(s).rexmt != 0 && Prepared(s).rxtShift == s.rxtShift && Emitted(s).rexmt != 0 && Emitted(s).rxtShift == s.rxtShift;
    hide Inv;
    hide Emitted;
    hide Withheld;
    hide Prepared;
    hide Advertised;
    hide Acknowledged;
    hide SegmentOf;
    hide MustSend;
    hide SendAlot;
    hide Window;
    hide Sendable;
    if MustSend(s) && answers != [] && answers[0] == Taken && SendAlot(s) {
      TurnsBackoff(Acknowledged(Emitted(s), Advertised(s)), answers[1..]);
    }
  }
}
