/** A TCP connection from ESTABLISHED on: `tcp_output`, its timers, and what else can happen to it. */
module TcpConnection {
  import opened Mbufs
  import opened Numbers
  import opened TcpSequence
  import opened TcpSend
  import opened TcpTurns
  import opened TcpLaws

  /** Nothing is written any more. */
  predicate Finished(p: Phase) { p != Established && p != CloseWait }

  /** All segments carry what the stream has at their numbers, and the buffer holds its end. */
  ghost predicate Sound(s: Tcb, start: Seq, stream: seq<Byte>, log: seq<Segment>) {
    && Inv(s) && HoldsEnd(s, start, stream) && (s.sentFin ==> Finished(s.phase))
    && forall g | g in log :: Carried(g, start, stream) && (g.fin ==> Finished(s.phase))
  }

  class Connection {
    /** `struct tcpcb` and the buffers of its socket */
    var tp: Tcb
    /** the sequence number of the first byte, all bytes that were written, all segments that were handed on */
    ghost const start: Seq
    ghost var stream: seq<Byte>
    ghost var log: seq<Segment>

    ghost predicate Valid()
      reads this
    {
      Sound(tp, start, stream, log)
    }

    /** A connection that has just been established. */
    constructor (tp: Tcb)
      requires Inv(tp) && tp.phase == Established && tp.snd == [] && !tp.sentFin
      ensures Valid() && this.tp == tp && stream == [] && log == []
    {
      NothingHeld(tp);
      hide *;
      this.tp := tp;
      start := tp.sndUna;
      stream, log := [], [];
    }

    /** `tcp_output`, lines 102-233: what goes into the next segment, and whether it is worth sending. */
    method Decide() returns (off: int, len: int, fin: bool, again: bool, must: bool)
      requires Inv(tp)
      modifies `tp
      ensures tp == Prepared(old(tp)) && off == Offset(old(tp)) && len == Length(old(tp)) && fin == FinBit(old(tp), tp)
      ensures again == SendAlot(old(tp)) && must == MustSend(old(tp))
    {
      off := Sub(tp.sndNxt, tp.sndUna);
      var win := Min(tp.sndWnd, tp.sndCwnd);
      fin := SendsFin(tp.phase);
      if tp.force {
        if win == 0 {
          if off < |tp.snd| {
            fin := false;
          }
          win := 1;
        } else {
          tp := tp.(persist := 0, rxtShift := 0);
        }
      }
      len := Min(|tp.snd|, win) - off;
      if len < 0 {
        len := 0;
        if win == 0 {
          tp := tp.(rexmt := 0, sndNxt := tp.sndUna);
        }
      }
      again := len > tp.maxSeg;
      if again {
        len := tp.maxSeg;
      }
      if Lt(Add(tp.sndNxt, len), Add(tp.sndUna, |tp.snd|)) {
        fin := false;
      }
      must := Worth(off, len) || WindowUpdate(tp) || tp.ackNow || Gt(tp.sndUp, tp.sndUna)
        || (fin && (!tp.sentFin || tp.sndNxt == tp.sndUna));
    }

    /** Lines 181-193. */
    predicate Worth(off: int, len: int)
      reads this
    {
      len > 0 && (len == tp.maxSeg || len + off >= |tp.snd| || tp.force || (tp.maxSndWnd > 0 && len >= tp.maxSndWnd / 2)
                  || Lt(tp.sndNxt, tp.sndMax))
    }

    /** `tcp_setpersist` */
    method SetPersist()
      requires 0 <= tp.rxtShift <= TCP_MAXRXTSHIFT
      modifies `tp
      ensures tp == Persisting(old(tp)) && TCPTV_PERSMIN <= tp.persist <= TCPTV_PERSMAX
    {
      var t := (tp.srtt / 4 + tp.rttVar) / 2;
      RangeWithin(t * BACKOFF[tp.rxtShift], TCPTV_PERSMIN, TCPTV_PERSMAX);
      tp := tp.(persist := RangeSet(t * BACKOFF[tp.rxtShift], TCPTV_PERSMIN, TCPTV_PERSMAX));
      if tp.rxtShift < TCP_MAXRXTSHIFT {
        tp := tp.(rxtShift := tp.rxtShift + 1);
      }
    }

    /** Lines 257-268: nothing to send, but perhaps something to poll for. */
    method Withhold(ghost s: Tcb)
      requires Inv(s) && tp == Prepared(s)
      modifies `tp
      ensures tp == Withheld(s)
    {
      if |tp.snd| > 0 && tp.rexmt == 0 && tp.persist == 0 {
        tp := tp.(rxtShift := 0);
        SetPersist();
      }
    }

    /** Lines 270-526: builds the segment and moves on behind it. */
    method Emit(off: int, len: int, fin: bool, ghost s: Tcb) returns (g: Segment, win: int)
      requires Inv(s) && tp == Prepared(s) && off == Offset(s) && len == Length(s) && fin == FinBit(s, tp)
      requires off >= 0 && (len > 0 ==> off + len <= |tp.snd|) && s.rcvUnit > 0
      modifies `tp
      ensures tp == Emitted(s) && g == SegmentOf(s) && win == Advertised(s)
    {
      PreparedSame(s);
      hide Inv;
      hide Prepared;
      hide FinBit;
      hide Length;
      hide Offset;
      hide Advertised;
      hide Advanced;
      hide Gt;
      hide Add;
      AdvertisedAlike(s, tp);
      AdvertisedAlike(s, Backed(tp, fin));
      var data := if len > 0 then tp.snd[off..off + len] else [];
      var psh := len > 0 && off + len == |tp.snd|;
      if fin && tp.sentFin && tp.sndNxt == tp.sndMax {
        tp := tp.(sndNxt := Add(tp.sndNxt, -1));
      }
      var sq := if len > 0 || fin || tp.persist != 0 then tp.sndNxt else tp.sndMax;
      win := ReceiveWindow();
      var urg := Gt(tp.sndUp, tp.sndUna);
      if !urg {
        tp := tp.(sndUp := tp.sndUna);
      }
      g := Segment(sq, tp.rcvNxt, fin, psh, urg, (win / tp.rcvUnit) % 0x1_0000, data);
      Advance(len, fin);
    }

    /** Lines 169 and 442-447. */
    method ReceiveWindow() returns (win: int)
      ensures win == Advertised(tp)
    {
      win := tp.rcvLen - tp.rcvCc;
      if win < tp.rcvLen / 4 && win < tp.maxSeg {
        win := 0;
      }
      if win > TCP_MAXWIN * tp.rcvUnit {
        win := TCP_MAXWIN * tp.rcvUnit;
      }
      if win < Diff(tp.rcvAdv, tp.rcvNxt) {
        win := Diff(tp.rcvAdv, tp.rcvNxt);
      }
    }

    /** Lines 479-526. */
    method Advance(len: int, fin: bool)
      modifies `tp
      ensures tp == Advanced(old(tp), len, fin)
    {
      if !tp.force || tp.persist == 0 {
        var startSeq := tp.sndNxt;
        if fin {
          tp := tp.(sentFin := true);
        }
        tp := tp.(sndNxt := Add(tp.sndNxt, len + if fin then 1 else 0));
        if Gt(tp.sndNxt, tp.sndMax) {
          tp := tp.(sndMax := tp.sndNxt);
          if tp.rtt == 0 {
            tp := tp.(rtt := 1, rtSeq := startSeq);
          }
        }
        if tp.rexmt == 0 && tp.sndNxt != tp.sndUna {
          tp := tp.(rexmt := tp.rxtCur);
          if tp.persist != 0 {
            tp := tp.(persist := 0, rxtShift := 0);
          }
        }
      } else if Gt(Add(tp.sndNxt, len), tp.sndMax) {
        tp := tp.(sndMax := Add(tp.sndNxt, len));
      }
    }

    /** Lines 573-581: the peer knows of the window now, and nothing is owed to it. */
    method Remember(win: int)
      modifies `tp
      ensures tp == Acknowledged(old(tp), win)
    {
      if win > 0 && Gt(Add(tp.rcvNxt, win), tp.rcvAdv) {
        tp := tp.(rcvAdv := Add(tp.rcvNxt, win));
      }
      tp := tp.(lastAckSent := tp.rcvNxt, ackNow := false, delAck := false);
    }

    /** One turn of `tcp_output`. */
    method Turn(answer: Answer) returns (error: bool, sent: seq<Segment>, again: bool)
      requires Inv(tp)
      modifies `tp
      ensures !MustSend(old(tp)) ==> tp == Withheld(old(tp)) && sent == [] && !error && !again
      ensures MustSend(old(tp)) && answer == NoBuffer ==> tp == Prepared(old(tp)) && sent == [] && error && !again
      ensures MustSend(old(tp)) && answer == Refused ==>
        tp == Emitted(old(tp)) && SegmentFits(old(tp)) && sent == [SegmentOf(old(tp))] && error && !again
      ensures MustSend(old(tp)) && answer == Taken ==>
        && tp == Acknowledged(Emitted(old(tp)), Advertised(old(tp))) && SegmentFits(old(tp)) && sent == [SegmentOf(old(tp))]
        && !error && again == SendAlot(old(tp))
      ensures again ==> SendAlot(old(tp)) && tp == Acknowledged(Emitted(old(tp)), Advertised(old(tp)))
    {
      ghost var s := tp;
      TurnKeeps(s);
      assert s.rcvUnit > 0 && Offset(s) >= 0;
      hide Inv;
      hide Prepared;
      hide Emitted;
      hide Withheld;
      hide FinBit;
      hide MustSend;
      hide SendAlot;
      hide Length;
      hide Offset;
      hide Advertised;
      hide SegmentOf;
      var off, len, fin, more, must := Decide();
      if !must {
        Withhold(s);
        return false, [], false;
      }
      if answer == NoBuffer {
        return true, [], false;
      }
      var g, win := Emit(off, len, fin, s);
      if answer == Refused {
        return true, [g], false;
      }
      Remember(win);
      return false, [g], more;
    }

    /** `tcp_output`; each further turn has a segment less to send, so it ends. */
    method Output(answers: seq<Answer>) returns (error: bool, segs: seq<Segment>)
      requires Valid()
      modifies `tp, `log
      ensures Valid() && Inv(Started(old(tp))) && log == old(log) + segs
      ensures var r := Turns(Started(old(tp)), answers); tp == r.tp && segs == r.segs && error == r.error
      ensures SameEstimate(old(tp), tp) && forall g | g in segs :: g.ack == old(tp).rcvNxt
    {
      StartedKeeps(tp, start, stream);
      ghost var s := Started(tp);
      if tp.sndMax == tp.sndUna && tp.idle >= tp.rxtCur {
        tp := tp.(sndCwnd := tp.maxSeg);
      }
      hide Inv;
      hide HoldsEnd;
      hide Carried;
      error, segs := Loop(answers);
      TurnsKeep(s, answers);
      TurnsEstimate(s, answers);
      AllAcknowledge(s, answers);
      AllCarried(s, answers, start, stream);
      StillHoldsEnd(s, tp, start, stream);
      log := log + segs;
    }

    /** The turns from `again:` on. */
    method Loop(answers: seq<Answer>) returns (error: bool, segs: seq<Segment>)
      requires Inv(tp)
      modifies `tp
      ensures var r := Turns(old(tp), answers); tp == r.tp && segs == r.segs && error == r.error
    {
      hide Inv;
      hide Prepared;
      hide Emitted;
      hide Withheld;
      hide Acknowledged;
      hide MustSend;
      hide Advertised;
      hide SegmentOf;
      ghost var s := tp;
      var k, again, sent := 0, true, [];
      segs, error := [], false;
      while again
        invariant again ==> Inv(tp) && k <= |answers| && !error
        invariant again ==> Turns(s, answers) == Turns(tp, answers[k..]).(segs := segs + Turns(tp, answers[k..]).segs)
        invariant !again ==> Turns(s, answers) == Outcome(tp, segs, error)
        decreases again, Sendable(tp)
      {
        ghost var t, done := tp, segs;
        TurnKeeps(t);
        Unfold(t, answers[k..]);
        error, sent, again := Turn(if k < |answers| then answers[k] else NoBuffer);
        segs := segs + sent;
        if again {
          AgainShrinks(t, Advertised(t));
          assert answers[k..][1..] == answers[k + 1..];
          k := k + 1;
          assert done + (sent + Turns(tp, answers[k..]).segs) == segs + Turns(tp, answers[k..]).segs;
        } else {
          assert Turns(t, answers[k..]) == Outcome(tp, sent, error);
        }
      }
    }

    /** The retransmit timer goes off, lines 166-263 of `tcp_timer.c`; after `tcp_drop` there is no connection any more. */
    method RexmtTimeout(answers: seq<Answer>) returns (dropped: bool)
      requires Valid() && !tp.force
      modifies `tp, `log
      ensures dropped == Drops(old(tp))
      ensures dropped ==> tp == old(tp).(rxtShift := TCP_MAXRXTSHIFT, maxSeg := old(tp).maxSeg / 2) && log == old(log)
      ensures !dropped ==> Valid() && !tp.force
      ensures !dropped ==> tp.rexmt != 0 && tp.maxSeg == BackedOff(old(tp)).maxSeg && tp.rxtShift == BackedOff(old(tp)).rxtShift
      ensures !dropped ==> tp.rxtCur == Cut(Base(old(tp)) * Factor(tp.rxtShift), old(tp).rttMin, 24) && tp.rttMin == old(tp).rttMin
      ensures !dropped && -0x8000 <= Base(old(tp)) < 0x8000 ==> Base(tp) == Base(old(tp))
      ensures !dropped && old(tp).persist == 0 ==> Waiting(tp) && tp.sndWnd == old(tp).sndWnd
      ensures !dropped ==> var s := Retried(BackedOff(old(tp)));
        && Inv(Started(s)) && tp == Turns(Started(s), answers).tp && log == old(log) + Turns(Started(s), answers).segs
    {
      ghost var s := tp;
      var shift, maxSeg := tp.rxtShift + 1, tp.maxSeg;
      if shift > TCP_MAXRXTSHIFT {
        maxSeg := maxSeg / 2;
        if maxSeg < 32 {
          tp := tp.(rxtShift := TCP_MAXRXTSHIFT, maxSeg := maxSeg);
          return true;
        }
        shift := 6;
      }
      RetriedKeeps(s);
      RetriedStarted(s, answers);
      if s.persist == 0 {
        RetriedWaits(s, answers);
      }
      RetriedHoldsEnd(BackedOff(s), start, stream);
      tp := tp.(rxtShift := shift, maxSeg := maxSeg);
      assert tp == BackedOff(s);
      RetriedTimes(s);
      hide Inv;
      hide HoldsEnd;
      hide Carried;
      tp := Retried(tp);
      ghost var u := tp;
      var error, segs := Output(answers);
      BaseOf(u, tp);
      dropped := false;
    }

    /**
     * Expiry after expiry without an acknowledgment: the connection is dropped, and this is how many it takes; `waits` are
     * the values of the timer after all but the last.
     */
    method Abandoned(answers: nat -> seq<Answer>) returns (n: nat, waits: seq<int>)
      requires Valid() && !tp.force
      modifies `tp, `log
      ensures n == Expiries(old(tp).maxSeg, old(tp).rxtShift) && tp.rxtShift == TCP_MAXRXTSHIFT && tp.maxSeg < 32
      ensures |waits| == n - 1
      ensures -0x8000 <= Base(old(tp)) < 0x8000 ==>
                forall i | 0 <= i < |waits| :: waits[i] == Cut(Base(old(tp)) * Factor(old(tp).rxtShift + 1 + i), old(tp).rttMin, 24)
    {
      BackoffInRange();
      assert Left(tp) == Expiries(tp.maxSeg, tp.rxtShift);
      hide Valid;
      hide Left;
      hide Base;
      hide Factor;
      hide Cut;
      hide SameFactors;
      var dropped := false;
      n, waits := 0, [];
      ghost var s, small := tp, -0x8000 <= Base(tp) < 0x8000;
      assert SameFactors(tp.rxtShift, s.rxtShift + n) by { FactorsBegin(tp.rxtShift); }
      while !dropped
        invariant if dropped then tp.rxtShift == TCP_MAXRXTSHIFT && tp.maxSeg < 32 && n == Left(s) && |waits| == n - 1
                  else Valid() && !tp.force && Left(s) == n + Left(tp) && |waits| == n
        invariant !dropped ==> (small ==> Base(tp) == Base(s)) && tp.rttMin == s.rttMin && SameFactors(tp.rxtShift, s.rxtShift + n)
        invariant small ==> forall i | 0 <= i < |waits| :: waits[i] == Cut(Base(s) * Factor(s.rxtShift + 1 + i), s.rttMin, 24)
        decreases !dropped, Left(tp)
      {
        ghost var shift := tp.rxtShift;
        dropped := Expire(answers(n));
        n := n + 1;
        if !dropped {
          FactorsGo(shift, tp.rxtShift, s.rxtShift + n);
          waits := waits + [tp.rxtCur];
        }
      }
    }

    /** One expiry, counted. */
    method Expire(answers: seq<Answer>) returns (dropped: bool)
      requires Valid() && !tp.force
      modifies `tp, `log
      ensures dropped <==> Left(old(tp)) == 1
      ensures dropped ==> tp.rxtShift == TCP_MAXRXTSHIFT && tp.maxSeg < 32
      ensures !dropped ==> Valid() && !tp.force && Left(old(tp)) == Left(tp) + 1 && tp.rttMin == old(tp).rttMin
      ensures !dropped ==> tp.rxtShift == old(tp).rxtShift + 1 || (old(tp).rxtShift == 12 && tp.rxtShift == 6)
      ensures !dropped ==> tp.rxtCur == Cut(Base(old(tp)) * Factor(tp.rxtShift), old(tp).rttMin, 24)
      ensures !dropped && -0x8000 <= Base(old(tp)) < 0x8000 ==> Base(tp) == Base(old(tp))
      ensures !dropped && old(tp).persist == 0 ==> Waiting(tp) && tp.sndWnd == old(tp).sndWnd && tp.rexmt != 0
    {
      BackoffInRange();
      LeftStep(tp);
      hide Inv;
      hide Left;
      hide Drops;
      hide HoldsEnd;
      hide Carried;
      hide Base;
      hide Factor;
      hide Cut;
      ghost var b := BackedOff(tp);
      hide BackedOff;
      dropped := RexmtTimeout(answers);
      if !dropped {
        LeftAlike(b, tp);
      }
    }

    /** An event other than an acknowledgment; what cannot happen now does not. */
    method Happen(e: Event)
      requires Valid() && Waiting(tp) && !e.Expires?
      modifies `tp, `log, `stream
      ensures Valid() && WaitsOn(old(tp), tp)
    {
      hide Inv;
      hide HoldsEnd;
      hide Carried;
      match e
      case Outputs(answers) =>
        assert Inv(tp) by { StartedKeeps(tp, start, stream); }
        StartedWaits(tp);
        ghost var s, t := tp, Started(tp);
        var error, segs := Output(answers);
        TurnsWait(t, answers);
        hide Waiting;
        WaitsTwice(s, t, tp);
      case Written(data) =>
        if !Finished(tp.phase) && |tp.snd| + |data| < 0x4000_0000 {
          Append(data);
        }
      case Passed(n) =>
        if n <= tp.rcvCc {
          Consume(n);
        }
      case Arrives(n) =>
        if (n <= tp.rcvLen - tp.rcvCc || n <= Diff(tp.rcvAdv, tp.rcvNxt)) && Diff(tp.rcvAdv, tp.rcvNxt) - n > -0x4000_0000 {
          Receive(n);
        }
      case Shuts =>
        if !Finished(tp.phase) {
          Shut();
        }
      case PeerShuts =>
        if (tp.phase == Established || tp.phase == FinWait1 || tp.phase == FinWait2) && Diff(tp.rcvAdv, tp.rcvNxt) - 1 > -0x4000_0000 {
          PeerFin();
        }
    }

    /**
     * A run without acknowledgments, in which all else may happen between the expiries of the retransmit timer: only these
     * count, so that the connection is dropped at the same one as if nothing else had happened. With an open window the
     * timer never stops, and a run with that many expiries always ends so.
     */
    method Unacknowledged(events: seq<Event>) returns (dropped: bool, n: nat)
      requires Valid() && Waiting(tp)
      modifies `tp, `log, `stream
      ensures n <= Left(old(tp)) && (dropped <==> n == Left(old(tp)))
      ensures !dropped ==> Valid() && Waiting(tp) && n + Left(tp) == Left(old(tp))
      ensures old(tp.rexmt != 0 && tp.sndWnd != 0) ==> n == Min(Timeouts(events), Left(old(tp)))
    {
      hide Valid;
      hide Waiting;
      hide WaitsOn;
      dropped, n := false, 0;
      ghost var all, open := Left(tp), tp.rexmt != 0 && tp.sndWnd != 0;
      for i := 0 to |events|
        invariant Valid() && Waiting(tp) && n + Left(tp) == all && !dropped
        invariant open ==> tp.rexmt != 0 && tp.sndWnd != 0 && n == Timeouts(events[..i])
      {
        TimeoutsMore(events, i);
        var fired;
        fired, dropped := Step(events[i]);
        if fired {
          n := n + 1;
        }
        if dropped {
          TimeoutsGrow(events, i + 1);
          return;
        }
      }
      BackoffInRange();
      LeftSome(tp);
      assert events[..|events|] == events;
    }

    lemma BackoffInRange()
      requires Valid()
      ensures 0 <= tp.rxtShift <= TCP_MAXRXTSHIFT && tp.maxSeg >= 0
    {
    }

    /** One event; an expiry only happens when the timer runs. */
    method Step(e: Event) returns (fired: bool, dropped: bool)
      requires Valid() && Waiting(tp)
      modifies `tp, `log, `stream
      ensures !dropped ==> Valid() && Waiting(tp)
      ensures dropped ==> fired && Left(old(tp)) == 1
      ensures !dropped ==> Left(old(tp)) == Left(tp) + if fired then 1 else 0
      ensures old(tp.rexmt != 0 && tp.sndWnd != 0) ==> fired == e.Expires? && (!dropped ==> tp.rexmt != 0 && tp.sndWnd != 0)
    {
      hide Valid;
      hide Waiting;
      hide Left;
      fired, dropped := false, false;
      if !e.Expires? {
        ghost var s := tp;
        Happen(e);
        WaitsLeft(s, tp);
      } else if tp.rexmt != 0 {
        fired := true;
        WaitingHas(tp);
        dropped := Expire(e.answers);
      }
    }

    /** The persist timer goes off: a byte is forced out, if there is one. */
    method PersistTimeout(answers: seq<Answer>) returns (error: bool, segs: seq<Segment>)
      requires Valid() && !tp.force
      modifies `tp, `log
      ensures Valid() && !tp.force && log == old(log) + segs
      ensures var s := Started(Persisting(old(tp)).(force := true)); Inv(s) && segs == Turns(s, answers).segs
    {
      PersistingKeeps(tp, start, stream);
      SetPersist();
      hide Inv;
      hide HoldsEnd;
      hide Carried;
      tp := tp.(force := true);
      ghost var s := Started(tp);
      error, segs := Output(answers);
      ForceKeeps(tp, start, stream);
      tp := tp.(force := false);
    }

    // ---- what else can happen

    /** Data is written, and appended to the send buffer. */
    method Append(data: seq<Byte>)
      requires Valid() && !Finished(tp.phase) && |tp.snd| + |data| < 0x4000_0000
      modifies `tp, `stream
      ensures Valid() && tp == old(tp).(snd := old(tp).snd + data) && stream == old(stream) + data
    {
      ghost var was, all := stream, stream + data;
      forall g | g in log
        ensures Carried(g, start, all)
      {
        LongerCarried(g, start, was, data);
      }
      tp := tp.(snd := tp.snd + data);
      stream := all;
      assert |all| - |tp.snd| == |was| - |old(tp).snd|;
      assert HoldsEnd(tp, start, stream);
    }

    /** Data arrives that is inside the window of `tcp_input` line 618: then there is room for it. */
    method Receive(n: nat)
      requires Valid() && (n <= Space(tp) || n <= Promised(tp)) && Promised(tp) - n > -0x4000_0000
      modifies `tp
      ensures Valid() && tp == old(tp).(rcvNxt := Add(old(tp).rcvNxt, n), rcvCc := old(tp).rcvCc + n) && tp.rcvCc <= tp.rcvLen
    {
      Nearer(tp.rcvAdv, tp.rcvNxt, n);
      tp := tp.(rcvNxt := Add(tp.rcvNxt, n), rcvCc := tp.rcvCc + n);
    }

    /** Received data is passed on. */
    method Consume(n: nat)
      requires Valid() && n <= tp.rcvCc
      modifies `tp
      ensures Valid() && tp == old(tp).(rcvCc := old(tp).rcvCc - n)
    {
      tp := tp.(rcvCc := tp.rcvCc - n);
    }

    /** The peer sends its FIN, which takes a sequence number and no room. */
    method PeerFin()
      requires Valid() && (tp.phase == Established || tp.phase == FinWait1 || tp.phase == FinWait2)
      requires Promised(tp) - 1 > -0x4000_0000
      modifies `tp
      ensures Valid() && tp == old(tp).(rcvNxt := Add(old(tp).rcvNxt, 1), ackNow := true, phase := AfterFin(old(tp).phase))
      ensures tp.phase == match old(tp).phase case Established => CloseWait case FinWait1 => Closing case _ => TimeWait
    {
      Nearer(tp.rcvAdv, tp.rcvNxt, 1);
      tp := tp.(rcvNxt := Add(tp.rcvNxt, 1), ackNow := true, phase := AfterFin(tp.phase));
    }

    /** Nothing more will be written. */
    method Shut()
      requires Valid() && !Finished(tp.phase)
      modifies `tp
      ensures Valid() && tp == old(tp).(phase := if old(tp).phase == Established then FinWait1 else LastAck)
    {
      tp := tp.(phase := if tp.phase == Established then FinWait1 else LastAck);
    }

    /** `n` more are acknowledged, `tcp_input` lines 1152-1284; windows and back-off are as the segment and the peer have it. */
    method AckArrives(n: nat, wnd: int, cwnd: int, shift: nat) returns (closed: bool)
      requires Valid() && 0 < n <= Outstanding(tp) && 0 <= wnd < TWO_31 && 1 <= cwnd < TWO_31 && shift <= TCP_MAXRXTSHIFT
      modifies `tp
      ensures Valid() && (closed <==> old(tp).phase == LastAck && n > |old(tp).snd|)
      ensures !closed ==> tp.sndUna == Add(old(tp).sndUna, n) && tp.snd == if n > |old(tp).snd| then [] else old(tp).snd[n..]
      ensures !closed ==> (FinAcked(tp.phase) <==> n > |old(tp).snd|)
      ensures !closed ==> tp.sndWnd == wnd && tp.sndCwnd == cwnd && tp.rxtShift == shift && tp.dupAcks == 0 && tp.sndMax == old(tp).sndMax
      ensures !closed ==> tp.phase == if n > |old(tp).snd| then (if old(tp).phase == FinWait1 then FinWait2 else TimeWait) else old(tp).phase
      ensures !closed && n == Outstanding(old(tp)) ==> tp.rexmt == 0
      ensures !closed && n < Outstanding(old(tp)) && old(tp).persist == 0 ==> tp.rexmt == old(tp).rxtCur && tp.rexmt != 0
    {
      ghost var s := tp;
      if tp.phase == LastAck && n > |tp.snd| {
        return true;
      }
      closed := false;
      AckedKeeps(s, n, start, stream);
      AckedInv(s, n, wnd, cwnd, shift, start, stream);
      hide Inv;
      hide HoldsEnd;
      hide Carried;
      TakeAck(n, wnd, cwnd, shift);
    }

    method TakeAck(n: nat, wnd: int, cwnd: int, shift: nat)
      modifies `tp
      ensures tp == AckedBy(old(tp), n, wnd, cwnd, shift)
    {
      hide Add;
      hide Sub;
      hide Lt;
      var ourFinIsAcked := n > |tp.snd|;
      var rexmt := if n == Sub(tp.sndMax, tp.sndUna) then 0 else if tp.persist == 0 then tp.rxtCur else tp.rexmt;
      var una := Add(tp.sndUna, n);
      var nxt := if Lt(tp.sndNxt, una) then una else tp.sndNxt;
      tp := tp.(rexmt := rexmt, snd := if ourFinIsAcked then [] else tp.snd[n..], sndUna := una, sndNxt := nxt,
                sndWnd := wnd, sndCwnd := cwnd, rxtShift := shift, dupAcks := 0);
      if ourFinIsAcked {
        FinTaken();
      }
    }

    /** Lines 1236-1272. */
    method FinTaken()
      modifies `tp
      ensures tp == if old(tp).phase == FinWait1 then old(tp).(phase := FinWait2)
                    else old(tp).(phase := TimeWait, rexmt := 0, persist := 0)
    {
      if tp.phase == FinWait1 {
        tp := tp.(phase := FinWait2);
      } else {
        tp := tp.(phase := TimeWait, rexmt := 0, persist := 0);
      }
    }
  }

  /** What can happen to a connection while no acknowledgment comes. */
  datatype Event =
    | Expires(answers: seq<Answer>)
    | Outputs(answers: seq<Answer>)
    | Written(data: seq<Byte>)
    | Passed(n: nat)
    | Arrives(n: nat)
    | Shuts
    | PeerShuts

  /** How many expiries the connection survives, and the one that it does not. */
  ghost function Left(s: Tcb): nat {
    if 0 <= s.rxtShift <= TCP_MAXRXTSHIFT && s.maxSeg >= 0 then Expiries(s.maxSeg, s.rxtShift) else 0
  }

  lemma WaitsLeft(s: Tcb, t: Tcb)
    requires WaitsOn(s, t)
    ensures Waiting(t) && Left(t) == Left(s) && t.sndWnd == s.sndWnd && (s.rexmt != 0 && s.sndWnd != 0 ==> t.rexmt != 0)
  {
  }

  lemma LeftStep(s: Tcb)
    requires Inv(s)
    ensures Drops(s) <==> Left(s) == 1
    ensures Drops(s) ==> s.maxSeg / 2 < 32
    ensures !Drops(s) ==> Left(s) == Left(BackedOff(s)) + 1
    ensures BackedOff(s).rxtShift == s.rxtShift + 1 || (s.rxtShift == 12 && BackedOff(s).rxtShift == 6)
  {
    LeftSome(BackedOff(s));
    hide SendOrder;
    hide Room;
  }

  lemma LeftAlike(s: Tcb, t: Tcb)
    requires t.maxSeg == s.maxSeg && t.rxtShift == s.rxtShift
    ensures Left(t) == Left(s)
  {
  }

  lemma LeftSome(s: Tcb)
    requires 0 <= s.rxtShift <= TCP_MAXRXTSHIFT && s.maxSeg >= 0
    ensures Left(s) > 0
  {
  }

  function Timeouts(events: seq<Event>): nat {
    if events == [] then 0 else Timeouts(events[..|events| - 1]) + if events[|events| - 1].Expires? then 1 else 0
  }

  lemma TimeoutsMore(events: seq<Event>, i: nat)
    requires i < |events|
    ensures Timeouts(events[..i + 1]) == Timeouts(events[..i]) + if events[i].Expires? then 1 else 0
  {
    assert events[..i + 1][..i] == events[..i];
  }

  lemma {:induction false} TimeoutsGrow(events: seq<Event>, i: nat)
    requires i <= |events|
    ensures Timeouts(events[..i]) <= Timeouts(events)
    decreases |events| - i
  {
    if i < |events| {
      TimeoutsMore(events, i);
      TimeoutsGrow(events, i + 1);
    } else {
      assert events[..i] == events;
    }
  }

  function AfterFin(p: Phase): Phase {
    match p case Established => CloseWait case FinWait1 => Closing case _ => TimeWait
  }

  lemma AdvertisedAlike(s: Tcb, t: Tcb)
    requires t.rcvLen == s.rcvLen && t.rcvCc == s.rcvCc && t.maxSeg == s.maxSeg && t.rcvUnit == s.rcvUnit
    requires t.rcvAdv == s.rcvAdv && t.rcvNxt == s.rcvNxt
    ensures Advertised(t) == Advertised(s)
  {
  }

  lemma StartedKeeps(s: Tcb, start: Seq, stream: seq<Byte>)
    requires Inv(s) && HoldsEnd(s, start, stream)
    ensures Inv(Started(s)) && HoldsEnd(Started(s), start, stream) && Started(s) == s.(sndCwnd := Started(s).sndCwnd)
  {
  }

  lemma NothingHeld(s: Tcb)
    requires Inv(s) && s.phase == Established && s.snd == [] && !s.sentFin
    ensures Sound(s, s.sndUna, [], [])
  {
    hide Inv;
  }

  lemma StillHoldsEnd(s: Tcb, t: Tcb, start: Seq, stream: seq<Byte>)
    requires Same(s, t) && HoldsEnd(s, start, stream)
    ensures HoldsEnd(t, start, stream)
  {
  }

  /** What an acknowledgment of `n` more takes away. */
  function Acked(s: Tcb, n: nat): Tcb {
    var una := Add(s.sndUna, n);
    var t := s.(sndUna := una, sndNxt := if Lt(s.sndNxt, una) then una else s.sndNxt);
    if n > |s.snd| then t.(snd := [], phase := if s.phase == FinWait1 then FinWait2 else TimeWait)
    else t.(snd := s.snd[n..])
  }

  function AckedBy(s: Tcb, n: nat, wnd: int, cwnd: int, shift: nat): Tcb {
    var t := Acked(s, n);
    t.(rexmt := if t.phase == TimeWait && n > |s.snd| then 0 else if n == Outstanding(s) then 0 else if s.persist == 0 then s.rxtCur else s.rexmt,
       persist := if t.phase == TimeWait && n > |s.snd| then 0 else s.persist,
       sndWnd := wnd, sndCwnd := cwnd, rxtShift := shift, dupAcks := 0)
  }

  lemma AckedInv(s: Tcb, n: nat, wnd: int, cwnd: int, shift: nat, start: Seq, stream: seq<Byte>)
    requires Inv(s) && HoldsEnd(s, start, stream) && (s.sentFin ==> Finished(s.phase)) && 0 < n <= Outstanding(s)
    requires !(s.phase == LastAck && n > |s.snd|)
    requires 0 <= wnd < TWO_31 && 1 <= cwnd < TWO_31 && shift <= TCP_MAXRXTSHIFT
    ensures var t := AckedBy(s, n, wnd, cwnd, shift);
      Inv(t) && HoldsEnd(t, start, stream) && t.sentFin == s.sentFin && (Finished(s.phase) ==> Finished(t.phase))
  {
    AckedKeeps(s, n, start, stream);
    hide Add;
    hide Sub;
    hide Lt;
    hide Diff;
  }

  lemma AckedKeeps(s: Tcb, n: nat, start: Seq, stream: seq<Byte>)
    requires Inv(s) && HoldsEnd(s, start, stream) && (s.sentFin ==> Finished(s.phase)) && 0 < n <= Outstanding(s)
    requires !(s.phase == LastAck && n > |s.snd|)
    ensures SendOrder(Acked(s, n)) && HoldsEnd(Acked(s, n), start, stream) && Room(Acked(s, n))
    ensures FinAcked(Acked(s, n).phase) <==> n > |s.snd|
  {
    AckedOrder(s, n);
    AddTwice(start, |stream| - |s.snd|, n);
    hide Add;
    hide Sub;
    hide Lt;
    hide SendOrder;
  }

  lemma AckedOrder(s: Tcb, n: nat)
    requires Inv(s) && (s.sentFin ==> Finished(s.phase)) && 0 < n <= Outstanding(s)
    requires !(s.phase == LastAck && n > |s.snd|) && (FinAcked(s.phase) ==> s.snd == [])
    ensures SendOrder(Acked(s, n)) && (FinAcked(Acked(s, n).phase) <==> n > |s.snd|)
  {
    var u, a, m := s.sndUna, Offset(s), Outstanding(s);
    AddSub(s.sndNxt, u);
    AddSub(s.sndMax, u);
    Near(u, a, n);
    AddTwice(u, n, a - n);
    AddTwice(u, n, m - n);
    SubAdd(Add(u, n), m - n);
    SubSelf(Add(u, n));
    if a >= n {
      SubAdd(Add(u, n), a - n);
    }
    hide Add;
    hide Sub;
  }

  lemma SubSelf(u: Seq)
    ensures Sub(u, u) == 0
  {
  }

  lemma WaitingHas(s: Tcb)
    requires Waiting(s)
    ensures !s.force && s.persist == 0
  {
  }

  lemma RetriedWaits(s: Tcb, answers: seq<Answer>)
    requires Inv(s) && !Drops(s) && !s.force && s.persist == 0
    ensures Inv(Retried(BackedOff(s)))
    ensures var t := Turns(Retried(BackedOff(s)), answers).tp; Waiting(t) && t.sndWnd == s.sndWnd
  {
    RetriedKeeps(s);
    var t := Retried(BackedOff(s));
    assert t.persist == s.persist && t.sndWnd == s.sndWnd && !t.force;
    hide Retried;
    hide Inv;
    TurnsWait(t, answers);
  }

  /** From the sixth retransmission on the factor is the same. */
  predicate SameFactors(shift: int, count: int) {
    shift == count || (6 <= shift && 6 <= count)
  }

  lemma FactorsBegin(shift: int)
    ensures SameFactors(shift, shift)
  {
  }

  lemma FactorsGo(shift: int, next: int, count: int)
    requires SameFactors(shift, count - 1) && (next == shift + 1 || (shift == 12 && next == 6))
    ensures SameFactors(next, count) && Factor(next) == Factor(count)
  {
  }

  lemma RetriedTimes(s: Tcb)
    requires Inv(s) && !Drops(s)
    ensures var b := BackedOff(s); var t := Retried(b);
      && t.rxtCur == Cut(Base(s) * Factor(b.rxtShift), s.rttMin, 24) && t.rttMin == s.rttMin
      && (-0x8000 <= Base(s) < 0x8000 ==> Base(t) == Base(s))
  {
    var b := BackedOff(s);
    RetriedBacksOff(b);
    RetriedTells(b);
    if -0x8000 <= Base(s) < 0x8000 {
      RetriedEstimate(b);
    }
    hide Retried;
    hide Cut;
    hide Factor;
  }

  lemma BaseOf(s: Tcb, t: Tcb)
    requires SameEstimate(s, t)
    ensures Base(t) == Base(s) && t.rttMin == s.rttMin && t.rxtCur == s.rxtCur
  {
  }

  lemma RetriedStarted(s: Tcb, answers: seq<Answer>)
    requires Inv(s) && !Drops(s) && !s.force
    ensures var t := Retried(BackedOff(s));
      && Inv(t) && Inv(Started(t)) && Started(t) == t
      && Turns(t, answers).tp.rexmt != 0 && Turns(t, answers).tp.rxtShift == t.rxtShift && Turns(t, answers).tp.maxSeg == t.maxSeg
      && !Turns(t, answers).tp.force
  {
    RetriedKeeps(s);
    var t := Retried(BackedOff(s));
    assert t.sndCwnd == t.maxSeg && !t.force;
    hide Retried;
    hide Inv;
    TurnsBackoff(t, answers);
    TurnsKeep(t, answers);
  }

  lemma RetriedHoldsEnd(s: Tcb, start: Seq, stream: seq<Byte>)
    requires HoldsEnd(s, start, stream) && 0 <= s.rxtShift <= TCP_MAXRXTSHIFT && s.maxSeg > 0
    ensures HoldsEnd(Retried(s), start, stream) && Retried(s).sentFin == s.sentFin && Retried(s).phase == s.phase && Retried(s).force == s.force
  {
    hide RangeSet;
    hide Short;
  }

  lemma PersistingKeeps(s: Tcb, start: Seq, stream: seq<Byte>)
    requires Inv(s) && HoldsEnd(s, start, stream)
    ensures Inv(Persisting(s)) && HoldsEnd(Persisting(s), start, stream)
    ensures Inv(Persisting(s).(force := true)) && HoldsEnd(Persisting(s).(force := true), start, stream)
    ensures Persisting(s).sentFin == s.sentFin && Persisting(s).phase == s.phase
  {
    RangeWithin((s.srtt / 4 + s.rttVar) / 2 * BACKOFF[s.rxtShift], TCPTV_PERSMIN, TCPTV_PERSMAX);
    hide RangeSet;
  }

  lemma ForceKeeps(s: Tcb, start: Seq, stream: seq<Byte>)
    requires Inv(s) && HoldsEnd(s, start, stream)
    ensures Inv(s.(force := false)) && HoldsEnd(s.(force := false), start, stream)
  {
  }

  lemma LongerCarried(g: Segment, start: Seq, stream: seq<Byte>, more: seq<Byte>)
    requires Carried(g, start, stream) && !g.fin
    ensures Carried(g, start, stream + more)
  {
    if g.data != [] {
      var p: nat :| p + |g.data| <= |stream| && g.data == stream[p..p + |g.data|] && g.sq == Add(start, p);
      assert g.data == (stream + more)[p..p + |g.data|];
    }
  }

  lemma Nearer(a: Seq, b: Seq, n: nat)
    requires -TWO_31 < Diff(a, b) - n
    ensures Diff(a, Add(b, n)) == Diff(a, b) - n
  {
    var d := Diff(a, b);
    assert a == Add(b, d) by { BySign(a, b); }
    Near(b, d, n);
  }
}
