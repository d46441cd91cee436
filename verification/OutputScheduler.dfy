/** `if_output` and `if_start` of `if.c`: two queues of sessions, taken in turns. */
module OutputScheduler {
  import opened Options
  import opened OutputQueues

  class Link {
    var fastq: seq<Session>
    var batchq: seq<Session>
    var nextM: Option<Packet>
    var ifQueued: int
    var queued: map<Sock, int>
    var nqueued: map<Sock, int>
    ghost var wire: seq<Item>
    ghost var accepted: seq<Item>

    ghost function S(): State
      reads this
    {
      State(fastq, batchq, nextM, ifQueued, queued, nqueued, wire, accepted)
    }

    ghost predicate Valid()
      reads this
    {
      Inv(S())
    }

    /** `if_init` */
    constructor ()
      ensures Valid() && S() == State([], [], None, 0, map[], map[], [], [])
    {
      fastq, batchq, nextM, ifQueued := [], [], None, 0;
      queued, nqueued, wire, accepted := map[], map[], [], [];
    }

    /** The search of lines 188-195, from the last batch list to the first. */
    method FindBatch(so: Option<Sock>) returns (i: int)
      ensures i == Find(batchq, so)
    {
      i := |batchq| - 1;
      while i >= 0 && batchq[i].so != so
        invariant -1 <= i < |batchq|
        invariant Find(batchq, so) == Find(batchq[..i + 1], so)
      {
        assert batchq[..i + 1][..i] == batchq[..i];
        i := i - 1;
      }
    }

    /** Lines 188-216: where the packet is linked. */
    method Enlist(so: Option<Sock>, p: Packet, lowDelay: bool)
      modifies `fastq, `batchq
      ensures S() == Linked(old(S()), so, p, lowDelay)
    {
      var i := FindBatch(so);
      if i >= 0 {
        batchq := batchq[i := Extended(batchq[i], p)];
      } else if so.Some? && lowDelay {
        var n := |fastq|;
        if n > 0 && fastq[n - 1].so == so {
          fastq := fastq[n - 1 := Extended(fastq[n - 1], p)];
        } else {
          fastq := fastq + [Session(so, [p])];
        }
      } else {
        batchq := batchq + [Session(so, [p])];
      }
    }

    /** Lines 235-239: the session that `so` has just added to goes to the front of the batch queue. */
    method Downgrade(so: Option<Sock>)
      requires Joined(S(), so)
      modifies `fastq, `batchq
      ensures S() == Downgraded(old(S()), so)
    {
      var i := FindBatch(so);
      if i >= 0 {
        batchq := Fronted(batchq, i);
      } else {
        var n := |fastq|;
        fastq, batchq := fastq[..n - 1], [fastq[n - 1]] + batchq;
      }
    }

    /** Lines 218-241: the counters, and the downgrade. */
    method Tally(so: Option<Sock>, p: Packet)
      requires Joined(S(), so)
      modifies this
      ensures var t := Tallied(old(S()), so, p);
        S() == if so.Some? && Hogs(t, so.value) then Downgraded(t, so) else t
    {
      ghost var s := S();
      ifQueued := ifQueued + 1;
      accepted := accepted + [Item(so, p)];
      if so.Some? {
        var x := so.value;
        queued := queued[x := Count(queued, x) + 1];
        nqueued := nqueued[x := Count(nqueued, x) + 1];
        assert S() == Tallied(s, so, p);
        if Count(nqueued, x) >= 6 && Count(nqueued, x) - Count(queued, x) >= 3 {
          Downgrade(so);
        }
      } else {
        assert S() == Tallied(s, so, p);
      }
    }

    /** `if_output`; `answers` are those of `slirp_can_output`. */
    method Output(so: Option<Sock>, p: Packet, lowDelay: bool, linkUp: bool, answers: seq<bool>) returns (sent: nat)
      requires Valid() && p !in Everything(S())
      modifies this
      ensures Valid() && S() == SentMany(Enqueued(old(S()), so, p, lowDelay), sent)
      ensures Queues(old(S()), Enqueued(old(S()), so, p, lowDelay), so, p, lowDelay)
      ensures sent == if linkUp then Grants(answers, old(ifQueued) + 1) else 0
    {
      hide Inv;
      ghost var s := S();
      assert Shape(s) && OnePerSocket(s.batchq) by { InvShape(s); }
      LinkedShape(s, so, p, lowDelay);
      EnqueuedKeeps(s, so, p, lowDelay);
      EnqueuedTally(s, so, p, lowDelay);
      EnqueuedQueues(s, so, p, lowDelay);
      hide Queues;
      Enlist(so, p, lowDelay);
      Tally(so, p);
      assert S() == Enqueued(s, so, p, lowDelay);
      if linkUp {
        sent := Start(answers);
      } else {
        sent := 0;
      }
    }

    /** `if_start` */
    method Start(answers: seq<bool>) returns (sent: nat)
      requires Valid()
      modifies this
      ensures Valid() && S() == SentMany(old(S()), sent)
      ensures sent == Grants(answers, old(ifQueued))
    {
      hide Inv;
      sent := 0;
      ghost var s := S();
      InvShape(s);
      while ifQueued != 0 && sent < |answers| && answers[sent]
        invariant Valid() && S() == SentMany(s, sent) && sent <= |answers| && ifQueued == s.ifQueued - sent >= 0
        invariant Grants(answers, s.ifQueued) == sent + Grants(answers[sent..], ifQueued)
        decreases ifQueued
      {
        ghost var t := S();
        SendOne();
        SentManyMore(s, sent);
        sent := sent + 1;
        assert answers[sent - 1..][1..] == answers[sent..];
      }
    }

    /** One turn, lines 285-318. */
    method SendOne()
      requires Valid() && ifQueued > 0
      modifies this
      ensures Valid() && Ready(old(S())) && S() == Sent(old(S())) && ifQueued == old(ifQueued) - 1
    {
      ghost var s := S();
      SentKeeps(s);
      hide Inv;
      hide Sent;
      hide Charged;
      hide Ready;
      hide Chosen;
      var e := Unlink();
      ghost var t := S();
      Charge(e);
      ChargedLater(s, t);
    }

    /** Lines 285-306: which packet is next, and its removal from its queue. */
    method Unlink() returns (e: Item)
      requires Ready(S())
      modifies `fastq, `batchq, `nextM
      ensures e == Chosen(old(S())) && S() == Sent(old(S())).(ifQueued := ifQueued, wire := wire, queued := queued, nqueued := nqueued)
    {
      if fastq != [] {
        e := Item(fastq[0].so, fastq[0].pkts[0]);
        fastq := Popped(fastq, 0);
      } else {
        var i := if nextM.Some? then HeadIndex(batchq, nextM.value) else 0;
        e := Item(batchq[i].so, batchq[i].pkts[0]);
        nextM := if i + 1 < |batchq| then Some(batchq[i + 1].pkts[0]) else None;
        batchq := Popped(batchq, i);
      }
    }

    /** Lines 300 and 309-316. */
    method Charge(e: Item)
      modifies `ifQueued, `wire, `queued, `nqueued
      ensures S() == Charged(old(S()), e)
    {
      ifQueued := ifQueued - 1;
      wire := wire + [e];
      if e.so.Some? {
        var so := e.so.value;
        queued := queued[so := Count(queued, so) - 1];
        if queued[so] == 0 {
          nqueued := nqueued[so := 0];
        }
      }
    }
  }

  lemma ChargedLater(s: State, t: State)
    requires Ready(s)
    requires t == Sent(s).(ifQueued := s.ifQueued, wire := s.wire, queued := s.queued, nqueued := s.nqueued)
    ensures Charged(t, Chosen(s)) == Sent(s)
  {
  }

  /** How many packets go out: until the link refuses or nothing is left. */
  function Grants(answers: seq<bool>, n: int): (k: nat)
    ensures k <= |answers| && (n >= 0 ==> k <= n)
    ensures forall i | 0 <= i < k :: answers[i]
    ensures n >= 0 ==> k == n || k == |answers| || !answers[k]
  {
    if n <= 0 || answers == [] || !answers[0] then 0 else 1 + Grants(answers[1..], n - 1)
  }

  lemma InvShape(s: State)
    requires Inv(s)
    ensures Shape(s) && OnePerSocket(s.batchq) && s.ifQueued >= 0
  {
  }

  lemma {:induction false} SentManyMore(s: State, n: nat)
    requires Inv(s) && SentMany(s, n).ifQueued != 0
    ensures Ready(SentMany(s, n)) && SentMany(s, n + 1) == Sent(SentMany(s, n))
    decreases n
  {
    hide *;
    SentManyStep(s, n);
    SentManyStep(s, n + 1);
    if s.ifQueued != 0 {
      CanSend(s);
      SentKeeps(s);
      SentManyStep(Sent(s), 0);
      if n > 0 {
        SentManyMore(Sent(s), n - 1);
      }
    }
  }

  lemma SentManyStep(s: State, n: nat)
    ensures SentMany(s, n) == if n > 0 && s.ifQueued != 0 && Ready(s) then SentMany(Sent(s), n - 1) else s
  {
  }

  /** What a reader of the link sees of one socket is what it queued, in order, up to what is still queued. */
  lemma SeenInOrder(s: State, so: Option<Sock>)
    requires Inv(s)
    ensures Of(s.wire, so) <= Of(s.accepted, so)
    ensures s.ifQueued == 0 ==> Of(s.wire, so) == Of(s.accepted, so)
  {
    NothingHidden(s.fastq);
    NothingHidden(s.batchq);
    assert Of(s.wire, so) + Pending(s, so) == Of(s.accepted, so);
  }
}
