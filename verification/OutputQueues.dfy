/** The queues of `if.c` as values: what queueing a packet and sending one do to them, and what that keeps. */
module OutputQueues {
  import opened Options

  /** An mbuf, by its address. */
  type Packet = nat
  /** A socket, by its address. */
  type Sock = nat

  /** A circular list of packets of one socket (or of none), its head first. */
  datatype Session = Session(so: Option<Sock>, pkts: seq<Packet>)

  datatype Item = Item(so: Option<Sock>, p: Packet)

  /**
   * `if_fastq` and `if_batchq`, head first; `next_m`, None when it is `&if_batchq`; the counters `if_queued`,
   * `so_queued` and `so_nqueued`; what has been sent over the link and what has been queued, since the start.
   */
  datatype State = State(fastq: seq<Session>, batchq: seq<Session>, nextM: Option<Packet>, ifQueued: int,
                         queued: map<Sock, int>, nqueued: map<Sock, int>, wire: seq<Item>, accepted: seq<Item>)

  function Count(m: map<Sock, int>, so: Sock): int {
    if so in m then m[so] else 0
  }

  /** The packets of one socket in a queue, in the order in which the queue lists them. */
  function PktsOf(q: seq<Session>, so: Option<Sock>): seq<Packet> {
    if q == [] then [] else (if q[0].so == so then q[0].pkts else []) + PktsOf(q[1..], so)
  }

  function All(q: seq<Session>): multiset<Packet> {
    if q == [] then multiset{} else multiset(q[0].pkts) + All(q[1..])
  }

  function Everything(s: State): multiset<Packet> {
    All(s.fastq) + All(s.batchq)
  }

  function Of(items: seq<Item>, so: Option<Sock>): seq<Packet> {
    if items == [] then []
    else Of(items[..|items| - 1], so) + if items[|items| - 1].so == so then [items[|items| - 1].p] else []
  }

  /** What is queued for a socket: what is on the fast queue goes first. */
  function Pending(s: State, so: Option<Sock>): seq<Packet> {
    PktsOf(s.fastq, so) + PktsOf(s.batchq, so)
  }

  // ---- what is kept

  ghost predicate Shape(s: State) {
    && (forall i | 0 <= i < |s.fastq| :: s.fastq[i].pkts != [] && s.fastq[i].so.Some?)
    && (forall i | 0 <= i < |s.batchq| :: s.batchq[i].pkts != [])
  }

  /** At most one list on the batch queue for a socket. */
  ghost predicate OnePerSocket(q: seq<Session>) {
    forall i, j | 0 <= i < j < |q| :: q[i].so != q[j].so
  }

  /** No packet is linked twice. */
  ghost predicate Distinct(s: State) {
    forall p :: Everything(s)[p] <= 1
  }

  ghost predicate IsHead(q: seq<Session>, p: Packet) {
    exists i :: 0 <= i < |q| && q[i].pkts != [] && q[i].pkts[0] == p
  }

  /** `next_m` is the sentinel or the first packet of a session on the batch queue. */
  ghost predicate NextIsHead(s: State) {
    s.nextM.Some? ==> IsHead(s.batchq, s.nextM.value)
  }

  /** `so_queued` is how many packets of the socket are linked; `so_nqueued` is not less, and is 0 when none is. */
  ghost predicate Tracked(s: State, so: Sock) {
    && Count(s.queued, so) == |Pending(s, Some(so))| <= Count(s.nqueued, so)
    && (Count(s.queued, so) == 0 ==> Count(s.nqueued, so) == 0)
  }

  ghost predicate Counted(s: State) {
    s.ifQueued == |Everything(s)| && forall so: Sock :: Tracked(s, so)
  }

  /** The packets of a socket leave in the order in which they were queued, and none is lost. */
  ghost predicate InOrder(s: State) {
    forall so :: Of(s.wire, so) + Pending(s, so) == Of(s.accepted, so)
  }

  ghost predicate Inv(s: State) {
    Shape(s) && OnePerSocket(s.batchq) && Distinct(s) && NextIsHead(s) && Counted(s) && InOrder(s)
  }

  // ---- the steps

  /** The batch list of a socket, looked for from the tail, or -1. */
  function Find(q: seq<Session>, so: Option<Sock>): (i: int)
    ensures -1 <= i < |q|
    ensures i >= 0 ==> q[i].so == so
    ensures forall j | i < j < |q| :: q[j].so != so
  {
    if q == [] then -1 else if q[|q| - 1].so == so then |q| - 1 else Find(q[..|q| - 1], so)
  }

  /** A session at the end of the packets `ps` of its list. */
  function Extended(x: Session, p: Packet): Session {
    x.(pkts := x.pkts + [p])
  }

  /** Lines 188-216 of `if_output`: where the packet is linked. */
  function Linked(s: State, so: Option<Sock>, p: Packet, lowDelay: bool): State {
    var i := Find(s.batchq, so);
    var n := |s.fastq|;
    if i >= 0 then s.(batchq := s.batchq[i := Extended(s.batchq[i], p)])
    else if so.Some? && lowDelay then
      if n > 0 && s.fastq[n - 1].so == so then s.(fastq := s.fastq[n - 1 := Extended(s.fastq[n - 1], p)])
      else s.(fastq := s.fastq + [Session(so, [p])])
    else s.(batchq := s.batchq + [Session(so, [p])])
  }

  /** Lines 219-224: the counters. */
  function Tallied(s: State, so: Option<Sock>, p: Packet): State {
    var t := s.(ifQueued := s.ifQueued + 1, accepted := s.accepted + [Item(so, p)]);
    if so == None then t
    else t.(queued := s.queued[so.value := Count(s.queued, so.value) + 1],
            nqueued := s.nqueued[so.value := Count(s.nqueued, so.value) + 1])
  }

  /** Lines 232-233: six packets without pausing, and at least three of them sent. */
  predicate Hogs(s: State, so: Sock) {
    Count(s.nqueued, so) >= 6 && Count(s.nqueued, so) - Count(s.queued, so) >= 3
  }

  /** Lines 235-239: the session that the packet has just joined goes to the front of the batch queue. */
  function Downgraded(s: State, so: Option<Sock>): State {
    var i := Find(s.batchq, so);
    var n := |s.fastq|;
    if i >= 0 then s.(batchq := Fronted(s.batchq, i))
    else if n > 0 then s.(fastq := s.fastq[..n - 1], batchq := [s.fastq[n - 1]] + s.batchq)
    else s
  }

  /** `if_output` up to its call of `if_start`. */
  function Enqueued(s: State, so: Option<Sock>, p: Packet, lowDelay: bool): State {
    var t := Tallied(Linked(s, so, p, lowDelay), so, p);
    if so.Some? && Hogs(t, so.value) then Downgraded(t, so) else t
  }

  /** What a session leaves behind when it has sent a packet. */
  function Tail(e: Session): seq<Session>
    requires e.pkts != []
  {
    if |e.pkts| > 1 then [e.(pkts := e.pkts[1..])] else []
  }

  /** A queue whose session `i` has lost its first packet; a session without packets is gone. */
  function Popped(q: seq<Session>, i: nat): seq<Session>
    requires i < |q| && q[i].pkts != []
  {
    q[..i] + Tail(q[i]) + q[i + 1..]
  }

  function HeadIndex(q: seq<Session>, p: Packet): (i: nat)
    ensures i < |q| ==> q[i].pkts != [] && q[i].pkts[0] == p
    ensures i <= |q| && forall j | 0 <= j < i :: q[j].pkts == [] || q[j].pkts[0] != p
  {
    if q == [] then 0 else if q[0].pkts != [] && q[0].pkts[0] == p then 0 else 1 + HeadIndex(q[1..], p)
  }

  /** Lines 288-292: which session of the batch queue is next. */
  function Turn(s: State): nat {
    if s.nextM.Some? then HeadIndex(s.batchq, s.nextM.value) else 0
  }

  /** Lines 300 and 309-316: the packet is gone from the queues and on the wire. */
  function Charged(s: State, x: Item): State {
    var t := s.(ifQueued := s.ifQueued - 1, wire := s.wire + [x]);
    if x.so == None then t
    else
      var left := Count(s.queued, x.so.value) - 1;
      t.(queued := s.queued[x.so.value := left],
         nqueued := if left == 0 then s.nqueued[x.so.value := 0] else s.nqueued)
  }

  ghost predicate Ready(s: State) {
    Shape(s) && (s.fastq != [] || Turn(s) < |s.batchq|)
  }

  /** One turn of `if_start`: the first packet of the fast queue, or else of the session whose turn it is. */
  ghost function Sent(s: State): State
    requires Ready(s)
  {
    if s.fastq != [] then
      Charged(s, Item(s.fastq[0].so, s.fastq[0].pkts[0])).(fastq := Popped(s.fastq, 0))
    else
      var i := Turn(s);
      Charged(s, Item(s.batchq[i].so, s.batchq[i].pkts[0])).(batchq := Popped(s.batchq, i),
        nextM := if i + 1 < |s.batchq| then Some(s.batchq[i + 1].pkts[0]) else None)
  }

  // ---- lists of sessions

  lemma {:induction false} PktsOfCat(a: seq<Session>, b: seq<Session>, so: Option<Sock>)
    ensures PktsOf(a + b, so) == PktsOf(a, so) + PktsOf(b, so)
  {
    if a == [] {
      assert a + b == b;
    } else {
      assert (a + b)[1..] == a[1..] + b;
      PktsOfCat(a[1..], b, so);
    }
  }

  lemma {:induction false} AllCat(a: seq<Session>, b: seq<Session>)
    ensures All(a + b) == All(a) + All(b)
  {
    if a == [] {
      assert a + b == b;
    } else {
      assert (a + b)[1..] == a[1..] + b;
      AllCat(a[1..], b);
    }
  }

  lemma Single(e: Session, so: Option<Sock>)
    ensures PktsOf([e], so) == if e.so == so then e.pkts else []
    ensures All([e]) == multiset(e.pkts)
  {
    assert [e][1..] == [];
    assert All([e]) == multiset(e.pkts) + All([]);
  }

  lemma Assoc<T>(a: seq<T>, b: seq<T>, c: seq<T>)
    ensures a + (b + c) == (a + b) + c
  {
  }

  lemma {:induction false} NoneHere(q: seq<Session>, so: Option<Sock>)
    requires forall i | 0 <= i < |q| :: q[i].so != so
    ensures PktsOf(q, so) == []
  {
    if q != [] {
      NoneHere(q[1..], so);
    }
  }

  /** A queue is what is before session `i`, the session, and what is after it. */
  lemma Around(q: seq<Session>, i: nat, so: Option<Sock>)
    requires i < |q|
    ensures PktsOf(q, so) == PktsOf(q[..i], so) + (if q[i].so == so then q[i].pkts else []) + PktsOf(q[i + 1..], so)
  {
    assert q == q[..i] + q[i..];
    PktsOfCat(q[..i], q[i..], so);
    assert q[i..][1..] == q[i + 1..];
  }

  lemma AllAround(q: seq<Session>, i: nat)
    requires i < |q|
    ensures All(q) == All(q[..i]) + multiset(q[i].pkts) + All(q[i + 1..])
  {
    var b := q[i..];
    assert q == q[..i] + b;
    AllCat(q[..i], b);
    assert b[0] == q[i] && b[1..] == q[i + 1..];
    assert All(b) == multiset(b[0].pkts) + All(b[1..]);
  }

  /** The list of a socket holds all it has on the batch queue. */
  lemma Alone(q: seq<Session>, i: nat, so: Option<Sock>)
    requires i < |q| && OnePerSocket(q) && q[i].so == so
    ensures PktsOf(q, so) == q[i].pkts && PktsOf(q[..i], so) == [] && PktsOf(q[i + 1..], so) == []
  {
    Around(q, i, so);
    NoneHere(q[..i], so);
    NoneHere(q[i + 1..], so);
  }

  lemma ExtendedAt(q: seq<Session>, i: nat, so: Option<Sock>, p: Packet, x: Option<Sock>)
    requires i < |q| && q[i].so == so && (forall j | i < j < |q| :: q[j].so != so)
    ensures PktsOf(q[i := Extended(q[i], p)], x) == PktsOf(q, x) + if x == so then [p] else []
  {
    var r := q[i := Extended(q[i], p)];
    Around(q, i, x);
    Around(r, i, x);
    assert r[..i] == q[..i] && r[i + 1..] == q[i + 1..];
    NoneHere(q[i + 1..], so);
  }

  lemma AllExtendedAt(q: seq<Session>, i: nat, p: Packet)
    requires i < |q|
    ensures All(q[i := Extended(q[i], p)]) == All(q) + multiset{p}
  {
    hide All;
    var r := q[i := Extended(q[i], p)];
    AllAround(q, i);
    AllAround(r, i);
    assert r[..i] == q[..i] && r[i + 1..] == q[i + 1..];
    assert multiset(r[i].pkts) == multiset(q[i].pkts) + multiset{p};
  }

  lemma NewAtEnd(q: seq<Session>, so: Option<Sock>, p: Packet, x: Option<Sock>)
    ensures PktsOf(q + [Session(so, [p])], x) == PktsOf(q, x) + if x == so then [p] else []
  {
    PktsOfCat(q, [Session(so, [p])], x);
  }

  lemma AllNewAtEnd(q: seq<Session>, so: Option<Sock>, p: Packet)
    ensures All(q + [Session(so, [p])]) == All(q) + multiset{p}
  {
    var e := Session(so, [p]);
    AllCat(q, [e]);
    assert [e][1..] == [];
    assert All([e]) == multiset(e.pkts) + All([]);
  }

  // ---- queueing a packet

  lemma LinkedPending(s: State, so: Option<Sock>, p: Packet, lowDelay: bool, x: Option<Sock>)
    ensures Pending(Linked(s, so, p, lowDelay), x) == Pending(s, x) + if x == so then [p] else []
  {
    hide PktsOf;
    var i := Find(s.batchq, so);
    var n := |s.fastq|;
    if i >= 0 {
      ExtendedAt(s.batchq, i, so, p, x);
    } else if so.Some? && lowDelay {
      NoneHere(s.batchq, so);
      if n > 0 && s.fastq[n - 1].so == so {
        ExtendedAt(s.fastq, n - 1, so, p, x);
      } else {
        NewAtEnd(s.fastq, so, p, x);
      }
    } else {
      NewAtEnd(s.batchq, so, p, x);
    }
  }

  lemma LinkedAll(s: State, so: Option<Sock>, p: Packet, lowDelay: bool)
    ensures Everything(Linked(s, so, p, lowDelay)) == Everything(s) + multiset{p}
  {
    hide All;
    var i := Find(s.batchq, so);
    var n := |s.fastq|;
    if i >= 0 {
      AllExtendedAt(s.batchq, i, p);
    } else if so.Some? && lowDelay {
      if n > 0 && s.fastq[n - 1].so == so {
        AllExtendedAt(s.fastq, n - 1, p);
      } else {
        AllNewAtEnd(s.fastq, so, p);
      }
    } else {
      AllNewAtEnd(s.batchq, so, p);
    }
  }

  /** The packet is now in the batch list of its socket, or at the end of the fast queue if there is no such list. */
  ghost predicate Joined(s: State, so: Option<Sock>) {
    Find(s.batchq, so) < 0 ==> s.fastq != [] && s.fastq[|s.fastq| - 1].so == so
  }

  lemma LinkedShape(s: State, so: Option<Sock>, p: Packet, lowDelay: bool)
    requires Shape(s) && OnePerSocket(s.batchq)
    ensures var t := Linked(s, so, p, lowDelay); Shape(t) && OnePerSocket(t.batchq) && Joined(t, so)
  {
    hide All;
    hide PktsOf;
    hide Find;
    var t := Linked(s, so, p, lowDelay);
    if Find(s.batchq, so) >= 0 {
      assert t.batchq[Find(s.batchq, so)].so == so;
    } else if !(so.Some? && lowDelay) {
      assert t.batchq[|s.batchq|].so == so;
    }
  }

  lemma LinkedNext(s: State, so: Option<Sock>, p: Packet, lowDelay: bool)
    requires NextIsHead(s)
    ensures NextIsHead(Linked(s, so, p, lowDelay))
  {
    hide Find;
    var t := Linked(s, so, p, lowDelay);
    if s.nextM.Some? {
      var i :| 0 <= i < |s.batchq| && s.batchq[i].pkts != [] && s.batchq[i].pkts[0] == s.nextM.value;
      assert t.batchq[i].pkts[0] == s.nextM.value;
    }
  }

  /** `b` with its session `i` moved to the front. */
  function Fronted(b: seq<Session>, i: nat): seq<Session>
    requires i < |b|
  {
    [b[i]] + b[..i] + b[i + 1..]
  }

  lemma FrontedPkts(b: seq<Session>, i: nat, x: Option<Sock>)
    requires i < |b| && OnePerSocket(b)
    ensures PktsOf(Fronted(b, i), x) == PktsOf(b, x)
  {
    var rest := b[..i] + b[i + 1..];
    assert Fronted(b, i) == [b[i]] + rest;
    Around(b, i, x);
    PktsOfCat(b[..i], b[i + 1..], x);
    PktsOfCat([b[i]], rest, x);
    if x == b[i].so {
      Alone(b, i, x);
    }
  }

  lemma Moved(a: multiset<Packet>, m: multiset<Packet>, c: multiset<Packet>)
    ensures m + (a + c) == a + m + c
  {
  }

  lemma FrontedIs(b: seq<Session>, i: nat)
    requires i < |b|
    ensures Fronted(b, i) == [b[i]] + (b[..i] + b[i + 1..])
  {
  }

  lemma FrontedAll(b: seq<Session>, i: nat)
    requires i < |b|
    ensures All(Fronted(b, i)) == All(b)
  {
    var rest := b[..i] + b[i + 1..];
    FrontedIs(b, i);
    hide *;
    Single(b[i], b[i].so);
    AllCat([b[i]], rest);
    AllCat(b[..i], b[i + 1..]);
    AllAround(b, i);
    Moved(All(b[..i]), multiset(b[i].pkts), All(b[i + 1..]));
  }

  lemma LastMoved(f: seq<Session>, b: seq<Session>, x: Option<Sock>)
    requires f != [] && (f[|f| - 1].so == x ==> PktsOf(b, x) == [])
    ensures PktsOf(f[..|f| - 1], x) + PktsOf([f[|f| - 1]] + b, x) == PktsOf(f, x) + PktsOf(b, x)
  {
    var n := |f| - 1;
    assert PktsOf(f[n + 1..], x) == [];
    hide PktsOf;
    Around(f, n, x);
    Single(f[n], x);
    PktsOfCat([f[n]], b, x);
    var mid := PktsOf([f[n]], x);
    assert PktsOf(f, x) == PktsOf(f[..n], x) + mid;
    Assoc(PktsOf(f[..n], x), mid, PktsOf(b, x));
  }

  lemma AllLastMoved(f: seq<Session>, b: seq<Session>)
    requires f != []
    ensures All(f[..|f| - 1]) + All([f[|f| - 1]] + b) == All(f) + All(b)
  {
    var n := |f| - 1;
    AllAround(f, n);
    var r := [f[n]] + b;
    assert r[0] == f[n] && r[1..] == b && f[n + 1..] == [];
    assert All(r) == multiset(f[n].pkts) + All(b);
  }

  lemma DowngradedPending(s: State, so: Option<Sock>, x: Option<Sock>)
    requires OnePerSocket(s.batchq) && Joined(s, so)
    ensures Pending(Downgraded(s, so), x) == Pending(s, x)
    ensures Everything(Downgraded(s, so)) == Everything(s)
  {
    hide All;
    hide PktsOf;
    hide OnePerSocket;
    var i := Find(s.batchq, so);
    if i >= 0 {
      FrontedPkts(s.batchq, i, x);
      FrontedAll(s.batchq, i);
    } else {
      NoneHere(s.batchq, so);
      LastMoved(s.fastq, s.batchq, x);
      AllLastMoved(s.fastq, s.batchq);
    }
  }

  lemma FrontedShape(b: seq<Session>, i: nat, p: Packet)
    requires i < |b| && OnePerSocket(b) && forall j | 0 <= j < |b| :: b[j].pkts != []
    ensures OnePerSocket(Fronted(b, i)) && forall j | 0 <= j < |b| :: Fronted(b, i)[j].pkts != []
    ensures IsHead(b, p) ==> IsHead(Fronted(b, i), p)
  {
    var r := Fronted(b, i);
    assert forall j | 0 <= j < |b| :: r[j] == b[if j == 0 then i else if j <= i then j - 1 else j];
    if IsHead(b, p) {
      var j :| 0 <= j < |b| && b[j].pkts != [] && b[j].pkts[0] == p;
      assert r[if j < i then j + 1 else if j == i then 0 else j] == b[j];
    }
  }

  lemma PrependedShape(b: seq<Session>, e: Session, p: Packet)
    requires OnePerSocket(b) && forall j | 0 <= j < |b| :: b[j].so != e.so
    ensures OnePerSocket([e] + b) && (IsHead(b, p) ==> IsHead([e] + b, p))
  {
    if IsHead(b, p) {
      var j :| 0 <= j < |b| && b[j].pkts != [] && b[j].pkts[0] == p;
      assert ([e] + b)[j + 1] == b[j];
    }
  }

  lemma DowngradedShape(s: State, so: Option<Sock>)
    requires Shape(s) && OnePerSocket(s.batchq) && Joined(s, so)
    ensures Shape(Downgraded(s, so)) && OnePerSocket(Downgraded(s, so).batchq)
  {
    hide OnePerSocket;
    hide IsHead;
    hide Find;
    var i := Find(s.batchq, so);
    if i >= 0 {
      hide Fronted;
      FrontedShape(s.batchq, i, 0);
    } else {
      PrependedShape(s.batchq, s.fastq[|s.fastq| - 1], 0);
    }
  }

  lemma DowngradedNext(s: State, so: Option<Sock>)
    requires Shape(s) && OnePerSocket(s.batchq) && Joined(s, so) && NextIsHead(s)
    ensures NextIsHead(Downgraded(s, so))
  {
    hide *;
    var t := Downgraded(s, so);
    DowngradedBatch(s, so);
    if s.nextM.Some? {
      NextHas(s);
      var i := Find(s.batchq, so);
      if i >= 0 {
        FrontedShape(s.batchq, i, s.nextM.value);
      } else {
        PrependedShape(s.batchq, s.fastq[|s.fastq| - 1], s.nextM.value);
      }
      HasNext(t);
    } else {
      NoNext(t);
    }
  }

  lemma DowngradedBatch(s: State, so: Option<Sock>)
    requires Shape(s) && Joined(s, so)
    ensures var i := Find(s.batchq, so); var t := Downgraded(s, so);
      && t.nextM == s.nextM && (forall k | 0 <= k < |s.batchq| :: s.batchq[k].pkts != [])
      && (i < 0 ==> s.fastq != [] && s.fastq[|s.fastq| - 1].pkts != [] && s.fastq[|s.fastq| - 1].so == so)
      && t.batchq == if i >= 0 then Fronted(s.batchq, i) else [s.fastq[|s.fastq| - 1]] + s.batchq
  {
    hide Find;
    hide Fronted;
  }

  lemma NextHas(s: State)
    requires NextIsHead(s) && s.nextM.Some?
    ensures IsHead(s.batchq, s.nextM.value)
  {
  }

  lemma HasNext(s: State)
    requires s.nextM.Some? && IsHead(s.batchq, s.nextM.value)
    ensures NextIsHead(s)
  {
  }

  lemma NoNext(s: State)
    requires s.nextM == None
    ensures NextIsHead(s)
  {
  }

  lemma EnqueuedShape(s: State, so: Option<Sock>, p: Packet, lowDelay: bool)
    requires Shape(s) && OnePerSocket(s.batchq) && NextIsHead(s)
    ensures var v := Enqueued(s, so, p, lowDelay); Shape(v) && OnePerSocket(v.batchq) && NextIsHead(v)
  {
    hide Linked;
    hide Downgraded;
    hide OnePerSocket;
    hide IsHead;
    hide Find;
    hide Hogs;
    LinkedShape(s, so, p, lowDelay);
    LinkedNext(s, so, p, lowDelay);
    var u := Tallied(Linked(s, so, p, lowDelay), so, p);
    assert Shape(u) && OnePerSocket(u.batchq) && NextIsHead(u) && Joined(u, so);
    DowngradedShape(u, so);
    DowngradedNext(u, so);
  }

  /** The packet is behind all that its socket has queued, whatever queue it is on. */
  lemma EnqueuedPending(s: State, so: Option<Sock>, p: Packet, lowDelay: bool, x: Option<Sock>)
    requires Shape(s) && OnePerSocket(s.batchq)
    ensures var v := Enqueued(s, so, p, lowDelay);
      Pending(v, x) == Pending(s, x) + (if x == so then [p] else []) && Everything(v) == Everything(s) + multiset{p}
  {
    var t := Linked(s, so, p, lowDelay);
    var u := Tallied(t, so, p);
    LinkedShape(s, so, p, lowDelay);
    LinkedPending(s, so, p, lowDelay, x);
    LinkedAll(s, so, p, lowDelay);
    assert Enqueued(s, so, p, lowDelay) == if so.Some? && Hogs(u, so.value) then Downgraded(u, so) else u;
    TalliedSame(t, so, p, x);
    hide *;
    DowngradedPending(u, so, x);
  }

  lemma TalliedSame(t: State, so: Option<Sock>, p: Packet, x: Option<Sock>)
    ensures var u := Tallied(t, so, p);
      && Pending(u, x) == Pending(t, x) && Everything(u) == Everything(t)
      && (OnePerSocket(t.batchq) ==> OnePerSocket(u.batchq)) && (Joined(t, so) ==> Joined(u, so))
  {
  }

  lemma EnqueuedTally(s: State, so: Option<Sock>, p: Packet, lowDelay: bool)
    ensures var v := Enqueued(s, so, p, lowDelay);
      && v.ifQueued == s.ifQueued + 1 && v.wire == s.wire && v.accepted == s.accepted + [Item(so, p)]
      && forall x: Sock :: Count(v.queued, x) == Count(s.queued, x) + (if so == Some(x) then 1 else 0)
                  && Count(v.nqueued, x) == Count(s.nqueued, x) + (if so == Some(x) then 1 else 0)
  {
    hide Hogs;
    hide Find;
    var t := Linked(s, so, p, lowDelay);
    assert t == s.(fastq := t.fastq, batchq := t.batchq);
    hide Linked;
    var u, v := Tallied(t, so, p), Enqueued(s, so, p, lowDelay);
    assert v == u.(fastq := v.fastq, batchq := v.batchq);
  }

  lemma OfMore(items: seq<Item>, e: Item, x: Option<Sock>)
    ensures Of(items + [e], x) == Of(items, x) + if e.so == x then [e.p] else []
  {
    assert (items + [e])[..|items|] == items;
  }

  /** Queueing keeps everything. */
  lemma EnqueuedKeeps(s: State, so: Option<Sock>, p: Packet, lowDelay: bool)
    requires Inv(s) && p !in Everything(s)
    ensures Inv(Enqueued(s, so, p, lowDelay))
  {
    hide Enqueued;
    hide Shape;
    hide OnePerSocket;
    hide NextIsHead;
    hide All;
    hide PktsOf;
    hide Count;
    hide Of;
    var v := Enqueued(s, so, p, lowDelay);
    EnqueuedShape(s, so, p, lowDelay);
    EnqueuedTally(s, so, p, lowDelay);
    forall x
      ensures Pending(v, x) == Pending(s, x) + if x == so then [p] else []
      ensures Of(v.wire, x) + Pending(v, x) == Of(v.accepted, x)
    {
      EnqueuedPending(s, so, p, lowDelay, x);
      OfMore(s.accepted, Item(so, p), x);
    }
    EnqueuedPending(s, so, p, lowDelay, so);
    forall x: Sock
      ensures Tracked(v, x)
    {
      assert Tracked(s, x);
      assert Pending(v, Some(x)) == Pending(s, Some(x)) + if Some(x) == so then [p] else [];
    }
  }

  // ---- sending a packet

  lemma PoppedPkts(q: seq<Session>, i: nat, x: Option<Sock>)
    requires i < |q| && q[i].pkts != []
    requires q[i].so == x ==> PktsOf(q[..i], x) == []
    ensures (if q[i].so == x then [q[i].pkts[0]] else []) + PktsOf(Popped(q, i), x) == PktsOf(q, x)
  {
    var e := q[i].(pkts := q[i].pkts[1..]);
    var mid := Tail(q[i]);
    var a, c := q[..i], q[i + 1..];
    var m := if e.so == x then e.pkts else [];
    assert PktsOf(mid, x) == m by { Single(e, x); }
    hide PktsOf;
    PktsOfCat(a + mid, c, x);
    PktsOfCat(a, mid, x);
    Around(q, i, x);
    assert PktsOf(Popped(q, i), x) == PktsOf(a, x) + m + PktsOf(c, x);
    PutBack(PktsOf(a, x), if e.so == x then [q[i].pkts[0]] else [], m, PktsOf(c, x));
    assert q[i].pkts == [q[i].pkts[0]] + e.pkts;
  }

  lemma PutBack(a: seq<Packet>, p: seq<Packet>, m: seq<Packet>, c: seq<Packet>)
    requires a == [] || (p == [] && m == [])
    ensures p + (a + m + c) == a + (p + m) + c
  {
  }

  lemma Regrouped(a: multiset<Packet>, p: multiset<Packet>, e: multiset<Packet>, c: multiset<Packet>)
    ensures a + e + c + p == a + (p + e) + c
  {
  }

  lemma PoppedAll(q: seq<Session>, i: nat)
    requires i < |q| && q[i].pkts != []
    ensures All(Popped(q, i)) + multiset{q[i].pkts[0]} == All(q)
  {
    var e := q[i].(pkts := q[i].pkts[1..]);
    var mid := Tail(q[i]);
    var a, c := q[..i], q[i + 1..];
    assert All(mid) == multiset(e.pkts) by {
      Single(e, e.so);
    }
    hide All;
    assert multiset(q[i].pkts) == multiset{q[i].pkts[0]} + multiset(e.pkts) by {
      assert q[i].pkts == [q[i].pkts[0]] + e.pkts;
    }
    AllAround(q, i);
    AllCat(a + mid, c);
    AllCat(a, mid);
    Regrouped(All(a), multiset{q[i].pkts[0]}, multiset(e.pkts), All(c));
  }

  lemma PoppedShape(q: seq<Session>, i: nat)
    requires i < |q| && forall j | 0 <= j < |q| :: q[j].pkts != []
    ensures forall j | 0 <= j < |Popped(q, i)| :: Popped(q, i)[j].pkts != []
    ensures OnePerSocket(q) ==> OnePerSocket(Popped(q, i))
    ensures (forall j | 0 <= j < |q| :: q[j].so.Some?) ==> forall j | 0 <= j < |Popped(q, i)| :: Popped(q, i)[j].so.Some?
    ensures i + 1 < |q| ==> IsHead(Popped(q, i), q[i + 1].pkts[0])
  {
    var r := Popped(q, i);
    var gone := if |q[i].pkts| > 1 then 0 else 1;
    assert forall j | 0 <= j < |r| :: r[j].so == q[if j < i then j else j + gone].so;
    if i + 1 < |q| {
      assert r[i + 1 - gone] == q[i + 1];
    }
  }

  lemma {:induction false} HeadFound(q: seq<Session>, p: Packet)
    requires IsHead(q, p)
    ensures HeadIndex(q, p) < |q|
  {
  }

  lemma {:induction false} NothingHidden(q: seq<Session>)
    requires forall i | 0 <= i < |q| :: q[i].pkts != []
    ensures |All(q)| >= |q|
  {
    if q != [] {
      NothingHidden(q[1..]);
    }
  }

  lemma CanSend(s: State)
    requires Inv(s) && s.ifQueued != 0
    ensures Ready(s)
  {
    NothingHidden(s.fastq);
    NothingHidden(s.batchq);
    if s.fastq == [] {
      if s.nextM.Some? {
        HeadFound(s.batchq, s.nextM.value);
      }
    }
  }

  lemma SentShape(s: State)
    requires Ready(s) && OnePerSocket(s.batchq) && NextIsHead(s)
    ensures Shape(Sent(s)) && OnePerSocket(Sent(s).batchq) && NextIsHead(Sent(s))
  {
    hide OnePerSocket;
    hide IsHead;
    hide Popped;
    if s.fastq != [] {
      PoppedShape(s.fastq, 0);
    } else {
      PoppedShape(s.batchq, Turn(s));
    }
  }

  /** What `Sent` sends. */
  ghost function Chosen(s: State): Item
    requires Ready(s)
  {
    var x := if s.fastq != [] then s.fastq[0] else s.batchq[Turn(s)];
    Item(x.so, x.pkts[0])
  }

  /** It is the first of what its socket has queued. */
  lemma SentPending(s: State, x: Option<Sock>)
    requires Ready(s) && OnePerSocket(s.batchq)
    ensures (if Chosen(s).so == x then [Chosen(s).p] else []) + Pending(Sent(s), x) == Pending(s, x)
    ensures Everything(Sent(s)) + multiset{Chosen(s).p} == Everything(s)
  {
    SentEverything(s);
    if s.fastq != [] {
      FastPending(s, x);
    } else {
      BatchPending(s, x);
    }
  }

  lemma FastPending(s: State, x: Option<Sock>)
    requires Ready(s) && s.fastq != []
    ensures (if Chosen(s).so == x then [Chosen(s).p] else []) + Pending(Sent(s), x) == Pending(s, x)
  {
    var e := if Chosen(s).so == x then [Chosen(s).p] else [];
    var rest, batch := PktsOf(Popped(s.fastq, 0), x), PktsOf(s.batchq, x);
    assert Sent(s).fastq == Popped(s.fastq, 0) && Sent(s).batchq == s.batchq;
    assert Pending(Sent(s), x) == rest + batch;
    assert e + rest == PktsOf(s.fastq, x) by {
      PoppedPkts(s.fastq, 0, x);
    }
    assert Pending(s, x) == (e + rest) + batch;
    hide *;
    Assoc(e, rest, batch);
  }

  lemma BatchPending(s: State, x: Option<Sock>)
    requires Ready(s) && s.fastq == [] && OnePerSocket(s.batchq)
    ensures (if Chosen(s).so == x then [Chosen(s).p] else []) + Pending(Sent(s), x) == Pending(s, x)
  {
    var i := Turn(s);
    assert PktsOf([], x) == [];
    assert Sent(s).fastq == [] && Sent(s).batchq == Popped(s.batchq, i);
    assert s.batchq[i].so == x ==> PktsOf(s.batchq[..i], x) == [] by {
      if s.batchq[i].so == x {
        Alone(s.batchq, i, x);
      }
    }
    assert Pending(s, x) == [] + PktsOf(s.batchq, x) && Pending(Sent(s), x) == [] + PktsOf(Popped(s.batchq, i), x);
    assert Chosen(s) == Item(s.batchq[i].so, s.batchq[i].pkts[0]) && s.batchq[i].pkts != [];
    hide *;
    PoppedPkts(s.batchq, i, x);
  }

  lemma SentEverything(s: State)
    requires Ready(s)
    ensures Everything(Sent(s)) + multiset{Chosen(s).p} == Everything(s)
  {
    hide Popped;
    hide All;
    if s.fastq != [] {
      PoppedAll(s.fastq, 0);
    } else {
      PoppedAll(s.batchq, Turn(s));
    }
  }

  lemma SentTally(s: State)
    requires Ready(s)
    ensures var t, e := Sent(s), Chosen(s);
      && t.ifQueued == s.ifQueued - 1 && t.wire == s.wire + [e] && t.accepted == s.accepted
      && (forall x: Sock :: Count(t.queued, x) == Count(s.queued, x) - if e.so == Some(x) then 1 else 0)
      && (forall x: Sock :: Count(t.nqueued, x) ==
            if e.so == Some(x) && Count(t.queued, x) == 0 then 0 else Count(s.nqueued, x))
  {
    hide Turn;
    hide Popped;
  }

  lemma SentInOrder(s: State, x: Option<Sock>)
    requires Inv(s) && Ready(s)
    ensures Of(Sent(s).wire, x) + Pending(Sent(s), x) == Of(Sent(s).accepted, x)
  {
    var t, e := Sent(s), Chosen(s);
    SentTally(s);
    SentPending(s, x);
    hide Sent;
    hide Chosen;
    hide Ready;
    hide Pending;
    hide Of;
    OfMore(s.wire, e, x);
    Assoc(Of(s.wire, x), if e.so == x then [e.p] else [], Pending(t, x));
  }

  lemma SentDistinct(s: State)
    requires Inv(s) && Ready(s)
    ensures Distinct(Sent(s)) && |Everything(Sent(s))| == |Everything(s)| - 1
  {
    SentPending(s, None);
    hide Sent;
    hide Chosen;
    hide Ready;
    hide All;
    var t := Sent(s);
    assert forall p :: Everything(t)[p] <= Everything(s)[p];
  }

  lemma SentCounted(s: State)
    requires Inv(s) && Ready(s)
    ensures Counted(Sent(s))
  {
    SentTally(s);
    SentDistinct(s);
    hide Sent;
    hide Chosen;
    hide Ready;
    hide Pending;
    hide Distinct;
    hide Count;
    forall x: Sock
      ensures Tracked(Sent(s), x)
    {
      SentPending(s, Some(x));
      assert Tracked(s, x);
    }
  }

  /** Sending keeps everything. */
  lemma SentKeeps(s: State)
    requires Inv(s) && s.ifQueued != 0
    ensures Ready(s) && Inv(Sent(s)) && Sent(s).ifQueued == s.ifQueued - 1
  {
    CanSend(s);
    hide Sent;
    hide Ready;
    hide Shape;
    hide OnePerSocket;
    hide NextIsHead;
    hide Counted;
    hide Distinct;
    hide Chosen;
    SentShape(s);
    SentTally(s);
    SentCounted(s);
    SentDistinct(s);
    forall x
      ensures Of(Sent(s).wire, x) + Pending(Sent(s), x) == Of(Sent(s).accepted, x)
    {
      SentInOrder(s, x);
    }
  }

  // ---- whose turn it is

  /** `n` turns of `if_start`, or fewer if nothing is left. */
  ghost function SentMany(s: State, n: nat): State
    decreases n
  {
    if n == 0 then s else if s.ifQueued != 0 && Ready(s) then SentMany(Sent(s), n - 1) else s
  }

  function Heads(q: seq<Session>): seq<Item>
    requires forall i | 0 <= i < |q| :: q[i].pkts != []
  {
    if q == [] then [] else [Item(q[0].so, q[0].pkts[0])] + Heads(q[1..])
  }

  /** What is left of a queue when each session has sent one packet. */
  function Tails(q: seq<Session>): seq<Session>
    requires forall i | 0 <= i < |q| :: q[i].pkts != []
  {
    if q == [] then [] else Tail(q[0]) + Tails(q[1..])
  }

  /** Two sessions cannot begin with the same packet. */
  lemma HeadOnce(s: State, i: nat, j: nat)
    requires Shape(s) && Distinct(s) && i < j < |s.batchq|
    ensures s.batchq[i].pkts[0] != s.batchq[j].pkts[0]
  {
    var b, p := s.batchq, s.batchq[i].pkts[0];
    AllAround(b, j);
    AllAround(b[..j], i);
    assert All(b)[p] >= multiset(b[i].pkts)[p] + multiset(b[j].pkts)[p];
    assert Everything(s)[p] >= All(b)[p];
  }

  lemma TurnIs(s: State, i: nat)
    requires Shape(s) && Distinct(s) && i < |s.batchq| && s.nextM == Some(s.batchq[i].pkts[0])
    ensures Turn(s) == i
  {
    assert IsHead(s.batchq, s.batchq[i].pkts[0]);
    var j := Turn(s);
    if j < i {
      HeadOnce(s, j, i);
    }
  }

  lemma OneTurn(s: State, i: nat)
    requires Inv(s) && s.fastq == [] && i < |s.batchq| && s.nextM == Some(s.batchq[i].pkts[0])
    ensures s.ifQueued != 0 && Ready(s) && Inv(Sent(s)) && forall n: nat | n > 0 :: SentMany(s, n) == SentMany(Sent(s), n - 1)
    ensures forall j | 0 <= j < |s.batchq| :: s.batchq[j].pkts != []
    ensures var t, b := Sent(s), s.batchq;
      && t.fastq == [] && t.accepted == s.accepted && t.wire == s.wire + [Item(b[i].so, b[i].pkts[0])]
      && t.batchq == b[..i] + Tail(b[i]) + b[i + 1..]
      && t.nextM == if i + 1 < |b| then Some(b[i + 1].pkts[0]) else None
  {
    NothingHidden(s.batchq);
    assert s.ifQueued != 0;
    TurnIs(s, i);
    SentKeeps(s);
    SentTally(s);
  }

  lemma HeadsTails(q: seq<Session>)
    requires q != [] && forall i | 0 <= i < |q| :: q[i].pkts != []
    ensures Heads(q) == [Item(q[0].so, q[0].pkts[0])] + Heads(q[1..]) && Tails(q) == Tail(q[0]) + Tails(q[1..])
  {
  }

  /** How a round that has reached session `i` ends, from what session `i` sends and how the rest of the round ends. */
  lemma RoundSplit(b: seq<Session>, i: nat, wire: seq<Item>, t: State)
    requires i < |b| && forall j | 0 <= j < |b| :: b[j].pkts != []
    requires t.wire == wire + [Item(b[i].so, b[i].pkts[0])] + Heads(b[i + 1..])
    requires t.batchq == b[..i] + Tail(b[i]) + Tails(b[i + 1..])
    ensures t.wire == wire + Heads(b[i..]) && t.batchq == b[..i] + Tails(b[i..])
  {
    assert b[i..][0] == b[i] && b[i..][1..] == b[i + 1..];
    HeadsTails(b[i..]);
    var h, hs, tl, ts := [Item(b[i].so, b[i].pkts[0])], Heads(b[i + 1..]), Tail(b[i]), Tails(b[i + 1..]);
    assert Heads(b[i..]) == h + hs && Tails(b[i..]) == tl + ts;
    hide *;
    Assoc(wire, h, hs);
    Assoc(b[..i], tl, ts);
  }

  /** From the session whose turn it is to the end of the batch queue, each session sends one packet, in list order. */
  lemma {:induction false} RestOfRound(s: State, i: nat)
    requires Inv(s) && s.fastq == [] && i <= |s.batchq|
    requires s.nextM == if i < |s.batchq| then Some(s.batchq[i].pkts[0]) else None
    ensures var t := SentMany(s, |s.batchq| - i);
      && t.nextM == None && t.fastq == [] && t.accepted == s.accepted
      && t.wire == s.wire + Heads(s.batchq[i..])
      && t.batchq == s.batchq[..i] + Tails(s.batchq[i..])
    decreases |s.batchq| - i
  {
    hide *;
    var b := s.batchq;
    if i < |b| {
      OneTurn(s, i);
      var u, t := Sent(s), Tail(b[i]);
      TurnSlices(b, i, t, u.batchq);
      RestOfRound(u, i + |t|);
      RoundSplit(b, i, s.wire, SentMany(s, |b| - i));
    } else {
      NoRound(s);
      assert b[i..] == [];
    }
  }

  lemma NoRound(s: State)
    requires Inv(s)
    ensures SentMany(s, 0) == s && Heads([]) == [] && Tails([]) == []
    ensures s.batchq[..|s.batchq|] + [] == s.batchq && s.wire + [] == s.wire
  {
  }

  lemma TurnSlices(b: seq<Session>, i: nat, t: seq<Session>, r: seq<Session>)
    requires i < |b| && r == b[..i] + t + b[i + 1..]
    ensures |r| == |b| - 1 + |t| && r[i + |t|..] == b[i + 1..] && r[..i + |t|] == b[..i] + t
    ensures i + 1 < |b| ==> r[i + |t|] == b[i + 1]
  {
  }

  lemma NewRound(s: State)
    requires Inv(s) && s.nextM == None && s.batchq != []
    ensures Inv(s.(nextM := Some(s.batchq[0].pkts[0])))
  {
    var u := s.(nextM := Some(s.batchq[0].pkts[0]));
    assert IsHead(u.batchq, u.nextM.value);
    assert forall x :: Pending(u, x) == Pending(s, x);
    assert forall x: Sock | Tracked(s, x) :: Tracked(u, x);
  }

  /** A new round begins where it would if `next_m` pointed at the first session. */
  lemma SameStart(s: State)
    requires Inv(s) && s.fastq == [] && s.nextM == None && s.batchq != []
    ensures SentMany(s, |s.batchq|) == SentMany(s.(nextM := Some(s.batchq[0].pkts[0])), |s.batchq|)
  {
    var u := s.(nextM := Some(s.batchq[0].pkts[0]));
    NewRound(s);
    TurnIs(u, 0);
    NothingHidden(s.batchq);
    CanSend(s);
    CanSend(u);
    hide Inv;
    hide Popped;
    hide Charged;
    hide Turn;
    assert Turn(s) == 0 by { TurnFirst(s); }
    assert Charged(s, Chosen(s)).(nextM := u.nextM) == Charged(u, Chosen(u)) by { ChargedAlike(s, Chosen(s), u.nextM); }
    assert Sent(u) == Sent(s);
  }

  lemma TurnFirst(s: State)
    requires s.nextM == None
    ensures Turn(s) == 0
  {
  }

  lemma ChargedAlike(s: State, e: Item, next: Option<Packet>)
    ensures Charged(s, e).(nextM := next) == Charged(s.(nextM := next), e)
  {
  }

  /**
   * Round robin: with nothing on the fast queue and a new round to begin, the next sends take one packet of each session
   * of the batch queue, in list order, and then a new round begins.
   */
  lemma RoundRobin(s: State)
    requires Inv(s) && s.fastq == [] && s.nextM == None
    ensures var t := SentMany(s, |s.batchq|);
      t.nextM == None && t.wire == s.wire + Heads(s.batchq) && t.batchq == Tails(s.batchq)
  {
    var b := s.batchq;
    if b != [] {
      SameStart(s);
      NewRound(s);
      var u := s.(nextM := Some(b[0].pkts[0]));
      assert Heads.requires(b);
      hide *;
      RestOfRound(u, 0);
      assert b[0..] == b && b[..0] + Tails(b) == Tails(b);
    }
  }

  // ---- which queue, and which packet

  function Items(e: Session): seq<Item> {
    seq(|e.pkts|, i requires 0 <= i < |e.pkts| => Item(e.so, e.pkts[i]))
  }

  /** All packets of a queue, in the order in which they are listed. */
  function Flat(q: seq<Session>): seq<Item> {
    if q == [] then [] else Items(q[0]) + Flat(q[1..])
  }

  ghost predicate HasList(q: seq<Session>, so: Option<Sock>) {
    exists i :: 0 <= i < |q| && q[i].so == so
  }

  /**
   * From `s` to `t` a packet has joined a queue: behind what its socket has on the batch queue; if it has nothing there, the
   * end of the fast queue when the socket is one that asks for low delay, as part of its session if that is the last; and
   * the end of the batch queue, as a session of its own, in all other cases.
   */
  ghost predicate Joins(s: State, t: State, so: Option<Sock>, p: Packet, lowDelay: bool) {
    if HasList(s.batchq, so) then
      && t.fastq == s.fastq && |t.batchq| == |s.batchq|
      && forall i | 0 <= i < |s.batchq| ::
           t.batchq[i].so == s.batchq[i].so && t.batchq[i].pkts == s.batchq[i].pkts + if s.batchq[i].so == so then [p] else []
    else if so.Some? && lowDelay then
      && t.batchq == s.batchq && Flat(t.fastq) == Flat(s.fastq) + [Item(so, p)]
      && |t.fastq| == |s.fastq| + if s.fastq != [] && s.fastq[|s.fastq| - 1].so == so then 0 else 1
    else t.fastq == s.fastq && t.batchq == s.batchq + [Session(so, [p])]
  }

  /** The session that ends with `p` leaves its queue, and is the first of the batch queue. */
  ghost predicate GoesInFront(s: State, t: State, so: Option<Sock>, p: Packet) {
    && t.batchq != [] && t.batchq[0].so == so && t.batchq[0].pkts != [] && t.batchq[0].pkts[|t.batchq[0].pkts| - 1] == p
    && ((t.fastq == s.fastq && exists i :: 0 <= i < |s.batchq| && s.batchq[i] == t.batchq[0] && t.batchq[1..] == s.batchq[..i] + s.batchq[i + 1..])
        || (s.fastq == t.fastq + [t.batchq[0]] && t.batchq[1..] == s.batchq))
  }

  /** The counters take the packet in. */
  ghost predicate CountsIn(s: State, t: State, so: Option<Sock>, p: Packet) {
    && t.ifQueued == s.ifQueued + 1 && t.accepted == s.accepted + [Item(so, p)] && t.wire == s.wire && t.nextM == s.nextM
    && (forall x: Sock :: Count(t.queued, x) == Count(s.queued, x) + if so == Some(x) then 1 else 0)
    && (forall x: Sock :: Count(t.nqueued, x) == Count(s.nqueued, x) + if so == Some(x) then 1 else 0)
  }

  /** Six packets have been queued without a pause, of which three or more have been sent. */
  predicate Greedy(t: State, so: Option<Sock>) {
    so.Some? && Count(t.nqueued, so.value) >= 6 && Count(t.nqueued, so.value) >= Count(t.queued, so.value) + 3
  }

  /** `if_output` up to its call of `if_start`, seen from the queues and the counters. */
  ghost predicate Queues(s: State, t: State, so: Option<Sock>, p: Packet, lowDelay: bool) {
    && CountsIn(s, t, so, p)
    && exists u :: Joins(s, u, so, p, lowDelay)
         && if Greedy(t, so) then GoesInFront(u, t, so, p) else t.fastq == u.fastq && t.batchq == u.batchq
  }

  lemma {:induction false} FlatCat(a: seq<Session>, b: seq<Session>)
    ensures Flat(a + b) == Flat(a) + Flat(b)
  {
    if a == [] {
      assert a + b == b;
    } else {
      assert (a + b)[1..] == a[1..] + b;
      FlatCat(a[1..], b);
    }
  }

  lemma FlatOne(e: Session)
    ensures Flat([e]) == Items(e)
  {
    assert [e][1..] == [];
    assert Flat([e]) == Items(e) + Flat([]);
  }

  lemma FlatExtended(q: seq<Session>, p: Packet)
    requires q != []
    ensures var n := |q| - 1; Flat(q[n := Extended(q[n], p)]) == Flat(q) + [Item(q[n].so, p)]
  {
    var n := |q| - 1;
    var e := Extended(q[n], p);
    assert q == q[..n] + [q[n]] && q[n := e] == q[..n] + [e];
    FlatCat(q[..n], [q[n]]);
    FlatCat(q[..n], [e]);
    FlatOne(q[n]);
    FlatOne(e);
    assert Items(e) == Items(q[n]) + [Item(q[n].so, p)];
  }

  lemma LinkedJoins(s: State, so: Option<Sock>, p: Packet, lowDelay: bool)
    requires OnePerSocket(s.batchq)
    ensures Joins(s, Linked(s, so, p, lowDelay), so, p, lowDelay)
  {
    hide Flat;
    var i, n := Find(s.batchq, so), |s.fastq|;
    assert HasList(s.batchq, so) <==> i >= 0;
    if i < 0 && so.Some? && lowDelay {
      if n > 0 && s.fastq[n - 1].so == so {
        FlatExtended(s.fastq, p);
      } else {
        FlatCat(s.fastq, [Session(so, [p])]);
        FlatOne(Session(so, [p]));
      }
    }
  }

  /** `p` ends the batch list of `so`, or the last session of the fast queue if there is none. */
  predicate EndsWith(fastq: seq<Session>, batchq: seq<Session>, so: Option<Sock>, p: Packet) {
    var i := Find(batchq, so);
    var e := if i >= 0 then batchq[i] else if fastq != [] then fastq[|fastq| - 1] else Session(None, []);
    e.so == so && e.pkts != [] && e.pkts[|e.pkts| - 1] == p
  }

  /** The packet is the last of the session that a downgrade would move. */
  lemma LinkedLast(s: State, so: Option<Sock>, p: Packet, lowDelay: bool)
    requires so.Some?
    ensures EndsWith(Linked(s, so, p, lowDelay).fastq, Linked(s, so, p, lowDelay).batchq, so, p)
  {
    var i := Find(s.batchq, so);
    if i >= 0 {
      FindAfter(s.batchq, i, p);
    } else if !lowDelay {
      var q := s.batchq + [Session(so, [p])];
      assert q[|q| - 1].so == so;
    }
  }

  lemma {:induction false} FindAfter(q: seq<Session>, i: nat, p: Packet)
    requires i < |q| && forall j | i < j < |q| :: q[j].so != q[i].so
    ensures Find(q[i := Extended(q[i], p)], q[i].so) == i
  {
    var r := q[i := Extended(q[i], p)];
    assert r[i].so == q[i].so && forall j | i < j < |r| :: r[j].so != q[i].so;
  }

  lemma DowngradedFronts(s: State, so: Option<Sock>, p: Packet)
    requires EndsWith(s.fastq, s.batchq, so, p)
    ensures GoesInFront(s, Downgraded(s, so), so, p)
  {
    var i, n := Find(s.batchq, so), |s.fastq|;
    var t := Downgraded(s, so);
    if i >= 0 {
      assert t.batchq == [s.batchq[i]] + (s.batchq[..i] + s.batchq[i + 1..]);
      assert t.batchq[1..] == s.batchq[..i] + s.batchq[i + 1..];
    } else {
      assert s.fastq == s.fastq[..n - 1] + [s.fastq[n - 1]];
      assert t.batchq[1..] == s.batchq;
    }
  }

  /** Which queue a packet joins, and when and whither its session is downgraded. */
  lemma EnqueuedQueues(s: State, so: Option<Sock>, p: Packet, lowDelay: bool)
    requires OnePerSocket(s.batchq)
    ensures Queues(s, Enqueued(s, so, p, lowDelay), so, p, lowDelay)
  {
    EnqueuedCounts(s, so, p, lowDelay);
    EnqueuedGreedy(s, so, p, lowDelay);
    LinkedJoins(s, so, p, lowDelay);
    hide *;
    var u, v, t := Linked(s, so, p, lowDelay), Tallied(Linked(s, so, p, lowDelay), so, p), Enqueued(s, so, p, lowDelay);
    TalliedQueues(u, so, p);
    if Greedy(t, so) {
      LinkedLast(s, so, p, lowDelay);
      DowngradedFronts(v, so, p);
      FrontsAlike(v, u, t, so, p);
    }
    QueuesBy(s, u, t, so, p, lowDelay);
  }

  lemma QueuesBy(s: State, u: State, t: State, so: Option<Sock>, p: Packet, lowDelay: bool)
    requires CountsIn(s, t, so, p) && Joins(s, u, so, p, lowDelay)
    requires if Greedy(t, so) then GoesInFront(u, t, so, p) else t.fastq == u.fastq && t.batchq == u.batchq
    ensures Queues(s, t, so, p, lowDelay)
  {
  }

  lemma EnqueuedCounts(s: State, so: Option<Sock>, p: Packet, lowDelay: bool)
    ensures CountsIn(s, Enqueued(s, so, p, lowDelay), so, p)
  {
    EnqueuedTally(s, so, p, lowDelay);
    LinkedUntouched(s, so, p, lowDelay);
    var v := Tallied(Linked(s, so, p, lowDelay), so, p);
    DowngradedUntouched(v, so);
    TalliedQueues(Linked(s, so, p, lowDelay), so, p);
    hide Linked;
    hide Tallied;
    hide Downgraded;
    hide Count;
    hide Hogs;
  }

  lemma EnqueuedGreedy(s: State, so: Option<Sock>, p: Packet, lowDelay: bool)
    ensures var v, t := Tallied(Linked(s, so, p, lowDelay), so, p), Enqueued(s, so, p, lowDelay);
      t == if Greedy(t, so) then Downgraded(v, so) else v
  {
    var v := Tallied(Linked(s, so, p, lowDelay), so, p);
    DowngradedUntouched(v, so);
    hide Linked;
    hide Tallied;
    hide Downgraded;
    hide Count;
  }

  lemma LinkedUntouched(s: State, so: Option<Sock>, p: Packet, lowDelay: bool)
    ensures var t := Linked(s, so, p, lowDelay); t == s.(fastq := t.fastq, batchq := t.batchq)
  {
    hide Find;
  }

  lemma TalliedQueues(s: State, so: Option<Sock>, p: Packet)
    ensures var t := Tallied(s, so, p); t == s.(ifQueued := t.ifQueued, accepted := t.accepted, queued := t.queued, nqueued := t.nqueued)
  {
  }

  lemma DowngradedUntouched(s: State, so: Option<Sock>)
    ensures var t := Downgraded(s, so); t == s.(fastq := t.fastq, batchq := t.batchq)
  {
    hide Find;
  }

  lemma FrontsAlike(v: State, u: State, t: State, so: Option<Sock>, p: Packet)
    requires GoesInFront(v, t, so, p) && v.fastq == u.fastq && v.batchq == u.batchq
    ensures GoesInFront(u, t, so, p)
  {
  }

  /** Nothing of the batch queue goes out before the fast queue is empty, and that goes out in its order. */
  lemma FastFirst(s: State)
    requires Ready(s) && s.fastq != []
    ensures var t := Sent(s);
      && Flat(s.fastq) != [] && t.wire == s.wire + [Flat(s.fastq)[0]] && Flat(t.fastq) == Flat(s.fastq)[1..]
      && t.batchq == s.batchq && t.nextM == s.nextM
  {
    var e := s.fastq[0];
    var rest := s.fastq[1..];
    assert Sent(s).fastq == Tail(e) + rest;
    FlatCat(Tail(e), rest);
    if |e.pkts| > 1 {
      FlatOne(e.(pkts := e.pkts[1..]));
    }
    assert Flat(Tail(e)) == Items(e)[1..];
  }
}
