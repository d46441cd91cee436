/** Whole runs of `ip_input`, and what `ip_output` cuts up put back together by them. */
module IpRuns {
  import opened Mbufs
  import opened Options
  import opened IpReassembly
  import opened IpOutput
  import opened IpInput

  ghost predicate Fragments(ps: seq<Packet>, origin: FlowKey -> seq<Byte>) {
    forall p | p in ps :: Accepted(p, true) && IsFragment(p) && CutFrom(p, origin(p.key))
  }

  /** What waits under `key` after a run from an empty state. */
  ghost function Held(ps: seq<Packet>, key: FlowKey, origin: FlowKey -> seq<Byte>): iset<int> {
    if ps == [] then iset{}
    else
      var before, p := Held(ps[..|ps| - 1], key, origin), ps[|ps| - 1];
      if p.key == key then After(before, Extent(p), origin(key)) else before
  }

  lemma HeldNothing(origin: FlowKey -> seq<Byte>)
    ensures forall k :: Held([], k, origin) == iset{}
  {
  }

  lemma HeldStep(ps: seq<Packet>, i: nat, origin: FlowKey -> seq<Byte>)
    requires i < |ps|
    ensures forall k | k != ps[i].key :: Held(ps[..i + 1], k, origin) == Held(ps[..i], k, origin)
    ensures var k := ps[i].key; Held(ps[..i + 1], k, origin) == After(Held(ps[..i], k, origin), Extent(ps[i]), origin(k))
  {
    assert ps[..i + 1][..i] == ps[..i];
  }

  /** What the i-th packet of a run sends up. */
  ghost function Reply(ps: seq<Packet>, i: nat, origin: FlowKey -> seq<Byte>): Option<seq<Byte>>
    requires i < |ps|
  {
    Upwards(Held(ps[..i], ps[i].key, origin), Extent(ps[i]), origin(ps[i].key))
  }

  /** A run of `ip_input` over fragments of many datagrams, interleaved in any way. */
  method Run(r: Reassembler, ps: seq<Packet>) returns (ups: seq<Option<seq<Byte>>>)
    requires r.Valid() && (forall k :: r.Pending(k) == iset{}) && Fragments(ps, r.origin)
    modifies r, r.repr
    ensures r.Valid() && forall k :: r.Pending(k) == Held(ps, k, r.origin)
    ensures |ups| == |ps| && forall i | 0 <= i < |ps| :: ups[i] == Reply(ps, i, r.origin)
  {
    hide After;
    hide Upwards;
    hide Held;
    hide Reassembler.Valid;
    hide Reassembler.Pending;
    HeldNothing(r.origin);
    ups := [];
    for i := 0 to |ps|
      invariant r.Valid() && fresh(r.repr - old(r.repr))
      invariant forall k :: r.Pending(k) == Held(ps[..i], k, r.origin)
      invariant |ups| == i && forall j | 0 <= j < i :: ups[j] == Reply(ps, j, r.origin)
    {
      assert ps[i] in ps;
      var up := Input(r, ps[i], true);
      HeldStep(ps, i, r.origin);
      ups := ups + [up];
    }
    assert ps[..|ps|] == ps;
  }

  /** All offsets that packets under `key` carry, no matter in which order they come or how often. */
  ghost function Arrived(ps: seq<Packet>, key: FlowKey): iset<int> {
    iset p, x | p in ps && p.key == key && In(x, Extent(p)) :: x
  }

  /** Some packet of the run completes the datagram under `key`. */
  ghost predicate Delivered(ps: seq<Packet>, key: FlowKey, origin: FlowKey -> seq<Byte>) {
    exists i :: 0 <= i < |ps| && ps[i].key == key && Reply(ps, i, origin) != None
  }

  lemma ArrivedMore(ps: seq<Packet>, p: Packet, key: FlowKey)
    ensures Arrived(ps + [p], key) == Arrived(ps, key) + (if p.key == key then Cover([Extent(p)]) else iset{})
  {
    assert forall q :: q in ps + [p] <==> q in ps || q == p;
    assert forall x :: Covered(x, [Extent(p)]) <==> In(x, Extent(p)) by {
      assert Extent(p) in [Extent(p)];
    }
  }

  /** As long as a datagram is not whole, all that has arrived of it waits. */
  lemma {:induction false} HeldIsArrived(ps: seq<Packet>, key: FlowKey, origin: FlowKey -> seq<Byte>)
    requires !Fills(Arrived(ps, key), origin(key))
    ensures Held(ps, key, origin) == Arrived(ps, key)
  {
    if ps != [] {
      var before, p := ps[..|ps| - 1], ps[|ps| - 1];
      assert ps == before + [p];
      ArrivedMore(before, p, key);
      HeldIsArrived(before, key, origin);
    }
  }

  /** The first reply under a key comes exactly when what has arrived leaves nothing of the datagram out. */
  lemma FirstCompletion(ps: seq<Packet>, i: nat, origin: FlowKey -> seq<Byte>)
    requires i < |ps| && !Fills(Arrived(ps[..i], ps[i].key), origin(ps[i].key))
    ensures Reply(ps, i, origin) == if Fills(Arrived(ps[..i + 1], ps[i].key), origin(ps[i].key))
                                    then Some(origin(ps[i].key)) else None
  {
    HeldIsArrived(ps[..i], ps[i].key, origin);
    ArrivedMore(ps[..i], ps[i], ps[i].key);
    assert ps[..i + 1] == ps[..i] + [ps[i]];
  }

  lemma ReplyOfPrefix(ps: seq<Packet>, n: nat, i: nat, origin: FlowKey -> seq<Byte>)
    requires i < n <= |ps|
    ensures Reply(ps[..n], i, origin) == Reply(ps, i, origin)
  {
    assert ps[..n][..i] == ps[..i];
  }

  /** A datagram comes out of a run if and only if the fragments in it leave none of its bytes out. */
  lemma {:induction false} DeliveredIff(ps: seq<Packet>, key: FlowKey, origin: FlowKey -> seq<Byte>)
    requires origin(key) != []
    ensures Delivered(ps, key, origin) <==> Fills(Arrived(ps, key), origin(key))
  {
    if ps == [] {
      assert 0 !in Arrived(ps, key);
    } else {
      var n := |ps| - 1;
      assert ps == ps[..n] + [ps[n]] && ps[..n + 1] == ps;
      DeliveredIff(ps[..n], key, origin);
      ArrivedMore(ps[..n], ps[n], key);
      forall i | 0 <= i < n
        ensures Reply(ps[..n], i, origin) == Reply(ps, i, origin)
      {
        ReplyOfPrefix(ps, n, i, origin);
      }
      if Delivered(ps[..n], key, origin) {
        var i :| 0 <= i < n && ps[..n][i].key == key && Reply(ps[..n], i, origin) != None;
        assert ps[i].key == key && Reply(ps, i, origin) != None;
      } else if ps[n].key == key {
        FirstCompletion(ps, n, origin);
      }
    }
  }

  /** Reassembly does not depend on order or on repetition: only on which fragments come at all. */
  lemma OrderIndependence(a: seq<Packet>, b: seq<Packet>, key: FlowKey, origin: FlowKey -> seq<Byte>)
    requires origin(key) != [] && forall p :: p in a <==> p in b
    ensures Delivered(a, key, origin) <==> Delivered(b, key, origin)
  {
    DeliveredIff(a, key, origin);
    DeliveredIff(b, key, origin);
    assert Arrived(a, key) == Arrived(b, key);
  }

  lemma {:induction false} PartsInOrder(parts: seq<Packet>, d: seq<Byte>, head: seq<Byte>, key: FlowKey, i: nat, j: nat)
    requires Partition(parts, d, head, key) && i < j < |parts|
    ensures parts[i].PayloadEnd() <= parts[j].Offset()
  {
    if i < j - 1 {
      PartsInOrder(parts, d, head, key, i, j - 1);
    }
  }

  lemma {:induction false} PartOf(parts: seq<Packet>, d: seq<Byte>, head: seq<Byte>, key: FlowKey, x: nat, n: nat) returns (i: nat)
    requires Partition(parts, d, head, key) && n < |parts| && x < parts[n].PayloadEnd()
    ensures i < |parts| && In(x, Extent(parts[i]))
  {
    if parts[n].Offset() <= x {
      i := n;
    } else {
      i := PartOf(parts, d, head, key, x, n - 1);
    }
  }

  /** Of a partition nothing can be spared and nothing is missing. */
  lemma AllPartsNeeded(parts: seq<Packet>, arrivals: seq<Packet>, d: seq<Byte>, head: seq<Byte>, key: FlowKey)
    requires Partition(parts, d, head, key) && forall p | p in arrivals :: p in parts
    ensures Fills(Arrived(arrivals, key), d) <==> forall p | p in parts :: p in arrivals
  {
    if Fills(Arrived(arrivals, key), d) {
      forall j | 0 <= j < |parts|
        ensures parts[j] in arrivals
      {
        var x := parts[j].Offset();
        assert 0 <= x < |d| && x in Arrived(arrivals, key);
        var p :| p in arrivals && In(x, Extent(p));
        var i :| 0 <= i < |parts| && parts[i] == p;
        if i < j {
          PartsInOrder(parts, d, head, key, i, j);
        } else if j < i {
          PartsInOrder(parts, d, head, key, j, i);
        }
      }
    }
    if forall p | p in parts :: p in arrivals {
      forall x | 0 <= x < |d|
        ensures x in Arrived(arrivals, key)
      {
        var i := PartOf(parts, d, head, key, x, |parts| - 1);
        assert parts[i] in arrivals;
      }
    }
  }

  ghost predicate AllAmong(parts: seq<Packet>, arrivals: seq<Packet>) {
    forall p | p in parts :: p in arrivals
  }

  lemma PartIsFragment(parts: seq<Packet>, d: seq<Byte>, head: seq<Byte>, key: FlowKey, i: nat)
    requires Partition(parts, d, head, key) && 1 < |parts| && i < |parts| && |d| < U16_LIMIT && parts[i].ipLen <= GROWTH
    ensures Accepted(parts[i], true) && IsFragment(parts[i]) && CutFrom(parts[i], d)
  {
    var p := parts[i];
    assert Carries(p, d, head) && p.Offset() < p.PayloadEnd() && (p.More() <==> i < |parts| - 1);
    assert p.frame[p.hlen..p.ipLen] == p.Payload();
    if i < |parts| - 1 {
      PartsInOrder(parts, d, head, key, i, i + 1);
      assert parts[i + 1].Offset() < parts[i + 1].PayloadEnd() && Carries(parts[i + 1], d, head);
    } else {
      PartsInOrder(parts, d, head, key, 0, i);
      assert parts[0].Offset() < parts[0].PayloadEnd();
    }
  }

  lemma PartsAreFragments(parts: seq<Packet>, arrivals: seq<Packet>, d: seq<Byte>, head: seq<Byte>, key: FlowKey, origin: FlowKey -> seq<Byte>)
    requires Partition(parts, d, head, key) && |parts| > 1 && origin(key) == d
    requires |d| < U16_LIMIT && forall p | p in parts :: p.ipLen <= GROWTH
    requires forall p | p in arrivals :: p in parts
    ensures Fragments(arrivals, origin)
  {
    hide Carries;
    hide CutFrom;
    forall p | p in arrivals
      ensures Accepted(p, true) && IsFragment(p) && CutFrom(p, origin(p.key))
    {
      var i :| 0 <= i < |parts| && parts[i] == p;
      assert parts[i].key == key;
      PartIsFragment(parts, d, head, key, i);
    }
  }

  /** Replies in a run over the parts of one datagram: nothing up to the packet that makes them all there, then `d`. */
  lemma FirstWhole(parts: seq<Packet>, arrivals: seq<Packet>, i: nat, d: seq<Byte>, head: seq<Byte>, key: FlowKey, origin: FlowKey -> seq<Byte>)
    requires Partition(parts, d, head, key) && origin(key) == d && i < |arrivals|
    requires forall p | p in arrivals :: p in parts
    requires !AllAmong(parts, arrivals[..i])
    ensures Reply(arrivals, i, origin) == if AllAmong(parts, arrivals[..i + 1]) then Some(d) else None
  {
    assert arrivals[i] in arrivals && arrivals[i].key == key;
    AllPartsNeeded(parts, arrivals[..i], d, head, key);
    AllPartsNeeded(parts, arrivals[..i + 1], d, head, key);
    FirstCompletion(arrivals, i, origin);
  }

  /** Delivers packets `picks[0]`, `picks[1]`, ... of what `ip_output` made of `m`, in any order, with any repeats. */
  method RoundTrip(m: Mbuf, mtu: nat, spare: nat, picks: seq<nat>, r: Reassembler)
    returns (error: bool, parts: seq<Packet>, arrivals: seq<Packet>, ups: seq<Option<seq<Byte>>>)
    requires Unsent(m) && m.len > mtu && mtu <= GROWTH && m !in r.repr
    requires r.Valid() && (forall k :: r.Pending(k) == iset{}) && r.origin(m.key) == Body(m)
    modifies m, r, r.repr
    ensures error <==> !CanFragment(old(|Body(m)|), mtu, false, spare)
    ensures !error ==> Partition(parts, old(Body(m)), old(Head(m)), m.key) && forall p | p in parts :: p.ipLen <= mtu
    ensures !error ==> |ups| == |arrivals| == |picks|
    ensures !error ==> forall i | 0 <= i < |picks| :: arrivals[i] == parts[picks[i] % |parts|]
    ensures !error ==> forall i | 0 <= i < |ups| && !AllAmong(parts, arrivals[..i]) ::
                         ups[i] == if AllAmong(parts, arrivals[..i + 1]) then Some(old(Body(m))) else None
  {
    hide Reply;
    hide Carries;
    hide Room;
    hide Partition;
    hide CanFragment;
    hide Fragments;
    hide AllAmong;
    ghost var d, head := Body(m), Head(m);
    var sent;
    sent, error := IpOutput.IpOutput(m, mtu, false, spare);
    parts, arrivals, ups := [], [], [];
    if error {
      return;
    }
    parts := Wires(sent);
    arrivals := seq(|picks|, i requires 0 <= i < |picks| => parts[picks[i] % |parts|]);
    PartsAreFragments(parts, arrivals, d, head, m.key, r.origin);
    ups := Run(r, arrivals);
    hide Reassembler.Valid;
    forall i | 0 <= i < |ups| && !AllAmong(parts, arrivals[..i])
      ensures ups[i] == if AllAmong(parts, arrivals[..i + 1]) then Some(d) else None
    {
      FirstWhole(parts, arrivals, i, d, head, m.key, r.origin);
    }
  }
}
