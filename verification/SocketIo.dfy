/** Data between a host socket and its two ring buffers: `sbappend` of `sbuf.c`, `soread` and `sowrite` of `socket.c`. */
module SocketIo {
  import opened Mbufs
  import opened Numbers
  import opened SocketBuffer

  /** A whole number of segments, if it is more than one. */
  function Trimmed(x: nat, mss: nat): nat
    requires mss > 0
  {
    if x > mss then x - x % mss else x
  }

  /**
   * The host accepts a prefix of what `send` offers, and `recv` gives a prefix of what has arrived there: the answers that
   * the methods below take say how much at most; 0 or less is an error, of which EAGAIN and EINTR are told apart.
   */
  class Socket {
    /** from the guest to the host */
    const rcv: Sbuf
    /** from the host to the guest */
    const snd: Sbuf
    /** all that the guest has sent, and what of it the host has accepted */
    ghost var accepted: seq<Byte>
    ghost var sent: seq<Byte>
    /** all that has been read from the host, and how much of it the guest has acknowledged */
    ghost var taken: seq<Byte>
    ghost var acked: nat

    ghost predicate Valid()
      reads this, rcv, snd, rcv.data, snd.data
    {
      && rcv != snd && rcv.data != snd.data && rcv.Valid() && snd.Valid()
      && sent + rcv.Contents() == accepted
      && acked <= |taken| && snd.Contents() == taken[acked..]
    }

    constructor (rcvSize: nat, sndSize: nat)
      ensures Valid() && accepted == [] && taken == [] && rcv.data.Length == rcvSize && snd.data.Length == sndSize
    {
      rcv := new Sbuf(rcvSize);
      snd := new Sbuf(sndSize);
      accepted, sent, taken, acked := [], [], [], 0;
    }

    /** `sbappend`, without urgent data: written at once if nothing waits, and what is left is appended. */
    method SbAppend(m: seq<Byte>, answer: int)
      requires Valid() && |m| <= rcv.Space()
      modifies this`accepted, this`sent, rcv, rcv.data
      ensures Valid() && accepted == old(accepted) + m
      ensures var n := if old(rcv.cc) == 0 && answer > 0 then Min(answer, |m|) else 0;
        sent == old(sent) + m[..n] && rcv.Contents() == old(rcv.Contents()) + m[n..]
    {
      accepted := accepted + m;
      var ret := 0;
      if rcv.cc == 0 {
        ret := Min(answer, |m|);
      }
      if ret <= 0 {
        rcv.Append(m);
      } else {
        sent := sent + m[..ret];
        if ret != |m| {
          rcv.Append(m[ret..]);
        }
      }
    }

    /** `sowrite`: one `send`, and a second one for the other end of the ring. */
    method SoWrite(first: int, second: int, retry: bool) returns (nn: int)
      requires Valid() && rcv.cc > 0
      modifies this`sent, rcv
      ensures Valid() && accepted == old(accepted)
      ensures first <= 0 ==> nn == (if first < 0 && retry then 0 else -1) && sent == old(sent) && rcv.Contents() == old(rcv.Contents())
      ensures first > 0 ==> var edge := Min(old(rcv.cc), rcv.data.Length - old(rcv.rptr));
        nn == Min(first, edge) + if first >= edge && second > 0 then Min(second, old(rcv.cc) - edge) else 0
      ensures first > 0 ==> 0 < nn <= old(rcv.cc) && sent == old(sent) + old(rcv.Contents())[..nn] && rcv.Contents() == old(rcv.Contents())[nn..]
    {
      hide Ring;
      var len0, len1 := Filled();
      nn := Min(first, len0);
      if nn < 0 && retry {
        return 0;
      }
      if nn <= 0 {
        return -1;
      }
      if len1 > 0 && nn == len0 {
        var ret := Min(second, len1);
        if ret > 0 {
          nn := nn + ret;
        }
      }
      Send(nn);
    }

    /** The two pieces of what waits in the ring, lines 317-334. */
    method Filled() returns (len0: nat, len1: nat)
      requires Valid() && rcv.cc > 0
      ensures len0 == Min(rcv.cc, rcv.data.Length - rcv.rptr) > 0 && len1 == rcv.cc - len0
    {
      hide Ring;
      var len := rcv.cc;
      len1 := 0;
      if rcv.rptr < rcv.wptr {
        len0 := Min(rcv.wptr - rcv.rptr, len);
      } else {
        len0 := Min(rcv.data.Length - rcv.rptr, len);
        len := len - len0;
        if len > 0 {
          len1 := Min(rcv.wptr, len);
        }
      }
    }

    /** What the host has accepted: from the read pointer to the end of the array, and from its beginning. */
    method Send(nn: nat)
      requires Valid() && 0 < nn <= rcv.cc
      modifies this`sent, rcv
      ensures Valid() && accepted == old(accepted)
      ensures sent == old(sent) + old(rcv.Contents())[..nn] && rcv.Contents() == old(rcv.Contents())[nn..]
    {
      hide Ring;
      var r, l := rcv.rptr, rcv.data.Length;
      ghost var was := rcv.Contents();
      SliceRing(rcv.data[..], r, rcv.cc, 0, nn);
      ghost var out := if r + nn <= l then rcv.data[r..r + nn] else rcv.data[r..] + rcv.data[..r + nn - l];
      assert out == was[..nn];
      sent := sent + out;
      rcv.Drop(nn);
      assert sent + rcv.Contents() == old(sent) + (was[..nn] + was[nn..]);
    }

    /** How much `soread` asks for: the room there is, cut to whole segments, in one piece or two. Lines 110-149. */
    method Wanted(mss: nat) returns (len0: nat, len1: nat)
      requires Valid() && snd.Space() > 0 && mss > 0
      ensures len0 + len1 == Trimmed(snd.Space(), mss) && len0 == Min(snd.data.Length - snd.wptr, Trimmed(snd.Space(), mss)) > 0
      ensures len1 > 0 ==> snd.wptr + len0 == snd.data.Length && len1 <= snd.rptr
      ensures if snd.Space() <= mss then len0 + len1 == snd.Space()
              else (len0 + len1) % mss == 0 && len0 + len1 <= snd.Space() < len0 + len1 + mss
    {
      TrimmedIs(snd.Space(), mss);
      hide Ring;
      var len := snd.Space();
      len1 := 0;
      if snd.wptr < snd.rptr {
        len0 := Min(snd.rptr - snd.wptr, len);
        if len0 > mss {
          len0 := len0 - len0 % mss;
        }
      } else {
        len0 := Min(snd.data.Length - snd.wptr, len);
        len := len - len0;
        if len > 0 {
          len1 := Min(snd.rptr, len);
          var total := len0 + len1;
          if total > mss {
            var lss := total % mss;
            if len1 > lss {
              len1 := len1 - lss;
            } else {
              lss := lss - len1;
              len0 := len0 - lss;
              len1 := 0;
            }
          }
        } else if len0 > mss {
          len0 := len0 - len0 % mss;
        }
      }
    }

    /** `soread` of what has arrived at the host socket: one `recv`, and a second one for the other end of the ring. */
    method SoRead(arrived: seq<Byte>, first: int, second: int, retry: bool, mss: nat) returns (nn: int)
      requires Valid() && snd.Space() > 0 && mss > 0 && first <= |arrived| && first + second <= |arrived|
      modifies this`taken, snd, snd.data
      ensures Valid() && accepted == old(accepted) && acked == old(acked)
      ensures first <= 0 ==> nn == (if first < 0 && retry then 0 else -1) && taken == old(taken)
      ensures first > 0 ==> var all := Trimmed(old(snd.Space()), mss); var edge := Min(snd.data.Length - old(snd.wptr), all);
        0 < nn == Min(first, edge) + (if first >= edge && second > 0 then Min(second, all - edge) else 0) <= |arrived|
      ensures first > 0 ==> taken == old(taken) + arrived[..nn] && snd.Contents() == old(snd.Contents()) + arrived[..nn]
    {
      hide Ring;
      hide Written;
      var len0, len1 := Wanted(mss);
      nn := Min(first, len0);
      if nn < 0 && retry {
        return 0;
      }
      if nn <= 0 {
        return -1;
      }
      ghost var was, before := snd.data[..], snd.Contents();
      var n0 := nn;
      snd.Put(snd.wptr, arrived, 0, n0);
      if len1 > 0 && nn == len0 {
        var ret := Min(second, len1);
        if ret > 0 {
          snd.Put(0, arrived, n0, ret);
          nn := nn + ret;
        }
      }
      ghost var m := arrived[..nn];
      assert arrived[0..n0] == m[..n0] && arrived[n0..nn] == m[n0..];
      Received(was, snd.rptr, snd.cc, m, n0, snd.data[..]);
      Took(before, m, nn);
    }

    /** Lines 191-194, when the bytes `m` have been put behind those of `before`. */
    method Took(ghost before: seq<Byte>, ghost m: seq<Byte>, nn: nat)
      requires rcv != snd && rcv.data != snd.data && rcv.Valid() && snd.Valid() && sent + rcv.Contents() == accepted
      requires acked <= |taken| && before == taken[acked..] && nn == |m| > 0 && nn <= snd.Space()
      requires Ring(snd.data[..], snd.rptr, snd.cc + nn) == before + m
      modifies this`taken, snd
      ensures Valid() && taken == old(taken) + m && snd.Contents() == before + m
    {
      hide Ring;
      taken := taken + m;
      snd.cc := snd.cc + nn;
      snd.wptr := snd.wptr + nn;
      if snd.wptr >= snd.data.Length {
        snd.wptr := snd.wptr - snd.data.Length;
      }
    }

    /** The guest acknowledges `n` more bytes, and `sbdrop` frees their room. */
    method SbDrop(n: nat)
      requires Valid() && n <= snd.cc
      modifies this`acked, snd
      ensures Valid() && acked == old(acked) + n && taken == old(taken) && accepted == old(accepted)
    {
      hide Ring;
      Behind(taken, acked, n);
      snd.Drop(n);
      acked := acked + n;
    }
  }

  lemma TrimmedIs(x: nat, mss: nat)
    requires mss > 0
    ensures if x <= mss then Trimmed(x, mss) == x else Trimmed(x, mss) % mss == 0 && Trimmed(x, mss) <= x < Trimmed(x, mss) + mss
  {
    if x > mss {
      var q, t := x / mss, x - x % mss;
      assert t == q * mss;
      MultipleOf(q, mss);
    }
  }

  lemma Behind(s: seq<Byte>, i: nat, n: nat)
    requires i + n <= |s|
    ensures s[i..][n..] == s[i + n..]
  {
  }

  lemma Received(d: seq<Byte>, r: nat, n: nat, m: seq<Byte>, first: nat, d': seq<Byte>)
    requires r < |d| && n + |m| <= |d| && first <= |m|
    requires var w := Place(r, n, |d|); w + first <= |d| && (first < |m| ==> w + first == |d| && |m| - first <= r)
    requires var w := Place(r, n, |d|); var d1 := Written(d, w, m[..first]);
      d' == if first < |m| then Written(d1, 0, m[first..]) else d1
    ensures |d'| == |d| && Ring(d', r, n + |m|) == Ring(d, r, n) + m
  {
    var d1 := Written(d, Place(r, n, |d|), m[..first]);
    hide Written;
    WrittenRing(d, r, n, m, first);
    WrittenNothing(d1);
    if first == |m| {
      assert m[first..] == [];
    }
  }
}
