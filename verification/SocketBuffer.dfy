/** The ring buffers of a socket: `sbuf.c`, and `soread` and `sowrite` of `socket.c`. */
module SocketBuffer {
  import opened Mbufs

  /** The place of the byte that is `k` places behind `r` in a ring of `n`. */
  function Place(r: nat, k: nat, n: nat): nat
    requires r + k < 2 * n
  {
    if r + k < n then r + k else r + k - n
  }

  /** The `n` bytes of the ring `d` from `r` on. */
  function Ring(d: seq<Byte>, r: nat, n: nat): (q: seq<Byte>)
    requires r <= |d| && n <= |d|
    ensures |q| == n
  {
    (d[r..] + d[..r])[..n]
  }

  lemma RingAt(d: seq<Byte>, r: nat, n: nat, k: nat)
    requires r <= |d| && k < n <= |d|
    ensures Ring(d, r, n)[k] == d[Place(r, k, |d|)]
  {
  }

  /** What is stored behind the bytes of a ring is appended to them, if nothing else has changed. */
  lemma RingAppend(d: seq<Byte>, d': seq<Byte>, r: nat, n: nat, more: seq<Byte>)
    requires |d'| == |d| && r <= |d| && n + |more| <= |d|
    requires forall k | 0 <= k < |more| :: d'[Place(r, n + k, |d|)] == more[k]
    requires forall k | 0 <= k < n :: d'[Place(r, k, |d|)] == d[Place(r, k, |d|)]
    ensures Ring(d', r, n + |more|) == Ring(d, r, n) + more
  {
    forall k | 0 <= k < n + |more|
      ensures Ring(d', r, n + |more|)[k] == (Ring(d, r, n) + more)[k]
    {
      RingAt(d', r, n + |more|, k);
      if k < n {
        RingAt(d, r, n, k);
      } else {
        assert more[k - n] == d'[Place(r, n + (k - n), |d|)];
      }
    }
  }

  /** Leaving out the first bytes moves the beginning of the ring. */
  lemma RingDrop(d: seq<Byte>, r: nat, n: nat, m: nat)
    requires r < |d| && m <= n <= |d|
    ensures Ring(d, Place(r, m, |d|), n - m) == Ring(d, r, n)[m..]
  {
    var s := Place(r, m, |d|);
    forall k | 0 <= k < n - m
      ensures Ring(d, s, n - m)[k] == Ring(d, r, n)[m..][k]
    {
      RingAt(d, s, n - m, k);
      RingAt(d, r, n, m + k);
    }
  }

  /** The bytes from the beginning up to the end of the array are in one piece. */
  lemma RingPieces(d: seq<Byte>, r: nat, n: nat)
    requires r <= |d| && n <= |d|
    ensures r + n <= |d| ==> Ring(d, r, n) == d[r..r + n]
    ensures r + n > |d| ==> Ring(d, r, n) == d[r..] + d[..r + n - |d|]
  {
  }

  /** `d` with `m` written at `w`. */
  function Written(d: seq<Byte>, w: nat, m: seq<Byte>): (r: seq<Byte>)
    requires w + |m| <= |d|
    ensures |r| == |d|
  {
    d[..w] + m + d[w + |m|..]
  }

  lemma WrittenNothing(d: seq<Byte>)
    ensures Written(d, 0, []) == d
  {
  }

  /** Bytes written behind the last one, up to the end of the array and then from its beginning, are appended. */
  lemma WrittenRing(d: seq<Byte>, r: nat, n: nat, m: seq<Byte>, first: nat)
    requires r < |d| && n + |m| <= |d| && first <= |m|
    requires var w := Place(r, n, |d|); w + first <= |d| && (first < |m| ==> w + first == |d| && |m| - first <= r)
    ensures var w := Place(r, n, |d|);
      Ring(Written(Written(d, w, m[..first]), 0, m[first..]), r, n + |m|) == Ring(d, r, n) + m
  {
    var w := Place(r, n, |d|);
    var d1 := Written(d, w, m[..first]);
    var d2 := Written(d1, 0, m[first..]);
    forall k | 0 <= k < |m|
      ensures d2[Place(r, n + k, |d|)] == m[k]
    {
      var p := Place(r, n + k, |d|);
      assert p == if k < first then w + k else k - first;
    }
    forall k | 0 <= k < n
      ensures d2[Place(r, k, |d|)] == d[Place(r, k, |d|)]
    {
      var p := Place(r, k, |d|);
      assert p >= |m| - first && (p < w || p >= w + first);
    }
    RingAppend(d, d2, r, n, m);
  }

  /** A slice of a ring is one piece of the array, or two. */
  lemma SliceRing(d: seq<Byte>, r: nat, n: nat, off: nat, len: nat)
    requires r < |d| && off + len <= n <= |d|
    ensures var from := Place(r, off, |d|);
      && (from + len <= |d| ==> Ring(d, r, n)[off..off + len] == d[from..from + len])
      && (from + len > |d| ==> Ring(d, r, n)[off..off + len] == d[from..] + d[..from + len - |d|])
  {
    var from := Place(r, off, |d|);
    RingDrop(d, r, n, off);
    RingPieces(d, from, len);
    assert Ring(d, from, len) == Ring(d, from, n - off)[..len];
    assert Ring(d, r, n)[off..off + len] == Ring(d, r, n)[off..][..len];
  }

  class Sbuf {
    const data: array<Byte>
    var wptr: nat
    var rptr: nat
    var cc: nat

    ghost predicate Valid()
      reads this
    {
      && cc <= data.Length && rptr <= data.Length
      && (data.Length > 0 ==> rptr < data.Length && wptr == Place(rptr, cc, data.Length))
      && (data.Length == 0 ==> wptr == 0)
    }

    ghost function Contents(): (q: seq<Byte>)
      requires Valid()
      reads this, data
      ensures |q| == cc
    {
      Ring(data[..], rptr, cc)
    }

    /** sbspace */
    function Space(): nat
      requires cc <= data.Length
      reads this
    {
      data.Length - cc
    }

    /** `sbreserve` for a buffer that is not allocated yet */
    constructor (size: nat)
      ensures Valid() && Contents() == [] && data.Length == size && fresh(data)
    {
      data := new Byte[size];
      wptr, rptr, cc := 0, 0, 0;
    }

    /** `sbdrop` */
    method Drop(num: nat)
      requires Valid()
      modifies this
      ensures Valid() && Contents() == old(Contents())[if num < old(cc) then num else old(cc)..]
    {
      var n := if num > cc then cc else num;
      if data.Length > 0 {
        RingDrop(data[..], rptr, cc, n);
      }
      cc := cc - n;
      rptr := rptr + n;
      if rptr >= data.Length {
        rptr := rptr - data.Length;
      }
    }

    /** `memcpy` into the ring, in one piece. */
    method Put(at: nat, src: seq<Byte>, from: nat, n: nat)
      requires at + n <= data.Length && from + n <= |src|
      modifies data
      ensures data[..] == Written(old(data[..]), at, src[from..from + n])
    {
      forall i | 0 <= i < n {
        data[at + i] := src[from + i];
      }
    }

    /** Lines 143-161: the right edge first, then the left edge. */
    method Fill(m: seq<Byte>) returns (n: nat, ghost first: nat)
      requires Valid() && |m| <= Space()
      modifies data
      ensures n == |m| && first <= n && wptr + first <= data.Length
      ensures first < n ==> wptr + first == data.Length && n - first <= rptr
      ensures data[..] == Written(Written(old(data[..]), wptr, m[..first]), 0, m[first..])
    {
      hide Ring;
      hide Written;
      var len := |m|;
      if wptr < rptr {
        n := rptr - wptr;
        if n > len { n := len; }
        Put(wptr, m, 0, n);
        first := n;
      } else {
        n := data.Length - wptr;
        if n > len { n := len; }
        Put(wptr, m, 0, n);
        first := n;
        len := len - n;
        if len > 0 {
          var nn := rptr;
          if nn > len { nn := len; }
          Put(0, m, n, nn);
          n := n + nn;
        }
      }
      assert m[0..first] == m[..first] && m[first..n] == m[first..];
      WrittenNothing(data[..]);
    }

    /** `sbappendsb`; the caller makes sure that there is room. */
    method Append(m: seq<Byte>)
      requires Valid() && |m| <= Space()
      modifies this, data
      ensures Valid() && Contents() == old(Contents()) + m
    {
      hide Ring;
      hide Written;
      ghost var was := data[..];
      if data.Length == 0 {
        assert Contents() + m == Contents();
        return;
      }
      var n, first := Fill(m);
      WrittenRing(was, rptr, cc, m, first);
      cc := cc + n;
      wptr := wptr + n;
      if wptr >= data.Length {
        wptr := wptr - data.Length;
      }
    }

    /** `sbcopy` */
    method Copy(off: nat, len: nat) returns (to: seq<Byte>)
      requires Valid() && off + len <= cc
      ensures to == Contents()[off..off + len]
    {
      if data.Length == 0 {
        return [];
      }
      var from := rptr + off;
      if from >= data.Length {
        from := from - data.Length;
      }
      SliceRing(data[..], rptr, cc, off, len);
      hide Ring;
      if from < wptr {
        to := data[from..from + if len > cc then cc else len];
      } else {
        var first := data.Length - from;
        if first > len { first := len; }
        to := data[from..from + first];
        if len - first > 0 {
          to := to + data[..len - first];
        }
      }
    }
  }
}
