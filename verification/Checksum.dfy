/** The Internet checksum of `cksum.c`, as a little-endian machine with 32-bit integers computes it. */
module Checksum {
  import opened Mbufs

  /** An int; every sum below fits. */
  type Int32 = x: int | -0x8000_0000 <= x < 0x8000_0000

  /** The 16-bit word in memory at `i`. */
  function Word(d: seq<Byte>, i: nat): (w: int)
    requires i + 1 < |d|
    ensures 0 <= w <= 65535
  {
    var low: int, high: int := d[i], d[i + 1];
    low + 256 * high
  }

  /** The plain sum of the words from `i` on, an odd last byte taken as a word with nothing behind it. */
  function Words(d: seq<Byte>, i: nat): nat
    decreases |d| - i
  {
    if i >= |d| then 0 else if i + 1 == |d| then d[i] else Word(d, i) + Words(d, i + 2)
  }

  /** One's-complement arithmetic: a sum folded to 16 bits, where only nothing at all is 0 (RFC 1071, section 1). */
  function Norm(x: nat): (r: nat)
    ensures r <= 65535 && (r == 0 <==> x == 0) && r % 65535 == x % 65535
  {
    if x == 0 then 0 else
      assert (1 + (x - 1) % 65535) % 65535 == x % 65535 by { Shifted(x); }
      1 + (x - 1) % 65535
  }

  lemma Shifted(x: nat)
    requires x > 0
    ensures (1 + (x - 1) % 65535) % 65535 == x % 65535
  {
    var q, r := (x - 1) / 65535, (x - 1) % 65535;
    assert x == q * 65535 + (r + 1);
    if r + 1 == 65535 {
      assert x == (q + 1) * 65535;
    }
  }

  /** The same sum in one's-complement arithmetic. */
  predicate Alike(x: nat, y: nat) {
    x % 65535 == y % 65535 && (x == 0 <==> y == 0)
  }

  lemma AlikeNorm(x: nat, y: nat)
    requires Alike(x, y)
    ensures Norm(x) == Norm(y)
  {
  }

  lemma NormAlike(x: nat)
    ensures Alike(x, Norm(x)) && Norm(x) <= 65535
  {
  }

  lemma AlikeSum(x: nat, y: nat, z: nat)
    requires Alike(x, y)
    ensures Alike(x + z, y + z)
  {
  }

  lemma SameRest(x: nat, y: nat, k: int)
    requires x == y + k * 65535
    ensures x % 65535 == y % 65535
  {
  }

  lemma AlikeTimes(x: nat, y: nat, z: nat)
    requires Alike(x, y)
    ensures Alike(256 * x + z, 256 * y + z)
  {
    var k := x / 65535 - y / 65535;
    assert x == y + k * 65535;
    SameRest(256 * x + z, 256 * y + z, 256 * k);
  }

  /** REDUCE: the two halves added, with the carry. */
  method Reduce(sum: Int32) returns (r: Int32)
    requires sum >= 0
    ensures r == Norm(sum)
  {
    r := sum % 0x1_0000 + sum / 0x1_0000;
    if r > 0 {
      SameRest(sum - 1, r - 1, sum / 0x1_0000);
    }
    if r > 65535 {
      r := r - 65535;
    }
  }

  lemma FourWords(d: seq<Byte>, i: nat)
    requires i + 8 <= |d|
    ensures Words(d, i) == Word(d, i) + Word(d, i + 2) + Word(d, i + 4) + Word(d, i + 6) + Words(d, i + 8)
  {
    assert Words(d, i + 4) == Word(d, i + 4) + Words(d, i + 6);
  }

  /**
   * RFC 1071, section 2 (B): summing from the second byte on, so that every byte lands in the other half of its word, and
   * shifting the sum back by a byte, makes no difference.
   */
  lemma {:induction false} Swapped(d: seq<Byte>, i: nat) returns (k: nat)
    requires i < |d|
    ensures 256 * Words(d, i + 1) + d[i] == Words(d, i) + 65535 * k && k + d[i] <= Words(d, i)
    decreases |d| - i
  {
    if i + 2 >= |d| {
      k := 0;
    } else {
      k := Swapped(d, i + 2);
      k := k + d[i + 2];
    }
  }

  lemma SwappedAlike(d: seq<Byte>, i: nat)
    requires i < |d|
    ensures Alike(256 * Words(d, i + 1) + d[i], Words(d, i))
  {
    var k := Swapped(d, i);
  }

  /** A line of additions, each in 32 bits. */
  method AddFour(d: seq<Byte>, i: nat, sum: Int32) returns (r: Int32)
    requires i + 8 <= |d| && 0 <= sum <= 0x7ffb_ffff
    ensures sum <= r <= sum + 4 * 65535 && r + Words(d, i + 8) == sum + Words(d, i)
  {
    FourWords(d, i);
    hide Word;
    r := sum + Word(d, i);
    r := r + Word(d, i + 2);
    r := r + Word(d, i + 4);
    r := r + Word(d, i + 6);
  }

  /** The loops of lines 91-103: sixteen and four words at a time; what is left is less than four words. */
  method SumBlocks(d: seq<Byte>, start: nat) returns (sum: Int32, i: nat)
    requires start <= |d| <= 65535 && start <= 1
    ensures start <= i <= |d| && |d| - i < 8 && 0 <= 2 * sum <= 65535 * (i - start)
    ensures sum + Words(d, i) == Words(d, start)
  {
    hide Words;
    sum, i := 0, start;
    var mlen: int := |d| - start - 32;
    while mlen >= 0
      invariant start <= i <= |d| && mlen == |d| - i - 32
      invariant 0 <= 2 * sum <= 65535 * (i - start) && sum + Words(d, i) == Words(d, start)
    {
      sum := AddFour(d, i, sum);
      sum := AddFour(d, i + 8, sum);
      sum := AddFour(d, i + 16, sum);
      sum := AddFour(d, i + 24, sum);
      i := i + 32;
      mlen := mlen - 32;
    }
    mlen := mlen + 32;
    mlen := mlen - 8;
    while mlen >= 0
      invariant start <= i <= |d| && mlen == |d| - i - 8
      invariant 0 <= 2 * sum <= 65535 * (i - start) && sum + Words(d, i) == Words(d, start)
    {
      sum := AddFour(d, i, sum);
      i := i + 8;
      mlen := mlen - 8;
    }
  }

  /**
   * `cksum` of the `len` bytes at a pointer that is odd or not: whatever the alignment, the complement of the plain
   * one's-complement sum of the words.
   */
  method Cksum(data: seq<Byte>, odd: bool, len: nat) returns (r: nat)
    requires |data| <= 65535
    ensures r == 65535 - Norm(Words(data[..if len < |data| then len else |data|], 0))
  {
    var mlen := if len < |data| then len else |data|;
    var d := data[..mlen];
    if mlen == 0 {
      return 65535;
    }
    var start := if odd then 1 else 0;
    var sum: Int32, i: nat := SumBlocks(d, start);
    if i == |d| && !odd {
      sum := Reduce(sum);
      return 65535 - sum;
    }
    ghost var before: nat := sum;
    sum := Reduce(sum);
    ghost var reduced: nat := sum;
    sum, i := SumRest(d, i, sum);
    AlikeSum(before, reduced, sum - reduced);
    var byte: int := if i < |d| then d[i] else 0;
    ghost var plain: nat := before + (sum - reduced);
    assert plain + byte == Words(d, start);
    if odd {
      ghost var whole: nat := sum;
      sum := Reduce(sum);
      OddEnd(d, plain, whole, sum, byte);
      var first: int := d[0];
      sum := sum * 256;
      sum := sum + (first + 256 * byte);
    } else {
      AlikeSum(plain, sum, byte);
      sum := sum + byte;
    }
    AlikeNorm(sum, Words(d, 0));
    sum := Reduce(sum);
    r := 65535 - sum;
  }

  /** The end of a sum that began at an odd address, lines 111-121. */
  lemma OddEnd(d: seq<Byte>, plain: nat, whole: nat, reduced: nat, byte: nat)
    requires |d| > 0 && plain + byte == Words(d, 1) && Alike(plain, whole) && reduced == Norm(whole)
    ensures Alike(256 * reduced + (d[0] + 256 * byte), Words(d, 0))
  {
    AlikeTimes(plain, reduced, d[0] + 256 * byte);
    SwappedAlike(d, 0);
  }

  /** Lines 107-109: what is left of whole words. */
  method SumRest(d: seq<Byte>, from: nat, s: Int32) returns (sum: Int32, i: nat)
    requires from <= |d| < from + 8 && 0 <= s <= 65535
    ensures from <= i <= |d| < i + 2 && s <= sum <= s + 4 * 65535
    ensures sum + Words(d, i) == s + Words(d, from)
  {
    sum, i := s, from;
    while i + 2 <= |d|
      invariant from <= i <= |d| && s <= sum <= s + 65535 * ((i - from) / 2) && (i - from) % 2 == 0
      invariant sum + Words(d, i) == s + Words(d, from)
    {
      sum := sum + Word(d, i);
      i := i + 2;
    }
  }

  // ---- what the checksum is for

  /** `d` with a 16-bit word stored at `f`. */
  function Stored(d: seq<Byte>, f: nat, w: nat): (r: seq<Byte>)
    requires f + 1 < |d| && w <= 65535
    ensures |r| == |d| && Word(r, f) == w
  {
    d[f := w % 256][f + 1 := w / 256]
  }

  lemma {:induction false} StoredWords(d: seq<Byte>, f: nat, w: nat, i: nat)
    requires f + 1 < |d| && w <= 65535 && f % 2 == 0 && i % 2 == 0
    ensures Words(Stored(d, f, w), i) + (if i <= f then Word(d, f) else 0) == Words(d, i) + if i <= f then w else 0
    decreases |d| - i
  {
    if i < |d| {
      StoredWords(d, f, w, i + 2);
    }
  }

  /** The header check passes exactly when the one's-complement sum is 65535: so it does when the checksum is stored. */
  lemma StoredPasses(d: seq<Byte>, f: nat)
    requires f + 1 < |d| && f % 2 == 0 && Word(d, f) == 0
    ensures Norm(Words(Stored(d, f, 65535 - Norm(Words(d, 0))), 0)) == 65535
  {
    var s, n := Words(d, 0), Norm(Words(d, 0));
    StoredWords(d, f, 65535 - n, 0);
    var t := s + (65535 - n);
    var q := s / 65535 - n / 65535;
    assert s == n + q * 65535;
    assert t == (q + 1) * 65535;
    assert t > 0;
    assert (t - 1) % 65535 == 65534 by {
      assert t - 1 == q * 65535 + 65534;
    }
  }

  /** Every byte counts, an odd last one too: once in an even place, 256 times in an odd one. */
  lemma {:induction false} EveryByteCounts(d: seq<Byte>, k: nat, b: Byte, i: nat)
    requires i <= k < |d|
    ensures Words(d[k := b], i) - Words(d, i) == (b as int - d[k] as int) * if (k - i) % 2 == 0 then 1 else 256
    decreases |d| - i
  {
    if k >= i + 2 {
      EveryByteCounts(d, k, b, i + 2);
    } else {
      SameBehind(d, k, b, i + 2);
    }
  }

  lemma {:induction false} SameBehind(d: seq<Byte>, k: nat, b: Byte, i: nat)
    requires k < |d| && k < i
    ensures Words(d[k := b], i) == Words(d, i)
    decreases |d| - i
  {
    if i < |d| {
      SameBehind(d, k, b, i + 2);
    }
  }

  /** One word of a header that passes is changed: that goes unnoticed only when 0 and 65535 are exchanged. */
  lemma OneWordChanged(d: seq<Byte>, f: nat, w: nat)
    requires f + 1 < |d| && f % 2 == 0 && w <= 65535 && Norm(Words(d, 0)) == 65535
    ensures Norm(Words(Stored(d, f, w), 0)) == 65535 <==>
      w % 65535 == Word(d, f) % 65535 && Words(Stored(d, f, w), 0) > 0
  {
    var s, t, o := Words(d, 0), Words(Stored(d, f, w), 0), Word(d, f);
    StoredWords(d, f, w, 0);
    hide Words;
    hide Stored;
    NormIsFull(s);
    NormIsFull(t);
    SameSum(t, s, w, o);
  }

  lemma NormIsFull(t: nat)
    ensures Norm(t) == 65535 <==> t > 0 && t % 65535 == 0
  {
  }

  lemma SameSum(t: nat, s: nat, w: nat, o: nat)
    requires t + o == s + w && s % 65535 == 0
    ensures t % 65535 == 0 <==> w % 65535 == o % 65535
  {
    var q := s / 65535;
    var a, b := w / 65535, o / 65535;
    assert t == (w % 65535 - o % 65535) + (q + a - b) * 65535;
  }

  /** The sum of the words as the network sees them, high byte first. */
  function NetworkWords(d: seq<Byte>, i: nat): nat
    decreases |d| - i
  {
    if i >= |d| then 0
    else
      var high: int := d[i];
      var low: int := if i + 1 < |d| then d[i + 1] else 0;
      256 * high + low + NetworkWords(d, i + 2)
  }

  function ByteSwapped(w: nat): nat {
    w % 256 * 256 + w / 256
  }

  lemma {:induction false} NetworkSum(d: seq<Byte>, i: nat) returns (k: nat)
    ensures 256 * Words(d, i) == NetworkWords(d, i) + 65535 * k && 256 * k <= Words(d, i)
    decreases |d| - i
  {
    k := 0;
    if i < |d| {
      k := NetworkSum(d, i + 2);
      if i + 1 < |d| {
        k := k + d[i + 1];
      }
    }
  }

  lemma SwappedNorm(x: nat)
    requires x <= 65535
    ensures Norm(256 * x) == ByteSwapped(x)
  {
    var low, high := x % 256, x / 256;
    assert 256 * x == ByteSwapped(x) + 65535 * high;
    assert ByteSwapped(x) == 0 ==> x == 0;
    hide ByteSwapped;
    NormOf(256 * x, ByteSwapped(x), high);
  }

  lemma NormOf(y: nat, b: nat, k: nat)
    requires y == b + 65535 * k && b <= 65535 && (b == 0 ==> y == 0)
    ensures Norm(y) == b
  {
    if b > 0 {
      assert y - 1 == (b - 1) + 65535 * k;
    }
  }

  /** RFC 1071, section 2 (B): the checksum has the same bytes on a machine of the other byte order. */
  lemma OrderOfBytes(d: seq<Byte>)
    ensures ByteSwapped(65535 - Norm(Words(d, 0))) == 65535 - Norm(NetworkWords(d, 0))
  {
    var s, m := Words(d, 0), NetworkWords(d, 0);
    var k := NetworkSum(d, 0);
    hide *;
    ByMultiple(256 * s, m, k);
    AlikeNorm(256 * s, m);
    ShiftedNorm(s);
    NormAlike(s);
    Complement(Norm(s));
  }

  /** A sum that is shifted by a byte is swapped. */
  lemma ShiftedNorm(s: nat)
    ensures Norm(256 * s) == ByteSwapped(Norm(s))
  {
    NormAlike(s);
    AlikeTimes(s, Norm(s), 0);
    assert Alike(256 * s, 256 * Norm(s));
    hide *;
    AlikeNorm(256 * s, 256 * Norm(s));
    SwappedNorm(Norm(s));
  }

  lemma ByMultiple(x: nat, y: nat, k: nat)
    requires x == y + 65535 * k && 65536 * k <= x
    ensures Alike(x, y)
  {
  }

  lemma Complement(n: nat)
    requires n <= 65535
    ensures ByteSwapped(65535 - n) == 65535 - ByteSwapped(n)
  {
  }

  lemma StoredElsewhere(d: seq<Byte>, f: nat, w: nat)
    requires f + 1 < |d| && w <= 65535
    ensures forall i | 0 <= i < |d| && i != f && i != f + 1 :: Stored(d, f, w)[i] == d[i]
  {
  }

  /** The header of `ip_output` lines 102-103, and the check of `ip_input` line 105 on it, at any two alignments. */
  method StoreAndCheck(header: seq<Byte>, f: nat, here: bool, there: bool) returns (sent: seq<Byte>, check: nat)
    requires f + 1 < |header| <= 65535 && f % 2 == 0
    ensures check == 0 && |sent| == |header| && forall i | 0 <= i < |header| && i != f && i != f + 1 :: sent[i] == header[i]
  {
    sent := StoreSum(header, f, here);
    hide *;
    check := Cksum(sent, there, |sent|);
    assert sent[..|sent|] == sent;
  }

  /** Lines 102-103 of `ip_output.c`. */
  method StoreSum(header: seq<Byte>, f: nat, here: bool) returns (sent: seq<Byte>)
    requires f + 1 < |header| <= 65535 && f % 2 == 0
    ensures Norm(Words(sent, 0)) == 65535
    ensures |sent| == |header| && forall i | 0 <= i < |header| && i != f && i != f + 1 :: sent[i] == header[i]
  {
    hide *;
    StoredElsewhere(header, f, 0);
    var cleared := Stored(header, f, 0);
    var sum := Cksum(cleared, here, |cleared|);
    assert cleared[..|cleared|] == cleared;
    StoredPasses(cleared, f);
    StoredElsewhere(cleared, f, sum);
    sent := Stored(cleared, f, sum);
  }
}
