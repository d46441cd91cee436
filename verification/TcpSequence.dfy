/** Sequence numbers: 32 bits, compared as `tcp.h` does by the sign of the difference. */
module TcpSequence {
  import opened Numbers

  /** `tcp_seq` */
  type Seq = x: int | 0 <= x < TWO_32

  function Add(s: Seq, n: int): Seq {
    (s + n) % TWO_32
  }

  /** The difference as an unsigned number, */
  function Sub(a: Seq, b: Seq): nat {
    (a - b) % TWO_32
  }

  /** and as a signed one. */
  function Diff(a: Seq, b: Seq): int {
    if Sub(a, b) < TWO_31 then Sub(a, b) else Sub(a, b) - TWO_32
  }

  /** SEQ_LT */
  predicate Lt(a: Seq, b: Seq) {
    Diff(a, b) < 0
  }

  /** SEQ_GT */
  predicate Gt(a: Seq, b: Seq) {
    Diff(a, b) > 0
  }

  lemma AddSub(a: Seq, b: Seq)
    ensures Add(b, Sub(a, b)) == a
  {
  }

  lemma SubAdd(s: Seq, n: int)
    requires 0 <= n < TWO_32
    ensures Sub(Add(s, n), s) == n
  {
  }

  /** Numbers that are less than 2^31 from each other are compared as their distances from any third one. */
  lemma Near(s: Seq, x: int, y: int)
    requires -TWO_31 <= x - y < TWO_31
    ensures Diff(Add(s, x), Add(s, y)) == x - y
  {
    var a: int, b: int := Add(s, x), Add(s, y);
    var i, j := (s + x) / TWO_32, (s + y) / TWO_32;
    assert a - b == x - y - (i - j) * TWO_32;
    SameRemainder(a - b, x - y, i - j);
  }

  lemma SameRemainder(p: int, q: int, k: int)
    requires p == q - k * TWO_32
    ensures p % TWO_32 == q % TWO_32
  {
    var d := q / TWO_32;
    assert p == (d - k) * TWO_32 + q % TWO_32;
  }

  lemma AddTwice(s: Seq, x: int, y: int)
    ensures Add(Add(s, x), y) == Add(s, x + y)
  {
    SameRemainder(Add(s, x) + y, s + x + y, (s + x) / TWO_32);
  }
}
