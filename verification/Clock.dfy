/** Time for the guest: `co_div64_32` of `common.h`, and the jiffies that `monitor.c` counts with it. */
module Clock {
  import opened Numbers

  const TWO_63 := 0x8000_0000_0000_0000
  const TWO_64 := 0x1_0000_0000_0000_0000

  /** `unsigned long`, of 32 bits, and `unsigned long long` */
  type U32 = x: int | 0 <= x < TWO_32
  type U64 = x: int | 0 <= x < TWO_64

  /** One more binary digit of a quotient. */
  lemma Digit(n: int, base: int, res: int, rem: int, k: nat)
    requires n == res * base + rem && k > 0
    ensures Pow2(k - 1) * 2 == Pow2(k) && base * Pow2(k) == 2 * (base * Pow2(k - 1))
    ensures n == (res + Pow2(k)) * base + (rem - base * Pow2(k))
  {
    assert (res + Pow2(k)) * base == res * base + Pow2(k) * base;
  }

  /** The quotient and the remainder are the only ones. */
  lemma Unique(n: int, base: int, res: int, rem: int)
    requires base > 0 && n == res * base + rem && 0 <= rem < base
    ensures res == n / base && rem == n % base
  {
    var q, r := n / base, n % base;
    assert n == q * base + r;
    assert (res - q) * base == r - rem;
    Multiple(res - q, base, r - rem);
  }

  lemma Multiple(d: int, base: int, x: int)
    requires base > 0 && d * base == x && -base < x < base
    ensures d == 0
  {
    assert d >= 1 ==> d * base >= base;
    assert d <= -1 ==> d * base <= -base;
  }

  /** `co_div64_32` of a dividend and a base that is not 0: the quotient and the remainder, without overflow. */
  method Div64By32(n: U64, base: U32) returns (quotient: U64, remainder: U32)
    requires base > 0
    ensures quotient == n / base && remainder == n % base
  {
    var rem: U64, res: U64 := n, 0;
    var high: U32 := n / TWO_32;
    if high >= base {
      HighDigits(n, base);
      high := high / base;
      res := high * TWO_32;
      rem := n - high * base * TWO_32;
    }
    assert n == res * base + rem && rem < base * TWO_32;
    res, rem := Shifts(n, base, res, rem);
    Unique(n, base, res, rem);
    return res, rem;
  }

  lemma HighDigits(n: U64, base: U32)
    requires 0 < base <= n / TWO_32
    ensures var h := n / TWO_32 / base;
      && 0 <= h < TWO_32 && 0 <= h * base * TWO_32 <= n && n == (h * TWO_32) * base + (n - h * base * TWO_32)
      && n - h * base * TWO_32 < base * TWO_32
  {
    var high: int, low := n / TWO_32, n % TWO_32;
    var h: int, r: int := high / base, high % base;
    assert high == h * base + r;
    HighSplit(n, base, high, low, h, r, h * base);
  }

  lemma HighSplit(n: int, base: int, high: int, low: int, h: int, r: int, p: int)
    requires n == high * TWO_32 + low && 0 <= low < TWO_32 && p == h * base && high == p + r && 0 <= r < base
    requires 0 < base <= high < TWO_32
    ensures 0 <= h < TWO_32 && 0 <= p * TWO_32 <= n && (h * TWO_32) * base == p * TWO_32
    ensures n - p * TWO_32 < base * TWO_32
  {
    assert h >= 0 by {
      assert h <= -1 ==> h * base <= -base;
    }
    assert h >= TWO_32 ==> h * base >= TWO_32 * base;
    assert (h * TWO_32) * base == (h * base) * TWO_32;
  }

  lemma NoShift(base: int)
    ensures Pow2(0) == 1 && base * Pow2(0) == base
  {
  }

  /** Lines 56-68: doubles the base up to the remainder, and halves it again. */
  method Shifts(n: U64, base: U32, res0: U64, rem0: U64) returns (res: U64, rem: U64)
    requires base > 0 && n == res0 * base + rem0 && rem0 < base * TWO_32
    ensures n == res * base + rem && rem < base
  {
    hide Pow2;
    NoShift(base);
    res, rem := res0, rem0;
    var b: U64, d: U64 := base, 1;
    ghost var k: nat := 0;
    while 0 < b < TWO_63 && b < rem
      invariant b > 0 && b == base * Pow2(k) && d == Pow2(k) && k <= 32
      decreases rem - b
    {
      Digit(n, base, res, rem, k + 1);
      Below32(base, k, rem);
      b := b + b;
      d := d + d;
      k := k + 1;
    }
    while d > 0
      invariant d > 0 ==> b == base * Pow2(k) && d == Pow2(k) && rem < 2 * b && k <= 32
      invariant d == 0 ==> rem < base
      invariant n == res * base + rem
      decreases d
    {
      if rem >= b {
        QuotientFits(n, base, res, d, rem, b);
        rem := rem - b;
        res := res + d;
      }
      if k > 0 {
        Digit(n, base, res, rem, k);
        k := k - 1;
      }
      b := b / 2;
      d := d / 2;
    }
  }

  lemma Below32(base: U32, k: nat, rem: U64)
    requires base > 0 && k <= 32 && base * Pow2(k) < rem < base * TWO_32
    ensures k < 32 && 2 * Pow2(k) < TWO_64
  {
    assert Pow2(32) == TWO_32 by { PowersOfTwo(); }
    PowerGrows(k, 32);
  }

  lemma PowersOfTwo()
    ensures Pow2(32) == TWO_32
  {
    assert Pow2(8) == 256;
    assert Pow2(16) == 65536;
    assert Pow2(24) == 0x100_0000;
  }

  lemma {:induction false} PowerGrows(j: nat, k: nat)
    requires j <= k
    ensures Pow2(j) <= Pow2(k)
    decreases k - j
  {
    if j < k {
      PowerGrows(j, k - 1);
    }
  }

  lemma QuotientFits(n: U64, base: U32, res: U64, d: U64, rem: U64, b: U64)
    requires base > 0 && n == res * base + rem && rem >= b == base * d
    ensures res + d < TWO_64 && n == (res + d) * base + (rem - b)
  {
    assert (res + d) * base == res * base + d * base;
    AtLeast(res + d, base);
  }

  lemma AtLeast(x: int, base: int)
    requires base > 0 && x >= 0
    ensures x * base >= x
  {
    assert x * base == x + x * (base - 1);
  }

  // ---- jiffies

  /** Ticks that are due at 100 Hz, with what is left over from before. */
  function Due(reminder: int, ticks: int): int {
    reminder + 100 * ticks
  }

  /** What lines 380-387 make of it: a 64-bit sum, divided by the low 32 bits of the frequency, and cut to 32 bits. */
  function Jiffies(due: nat, freq: U64): nat
    requires freq % TWO_32 != 0
  {
    due % TWO_64 / (freq % TWO_32) % TWO_32
  }

  function Reminder(due: nat, freq: U64): nat
    requires freq % TWO_32 != 0
  {
    due % TWO_64 % (freq % TWO_32)
  }

  /** Nothing is lost. */
  predicate Exact(due: nat, freq: U64)
    requires freq % TWO_32 != 0
  {
    freq * Jiffies(due, freq) + Reminder(due, freq) == due
  }

  /** With a frequency of 32 bits nothing is lost exactly when less than 2^32 jiffies are due at once. */
  lemma ExactIff(due: nat, freq: U64)
    requires 0 < freq < TWO_32
    ensures Exact(due, freq) <==> due / freq < TWO_32
  {
    var q, r := Counted(due, freq);
    hide Jiffies;
    hide Reminder;
    CutTo32(freq, q, r);
    if due >= TWO_64 {
      assert freq * q + r < due;
      TooMany(due, freq);
    }
  }

  /** What is counted, before the cut to 32 bits. */
  lemma Counted(due: nat, freq: U64) returns (q: nat, r: nat)
    requires 0 < freq < TWO_32
    ensures freq * q + r == due % TWO_64 && q == due % TWO_64 / freq
    ensures Jiffies(due, freq) == q % TWO_32 && Reminder(due, freq) == r
  {
    var m := due % TWO_64;
    assert freq % TWO_32 == freq;
    q, r := m / freq, m % freq;
  }

  lemma CutTo32(freq: nat, q: nat, r: nat)
    requires freq > 0
    ensures freq * (q % TWO_32) + r <= freq * q + r
    ensures freq * (q % TWO_32) + r == freq * q + r <==> q < TWO_32
  {
    Grows(freq, q % TWO_32, q);
  }

  lemma Grows(a: nat, x: nat, y: nat)
    requires a > 0 && x <= y
    ensures a * x <= a * y && (x < y ==> a * x < a * y)
  {
    assert a * y == a * x + a * (y - x);
  }

  lemma TooMany(due: nat, freq: nat)
    requires 0 < freq < TWO_32 && due >= TWO_64
    ensures due / freq >= TWO_32
  {
    var q, r := due / freq, due % freq;
    assert due == freq * q + r;
    assert q < TWO_32 ==> freq * q <= freq * (TWO_32 - 1);
  }

  /** With a larger frequency the clock goes wrong: for instance when `freq % 2^32` ticks have gone by. */
  lemma LargeFrequency(freq: U64)
    requires freq >= TWO_32 && freq % TWO_32 != 0
    ensures Due(0, freq % TWO_32) >= 0
    ensures !Exact(Due(0, freq % TWO_32), freq)
  {
    var base: int := freq % TWO_32;
    var due := 100 * base;
    Unique(due, base, 100, 0);
    assert due % TWO_64 == due && due / base == 100 && due % base == 0;
    assert Jiffies(due, freq) == 100 && Reminder(due, freq) == 0;
    hide Jiffies;
    hide Reminder;
    Witness(freq, base, due);
  }

  lemma Witness(freq: int, base: int, due: int)
    requires freq > base && due == 100 * base
    ensures freq * 100 + 0 != due
  {
  }

  class Monitor {
    var timestamp: U64
    var timestampReminder: U64
    const timestampFreq: U64

    constructor (now: U64, freq: U64)
      ensures timestamp == now && timestampReminder == 0 && timestampFreq == freq
    {
      timestamp, timestampReminder, timestampFreq := now, 0, freq;
    }

    /** `callback_return_jiffies` */
    method ReturnJiffies(now: U64) returns (jiffies: U32)
      requires timestampFreq % TWO_32 != 0
      modifies this
      ensures now <= old(timestamp) ==> jiffies == 0 && timestamp == old(timestamp) && timestampReminder == old(timestampReminder)
      ensures now > old(timestamp) ==>
        var due := Due(old(timestampReminder), now - old(timestamp));
        && timestamp == now && jiffies == Jiffies(due, timestampFreq) && timestampReminder == Reminder(due, timestampFreq)
    {
      var diff: U64 := 0;
      if now > timestamp {
        diff := (timestampReminder + 100 * (now - timestamp)) % TWO_64;
        var quotient, remainder := Div64By32(diff, timestampFreq % TWO_32);
        diff := quotient;
        timestampReminder := remainder;
        timestamp := now;
      }
      jiffies := diff % TWO_32;
    }

    /** Timestamp after timestamp, some of them behind the one before. */
    method Run(times: seq<U64>) returns (total: nat)
      requires timestampFreq % TWO_32 != 0
      modifies this
      ensures State(timestamp, timestampReminder, total) == After(old(timestamp), old(timestampReminder), times, timestampFreq)
      ensures timestamp == Latest(old(timestamp), times)
      ensures timestampFreq < TWO_32 ==>
        (timestampFreq * total + timestampReminder == old(timestampReminder) + 100 * (timestamp - old(timestamp))
         <==> SmallSteps(old(timestamp), old(timestampReminder), times, timestampFreq))
    {
      hide Jiffies;
      hide Reminder;
      total := 0;
      for i := 0 to |times|
        invariant Plus(After(timestamp, timestampReminder, times[i..], timestampFreq), total)
               == After(old(timestamp), old(timestampReminder), times, timestampFreq)
        invariant Latest(timestamp, times[i..]) == Latest(old(timestamp), times)
      {
        assert times[i..][0] == times[i] && times[i..][1..] == times[i + 1..];
        var j := ReturnJiffies(times[i]);
        total := total + j;
      }
      if timestampFreq < TWO_32 {
        DriftFree(old(timestamp), old(timestampReminder), times, timestampFreq);
      }
    }
  }

  /** What a run leaves behind, and the jiffies that it returned. */
  datatype State = State(timestamp: U64, reminder: U64, total: nat)

  function Plus(s: State, jiffies: nat): State {
    s.(total := s.total + jiffies)
  }

  function After(timestamp: U64, reminder: U64, times: seq<U64>, freq: U64): State
    requires freq % TWO_32 != 0
    decreases |times|
  {
    if times == [] then State(timestamp, reminder, 0)
    else if times[0] <= timestamp then After(timestamp, reminder, times[1..], freq)
    else
      var due := Due(reminder, times[0] - timestamp);
      Plus(After(times[0], Reminder(due, freq), times[1..], freq), Jiffies(due, freq))
  }

  function Latest(start: U64, times: seq<U64>): U64
    decreases |times|
  {
    if times == [] then start else Latest(if times[0] > start then times[0] else start, times[1..])
  }

  lemma {:induction false} LatestIsLater(start: U64, times: seq<U64>)
    ensures Latest(start, times) >= start
    decreases |times|
  {
    if times != [] {
      LatestIsLater(if times[0] > start then times[0] else start, times[1..]);
    }
  }

  /** At every single step less than 2^32 jiffies are due, however many the whole run returns. */
  predicate SmallSteps(timestamp: U64, reminder: U64, times: seq<U64>, freq: U64)
    requires 0 < freq < TWO_32
    decreases |times|
  {
    times == []
    || if times[0] <= timestamp then SmallSteps(timestamp, reminder, times[1..], freq)
       else
         var due := Due(reminder, times[0] - timestamp);
         due / freq < TWO_32 && SmallSteps(times[0], Reminder(due, freq), times[1..], freq)
  }

  /**
   * However long a run is, the jiffies that it returns and the reminder that it leaves never account for more time than has
   * passed, and they account for all of it if and only if every single step is small.
   */
  lemma {:induction false} DriftFree(timestamp: U64, reminder: U64, times: seq<U64>, freq: U64)
    requires 0 < freq < TWO_32
    ensures var s, due := After(timestamp, reminder, times, freq), reminder + 100 * (Latest(timestamp, times) - timestamp);
      && freq * s.total + s.reminder <= due
      && (freq * s.total + s.reminder == due <==> SmallSteps(timestamp, reminder, times, freq))
    decreases |times|
  {
    if times == [] {
    } else if times[0] <= timestamp {
      DriftFree(timestamp, reminder, times[1..], freq);
    } else {
      var due := Due(reminder, times[0] - timestamp);
      var rest := After(times[0], Reminder(due, freq), times[1..], freq);
      LatestIsLater(times[0], times[1..]);
      DriftFree(times[0], Reminder(due, freq), times[1..], freq);
      ExactIff(due, freq);
      NeverMore(due, freq);
      Distribute(freq, rest.total, Jiffies(due, freq));
    }
  }

  /** No interval is counted as more than it is. */
  lemma NeverMore(due: nat, freq: U64)
    requires 0 < freq < TWO_32
    ensures freq * Jiffies(due, freq) + Reminder(due, freq) <= due
  {
    var q, r := Counted(due, freq);
    hide Jiffies;
    hide Reminder;
    CutTo32(freq, q, r);
  }

  lemma Distribute(a: int, b: int, c: int)
    ensures a * (b + c) == a * b + a * c
  {
  }

  lemma ReminderSmall(due: nat, freq: U64)
    requires 0 < freq < TWO_32
    ensures Reminder(due, freq) < freq
  {
  }

  function Ahead(timestamp: U64, times: seq<U64>, i: nat): int
    requires i < |times|
  {
    times[i] - if i == 0 then timestamp else times[i - 1]
  }

  /** Every timestamp is less than 2^32 - 1 jiffies ahead of the one before it. */
  predicate Frequent(timestamp: U64, times: seq<U64>, freq: U64) {
    forall i | 0 <= i < |times| :: 100 * Ahead(timestamp, times, i) < (TWO_32 - 1) * freq
  }

  /** So no time is lost in runs of any length as long as the guest asks often enough. */
  lemma {:induction false} FrequentIsSmall(timestamp: U64, reminder: U64, times: seq<U64>, freq: U64)
    requires reminder < freq < TWO_32 && Frequent(timestamp, times, freq)
    ensures SmallSteps(timestamp, reminder, times, freq)
    decreases |times|
  {
    if times != [] {
      var next := if times[0] > timestamp then times[0] else timestamp;
      forall i | 0 <= i < |times[1..]|
        ensures 100 * Ahead(next, times[1..], i) < (TWO_32 - 1) * freq
      {
        assert Ahead(next, times[1..], i) <= Ahead(timestamp, times, i + 1);
      }
      assert Frequent(next, times[1..], freq);
      if times[0] > timestamp {
        var due := Due(reminder, times[0] - timestamp);
        assert 100 * Ahead(timestamp, times, 0) < (TWO_32 - 1) * freq;
        assert due < TWO_32 * freq;
        QuotientBelow(due, freq);
        ReminderSmall(due, freq);
        FrequentIsSmall(next, Reminder(due, freq), times[1..], freq);
      } else {
        FrequentIsSmall(next, reminder, times[1..], freq);
      }
    }
  }

  lemma QuotientBelow(due: nat, freq: nat)
    requires freq > 0 && due < TWO_32 * freq
    ensures due / freq < TWO_32
  {
    Larger(due / freq, TWO_32, freq);
  }

  lemma Larger(q: int, p: int, freq: int)
    requires freq > 0 && q * freq < p * freq
    ensures q < p
  {
    assert q >= p ==> (q - p) * freq >= 0;
  }
}
