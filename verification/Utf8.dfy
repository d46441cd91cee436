/** UTF-8 to and from 16-bit units: `unicode.c`. */
module Utf8 {
  import opened Mbufs
  import opened Numbers
  import opened Options

  /** `co_wchar_t` */
  type Unit = u: int | 0 <= u < 0x1_0000

  /** What a 16-bit unit is in UTF-8 (RFC 3629, section 3); surrogates are encoded like any other unit. */
  function Encode(u: Unit): (b: seq<Byte>)
    ensures 1 <= |b| <= 3
  {
    if u < 0x80 then [u]
    else if u < 0x800 then [0xC0 + u / 64, 0x80 + u % 64]
    else [0xE0 + u / 4096, 0x80 + u / 64 % 64, 0x80 + u % 64]
  }

  function EncodeAll(us: seq<Unit>): seq<Byte> {
    if us == [] then [] else Encode(us[0]) + EncodeAll(us[1..])
  }

  /** `struct utf8_table`. All masks keep the high bits of a byte, or the low bits of a number. */
  datatype Row = Row(cmask: int, cval: int, shift: nat, lmask: int, lval: int)

  const TABLE: seq<Row> := [
    Row(0x80, 0x00, 0, 0x7F, 0), Row(0xE0, 0xC0, 6, 0x7FF, 0x80), Row(0xF0, 0xE0, 12, 0xFFFF, 0x800),
    Row(0xF8, 0xF0, 18, 0x1FFFFF, 0x10000), Row(0xFC, 0xF8, 24, 0x3FFFFFF, 0x200000),
    Row(0xFE, 0xFC, 30, 0x7FFFFFFF, 0x4000000)]

  /** `c & cmask` */
  function HighBits(c: Byte, cmask: int): int
    requires 0 < cmask < 0x100
  {
    c - c % (0x100 - cmask)
  }

  lemma Shifts()
    ensures Pow2(0) == 1 && Pow2(6) == 64 && Pow2(12) == 4096
  {
    assert Pow2(9) == 512;
  }

  /** `utf8_wctomb`: as many bytes as the unit needs, if they are not more than `maxlen`. */
  method WcToMb(wc: Unit, maxlen: int) returns (s: Option<seq<Byte>>)
    requires maxlen >= 0
    ensures s == if |Encode(wc)| <= maxlen then Some(Encode(wc)) else None
  {
    var t, left := 0, maxlen;
    while t < |TABLE| && left > 0
      invariant 0 <= t < |Encode(wc)| && left == maxlen - t >= 0
    {
      if wc <= TABLE[t].lmask {
        var bytes := Fill(wc, t);
        return Some(bytes);
      }
      t, left := t + 1, left - 1;
    }
    return None;
  }

  lemma FirstByte(wc: Unit, t: nat)
    requires t == |Encode(wc)| - 1
    ensures TABLE[t].shift == 6 * t <= 12 && TABLE[t].cval + wc / Pow2(TABLE[t].shift) == Encode(wc)[0]
  {
    Shifts();
  }

  lemma ByteAt(wc: Unit, t: nat, k: nat)
    requires t == |Encode(wc)| - 1 && 0 < k <= t
    ensures Encode(wc)[k] == 0x80 + wc / Pow2(6 * (t - k)) % 64
  {
    Shifts();
  }

  /** Lines 90-96: the first byte, and six bits for each of the others. */
  method Fill(wc: Unit, t: nat) returns (bytes: seq<Byte>)
    requires t == |Encode(wc)| - 1
    ensures bytes == Encode(wc)
  {
    FirstByte(wc, t);
    hide Encode;
    hide Pow2;
    var c := TABLE[t].shift;
    bytes := [TABLE[t].cval + wc / Pow2(c)];
    while c > 0
      invariant 0 <= c <= 12 && c == 6 * (t + 1 - |bytes|) && 1 <= |bytes| <= t + 1
      invariant bytes == Encode(wc)[..|bytes|]
      decreases c
    {
      c := c - 6;
      ByteAt(wc, t, |bytes|);
      bytes := bytes + [0x80 + wc / Pow2(c) % 64];
    }
  }

  // ---- decoding

  /** The byte at `i` of a string that ends with a 0. */
  function At(s: seq<Byte>, i: nat): Byte {
    if i < |s| then s[i] else 0
  }

  /** The length of a sequence that begins with `c`; 0 if none does. */
  function Lead(c: Byte): nat {
    if c < 0x80 then 1 else if c < 0xC0 then 0 else if c < 0xE0 then 2 else if c < 0xF0 then 3
    else if c < 0xF8 then 4 else if c < 0xFC then 5 else if c < 0xFE then 6 else 0
  }

  /** The bits of `k` bytes from `i` on, six of each continuation byte; None if one of them is no such byte. */
  function Bits(s: seq<Byte>, i: nat, k: nat): Option<nat>
    requires k > 0
  {
    if k == 1 then Some(At(s, i))
    else
      var c := At(s, i + k - 1);
      match Bits(s, i, k - 1)
      case None => None
      case Some(l) => if 0x80 <= c < 0xC0 then Some(l * 64 + (c - 0x80)) else None
  }

  /** `utf8_mbtowc` of at most `n` bytes: the unit and its length, if they are a sequence and not a longer one than need be. */
  function Decode(s: seq<Byte>, i: nat, n: int): Option<(Unit, nat)> {
    var k := Lead(At(s, i));
    if k == 0 || (k > 1 && n < k) then None
    else
      match Bits(s, i, k)
      case None => None
      case Some(l) =>
        var v := l % (TABLE[k - 1].lmask + 1);
        if v < TABLE[k - 1].lval then None else Some((v % 0x1_0000, k))
  }

  /** A row of the table fits the first byte of the sequences of its length. */
  lemma LeadMasks(c: Byte, t: nat)
    requires t < 6
    ensures HighBits(c, TABLE[t].cmask) == TABLE[t].cval <==> Lead(c) == t + 1
  {
  }

  lemma LeadSmall(c: Byte)
    ensures Lead(c) <= 6
  {
  }

  /** `utf8_mbtowc` */
  method MbToWc(s: seq<Byte>, i: nat, n: int) returns (r: Option<(Unit, nat)>)
    ensures r == Decode(s, i, n)
  {
    hide HighBits;
    hide Lead;
    LeadSmall(At(s, i));
    var c0 := At(s, i);
    var l: nat, nc: nat := c0, 0;
    while nc < |TABLE|
      invariant nc <= |TABLE| && nc < |TABLE| ==> Bits(s, i, nc + 1) == Some(l)
      invariant Lead(c0) == 0 || Lead(c0) > nc
      invariant nc > 0 ==> nc < n
    {
      var t := TABLE[nc];
      LeadMasks(c0, nc);
      nc := nc + 1;
      if HighBits(c0, t.cmask) == t.cval {
        l := l % (t.lmask + 1);
        if l < t.lval {
          return None;
        }
        return Some((l % 0x1_0000, nc));
      }
      if n <= nc {
        return None;
      }
      var c := At(s, i + nc);
      if !(0x80 <= c < 0xC0) {
        NoBits(s, i, nc + 1, Lead(c0));
        return None;
      }
      l := l * 64 + (c - 0x80);
    }
    return None;
  }

  /** A byte that is no continuation spoils every longer sequence. */
  lemma {:induction false} NoBits(s: seq<Byte>, i: nat, j: nat, k: nat)
    requires j > 0 && Bits(s, i, j) == None
    ensures k >= j ==> Bits(s, i, k) == None
  {
    if k > j {
      NoBits(s, i, j, k - 1);
    }
  }

  // ---- strings

  const QUESTION: Unit := 0x3F

  /** The unit that begins at `i`, and how many bytes it takes. */
  function Next(s: seq<Byte>, i: nat, n: int): (Unit, nat) {
    if At(s, i) < 0x80 then (At(s, i), 1)
    else match Decode(s, i, n) case None => (QUESTION, 1) case Some(r) => r
  }

  /** `co_utf8_mbstowcs`: `maxlen` counts units, and bounds the bytes of the next one. */
  function Chars(s: seq<Byte>, i: nat, maxlen: int): seq<Unit>
    decreases maxlen
  {
    if maxlen <= 0 || At(s, i) == 0 then []
    else var (u, k) := Next(s, i, maxlen); [u] + Chars(s, i + k, maxlen - 1)
  }

  /** `co_utf8_mbstrlen`: here `maxlen` counts bytes. */
  function CharCount(s: seq<Byte>, i: nat, maxlen: int): nat
    decreases maxlen
  {
    if maxlen <= 0 || At(s, i) == 0 then 0
    else var (u, k) := Next(s, i, maxlen); 1 + if k > 0 then CharCount(s, i + k, maxlen - k) else 0
  }

  lemma NextLength(s: seq<Byte>, i: nat, n: int)
    ensures 1 <= Next(s, i, n).1 <= 6
  {
  }

  /** The unit at `i` of a string that ends with a 0. */
  function UnitAt(s: seq<Unit>, i: nat): Unit {
    if i < |s| then s[i] else 0
  }

  /** `co_utf8_wcstombs`: what does not fit in `room` becomes a question mark. */
  function Bytes(s: seq<Unit>, i: nat, room: int): seq<Byte>
    decreases room
  {
    if room <= 0 || UnitAt(s, i) == 0 then []
    else
      var b := if |Encode(s[i])| <= room then Encode(s[i]) else [QUESTION];
      b + Bytes(s, i + 1, room - |b|)
  }

  /** `co_utf8_wctowbstrlen` */
  function ByteCount(s: seq<Unit>, i: nat, maxlen: int): nat
    decreases maxlen
  {
    if maxlen <= 0 || UnitAt(s, i) == 0 then 0 else |Encode(s[i])| + ByteCount(s, i + 1, maxlen - 1)
  }

  lemma CharsStep(s: seq<Byte>, i: nat, maxlen: int)
    ensures Chars(s, i, maxlen) ==
      if maxlen <= 0 || At(s, i) == 0 then []
      else [Next(s, i, maxlen).0] + Chars(s, i + Next(s, i, maxlen).1, maxlen - 1)
  {
  }

  lemma CharCountStep(s: seq<Byte>, i: nat, maxlen: int)
    ensures CharCount(s, i, maxlen) ==
      if maxlen <= 0 || At(s, i) == 0 then 0 else 1 + CharCount(s, i + Next(s, i, maxlen).1, maxlen - Next(s, i, maxlen).1)
  {
    NextLength(s, i, maxlen);
  }

  lemma NextIs(s: seq<Byte>, i: nat, n: int, r: Option<(Unit, nat)>)
    requires At(s, i) >= 0x80 ==> r == Decode(s, i, n)
    ensures Next(s, i, n) == if At(s, i) < 0x80 then (At(s, i), 1) else if r.None? then (QUESTION, 1) else r.value
  {
  }

  lemma BytesStep(s: seq<Unit>, i: nat, room: int)
    ensures room <= 0 || UnitAt(s, i) == 0 ==> Bytes(s, i, room) == []
    ensures room > 0 && UnitAt(s, i) != 0 ==>
      var b := if |Encode(s[i])| <= room then Encode(s[i]) else [QUESTION];
      Bytes(s, i, room) == b + Bytes(s, i + 1, room - |b|)
  {
  }

  lemma Assoc<T>(a: seq<T>, b: seq<T>, c: seq<T>)
    ensures a + (b + c) == (a + b) + c
  {
  }

  method MbsToWcs(src: seq<Byte>, maxlen: int) returns (dest: seq<Unit>, ok: bool)
    ensures dest == Chars(src, 0, maxlen) && ok == (maxlen >= 0)
  {
    hide Decode;
    hide Next;
    hide Chars;
    CharsStep(src, 0, maxlen);
    var ip: nat, left := 0, maxlen;
    dest := [];
    while left > 0 && At(src, ip) != 0
      invariant Chars(src, 0, maxlen) == dest + Chars(src, ip, left) && (left < 0 <==> maxlen < 0)
    {
      var u: Unit, size: nat := At(src, ip), 1;
      var r: Option<(Unit, nat)> := None;
      if At(src, ip) >= 0x80 {
        r := MbToWc(src, ip, left);
        u, size := if r.None? then QUESTION else r.value.0, if r.None? then 1 else r.value.1;
      }
      NextIs(src, ip, left, r);
      CharsStep(src, ip, left);
      Assoc(dest, [u], Chars(src, ip + size, left - 1));
      dest, ip, left := dest + [u], ip + size, left - 1;
    }
    CharsStep(src, ip, left);
    ok := left >= 0;
  }

  /** `strlen` */
  function Length(s: seq<Byte>): (n: nat)
    ensures n <= |s| && At(s, n) == 0 && forall i | 0 <= i < n :: s[i] != 0
  {
    if s == [] || s[0] == 0 then 0 else 1 + Length(s[1..])
  }

  lemma WholeLength(s: seq<Byte>)
    requires forall i | 0 <= i < |s| :: s[i] != 0
    ensures Length(s) == |s|
  {
  }

  method MbStrLen(src: seq<Byte>) returns (length: nat)
    ensures length == CharCount(src, 0, Length(src))
  {
    hide Decode;
    hide Next;
    hide CharCount;
    hide Length;
    CharCountStep(src, 0, Length(src));
    var ip: nat, left: int := 0, Length(src);
    length := 0;
    while left > 0 && At(src, ip) != 0
      invariant length + CharCount(src, ip, left) == CharCount(src, 0, Length(src))
      decreases left
    {
      length := length + 1;
      var size: nat := 1;
      var r: Option<(Unit, nat)> := None;
      if At(src, ip) >= 0x80 {
        r := MbToWc(src, ip, left);
        size := if r.None? then 1 else r.value.1;
      }
      NextIs(src, ip, left, r);
      CharCountStep(src, ip, left);
      NextLength(src, ip, left);
      ip, left := ip + size, left - size;
    }
    CharCountStep(src, ip, left);
  }

  lemma OneByte(u: Unit)
    ensures u <= 0x7F ==> Encode(u) == [u]
  {
  }

  method WcsToMbs(src: seq<Unit>, maxlen: int) returns (dest: seq<Byte>, ok: bool)
    ensures dest == Bytes(src, 0, maxlen - 1) && ok == (maxlen >= 1)
    ensures maxlen >= 1 ==> |dest| + 1 <= maxlen
  {
    hide Encode;
    hide Bytes;
    var ip, left := 0, maxlen - 1;
    dest := [];
    while left > 0 && UnitAt(src, ip) != 0
      invariant Bytes(src, 0, maxlen - 1) == dest + Bytes(src, ip, left) && (left < 0 <==> maxlen < 1)
      invariant maxlen >= 1 ==> |dest| + left == maxlen - 1
      decreases left
    {
      var b: seq<Byte>;
      if src[ip] > 0x7F {
        var s := WcToMb(src[ip], left);
        b := if s.None? then [QUESTION] else s.value;
      } else {
        b := [src[ip]];
        OneByte(src[ip]);
      }
      BytesStep(src, ip, left);
      Assoc(dest, b, Bytes(src, ip + 1, left - |b|));
      dest, left, ip := dest + b, left - |b|, ip + 1;
    }
    BytesStep(src, ip, left);
    ok := left >= 0;
  }

  method WcToWbStrLen(src: seq<Unit>, maxlen: int) returns (length: nat)
    ensures length == ByteCount(src, 0, maxlen)
  {
    var ip, left := 0, maxlen;
    length := 0;
    while left > 0 && UnitAt(src, ip) != 0
      invariant length + ByteCount(src, ip, left) == ByteCount(src, 0, maxlen)
    {
      if src[ip] > 0x7F {
        var s := WcToMb(src[ip], 8);
        length := length + if s.None? then 1 else |s.value|;
      } else {
        length := length + 1;
      }
      ip, left := ip + 1, left - 1;
    }
  }

  // ---- the round trip

  predicate NonZero(us: seq<Unit>) {
    forall i | 0 <= i < |us| :: us[i] != 0
  }

  lemma TwoBytes(u: Unit)
    requires 0x80 <= u < 0x800
    ensures ((0xC0 + u / 64) * 64 + u % 64) % 0x800 == u
  {
  }

  lemma ThreeBytes(u: Unit)
    requires 0x800 <= u
    ensures (((0xE0 + u / 4096) * 64 + u / 64 % 64) * 64 + u % 64) % 0x1_0000 == u
  {
    var a, b := u / 4096, u / 64 % 64;
    assert u / 64 == a * 64 + b by {
      assert u / 64 / 64 == a;
    }
    assert ((0xE0 + a) * 64 + b) * 64 + u % 64 == 14 * 0x1_0000 + u;
  }

  lemma BytesAt(s: seq<Byte>, i: nat, b: seq<Byte>)
    requires i + |b| <= |s| && s[i..i + |b|] == b
    ensures forall j | 0 <= j < |b| :: At(s, i + j) == b[j]
  {
    forall j | 0 <= j < |b|
      ensures At(s, i + j) == b[j]
    {
      assert s[i..i + |b|][j] == s[i + j];
    }
  }

  lemma BitsOf(s: seq<Byte>, i: nat, u: Unit)
    requires i + |Encode(u)| <= |s| && s[i..i + |Encode(u)|] == Encode(u)
    ensures forall j | 0 <= j < |Encode(u)| :: At(s, i + j) == Encode(u)[j]
    ensures 0x80 <= u < 0x800 ==> Bits(s, i, 2) == Some((0xC0 + u / 64) * 64 + u % 64)
    ensures 0x800 <= u ==> Bits(s, i, 3) == Some(((0xE0 + u / 4096) * 64 + u / 64 % 64) * 64 + u % 64)
  {
    BytesAt(s, i, Encode(u));
    if u >= 0x80 {
      assert Bits(s, i, 1) == Some(At(s, i + 0) as nat);
    }
    if u >= 0x800 {
      assert Bits(s, i, 2) == Some((0xE0 + u / 4096) * 64 + u / 64 % 64);
    }
  }

  lemma DecodeTwo(s: seq<Byte>, i: nat, n: int, u: Unit)
    requires 0x80 <= u < 0x800 && At(s, i) == 0xC0 + u / 64 && Bits(s, i, 2) == Some((0xC0 + u / 64) * 64 + u % 64)
    ensures Decode(s, i, n) == if n < 2 then None else Some((u, 2))
  {
    TwoBytes(u);
    hide Bits;
    assert Lead(At(s, i)) == 2;
    hide Lead;
    hide At;
  }

  lemma DecodeThree(s: seq<Byte>, i: nat, n: int, u: Unit)
    requires 0x800 <= u && At(s, i) == 0xE0 + u / 4096
    requires Bits(s, i, 3) == Some(((0xE0 + u / 4096) * 64 + u / 64 % 64) * 64 + u % 64)
    ensures Decode(s, i, n) == if n < 3 then None else Some((u, 3))
  {
    ThreeBytes(u);
    hide Bits;
    assert Lead(At(s, i)) == 3;
    hide Lead;
    hide At;
  }

  /** Decoding a unit where it has been encoded gives it back, and its length, if the bound is not too small. */
  lemma DecodeEncode(s: seq<Byte>, i: nat, n: int, u: Unit)
    requires u != 0 && i + |Encode(u)| <= |s| && s[i..i + |Encode(u)|] == Encode(u) && n >= 1
    ensures At(s, i) != 0
    ensures n >= |Encode(u)| ==> Next(s, i, n) == (u, |Encode(u)|)
    ensures n < |Encode(u)| ==> Next(s, i, n) == (QUESTION, 1)
  {
    BitsOf(s, i, u);
    hide Bits;
    hide Decode;
    assert At(s, i + 0) == Encode(u)[0];
    if 0x80 <= u < 0x800 {
      DecodeTwo(s, i, n, u);
    } else if 0x800 <= u {
      DecodeThree(s, i, n, u);
    }
  }

  /** The number that two bytes spell, and three. */
  function Two(a: int, b: int): int { (a - 0xC0) * 64 + (b - 0x80) }

  function Three(a: int, b: int, c: int): int { ((a - 0xE0) * 64 + (b - 0x80)) * 64 + (c - 0x80) }

  /** Encodings have the form of section 3 of RFC 3629: what the first byte says of the length, and six bits in each other. */
  lemma EncodingIs(u: Unit)
    ensures var b := Encode(u);
      && (|b| == 1 <==> u < 0x80) && (|b| == 3 <==> u >= 0x800)
      && (|b| == 1 ==> b[0] == u)
      && (|b| == 2 ==> 0xC0 <= b[0] < 0xE0 && 0x80 <= b[1] < 0xC0 && u == Two(b[0], b[1]))
      && (|b| == 3 ==> 0xE0 <= b[0] < 0xF0 && 0x80 <= b[1] < 0xC0 && 0x80 <= b[2] < 0xC0
                       && u == Three(b[0], b[1], b[2]))
  {
    assert u / 4096 == u / 64 / 64;
  }

  lemma DecodedTwo(s: seq<Byte>, i: nat, n: int)
    requires Lead(At(s, i)) == 2
    ensures var r := Decode(s, i, n);
      && (r.Some? <==> n >= 2 && 0x80 <= At(s, i + 1) < 0xC0 && At(s, i) >= 0xC2)
      && (r.Some? ==> r.value.0 as int == Two(At(s, i), At(s, i + 1)) && r.value.1 == 2)
  {
    assert Bits(s, i, 1) == Some(At(s, i) as nat);
    var l := At(s, i) * 64 + (At(s, i + 1) - 0x80);
    if 0x80 <= At(s, i + 1) < 0xC0 {
      assert l % 0x800 == l - 0xC0 * 64;
    }
  }

  lemma DecodedThree(s: seq<Byte>, i: nat, n: int)
    requires Lead(At(s, i)) == 3
    ensures var r, v := Decode(s, i, n), Three(At(s, i), At(s, i + 1), At(s, i + 2));
      && (r.Some? <==> n >= 3 && 0x80 <= At(s, i + 1) < 0xC0 && 0x80 <= At(s, i + 2) < 0xC0 && v >= 0x800)
      && (r.Some? ==> r.value.0 as int == v && r.value.1 == 3)
  {
    var a: int, b: int, c: int := At(s, i), At(s, i + 1), At(s, i + 2);
    assert Bits(s, i, 1) == Some(At(s, i) as nat);
    if 0x80 <= b < 0xC0 {
      assert Bits(s, i, 2) == Some(a * 64 + (b - 0x80));
      if 0x80 <= c < 0xC0 {
        var l := (a * 64 + (b - 0x80)) * 64 + (c - 0x80);
        assert Bits(s, i, 3) == Some(l);
        assert l == 14 * 0x1_0000 + Three(a, b, c);
        assert l % 0x1_0000 == Three(a, b, c);
      } else {
        assert Bits(s, i, 3) == None;
      }
    } else {
      assert Bits(s, i, 2) == None;
      assert Bits(s, i, 3) == None;
    }
  }

  /** One, two or three bytes are decoded exactly when they are the encoding of a unit: nothing longer than need be is. */
  lemma DecodedIsEncoded(s: seq<Byte>, i: nat, n: int, u: Unit, k: nat)
    requires 1 <= k <= 3 && i + k <= |s| && n >= k
    ensures Decode(s, i, n) == Some((u, k)) <==> s[i..i + k] == Encode(u)
  {
    if s[i..i + k] == Encode(u) {
      DecodeEncodeAny(s, i, n, u);
      assert |s[i..i + k]| == k;
    } else if Decode(s, i, n) == Some((u, k)) {
      OnlyEncoded(s, i, n, u, k);
    }
  }

  lemma OnlyEncoded(s: seq<Byte>, i: nat, n: int, u: Unit, k: nat)
    requires 1 <= k <= 3 && i + k <= |s| && n >= k && Decode(s, i, n) == Some((u, k))
    ensures s[i..i + k] == Encode(u)
  {
    var c := At(s, i);
    LeadSmall(c);
    LeadOf(s, i, n);
    LeadIs(c);
    if k == 1 {
      DecodeOne(s, i, n);
    } else if k == 2 {
      DecodedTwo(s, i, n);
    } else {
      DecodedThree(s, i, n);
    }
    hide Decode;
    hide Bits;
    hide Lead;
    hide Encode;
    EncodedBack(s, i, u, k);
  }

  lemma LeadOf(s: seq<Byte>, i: nat, n: int)
    ensures Decode(s, i, n).Some? ==> Decode(s, i, n).value.1 == Lead(At(s, i)) > 0
  {
    hide Bits;
    hide Lead;
  }

  lemma LeadIs(c: Byte)
    ensures (Lead(c) == 1 <==> c < 0x80) && (Lead(c) == 2 <==> 0xC0 <= c < 0xE0) && (Lead(c) == 3 <==> 0xE0 <= c < 0xF0)
  {
  }

  lemma DecodeEncodeAny(s: seq<Byte>, i: nat, n: int, u: Unit)
    requires i + |Encode(u)| <= |s| && s[i..i + |Encode(u)|] == Encode(u) && n >= |Encode(u)|
    ensures Decode(s, i, n) == Some((u, |Encode(u)|))
  {
    BitsOf(s, i, u);
    hide Bits;
    assert At(s, i + 0) == Encode(u)[0];
    if 0x80 <= u < 0x800 {
      DecodeTwo(s, i, n, u);
    } else if 0x800 <= u {
      DecodeThree(s, i, n, u);
    } else {
      DecodeOne(s, i, n);
    }
  }

  lemma DecodeOne(s: seq<Byte>, i: nat, n: int)
    requires At(s, i) < 0x80
    ensures Decode(s, i, n) == Some((At(s, i), 1))
  {
    assert Bits(s, i, 1) == Some(At(s, i) as nat);
  }

  lemma EncodedBack(s: seq<Byte>, i: nat, u: Unit, k: nat)
    requires 1 <= k <= 3 && i + k <= |s|
    requires k == 1 ==> s[i] == u < 0x80
    requires k == 2 ==> 0xC2 <= s[i] < 0xE0 && 0x80 <= s[i + 1] < 0xC0 && u == Two(s[i], s[i + 1])
    requires k == 3 ==> 0xE0 <= s[i] < 0xF0 && 0x80 <= s[i + 1] < 0xC0 && 0x80 <= s[i + 2] < 0xC0 && u >= 0x800
                        && u == Three(s[i], s[i + 1], s[i + 2])
    ensures s[i..i + k] == Encode(u)
  {
    if k == 2 {
      Digits(u, s[i] - 0xC0, s[i + 1] - 0x80);
      assert Encode(u) == [s[i], s[i + 1]];
    } else if k == 3 {
      var high: int := (s[i] as int - 0xE0) * 64 + (s[i + 1] as int - 0x80);
      Digits(u, high, s[i + 2] - 0x80);
      Digits(high, s[i] - 0xE0, s[i + 1] - 0x80);
      assert u / 4096 == u / 64 / 64;
      assert Encode(u) == [s[i], s[i + 1], s[i + 2]];
    }
  }

  lemma Digits(u: int, a: int, b: int)
    requires u == a * 64 + b && 0 <= b < 64
    ensures u / 64 == a && u % 64 == b
  {
  }

  lemma {:induction false} SkipUnit(us: seq<Unit>, s: seq<Byte>, i: nat)
    requires us != [] && i <= |s| && s[i..] == EncodeAll(us)
    ensures var k := |Encode(us[0])|;
      i + k <= |s| && s[i..i + k] == Encode(us[0]) && s[i + k..] == EncodeAll(us[1..])
  {
    var k := |Encode(us[0])|;
    assert s[i..i + k] == s[i..][..k] && s[i + k..] == s[i..][k..];
  }

  lemma EncodeAllStep(us: seq<Unit>)
    ensures |EncodeAll(us)| == if us == [] then 0 else |Encode(us[0])| + |EncodeAll(us[1..])|
  {
  }

  lemma HeadNonZero(us: seq<Unit>)
    requires us != [] && NonZero(us)
    ensures us[0] != 0 && NonZero(us[1..])
  {
  }

  lemma NothingEncoded(s: seq<Byte>, i: nat)
    requires i <= |s| && s[i..] == EncodeAll([])
    ensures At(s, i) == 0
  {
  }

  lemma SameHead(us: seq<Unit>, rest: seq<Unit>)
    requires us != []
    ensures [us[0]] + rest == us <==> rest == us[1..]
  {
    assert us == [us[0]] + us[1..];
    assert ([us[0]] + rest)[1..] == rest;
  }

  /** Where a unit is encoded, and the bound covers it, the decoder finds it first. */
  lemma CharsHead(us: seq<Unit>, s: seq<Byte>, i: nat, maxlen: int)
    requires us != [] && NonZero(us) && i <= |s| && s[i..] == EncodeAll(us) && maxlen >= |Encode(us[0])|
    ensures Chars(s, i, maxlen) == [us[0]] + Chars(s, i + |Encode(us[0])|, maxlen - 1)
  {
    hide *;
    SkipUnit(us, s, i);
    HeadNonZero(us);
    DecodeEncode(s, i, maxlen, us[0]);
    CharsStep(s, i, maxlen);
  }

  /** `co_utf8_mbstowcs` gives a sequence of units back when `maxlen` is at least the number of its bytes. */
  lemma {:induction false} CharsAre(us: seq<Unit>, s: seq<Byte>, i: nat, maxlen: int)
    requires NonZero(us) && i <= |s| && s[i..] == EncodeAll(us) && maxlen >= |EncodeAll(us)|
    ensures Chars(s, i, maxlen) == us
    decreases |us|
  {
    hide *;
    CharsStep(s, i, maxlen);
    EncodeAllStep(us);
    if us == [] {
      NothingEncoded(s, i);
    } else {
      SkipUnit(us, s, i);
      HeadNonZero(us);
      CharsHead(us, s, i, maxlen);
      CharsAre(us[1..], s, i + |Encode(us[0])|, maxlen - 1);
      SameHead(us, Chars(s, i + |Encode(us[0])|, maxlen - 1));
    }
  }

  /** `co_utf8_mbstrlen` recovers the number of units. */
  lemma {:induction false} CharCountIs(us: seq<Unit>, s: seq<Byte>, i: nat)
    requires NonZero(us) && i <= |s| && s[i..] == EncodeAll(us)
    ensures CharCount(s, i, |s| - i) == |us|
    decreases |us|
  {
    hide *;
    CharCountStep(s, i, |s| - i);
    EncodeAllStep(us);
    assert |s[i..]| == |s| - i;
    if us != [] {
      SkipUnit(us, s, i);
      HeadNonZero(us);
      DecodeEncode(s, i, |s| - i, us[0]);
      CharCountIs(us[1..], s, i + |Encode(us[0])|);
    }
  }

  /** `co_utf8_wcstombs` writes the encoding, when there is room for it. */
  lemma {:induction false} BytesAre(us: seq<Unit>, i: nat, room: int)
    requires NonZero(us) && i <= |us| && room >= |EncodeAll(us[i..])|
    ensures Bytes(us, i, room) == EncodeAll(us[i..])
    decreases |us| - i
  {
    if i < |us| {
      assert us[i..][0] == us[i] && us[i..][1..] == us[i + 1..];
      BytesAre(us, i + 1, room - |Encode(us[i])|);
    }
  }

  /** `co_utf8_wctowbstrlen` counts the bytes of the encoding, when its count covers the sequence. */
  lemma {:induction false} ByteCountIs(us: seq<Unit>, i: nat, maxlen: int)
    requires NonZero(us) && i <= |us| && maxlen >= |us| - i
    ensures ByteCount(us, i, maxlen) == |EncodeAll(us[i..])|
    decreases |us| - i
  {
    if i < |us| {
      assert us[i..][0] == us[i] && us[i..][1..] == us[i + 1..];
      ByteCountIs(us, i + 1, maxlen - 1);
    }
  }

  lemma {:induction false} EncodedNonZero(us: seq<Unit>)
    requires NonZero(us)
    ensures forall j | 0 <= j < |EncodeAll(us)| :: EncodeAll(us)[j] != 0
  {
    if us != [] {
      EncodedNonZero(us[1..]);
    }
  }

  /** Encoded with the room that is counted for it, counted again, and decoded: the same units. */
  method RoundTrip(us: seq<Unit>, covering: nat) returns (bytes: seq<Byte>, units: nat, back: seq<Unit>)
    requires NonZero(us) && covering >= |us|
    ensures bytes == EncodeAll(us) && units == |us| && back == us
  {
    hide *;
    assert us[0..] == us;
    ByteCountIs(us, 0, covering);
    BytesAre(us, 0, |EncodeAll(us)|);
    var length := WcToWbStrLen(us, covering);
    var ok;
    bytes, ok := WcsToMbs(us, length + 1);
    assert bytes[0..] == bytes;
    EncodedNonZero(us);
    WholeLength(bytes);
    CharCountIs(us, bytes, 0);
    units := MbStrLen(bytes);
    CharsAre(us, bytes, 0, |bytes|);
    back, ok := MbsToWcs(bytes, length);
  }

  /** `co_utf8_dup_to_wc`, which passes the number of units, and one, as the bound. */
  method DupToWc(src: seq<Byte>) returns (wstring: seq<Unit>, size: nat)
    ensures size == CharCount(src, 0, Length(src)) && wstring == Chars(src, 0, size + 1)
    ensures forall us | NonZero(us) && src == EncodeAll(us) :: size == |us| && (wstring == us <==> Surviving(us))
  {
    size := MbStrLen(src);
    var ok;
    wstring, ok := MbsToWcs(src, size + 1);
    hide *;
    forall us | NonZero(us) && src == EncodeAll(us)
      ensures size == |us| && (wstring == us <==> Surviving(us))
    {
      EncodedNonZero(us);
      WholeLength(src);
      assert src[0..] == src;
      CharCountIs(us, src, 0);
      DupIff(us, src, 0);
    }
  }

  /** The last unit, if there is one, takes no more than two bytes. */
  predicate Surviving(us: seq<Unit>) {
    us == [] || us[|us| - 1] < 0x800
  }

  lemma SurvivingRest(us: seq<Unit>)
    ensures Surviving(us) <==> us == [] || if |us| == 1 then us[0] < 0x800 else Surviving(us[1..])
  {
  }

  /** A sequence of three bytes that is decoded with a bound of two becomes two question marks. */
  lemma TooShort(u: Unit, s: seq<Byte>, i: nat)
    requires u >= 0x800 && i + 3 <= |s| && s[i..i + 3] == Encode(u)
    ensures Chars(s, i, 2) == [QUESTION, QUESTION]
  {
    DecodeEncode(s, i, 2, u);
    BytesAt(s, i, Encode(u));
    assert 0x80 <= At(s, i + 1) < 0xC0 by {
      assert At(s, i + 1) == Encode(u)[1];
    }
    assert Next(s, i + 1, 1) == (QUESTION, 1);
    hide Next;
    assert Chars(s, i + 2, 0) == [];
    assert Chars(s, i + 1, 1) == [QUESTION] + Chars(s, i + 2, 0);
  }

  /** So it gives the units back exactly when the last one takes no more than two bytes. */
  lemma {:induction false} DupIff(us: seq<Unit>, s: seq<Byte>, i: nat)
    requires NonZero(us) && i <= |s| && s[i..] == EncodeAll(us)
    ensures Chars(s, i, |us| + 1) == us <==> Surviving(us)
    decreases |us|
  {
    hide *;
    CharsStep(s, i, |us| + 1);
    SurvivingRest(us);
    if us == [] {
      NothingEncoded(s, i);
    } else {
      SkipUnit(us, s, i);
      HeadNonZero(us);
      if |us| == 1 && us[0] >= 0x800 {
        ThreeBytesLong(us[0]);
        TooShort(us[0], s, i);
      } else {
        ThreeBytesLong(us[0]);
        CharsHead(us, s, i, |us| + 1);
        DupIff(us[1..], s, i + |Encode(us[0])|);
        SurvivingRest(us[1..]);
        SameHead(us, Chars(s, i + |Encode(us[0])|, |us|));
      }
    }
  }

  lemma ThreeBytesLong(u: Unit)
    ensures |Encode(u)| == 3 <==> u >= 0x800
  {
  }
}
