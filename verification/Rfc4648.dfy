/** Section 4 of RFC 4648, written down bit by bit, and what it says about the encoder
    and the decoder of the C device. */
module Rfc4648 {
  import opened Terms
  import opened Base64

  /** Table 1: the character of a six-bit value. */
  function Character(v: nat): char
    requires v < 64
  {
    if v < 26 then ('A' as int + v) as char
    else if v < 52 then ('a' as int + v - 26) as char
    else if v < 62 then ('0' as int + v - 52) as char
    else if v == 62 then '+'
    else '/'
  }

  /** The place value of bit k of a byte, counted from the most significant. */
  function Weight(k: nat): nat
    requires k < 8
  {
    [128, 64, 32, 16, 8, 4, 2, 1][k]
  }

  /** Bit j of the byte string, padded with zeros. */
  function Bit(a: seq<byte>, j: nat): (b: nat)
    ensures b < 2
  {
    if j / 8 < |a| then (a[j / 8] as nat / Weight(j % 8)) % 2 else 0
  }

  /** Bits 6i .. 6i+5 as one number. */
  function Sextet(a: seq<byte>, i: nat): (v: nat)
    ensures v < 64
  {
    32 * Bit(a, 6 * i) + 16 * Bit(a, 6 * i + 1) + 8 * Bit(a, 6 * i + 2)
    + 4 * Bit(a, 6 * i + 3) + 2 * Bit(a, 6 * i + 4) + Bit(a, 6 * i + 5)
  }

  function ByteAt(a: seq<byte>, k: nat): (x: nat)
    ensures x < 256
  {
    if k < |a| then a[k] as nat else 0
  }

  lemma BitAt(a: seq<byte>, k: nat, r: nat)
    requires r < 8
    ensures Bit(a, 8 * k + r) == ByteAt(a, k) / Weight(r) % 2
  {
    assert (8 * k + r) / 8 == k && (8 * k + r) % 8 == r;
  }

  lemma BitsOfByte(a: seq<byte>, k: nat)
    ensures var x := ByteAt(a, k);
            && Bit(a, 8 * k) == x / 128 % 2 && Bit(a, 8 * k + 1) == x / 64 % 2
            && Bit(a, 8 * k + 2) == x / 32 % 2 && Bit(a, 8 * k + 3) == x / 16 % 2
            && Bit(a, 8 * k + 4) == x / 8 % 2 && Bit(a, 8 * k + 5) == x / 4 % 2
            && Bit(a, 8 * k + 6) == x / 2 % 2 && Bit(a, 8 * k + 7) == x % 2
  {
    hide Bit, ByteAt;
    BitAt(a, k, 0);
    BitAt(a, k, 1);
    BitAt(a, k, 2);
    BitAt(a, k, 3);
    BitAt(a, k, 4);
    BitAt(a, k, 5);
    BitAt(a, k, 6);
    BitAt(a, k, 7);
  }

  /** A byte cut after two, four and six bits. */
  lemma BitsOf(x: nat)
    requires x < 256
    ensures 32 * (x / 128 % 2) + 16 * (x / 64 % 2) + 8 * (x / 32 % 2)
            + 4 * (x / 16 % 2) + 2 * (x / 8 % 2) + x / 4 % 2 == x / 4
    ensures 8 * (x / 128 % 2) + 4 * (x / 64 % 2) + 2 * (x / 32 % 2) + x / 16 % 2 == x / 16
    ensures 2 * (x / 128 % 2) + x / 64 % 2 == x / 64
    ensures 2 * (x / 2 % 2) + x % 2 == x % 4
    ensures 8 * (x / 8 % 2) + 4 * (x / 4 % 2) + 2 * (x / 2 % 2) + x % 2 == x % 16
    ensures 32 * (x / 32 % 2) + 16 * (x / 16 % 2) + 8 * (x / 8 % 2) + 4 * (x / 4 % 2) + 2 * (x / 2 % 2) + x % 2
        == x % 64
  {
    var h := x / 2;
    var q := h / 2;
    var e := q / 2;
    var s := e / 2;
    var t := s / 2;
    var u := t / 2;
    var w := u / 2;
    assert x / 4 == q && x / 8 == e && x / 16 == s && x / 32 == t && x / 64 == u && x / 128 == w;
    assert w / 2 == 0;
  }

  /** The first four sextets, in terms of the first three bytes. */
  lemma FirstSextets(a: seq<byte>)
    ensures var (x, y, z) := (ByteAt(a, 0), ByteAt(a, 1), ByteAt(a, 2));
            && Sextet(a, 0) == x / 4 && Sextet(a, 1) == x % 4 * 16 + y / 16
            && Sextet(a, 2) == y % 16 * 4 + z / 64 && Sextet(a, 3) == z % 64
  {
    hide Bit, ByteAt;
    BitsOfByte(a, 0);
    BitsOfByte(a, 1);
    BitsOfByte(a, 2);
    BitsOf(ByteAt(a, 0));
    BitsOf(ByteAt(a, 1));
    BitsOf(ByteAt(a, 2));
  }

  lemma BitLater(a: seq<byte>, j: nat)
    requires |a| >= 3 && j >= 24
    ensures Bit(a, j) == Bit(a[3..], j - 24)
  {
    assert j / 8 == (j - 24) / 8 + 3 && j % 8 == (j - 24) % 8;
  }

  lemma SextetLater(a: seq<byte>, i: nat)
    requires |a| >= 3 && i >= 4
    ensures Sextet(a, i) == Sextet(a[3..], i - 4)
  {
    hide Bit;
    BitLater(a, 6 * i);
    BitLater(a, 6 * i + 1);
    BitLater(a, 6 * i + 2);
    BitLater(a, 6 * i + 3);
    BitLater(a, 6 * i + 4);
    BitLater(a, 6 * i + 5);
  }

  lemma LetterIsCharacter(v: nat)
    requires v < 64
    ensures Letter(v) == Character(v)
  {}

  lemma GroupSextets(x: nat, y: nat, z: nat)
    requires x < 256 && y < 256 && z < 256
    ensures var v := x * 0x1_0000 + y * 0x100 + z;
            && v / 0x4_0000 == x / 4 && v / 0x1000 % 64 == x % 4 * 16 + y / 16
            && v / 64 % 64 == y % 16 * 4 + z / 64 && v % 64 == z % 64
  {
    var v := x * 0x1_0000 + y * 0x100 + z;
    var w := v / 64;
    assert w == x * 1024 + y * 4 + z / 64 && v % 64 == z % 64;
    var u := w / 64;
    assert u == x * 16 + y / 16 && w % 64 == y % 16 * 4 + z / 64;
    assert u / 64 == x / 4 && u % 64 == x % 4 * 16 + y / 16;
    assert v / 0x1000 == u && v / 0x4_0000 == u / 64;
  }

  lemma GroupOfBytes(a: seq<byte>)
    requires 1 <= |a| <= 3
    ensures Group(a) == ByteAt(a, 0) * 0x1_0000 + ByteAt(a, 1) * 0x100 + ByteAt(a, 2)
  {}

  lemma LettersAre(a: seq<byte>)
    requires 1 <= |a| <= 3
    ensures Letters(a) == [Letter(Sextet(a, 0)), Letter(Sextet(a, 1)),
                           if |a| > 1 then Letter(Sextet(a, 2)) else '=', if |a| > 2 then Letter(Sextet(a, 3)) else '=']
  {
    hide Group, Letter, Sextet, ByteAt;
    FirstSextets(a);
    GroupSextets(ByteAt(a, 0), ByteAt(a, 1), ByteAt(a, 2));
    GroupOfBytes(a);
  }

  /** One group: as many characters as its bits need, then padding. */
  lemma LettersExactly(a: seq<byte>, i: nat)
    requires 1 <= |a| <= 3 && i < 4
    ensures Letters(a)[i] == if 6 * i < 8 * |a| then Character(Sextet(a, i)) else '='
  {
    hide Letters, Letter, Character, Sextet;
    LettersAre(a);
    LetterIsCharacter(Sextet(a, i));
  }

  lemma SextetOfPrefix(a: seq<byte>, i: nat)
    requires |a| >= 3 && i < 4
    ensures Sextet(a, i) == Sextet(a[..3], i)
  {
    FirstSextets(a);
    FirstSextets(a[..3]);
    hide Sextet;
  }

  /** Character i of the encoding is the table's character for bits 6i .. 6i+5, as long as
      there are any, and padding from there on. */
  lemma {:induction false} EncodesExactly(a: seq<byte>, i: nat)
    ensures i < |Encode(a)| ==> Encode(a)[i] == if 6 * i < 8 * |a| then Character(Sextet(a, i)) else '='
  {
    hide Sextet, Character, Letters;
    if |a| > 3 && i >= 4 {
      EncodesExactly(a[3..], i - 4);
      SextetLater(a, i);
    } else if a != [] && i < 4 {
      LettersExactly(if |a| <= 3 then a else a[..3], i);
      if |a| > 3 { SextetOfPrefix(a, i); }
    }
  }

  // ---- Decoding ---------------------------------------------------------------------------

  /** A character of the table. */
  predicate InTable(c: char) {
    'A' <= c <= 'Z' || 'a' <= c <= 'z' || '0' <= c <= '9' || c == '+' || c == '/'
  }

  lemma ValueInTable(c: char)
    ensures Value(c) >= 0 <==> InTable(c)
    ensures InTable(c) ==> Value(c) < 64 && c == Character(Value(c))
  {}

  /** Four characters of the table are 24 bits; '=' in the last two places counts as zero
      bits, and each takes one byte away. */
  lemma GroupDecodesExactly(p: nat, q: nat, r: nat, s: nat, padR: bool, padS: bool)
    requires p < 64 && q < 64 && r < 64 && s < 64 && (padR ==> r == 0) && (padS ==> s == 0)
    ensures var text := [Character(p), Character(q), if padR then '=' else Character(r),
                         if padS then '=' else Character(s)];
            var bytes := [(p * 4 + q / 16) as byte, (q % 16 * 16 + r / 4) as byte, (r % 4 * 64 + s) as byte];
            DecodeGroup(text) == Some(bytes[..3 - (if padR then 1 else 0) - (if padS then 1 else 0)])
  {
    ValueOfLetter(p);
    ValueOfLetter(q);
    ValueOfLetter(r);
    ValueOfLetter(s);
    LetterIsCharacter(p);
    LetterIsCharacter(q);
    LetterIsCharacter(r);
    LetterIsCharacter(s);
    hide Letter, Value, Character;
    JoinSextets(p, q, r, s);
  }

  lemma JoinSextets(p: nat, q: nat, r: nat, s: nat)
    requires p < 64 && q < 64 && r < 64 && s < 64
    ensures var v := p * 0x4_0000 + q * 0x1000 + r * 64 + s;
            && v / 0x1_0000 == p * 4 + q / 16 && v / 0x100 % 256 == q % 16 * 16 + r / 4 && v % 256 == r % 4 * 64 + s
  {
    var v := p * 0x4_0000 + q * 0x1000 + r * 64 + s;
    var w := p * 1024 + q * 16 + r / 4;
    var u := p * 4 + q / 16;
    LowByte(v, w, r % 4 * 64 + s);
    LowByte(w, u, q % 16 * 16 + r / 4);
    assert v / 0x1_0000 == v / 256 / 256;
  }

  lemma LowByte(n: nat, high: nat, low: nat)
    requires low < 256 && n == 256 * high + low
    ensures n / 256 == high && n % 256 == low
  {}

  predicate Legal(s: string) {
    forall i :: 0 <= i < |s| ==> InTable(s[i]) || (s[i] == '=' && i % 4 >= 2)
  }

  lemma LegalFrom(s: string)
    requires |s| >= 4
    ensures Legal(s) <==> Legal(s[..4]) && Legal(s[4..])
  {
    hide InTable;
    if Legal(s[..4]) && Legal(s[4..]) {
      forall i | 0 <= i < |s| ensures InTable(s[i]) || (s[i] == '=' && i % 4 >= 2) {
        if i < 4 { assert s[i] == s[..4][i]; } else { assert s[i] == s[4..][i-4]; }
      }
    }
    if Legal(s) {
      forall i | 0 <= i < |s| - 4 ensures InTable(s[4..][i]) || (s[4..][i] == '=' && i % 4 >= 2) {
        assert s[4..][i] == s[i+4];
      }
    }
  }

  lemma DecodeUnfolds(s: string)
    ensures |s| < 4 ==> (Decode(s).Some? <==> s == "")
    ensures |s| >= 4 ==> (Decode(s).Some? <==> DecodeGroup(s[..4]).Some? && Decode(s[4..]).Some?)
  {
    hide DecodeGroup;
  }

  /** A text decodes exactly when its length is a multiple of four and each character is of
      the table, or '=' in one of the last two places of its group. */
  lemma {:induction false} DecodesExactly(s: string)
    ensures Decode(s).Some? <==> |s| % 4 == 0 && Legal(s)
  {
    DecodeUnfolds(s);
    if |s| >= 4 {
      hide *;
      DecodesExactly(s[4..]);
      GroupDecodes(s[..4]);
      LegalFrom(s);
    }
  }

  lemma GroupDecodes(s: string)
    requires |s| == 4
    ensures DecodeGroup(s).Some? <==> Legal(s)
  {
    ValueInTable(s[0]);
    ValueInTable(s[1]);
    ValueInTable(s[2]);
    ValueInTable(s[3]);
    hide Value;
  }

  // ---- Big-endian integers ---------------------------------------------------------------

  lemma DivTwice(v: nat, p: nat)
    requires p >= 1
    ensures (v / 256) / p == v / (256 * p)
  {
    var q, r := v / (256 * p), v % (256 * p);
    assert v == q * (256 * p) + r;
    assert q * (256 * p) == 256 * (q * p);
    assert v / 256 == q * p + r / 256;
    assert r / 256 < p;
    QuotientIs(v / 256, q, r / 256, p);
  }

  lemma MulLe(a: int, b: int, p: nat)
    ensures a <= b ==> a * p <= b * p
  {}

  lemma QuotientIs(n: nat, q: nat, r: nat, p: nat)
    requires r < p && n == q * p + r
    ensures n / p == q
  {
    assert n == (n / p) * p + n % p;
    MulLe(n / p + 1, q, p);
    MulLe(q + 1, n / p, p);
  }

  lemma {:induction false} PowPositive(k: nat)
    ensures Pow256(k) >= 1
  {
    if k > 0 { PowPositive(k - 1); }
  }

  /** Byte i of the k bytes is v / 256^(k-1-i), modulo 256. */
  lemma {:induction false} BigEndianExactly(v: nat, k: nat, i: nat)
    requires i < k
    ensures Pow256(k - 1 - i) >= 1 && BigEndian(v, k)[i] as nat == v / Pow256(k - 1 - i) % 256
  {
    PowPositive(k - 1 - i);
    if i < k - 1 {
      BigEndianExactly(v / 256, k - 1, i);
      DivTwice(v, Pow256(k - 2 - i));
    }
  }
}
