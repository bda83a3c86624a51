/** lib/hea_proto/hea_proto.c: base64 (section 4 of RFC 4648) and big-endian integers. */
module Base64 {
  import opened Terms

  function Run(first: char, n: nat): string
    requires first as int + n < 128
  {
    seq(n, i requires 0 <= i < n => (first as int + i) as char)
  }

  const ALPHABET: string := Run('A', 26) + Run('a', 26) + Run('0', 10) + "+/"

  const PAD: char := '='

  function Value(c: char): int {
    if 'A' <= c <= 'Z' then c as int - 'A' as int
    else if 'a' <= c <= 'z' then c as int - 'a' as int + 26
    else if '0' <= c <= '9' then c as int - '0' as int + 52
    else if c == '+' then 62
    else if c == '/' then 63
    else -1
  }

  /** The letter of six bits. */
  function Letter(v: nat): char
    requires v < 64
  {
    ALPHABET[v]
  }

  lemma ValueOfLetter(v: nat)
    requires v < 64
    ensures Value(Letter(v)) == v && Letter(v) != PAD && Letter(v) != '"' && Letter(v) != '\\' && ' ' < Letter(v) <= '~'
  {}

  /** Three bytes as one 24-bit number; bytes not there count as zero. */
  function Group(a: seq<byte>): (v: nat)
    requires 1 <= |a|
    ensures v < 0x100_0000
  {
    a[0] as nat * 0x1_0000 + (if |a| > 1 then a[1] as nat * 0x100 else 0) + (if |a| > 2 then a[2] as nat else 0)
  }

  function Letters(a: seq<byte>): (s: string)
    requires 1 <= |a|
    ensures |s| == 4
  {
    var v := Group(a);
    [Letter(v / 0x4_0000), Letter(v / 0x1000 % 64),
     if |a| > 1 then Letter(v / 64 % 64) else PAD,
     if |a| > 2 then Letter(v % 64) else PAD]
  }

  function Encode(a: seq<byte>): string {
    if a == [] then "" else if |a| <= 3 then Letters(a) else Letters(a[..3]) + Encode(a[3..])
  }

  /** One group of four characters, as b64_decode reads it. */
  function DecodeGroup(s: string): (r: Option<seq<byte>>)
    requires |s| == 4
    ensures r.Some? ==> |r.value| == 3 - (if s[2] == PAD then 1 else 0) - (if s[3] == PAD then 1 else 0)
  {
    var a, b := Value(s[0]), Value(s[1]);
    var c := if s[2] == PAD then 0 else Value(s[2]);
    var d := if s[3] == PAD then 0 else Value(s[3]);
    if a < 0 || b < 0 || c < 0 || d < 0 then None
    else
      var v := a * 0x4_0000 + b * 0x1000 + c * 64 + d;
      var bytes := [(v / 0x1_0000) as byte, (v / 0x100 % 256) as byte, (v % 256) as byte];
      Some(bytes[..3 - (if s[2] == PAD then 1 else 0) - (if s[3] == PAD then 1 else 0)])
  }

  function Decode(s: string): Option<seq<byte>> {
    if s == "" then Some([])
    else if |s| < 4 then None
    else
      var first := DecodeGroup(s[..4]);
      if first.None? then None
      else
        var rest := Decode(s[4..]);
        if rest.None? then None else Some(first.value + rest.value)
  }

  lemma GroupRoundTrip(a: seq<byte>)
    requires 1 <= |a| <= 3
    ensures DecodeGroup(Letters(a)) == Some(a)
  {
    hide Letter, Value;
    var v := Group(a);
    var x, y, z := a[0] as nat, if |a| > 1 then a[1] as nat else 0, if |a| > 2 then a[2] as nat else 0;
    SplitSix(v);
    JoinBytes(x, y, z);
    ValueOfLetter(v / 0x4_0000);
    ValueOfLetter(v / 0x1000 % 64);
    ValueOfLetter(v / 64 % 64);
    ValueOfLetter(v % 64);
    hide Group;
    var bytes := [x as byte, y as byte, z as byte];
    assert DecodeGroup(Letters(a)) == Some(bytes[..|a|]);
    assert bytes[..|a|] == a;
  }

  lemma SplitSix(v: nat)
    ensures v == (v / 0x4_0000) * 0x4_0000 + (v / 0x1000 % 64) * 0x1000 + (v / 64 % 64) * 64 + v % 64
  {
    var w := v / 64;
    var x := w / 64;
    assert v == w * 64 + v % 64 && w == x * 64 + w % 64 && x == (x / 64) * 64 + x % 64;
    assert x == v / 0x1000 && x / 64 == v / 0x4_0000;
  }

  lemma JoinBytes(x: nat, y: nat, z: nat)
    requires x < 256 && y < 256 && z < 256
    ensures var v := x * 0x1_0000 + y * 0x100 + z;
            && v / 0x1_0000 == x && v / 0x100 % 256 == y && v % 256 == z
            && (z == 0 ==> v % 64 == 0)
            && (y == 0 && z == 0 ==> v / 64 % 64 == 0)
  {
    var v := x * 0x1_0000 + y * 0x100 + z;
    assert v / 0x100 == x * 256 + y;
    if z == 0 { assert v == 64 * (x * 1024 + y * 4); }
    if y == 0 && z == 0 { assert v / 64 == 64 * (x * 16); }
  }

  lemma EncodeShort(a: seq<byte>)
    requires 1 <= |a| <= 3
    ensures Encode(a) == Letters(a) + Encode([])
  {
    hide Letters;
    assert Letters(a) + "" == Letters(a);
  }

  lemma EncodeLong(a: seq<byte>)
    requires |a| > 3
    ensures Encode(a) == Letters(a[..3]) + Encode(a[3..])
  {
    hide Letters;
  }

  lemma EncodeFirst(a: seq<byte>, first: seq<byte>)
    requires a != [] && first == if |a| <= 3 then a else a[..3]
    ensures Encode(a) == Letters(first) + Encode(a[|first|..]) && a == first + a[|first|..]
  {
    hide *;
    if |a| <= 3 {
      EncodeShort(a);
      assert a[|first|..] == [] && first + [] == first;
    } else {
      EncodeLong(a);
    }
  }

  lemma DecodeFirst(group: string, rest: string)
    requires |group| == 4 && DecodeGroup(group).Some? && Decode(rest).Some?
    ensures Decode(group + rest) == Some(DecodeGroup(group).value + Decode(rest).value)
  {
    hide DecodeGroup;
    assert (group + rest)[..4] == group && (group + rest)[4..] == rest;
  }

  /** Decoding undoes encoding, for every byte string. */
  lemma {:induction false} RoundTrip(a: seq<byte>)
    ensures Decode(Encode(a)) == Some(a)
  {
    if a == [] {
      EncodeNothing();
      PrependNothing();
    } else {
      hide Letters, DecodeGroup, Encode, Decode;
      var first := if |a| <= 3 then a else a[..3];
      GroupRoundTrip(first);
      RoundTrip(a[|first|..]);
      EncodeFirst(a, first);
      DecodeFirst(Letters(first), Encode(a[|first|..]));
    }
  }

  /** Four characters for every three bytes begun. */
  lemma {:induction false} EncodedLength(a: seq<byte>)
    ensures |Encode(a)| == 4 * ((|a| + 2) / 3)
  {
    if |a| > 3 {
      EncodedLength(a[3..]);
      assert |Encode(a)| == 4 + |Encode(a[3..])|;
      assert (|a| + 2) / 3 == 1 + (|a| - 3 + 2) / 3;
    }
  }

  /** Encoded text needs no escaping in a JSON string. */
  lemma {:induction false} EncodedIsPlain(a: seq<byte>)
    ensures forall i :: 0 <= i < |Encode(a)| ==>
              Encode(a)[i] != '"' && Encode(a)[i] != '\\' && ' ' < Encode(a)[i] <= '~'
  {
    if a != [] {
      var first := if |a| <= 3 then a else a[..3];
      LettersArePlain(first);
      EncodedIsPlain(a[|first|..]);
      assert Encode(a) == Letters(first) + Encode(a[|first|..]);
    }
  }

  lemma LettersArePlain(a: seq<byte>)
    requires 1 <= |a| <= 3
    ensures forall i :: 0 <= i < 4 ==> Letters(a)[i] != '"' && Letters(a)[i] != '\\' && ' ' < Letters(a)[i] <= '~'
  {
    var v := Group(a);
    ValueOfLetter(v / 0x4_0000);
    ValueOfLetter(v / 0x1000 % 64);
    ValueOfLetter(v / 64 % 64);
    ValueOfLetter(v % 64);
  }

  // ---- The C loops -------------------------------------------------------------------

  /** The group of up to three bytes that starts at i, and what follows it. */
  function GroupAt(a: seq<byte>, i: nat): (g: seq<byte>)
    requires i < |a|
    ensures 1 <= |g| <= 3
  {
    a[i..if i + 3 <= |a| then i + 3 else |a|]
  }

  function RestAt(a: seq<byte>, i: nat): seq<byte> {
    if i <= |a| then a[i..] else []
  }

  lemma EncodeStep(a: seq<byte>, i: nat)
    requires i < |a|
    ensures Encode(RestAt(a, i)) == Letters(GroupAt(a, i)) + Encode(RestAt(a, i + 3))
  {
    var rest := a[i..];
    if |rest| > 3 {
      assert rest[..3] == GroupAt(a, i) && rest[3..] == RestAt(a, i + 3);
    } else {
      assert rest == GroupAt(a, i) && RestAt(a, i + 3) == [];
    }
  }

  /** b64_encode: the text, a terminating NUL, and nothing else is written. */
  method B64Encode(input: seq<byte>, out: array<char>) returns (o: nat)
    requires out.Length > |Encode(input)|
    modifies out
    ensures o == |Encode(input)| < out.Length && out[..o] == Encode(input) && out[o] == '\0'
    ensures forall k :: o < k < out.Length ==> out[k] == old(out[k])
  {
    hide Encode, Letters, GroupAt;
    o := 0;
    var i := 0;
    assert RestAt(input, 0) == input;
    while i < |input|
      invariant 0 <= i && 0 <= o < out.Length
      invariant out[..o] + Encode(RestAt(input, i)) == Encode(input)
      invariant forall k :: o <= k < out.Length ==> out[k] == old(out[k])
    {
      EncodeStep(input, i);
      Assoc(out[..o], Letters(GroupAt(input, i)), Encode(RestAt(input, i + 3)));
      EncodeRound(input, i, out, o);
      o := o + 4;
      i := i + 3;
    }
    EncodeNothing();
    assert RestAt(input, i) == [];
    assert out[..o] + "" == out[..o];
    out[o] := '\0';
  }

  lemma EncodeNothing()
    ensures Encode([]) == ""
  {}

  lemma Assoc<T>(a: seq<T>, b: seq<T>, c: seq<T>)
    ensures a + (b + c) == (a + b) + c
  {}

  /** One round of the loop: the four letters of the group at i. */
  method EncodeRound(input: seq<byte>, i: nat, out: array<char>, o: nat)
    requires i < |input| && o + 4 <= out.Length
    modifies out
    ensures out[..o+4] == old(out[..o]) + Letters(GroupAt(input, i))
    ensures forall k :: o + 4 <= k < out.Length ==> out[k] == old(out[k])
  {
    hide Letter;
    var v := input[i] as nat * 0x1_0000;
    if i + 1 < |input| { v := v + input[i+1] as nat * 0x100; }
    if i + 2 < |input| { v := v + input[i+2] as nat; }
    ghost var group := GroupAt(input, i);
    assert v == Group(group);
    hide Group;
    out[o] := Letter(v / 0x4_0000);
    out[o+1] := Letter(v / 0x1000 % 64);
    out[o+2] := if i + 1 < |input| then Letter(v / 64 % 64) else PAD;
    out[o+3] := if i + 2 < |input| then Letter(v % 64) else PAD;
    assert out[o..o+4] == Letters(group);
    ghost var text := out[..o+4];
    assert text[..o] == out[..o] && text[o..] == out[o..o+4];
    assert text == text[..o] + text[o..];
  }

  lemma DecodeStep(s: string, i: nat)
    requires i + 4 <= |s| && i % 4 == 0
    ensures Decode(s[i..])
         == if DecodeGroup(s[i..i+4]).None? then None else Prepend(DecodeGroup(s[i..i+4]).value, Decode(s[i+4..]))
  {
    assert s[i..][..4] == s[i..i+4] && s[i..][4..] == s[i+4..];
  }

  lemma {:induction false} DecodeLength(s: string)
    requires |s| % 4 != 0
    ensures Decode(s) == None
  {
    if |s| > 4 { DecodeLength(s[4..]); }
  }

  function Prepend(first: seq<byte>, rest: Option<seq<byte>>): Option<seq<byte>> {
    if rest.None? then None else Some(first + rest.value)
  }

  lemma PrependTwice(a: seq<byte>, b: seq<byte>, rest: Option<seq<byte>>)
    ensures Prepend(a, Prepend(b, rest)) == Prepend(a + b, rest)
    ensures Prepend([], rest) == rest
  {
    if rest.Some? {
      Assoc(a, b, rest.value);
      assert [] + rest.value == rest.value;
    }
  }

  lemma PrependNothing()
    ensures Decode("") == Some([])
  {}

  /** b64_decode of a string into a buffer of `cap` bytes: the decoded bytes if the
      text is well formed and they fit, else -1; never a write past the capacity. */
  method B64Decode(input: string, out: array<byte>, cap: nat) returns (n: int)
    requires cap <= out.Length
    modifies out
    ensures n == if Decode(input).Some? && |Decode(input).value| <= cap then |Decode(input).value| else -1
    ensures n >= 0 ==> out[..n] == Decode(input).value
    ensures forall k :: cap <= k < out.Length ==> out[k] == old(out[k])
  {
    hide *;
    if |input| % 4 != 0 {
      DecodeLength(input);
      return -1;
    }
    var o, i := 0, 0;
    assert input[0..] == input && input[|input|..] == "" && out[..0] == [];
    PrependTwice([], [], Decode(input));
    PrependNothing();
    while i < |input|
      invariant i % 4 == 0 && 0 <= i <= |input| && 0 <= o <= cap
      invariant Decode(input) == Prepend(out[..o], Decode(input[i..]))
      invariant forall k :: cap <= k < out.Length ==> out[k] == old(out[k])
    {
      ghost var before := out[..o];
      var bytes := DecodeRound(input, i, out, o, cap);
      if bytes < 0 {
        RoundFails(input, i, before, cap);
        return -1;
      }
      RoundGoesOn(input, i, before);
      o := o + bytes;
      i := i + 4;
    }
    PrependDone(out[..o]);
    n := o;
  }

  lemma PrependDone(a: seq<byte>)
    ensures Prepend(a, Some([])) == Some(a)
  {
    assert a + [] == a;
  }

  lemma RoundGoesOn(input: string, i: nat, before: seq<byte>)
    requires i + 4 <= |input| && i % 4 == 0 && Decode(input) == Prepend(before, Decode(input[i..]))
    requires DecodeGroup(input[i..i+4]).Some?
    ensures Decode(input) == Prepend(before + DecodeGroup(input[i..i+4]).value, Decode(input[i+4..]))
  {
    hide Decode, DecodeGroup;
    DecodeStep(input, i);
    PrependTwice(before, DecodeGroup(input[i..i+4]).value, Decode(input[i+4..]));
  }

  /** A group that is none, or has no room, fails the whole text. */
  lemma RoundFails(input: string, i: nat, before: seq<byte>, cap: nat)
    requires i + 4 <= |input| && i % 4 == 0 && Decode(input) == Prepend(before, Decode(input[i..]))
    requires var group := DecodeGroup(input[i..i+4]); group.None? || |before| + |group.value| > cap
    ensures Decode(input).None? || |Decode(input).value| > cap
  {
    hide Decode, DecodeGroup;
    DecodeStep(input, i);
  }

  /** One round of the loop: the bytes of the four characters at i, or -1 when they
      are no group or do not fit. */
  method DecodeRound(input: string, i: nat, out: array<byte>, o: nat, cap: nat) returns (n: int)
    requires i + 4 <= |input| && o <= cap <= out.Length
    modifies out
    ensures var group := DecodeGroup(input[i..i+4]);
            && n == (if group.Some? && o + |group.value| <= cap then |group.value| else -1)
            && (n >= 0 ==> out[..o+n] == old(out[..o]) + group.value)
    ensures forall k :: cap <= k < out.Length ==> out[k] == old(out[k])
  {
    hide Value;
    var a, b := Value(input[i]), Value(input[i+1]);
    var c := if input[i+2] == PAD then 0 else Value(input[i+2]);
    var d := if input[i+3] == PAD then 0 else Value(input[i+3]);
    ghost var group := DecodeGroup(input[i..i+4]);
    if a < 0 || b < 0 || c < 0 || d < 0 {
      return -1;
    }
    var v := a * 0x4_0000 + b * 0x1000 + c * 64 + d;
    n := 3 - (if input[i+2] == PAD then 1 else 0) - (if input[i+3] == PAD then 1 else 0);
    if o + n > cap {
      return -1;
    }
    assert v < 0x100_0000 by {
      ValueBound(input[i]);
      ValueBound(input[i+1]);
      ValueBound(input[i+2]);
      ValueBound(input[i+3]);
    }
    out[o] := (v / 0x1_0000) as byte;
    if n > 1 { out[o+1] := (v / 0x100 % 256) as byte; }
    if n > 2 { out[o+2] := (v % 256) as byte; }
    assert out[o..o+n] == group.value;
    assert out[..o+n] == out[..o] + out[o..o+n];
  }

  lemma ValueBound(c: char)
    ensures -1 <= Value(c) < 64
  {}

  // ---- put_u64 and get_u64 --------------------------------------------------------------

  const TWO_64: nat := 0x1_0000_0000_0000_0000

  /** The k low bytes of v, most significant first. */
  function BigEndian(v: nat, k: nat): (s: seq<byte>)
    ensures |s| == k
  {
    if k == 0 then [] else BigEndian(v / 256, k - 1) + [(v % 256) as byte]
  }

  function Number(s: seq<byte>): nat {
    if s == [] then 0 else Number(s[..|s|-1]) * 256 + s[|s|-1] as nat
  }

  function Pow256(k: nat): nat {
    if k == 0 then 1 else 256 * Pow256(k - 1)
  }

  lemma {:induction false} NumberOfBytes(v: nat, k: nat)
    requires v < Pow256(k)
    ensures Number(BigEndian(v, k)) == v
  {
    if k > 0 {
      NumberOfBytes(v / 256, k - 1);
      assert BigEndian(v, k)[..k-1] == BigEndian(v / 256, k - 1);
    }
  }

  lemma {:induction false} BytesOfNumber(s: seq<byte>)
    ensures BigEndian(Number(s), |s|) == s && Number(s) < Pow256(|s|)
  {
    if s != [] {
      BytesOfNumber(s[..|s|-1]);
      assert s == s[..|s|-1] + [s[|s|-1]];
    }
  }

  lemma PowEight()
    ensures Pow256(8) == TWO_64
  {
    assert Pow256(4) == 0x1_0000_0000;
  }

  /** get_u64 undoes put_u64 and the other way round, for all 64-bit values. */
  lemma U64RoundTrip(v: nat, s: seq<byte>)
    ensures v < TWO_64 ==> Number(BigEndian(v, 8)) == v
    ensures |s| == 8 ==> BigEndian(Number(s), 8) == s && Number(s) < TWO_64
  {
    PowEight();
    if v < TWO_64 { NumberOfBytes(v, 8); }
    BytesOfNumber(s);
  }

  method PutU64(o: array<byte>, at: nat, v: nat)
    requires at + 8 <= o.Length && v < TWO_64
    modifies o
    ensures o[at..at+8] == BigEndian(v, 8)
    ensures forall k :: 0 <= k < o.Length && !(at <= k < at + 8) ==> o[k] == old(o[k])
  {
    var rest := v;
    for i := 8 downto 0
      invariant BigEndian(v, 8) == BigEndian(rest, i) + o[at+i..at+8]
      invariant forall k :: 0 <= k < o.Length && !(at + i <= k < at + 8) ==> o[k] == old(o[k])
    {
      ghost var done := o[at+i+1..at+8];
      o[at+i] := (rest % 256) as byte;
      assert o[at+i..at+8] == [(rest % 256) as byte] + done;
      rest := rest / 256;
    }
  }

  method GetU64(o: seq<byte>) returns (v: nat)
    requires |o| == 8
    ensures v == Number(o) && v < TWO_64
  {
    v := 0;
    for i := 0 to 8
      invariant v == Number(o[..i])
    {
      assert o[..i+1][..i] == o[..i];
      v := v * 256 + o[i] as nat;
    }
    assert o[..8] == o;
    U64RoundTrip(0, o);
  }
}
