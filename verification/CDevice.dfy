/** lib/hea_proto/hea_proto.c: json_str as the loops it is, and hea_complete from the
    envelope to the key-derivation input. */
module CDevice {
  import opened Terms
  import opened Base64
  import opened JsonField

  // ---- json_str -----------------------------------------------------------------------

  function PrependText(first: string, rest: Option<string>): Option<string> {
    if rest.None? then None else Some(first + rest.value)
  }

  /** json_str: whether the field was read, and its length in the buffer. Nothing is
      written past the capacity. */
  method JsonStr(js: string, key: string, out: array<char>, cap: nat) returns (ok: bool, o: nat)
    requires 1 <= cap <= out.Length
    modifies out
    ensures ok <==> Field(js, key, cap).Some?
    ensures ok ==> o < cap && out[..o] == Field(js, key, cap).value && out[o] == '\0'
    ensures forall k :: cap <= k < out.Length ==> out[k] == old(out[k])
  {
    o := 0;
    var found := AfterFirst(js, Pattern(key));
    if found.None? {
      return false, 0;
    }
    var p, i := found.value, 0;
    assert p[0..] == p;
    while i < |p| && (p[i] == ' ' || p[i] == ':')
      invariant 0 <= i <= |p| && SkipColons(p) == SkipColons(p[i..])
    {
      i := i + 1;
    }
    assert SkipColons(p) == p[i..];
    if i == |p| || p[i] != QUOTE {
      return false, 0;
    }
    assert p[i..][1..] == p[i+1..];
    ok, o := ReadInto(p[i+1..], out, cap);
  }

  lemma PrependOne(a: string, c: char, rest: Option<string>)
    ensures PrependText(a, PrependText([c], rest)) == PrependText(a + [c], rest)
    ensures PrependText("", rest) == rest
  {
    if rest.Some? {
      Assoc(a, [c], rest.value);
      assert "" + rest.value == rest.value;
    }
  }

  /** One step of ReadString. */
  lemma ReadStep(s: string, room: nat)
    requires s != "" && s[0] != QUOTE
    ensures var escaped := s[0] == BACKSLASH;
            escaped && |s| < 2 ==> ReadString(s, room) == None
    ensures var escaped := s[0] == BACKSLASH;
            !(escaped && |s| < 2) ==>
              var c := if escaped then Unescaped(s[1]) else Some(s[0]);
              ReadString(s, room) == if c.None? || room == 0 then None
                                     else PrependText([c.value], ReadString(s[if escaped then 2 else 1..], room - 1))
  {}

  /** The copying loop of json_str. */
  method ReadInto(p: string, out: array<char>, cap: nat) returns (ok: bool, o: nat)
    requires 1 <= cap <= out.Length
    modifies out
    ensures ok <==> ReadString(p, cap - 1).Some?
    ensures ok ==> o < cap && out[..o] == ReadString(p, cap - 1).value && out[o] == '\0'
    ensures forall k :: cap <= k < out.Length ==> out[k] == old(out[k])
  {
    var i := 0;
    o := 0;
    assert p[0..] == p;
    PrependOne("", ' ', ReadString(p, cap - 1));
    while i < |p| && p[i] != QUOTE
      invariant 0 <= i <= |p| && 0 <= o < cap
      invariant ReadString(p, cap - 1) == PrependText(out[..o], ReadString(p[i..], cap - 1 - o))
      invariant forall k :: cap <= k < out.Length ==> out[k] == old(out[k])
    {
      hide ReadString;
      ReadStep(p[i..], cap - 1 - o);
      ghost var before := out[..o];
      var c := p[i];
      i := i + 1;
      if c == BACKSLASH {
        if i == |p| {
          return false, 0;
        }
        var known := Unescaped(p[i]);
        i := i + 1;
        if known.None? {
          return false, 0;
        }
        c := known.value;
      }
      if o + 1 >= cap {
        return false, 0;
      }
      PrependOne(before, c, ReadString(p[i..], cap - 2 - o));
      out[o] := c;
      assert out[..o+1] == before + [c];
      o := o + 1;
    }
    if i == |p| {
      return false, 0;
    }
    assert out[..o] + "" == out[..o];
    out[o] := '\0';
    ok := true;
  }

  // ---- hea_complete -------------------------------------------------------------------

  const HEA_E_REJECTED: int := -1
  const HEA_E_FORMAT: int := -2
  const HEA_E_INTEGRITY: int := -3
  const HEA_E_EPOCH: int := -4

  datatype Device = Device(serverId: string, kStar: seq<byte>)
  datatype Pending = Pending(pid: seq<byte>, ni: seq<byte>, epoch: nat)

  /** Decryption of (iv, associated data, ciphertext, tag): the plaintext, or None when
      the tag does not match. */
  type Gcm = (seq<byte>, seq<byte>, seq<byte>, seq<byte>) -> Option<seq<byte>>

  /** Overrun: the key input does not fit its buffer, and C says nothing of what follows. */
  datatype Outcome = Failed(code: int) | KeyInput(ikm: seq<byte>) | Overrun

  const KEY_LEN: nat := 32
  const NONCE_LEN: nat := 16
  const NJ_MAX: nat := 64
  const IKM_BYTES: nat := KEY_LEN + 64 + 8
  const CT_BYTES: nat := 64

  /** b64_decode into a buffer of `cap` bytes. */
  function DecodeInto(text: string, cap: nat): Option<seq<byte>> {
    if Decode(text).Some? && |Decode(text).value| <= cap then Decode(text) else None
  }

  /** hea_complete, as far as the bytes its session key is derived from. */
  function Complete(d: Device, p: Pending, env: string, gcm: Gcm): Outcome {
    if |env| >= ENVELOPE_BYTES then Failed(HEA_E_FORMAT)
    else if AfterFirst(env, "\"ok\": true").None? && AfterFirst(env, "\"ok\":true").None? then Failed(HEA_E_REJECTED)
    else if ParseReply(env).None? then Failed(HEA_E_FORMAT)
    else FinishReply(d, p, ParseReply(env).value, gcm)
  }

  /** The part after extraction: compare the id, decode, decrypt, compare the epoch. */
  function FinishReply(d: Device, p: Pending, r: Reply, gcm: Gcm): Outcome {
    var iv, tag, ct := DecodeInto(r.nonce, 12), DecodeInto(r.tag, 16), DecodeInto(r.ct, CT_BYTES);
    if r.sid != d.serverId then Failed(HEA_E_FORMAT)
    else if iv.None? || |iv.value| != 12 || tag.None? || |tag.value| != 16 then Failed(HEA_E_FORMAT)
    else if ct.None? || |ct.value| < 8 + 1 then Failed(HEA_E_FORMAT)
    else
      var plain := gcm(iv.value, p.pid + p.ni, ct.value, tag.value);
      if plain.None? then Failed(HEA_E_INTEGRITY)
      else if |plain.value| < 8 || Number(plain.value[|plain.value|-8..]) != p.epoch then Failed(HEA_E_EPOCH)
      else AssembleInput(d.kStar, p.ni, plain.value[..|plain.value|-8], p.epoch)
  }

  /** The guard on N_j, and the four copies. */
  function AssembleInput(kStar: seq<byte>, ni: seq<byte>, nj: seq<byte>, epoch: nat): Outcome {
    if |nj| > NJ_MAX then Failed(HEA_E_FORMAT)
    else if KEY_LEN + NONCE_LEN + |nj| + 8 > IKM_BYTES then Overrun
    else KeyInput(kStar + ni + nj + BigEndian(epoch, 8))
  }

  /** derive_session_key's input: k* || N_i || N_j || t. */
  function PythonKeyInput(kStar: seq<byte>, ni: seq<byte>, nj: seq<byte>, epoch: nat): seq<byte> {
    kStar + ni + nj + BigEndian(epoch, 8)
  }

  lemma BinaryIsPlain(a: seq<byte>)
    ensures Printable(Encode(a)) && NoEscapes(Encode(a)) && |Encode(a)| == 4 * ((|a| + 2) / 3)
    ensures Decode(Encode(a)) == Some(a)
  {
    EncodedIsPlain(a);
    EncodedLength(a);
    RoundTrip(a);
  }

  /** The reply a Python server prints for a server id. */
  function PrintedReply(sid: string, iv: seq<byte>, ct: seq<byte>, tag: seq<byte>): string {
    Envelope(M2Text(sid, Encode(iv), Encode(ct), Encode(tag)))
  }

  lemma EncodedBinary(iv: seq<byte>, ct: seq<byte>, tag: seq<byte>)
    ensures BinaryFields(Encode(iv), Encode(ct), Encode(tag))
  {
    hide Encode, Decode, Printable, NoEscapes;
    BinaryIsPlain(iv);
    BinaryIsPlain(ct);
    BinaryIsPlain(tag);
  }

  lemma DecodesOwn(a: seq<byte>, cap: nat)
    ensures DecodeInto(Encode(a), cap) == if |a| <= cap then Some(a) else None
  {
    RoundTrip(a);
    hide Encode, Decode;
  }

  lemma EncodedFits(sid: string, iv: seq<byte>, ct: seq<byte>, tag: seq<byte>)
    requires Printable(sid) && |iv| == 12 && |tag| == 16 && |ct| <= 64
    ensures Fits(sid, Encode(iv), Encode(ct), Encode(tag)) <==> |sid| < 32
  {
    EncodedBinary(iv, ct, tag);
    EncodedLength(iv);
    EncodedLength(ct);
    EncodedLength(tag);
    hide Encode, M2Text, Envelope, Printable, NoEscapes;
    if |sid| < 32 { ShortFits(sid, Encode(iv), Encode(ct), Encode(tag)); }
  }

  /** For every printable server id and every ciphertext the C device has room for, it
      recovers the four fields exactly when the id is short and clean. */
  lemma FieldsRoundTrip(sid: string, iv: seq<byte>, ct: seq<byte>, tag: seq<byte>)
    requires Printable(sid) && |iv| == 12 && |tag| == 16 && |ct| <= 64
    ensures ParseReply(PrintedReply(sid, iv, ct, tag))
         == if |sid| < 32 && Clean(sid) then Some(Reply(sid, Encode(iv), Encode(ct), Encode(tag))) else None
    ensures DecodeInto(Encode(iv), 12) == Some(iv) && DecodeInto(Encode(tag), 16) == Some(tag)
    ensures DecodeInto(Encode(ct), CT_BYTES) == Some(ct)
  {
    hide Encode, DecodeInto, M2Text, Envelope, Clean, ParseReply, Fits, BinaryFields;
    EncodedBinary(iv, ct, tag);
    EncodedFits(sid, iv, ct, tag);
    ParsesExactly(sid, Encode(iv), Encode(ct), Encode(tag));
    DecodesOwn(iv, 12);
    DecodesOwn(tag, 16);
    DecodesOwn(ct, 64);
  }

  /** Ids that are not clean exist: a later key by name, or one after a quote. */
  lemma UncleanIds()
    ensures !Clean("ct") && !Clean("a\"tag") && Clean("server-A")
  {
    assert QuoteFree("ct");
    var s := "a\"tag";
    assert s[1] == QUOTE && s[1] in s;
    assert s[1..] == "\"tag" && s[1..][0] == QUOTE && s[1..][0] in s[1..];
    assert s[1..][1..] == "tag" && QuoteFree("tag");
    assert Tail(s) == Tail(s[1..]) == Tail("tag") == "tag";
    assert QuoteFree("server-A");
  }

  lemma SaysOkAndFits(sid: string, iv: seq<byte>, ct: seq<byte>, tag: seq<byte>)
    requires Printable(sid) && |sid| < ID_MAX && |iv| == 12 && |tag| == 16 && |ct| <= CT_BYTES
    ensures AfterFirst(PrintedReply(sid, iv, ct, tag), "\"ok\": true").Some?
    ensures |PrintedReply(sid, iv, ct, tag)| < ENVELOPE_BYTES
  {
    BinaryIsPlain(iv);
    BinaryIsPlain(ct);
    BinaryIsPlain(tag);
    hide Encode, Decode, M2Text, Envelope;
    TextSize(sid, Encode(iv), Encode(ct), Encode(tag));
    SaysOk(M2Text(sid, Encode(iv), Encode(ct), Encode(tag)));
  }

  /** Given the reply of its own server to its own request, with N_j of any length the
      ciphertext buffer holds: the C device arrives at the very bytes the Python server
      derived the session key from, exactly when the server id is clean and N_j is 1 to
      48 bytes long. Of longer ones the copies leave the buffer; else it is a format error. */
  lemma SameKeyInput(d: Device, p: Pending, iv: seq<byte>, ct: seq<byte>, tag: seq<byte>, nj: seq<byte>, gcm: Gcm)
    requires Printable(d.serverId) && |d.serverId| < ID_MAX
    requires |iv| == 12 && |tag| == 16 && p.epoch < TWO_64
    requires |ct| == |nj| + 8 <= CT_BYTES
    requires gcm(iv, p.pid + p.ni, ct, tag) == Some(nj + BigEndian(p.epoch, 8))
    ensures Complete(d, p, PrintedReply(d.serverId, iv, ct, tag), gcm)
         == if !Clean(d.serverId) || nj == [] then Failed(HEA_E_FORMAT)
            else if |nj| <= 48 then KeyInput(PythonKeyInput(d.kStar, p.ni, nj, p.epoch))
            else Overrun
  {
    FieldsRoundTrip(d.serverId, iv, ct, tag);
    SaysOkAndFits(d.serverId, iv, ct, tag);
    hide ParseReply, PrintedReply, DecodeInto, AfterFirst, Clean, Encode, FinishReply, PythonKeyInput;
    FinishOwnReply(d, p, iv, ct, tag, nj, gcm);
  }

  lemma FinishOwnReply(d: Device, p: Pending, iv: seq<byte>, ct: seq<byte>, tag: seq<byte>, nj: seq<byte>, gcm: Gcm)
    requires |iv| == 12 && |tag| == 16 && |ct| == |nj| + 8 <= CT_BYTES && p.epoch < TWO_64
    requires gcm(iv, p.pid + p.ni, ct, tag) == Some(nj + BigEndian(p.epoch, 8))
    ensures FinishReply(d, p, Reply(d.serverId, Encode(iv), Encode(ct), Encode(tag)), gcm)
         == if nj == [] then Failed(HEA_E_FORMAT)
            else if |nj| <= 48 then KeyInput(PythonKeyInput(d.kStar, p.ni, nj, p.epoch))
            else Overrun
  {
    RoundTrip(iv);
    RoundTrip(ct);
    RoundTrip(tag);
    U64RoundTrip(p.epoch, []);
    hide Encode, Decode, Number, BigEndian;
    var plain := nj + BigEndian(p.epoch, 8);
    assert plain[|plain|-8..] == BigEndian(p.epoch, 8) && plain[..|plain|-8] == nj;
  }

  /** AES-GCM keeps the length. */
  ghost predicate KeepsLength(gcm: Gcm) {
    forall iv, aad, ct, tag :: gcm(iv, aad, ct, tag).Some? ==> |gcm(iv, aad, ct, tag).value| == |ct|
  }

  /** Whatever the reply: the copies leave the buffer exactly when the device has accepted
      the tag and the epoch of a ciphertext longer than 56 bytes. The guard never fires. */
  lemma LeavesBufferExactly(d: Device, p: Pending, r: Reply, gcm: Gcm)
    requires KeepsLength(gcm)
    ensures var out := FinishReply(d, p, r, gcm);
            var iv, tag, ct := DecodeInto(r.nonce, 12), DecodeInto(r.tag, 16), DecodeInto(r.ct, CT_BYTES);
            out.Overrun? <==>
              && r.sid == d.serverId && iv.Some? && |iv.value| == 12 && tag.Some? && |tag.value| == 16
              && ct.Some? && |ct.value| > 56
              && var plain := gcm(iv.value, p.pid + p.ni, ct.value, tag.value);
              && plain.Some? && Number(plain.value[|ct.value|-8..]) == p.epoch
  {
    hide Decode, Number, BigEndian;
  }

  // ---- Every outcome -----------------------------------------------------------------------

  /** What should come of extracted fields: a format error for another server's id or a wrong
      length; then a wrong tag, then a wrong epoch; then the key input, if it has room. */
  ghost function Verdict(d: Device, p: Pending, sid: string, iv: seq<byte>, ct: seq<byte>, tag: seq<byte>,
                         gcm: Gcm): Outcome
    requires KeepsLength(gcm)
  {
    if sid != d.serverId || |iv| != 12 || |tag| != 16 || |ct| < 9 || |ct| > 64 then Failed(-2)
    else
      var plain := gcm(iv, p.pid + p.ni, ct, tag);
      if plain.None? then Failed(-3)
      else
        var (nj, epoch) := (plain.value[..|ct|-8], plain.value[|ct|-8..]);
        if Number(epoch) != p.epoch then Failed(-4)
        else if |nj| <= 48 then KeyInput(d.kStar + p.ni + nj + epoch)
        else Overrun
  }

  lemma FinishExactly(d: Device, p: Pending, sid: string, iv: seq<byte>, ct: seq<byte>, tag: seq<byte>, gcm: Gcm)
    requires KeepsLength(gcm)
    ensures FinishReply(d, p, Reply(sid, Encode(iv), Encode(ct), Encode(tag)), gcm)
        == Verdict(d, p, sid, iv, ct, tag, gcm)
  {
    DecodesOwn(iv, 12);
    DecodesOwn(tag, 16);
    DecodesOwn(ct, 64);
    hide Encode, DecodeInto, Number, BigEndian;
    var plain := gcm(iv, p.pid + p.ni, ct, tag);
    if 9 <= |ct| && plain.Some? {
      assert |plain.value| == |ct|;
      U64RoundTrip(p.epoch, plain.value[|ct|-8..]);
    }
    hide KeepsLength;
  }

  lemma CompletesParsed(d: Device, p: Pending, sid: string, nonce: string, ct: string, tag: string, gcm: Gcm)
    requires Printable(sid) && BinaryFields(nonce, ct, tag)
    ensures Complete(d, p, Envelope(M2Text(sid, nonce, ct, tag)), gcm)
         == if Fits(sid, nonce, ct, tag) && Clean(sid) then FinishReply(d, p, Reply(sid, nonce, ct, tag), gcm)
            else Failed(-2)
  {
    hide M2Text, Envelope, AfterFirst, Clean, FinishReply, ParseReply, BinaryFields, Printable;
    SaysOk(M2Text(sid, nonce, ct, tag));
    ParsesExactly(sid, nonce, ct, tag);
  }

  /** hea_complete on every M2 a Python server prints, for any id, IV, ciphertext and tag: a
      format error when the text does not fit or the id hides a key, and else the verdict. */
  lemma CompletesExactly(d: Device, p: Pending, sid: string, iv: seq<byte>, ct: seq<byte>, tag: seq<byte>, gcm: Gcm)
    requires Printable(sid) && KeepsLength(gcm)
    ensures Complete(d, p, PrintedReply(sid, iv, ct, tag), gcm)
         == if Fits(sid, Encode(iv), Encode(ct), Encode(tag)) && Clean(sid) then Verdict(d, p, sid, iv, ct, tag, gcm)
            else Failed(-2)
  {
    hide Encode, M2Text, Envelope, Clean, Fits, FinishReply, Complete, Verdict, BinaryFields, KeepsLength;
    EncodedBinary(iv, ct, tag);
    CompletesParsed(d, p, sid, Encode(iv), Encode(ct), Encode(tag), gcm);
    FinishExactly(d, p, sid, iv, ct, tag, gcm);
  }

  /** The device reports a refusal exactly when the envelope fits and says nowhere, with or
      without a blank, that the reply is fine. */
  lemma RefusesExactly(d: Device, p: Pending, env: string, gcm: Gcm)
    ensures Complete(d, p, env, gcm) == Failed(-1) <==>
              |env| < 1024 && forall k :: !OccursAt(env, "\"ok\": true", k) && !OccursAt(env, "\"ok\":true", k)
  {
    var i := FirstOccurrence(env, "\"ok\": true");
    var j := FirstOccurrence(env, "\"ok\":true");
    hide AfterFirst, ParseReply, FinishReply;
    if ParseReply(env).Some? { FinishNeverRefuses(d, p, ParseReply(env).value, gcm); }
  }

  lemma FinishNeverRefuses(d: Device, p: Pending, r: Reply, gcm: Gcm)
    ensures FinishReply(d, p, r, gcm) != Failed(-1)
  {
    hide DecodeInto, Number, BigEndian;
  }

  /** So every refusal Python prints is reported as one, whatever its texts say. */
  lemma RefusalReported(d: Device, p: Pending, error: string, message: string, gcm: Gcm)
    ensures Complete(d, p, ErrorEnvelope(error, message), gcm)
         == if |ErrorEnvelope(error, message)| < 1024 then Failed(-1) else Failed(-2)
  {
    RefusalNeverOk(error, message);
    hide AfterFirst, ErrorEnvelope, ParseReply, FinishReply;
  }

  function Zeros(n: nat): (s: seq<byte>)
    ensures |s| == n
  {
    seq(n, _ => 0)
  }

  /** The least such reply: 57 bytes of ciphertext, for an N_j of 49. */
  lemma FiftySevenBytes(d: Device, p: Pending, gcm: Gcm)
    requires d.serverId == "server-A" && p.epoch < TWO_64
    requires gcm(Zeros(12), p.pid + p.ni, Zeros(57), Zeros(16)) == Some(Zeros(49) + BigEndian(p.epoch, 8))
    ensures Complete(d, p, PrintedReply("server-A", Zeros(12), Zeros(57), Zeros(16)), gcm) == Overrun
  {
    hide Zeros, Complete, PrintedReply, BigEndian, Clean;
    UncleanIds();
    assert Printable("server-A");
    SameKeyInput(d, p, Zeros(12), Zeros(57), Zeros(16), Zeros(49), gcm);
    assert Zeros(49) != [];
  }

  // ---- The key-input buffer -------------------------------------------------------------

  /** memcpy, or nothing at all when the bytes would leave the buffer. */
  method CopyAt(buf: array<byte>, at: nat, bytes: seq<byte>) returns (inside: bool)
    modifies buf
    ensures inside <==> at + |bytes| <= buf.Length
    ensures inside ==> buf[at..at + |bytes|] == bytes
    ensures forall k :: 0 <= k < buf.Length && !(inside && at <= k < at + |bytes|) ==> buf[k] == old(buf[k])
  {
    if at + |bytes| > buf.Length {
      return false;
    }
    forall i | 0 <= i < |bytes| { buf[at + i] := bytes[i]; }
    inside := true;
  }

  /** Guard and copies of hea_complete: the buffer receives the key input exactly when
      N_j has at most 48 bytes; of 49 to 64, which the guard admits, a copy leaves it. */
  method WriteKeyInput(ikm: array<byte>, kStar: seq<byte>, ni: seq<byte>, nj: seq<byte>, epoch: nat)
    returns (out: Outcome)
    requires ikm.Length == IKM_BYTES && |kStar| == KEY_LEN && |ni| == NONCE_LEN && epoch < TWO_64
    modifies ikm
    ensures out == AssembleInput(kStar, ni, nj, epoch)
    ensures out.KeyInput? <==> |nj| <= 48
    ensures out.Overrun? <==> 48 < |nj| <= 64
    ensures out.KeyInput? ==>
              && out.ikm == PythonKeyInput(kStar, ni, nj, epoch)
              && |out.ikm| == 56 + |nj| && ikm[..56 + |nj|] == out.ikm
              && ikm[..32] == kStar && ikm[32..48] == ni && ikm[48..48 + |nj|] == nj
              && Number(ikm[48 + |nj|..56 + |nj|]) == epoch
  {
    if |nj| > NJ_MAX {
      return Failed(HEA_E_FORMAT);
    }
    hide BigEndian;
    var inside := CopyAt(ikm, 0, kStar);
    inside := CopyAt(ikm, KEY_LEN, ni);
    assert ikm[..48] == kStar + ni;
    inside := CopyAt(ikm, 48, nj);
    if !inside {
      return Overrun;
    }
    assert ikm[..48 + |nj|] == ikm[..48] + ikm[48..48 + |nj|];
    ghost var pieces := ikm[..48 + |nj|];
    assert pieces == kStar + ni + nj;
    inside := CopyAt(ikm, 48 + |nj|, BigEndian(epoch, 8));
    if !inside {
      return Overrun;
    }
    assert ikm[..48 + |nj|] == pieces;
    assert ikm[..56 + |nj|] == ikm[..48 + |nj|] + ikm[48 + |nj|..56 + |nj|];
    out := KeyInput(ikm[..56 + |nj|]);
    U64RoundTrip(epoch, []);
    assert ikm[..32] == pieces[..32] && ikm[32..48] == pieces[32..48] && ikm[48..48 + |nj|] == pieces[48..48 + |nj|];
  }
}
