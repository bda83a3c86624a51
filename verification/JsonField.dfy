/** The JSON text of M2 as the Python server prints it (section 7 of RFC 8259), and
    the field extractor of lib/hea_proto/hea_proto.c that has to undo it. */
module JsonField {
  import opened Terms
  import opened Base64

  const QUOTE: char := '"'
  const BACKSLASH: char := '\\'

  predicate Printable(s: string) {
    forall i :: 0 <= i < |s| ==> ' ' <= s[i] <= '~'
  }

  predicate QuoteFree(s: string) {
    QUOTE !in s
  }

  // ---- What Python prints -------------------------------------------------------------

  /** json.dumps of printable ASCII, without the surrounding quotes. */
  function Escape(s: string): string {
    if s == "" then ""
    else (if s[0] == QUOTE || s[0] == BACKSLASH then [BACKSLASH, s[0]] else [s[0]]) + Escape(s[1..])
  }

  /** Texts joined by quotes: every JSON text of this module is built this way. */
  function Quoted(parts: seq<string>): string {
    if parts == [] then "" else if |parts| == 1 then parts[0]
    else parts[0] + ([QUOTE] + Quoted(parts[1..]))
  }

  /** a"rest -- JSON text is written here piece by piece, cut at its quotes. */
  function Q(a: string, rest: string): string {
    a + ([QUOTE] + rest)
  }

  /** value","key":"rest -- a string value, then the next member and what follows. */
  function Then(value: string, key: string, rest: string): string {
    Q(value, Q(",", Q(key, Q(":", rest))))
  }

  /** Message2.to_bytes, the binary fields already in base64:
      {"v":1,"type":"M2","sid":"..","nonce":"..","ct":"..","tag":".."} */
  function M2Text(sid: string, nonce: string, ct: string, tag: string): string {
    Q("{", Q("v", Q(":1,", Q("type", Q(":",
      Then("M2", "sid", Then(Escape(sid), "nonce", Then(nonce, "ct", Then(ct, "tag", Q(tag, "}"))))))))))
  }

  /** build_ok_envelope: {"ok": true, "payload": ".."} */
  function Envelope(payload: string): string {
    Q("{", Q("ok", Q(": true, ", Q("payload", Q(": ", Q(Escape(payload), "}"))))))
  }

  // ---- What the C code reads ------------------------------------------------------------

  /** The text after the first occurrence of `pat`, as strstr finds it. */
  function AfterFirst(s: string, pat: string): Option<string> {
    if pat <= s then Some(s[|pat|..])
    else if s == "" then None
    else AfterFirst(s[1..], pat)
  }

  function Pattern(key: string): string {
    [QUOTE] + key + [QUOTE]
  }

  function SkipColons(s: string): string {
    if s != "" && (s[0] == ' ' || s[0] == ':') then SkipColons(s[1..]) else s
  }

  /** The character an escape stands for, if the extractor knows it. */
  function Unescaped(c: char): Option<char> {
    if c == 'n' then Some('\n')
    else if c == QUOTE || c == BACKSLASH || c == '/' then Some(c) else None
  }

  /** The string up to its closing quote, with room for `room` characters. */
  function ReadString(s: string, room: nat): Option<string>
    decreases |s|
  {
    if s == "" then None
    else if s[0] == QUOTE then Some("")
    else
      var escaped := s[0] == BACKSLASH;
      if escaped && |s| < 2 then None
      else
        var c := if escaped then Unescaped(s[1]) else Some(s[0]);
        if c.None? || room == 0 then None
        else
          var rest := ReadString(s[if escaped then 2 else 1..], room - 1);
          if rest.None? then None else Some([c.value] + rest.value)
  }

  /** json_str with an output buffer of `cap` characters, one of them for the NUL. */
  function Field(js: string, key: string, cap: nat): Option<string>
    requires cap >= 1
  {
    var found := AfterFirst(js, Pattern(key));
    if found.None? then None
    else
      var value := SkipColons(found.value);
      if value == "" || value[0] != QUOTE then None else ReadString(value[1..], cap - 1)
  }

  datatype Reply = Reply(sid: string, nonce: string, ct: string, tag: string)

  const ENVELOPE_BYTES: nat := 1024
  const PAYLOAD_BYTES: nat := 640
  const ID_MAX: nat := 32
  const NONCE_TEXT: nat := 24
  const CT_TEXT: nat := 96
  const TAG_TEXT: nat := 32

  /** The four fields hea_complete extracts, or None where it reports a format error. */
  function ParseReply(env: string): Option<Reply> {
    if |env| >= ENVELOPE_BYTES then None
    else if AfterFirst(env, "\"ok\": true").None? && AfterFirst(env, "\"ok\":true").None? then None
    else
      var payload := Field(env, "payload", PAYLOAD_BYTES);
      if payload.None? then None
      else
        var sid := Field(payload.value, "sid", ID_MAX);
        var nonce := Field(payload.value, "nonce", NONCE_TEXT);
        var ct := Field(payload.value, "ct", CT_TEXT);
        var tag := Field(payload.value, "tag", TAG_TEXT);
        if sid.None? || nonce.None? || ct.None? || tag.None? then None
        else Some(Reply(sid.value, nonce.value, ct.value, tag.value))
  }

  // ---- Reading back one string ------------------------------------------------------------

  lemma {:induction false} ReadsEscaped(v: string, rest: string, room: nat)
    requires Printable(v)
    ensures ReadString(Escape(v) + [QUOTE] + rest, room) == if |v| <= room then Some(v) else None
  {
    var s := Escape(v) + [QUOTE] + rest;
    if v != "" {
      var special := v[0] == QUOTE || v[0] == BACKSLASH;
      var tail := Escape(v[1..]) + [QUOTE] + rest;
      assert s == (if special then [BACKSLASH, v[0]] else [v[0]]) + tail;
      assert s[if special then 2 else 1..] == tail;
      if room > 0 {
        ReadsEscaped(v[1..], rest, room - 1);
      }
      assert v == [v[0]] + v[1..];
    }
  }

  // ---- Finding a key among quoted parts ---------------------------------------------------

  /** The text after the first part that is the key and has another part after it. */
  function Seek(parts: seq<string>, key: string): Option<string> {
    if |parts| < 2 then None
    else if parts[0] == key then Some(Quoted(parts[1..]))
    else Seek(parts[1..], key)
  }

  lemma {:induction false} SkipPlain(part: string, rest: string, key: string)
    requires QuoteFree(part)
    ensures AfterFirst(part + rest, Pattern(key)) == AfterFirst(rest, Pattern(key))
  {
    if part == "" {
      assert part + rest == rest;
    } else {
      assert part[0] in part;
      assert (part + rest)[0] == part[0] && Pattern(key)[0] == QUOTE;
      assert (part + rest)[1..] == part[1..] + rest;
      SkipPlain(part[1..], rest, key);
    }
  }

  /** The only quotes of a quoted quote-free text are its first and last characters. */
  lemma OnlyQuotes(part: string, rest: string)
    requires QuoteFree(part)
    ensures var s := Pattern(part) + rest;
            s[|part|+1] == QUOTE && forall i :: 1 <= i <= |part| ==> s[i] != QUOTE
  {
    var s := Pattern(part) + rest;
    forall i | 1 <= i <= |part| ensures s[i] != QUOTE {
      assert s[i] == part[i-1] && part[i-1] in part;
    }
  }

  /** A quoted key is a prefix of a quoted text only if it is that text. */
  lemma PrefixIsWhole(part: string, rest: string, key: string)
    requires QuoteFree(part) && QuoteFree(key)
    ensures Pattern(key) <= Pattern(part) + rest <==> part == key
  {
    var s := Pattern(part) + rest;
    OnlyQuotes(part, rest);
    if Pattern(key) <= s {
      assert s == Pattern(key) + s[|key|+2..];
      OnlyQuotes(key, s[|key|+2..]);
      assert |key| == |part|;
      assert key == s[1..|key|+1] && part == s[1..|part|+1];
    }
  }

  lemma NoSecondQuote(part: string, key: string)
    requires QuoteFree(part)
    ensures !(Pattern(key) <= [QUOTE] + part)
  {
    var s := [QUOTE] + part;
    if |key| + 2 <= |s| {
      assert s[|key|+1] == part[|key|] && part[|key|] in part;
      assert Pattern(key)[|key|+1] == QUOTE;
    }
  }

  predicate AllQuoteFree(parts: seq<string>) {
    forall i :: 0 <= i < |parts| ==> QuoteFree(parts[i])
  }

  /** strstr for a quoted key finds the first whole part that is the key. */
  lemma {:induction false} FindsWholePart(parts: seq<string>, key: string)
    requires |parts| >= 1 && QuoteFree(key) && AllQuoteFree(parts)
    ensures AfterFirst(Quoted(parts), Pattern(key)) == Seek(parts[1..], key)
  {
    if |parts| == 1 {
      SkipPlain(parts[0], "", key);
      assert parts[0] + "" == parts[0];
    } else {
      var s := [QUOTE] + Quoted(parts[1..]);
      assert Quoted(parts) == parts[0] + s;
      SkipPlain(parts[0], s, key);
      FindsWholePart(parts[1..], key);
      assert s[1..] == Quoted(parts[1..]);
      if |parts| == 2 {
        NoSecondQuote(parts[1], key);
      } else {
        assert s == Pattern(parts[1]) + Quoted(parts[2..]);
        PrefixIsWhole(parts[1], Quoted(parts[2..]), key);
        assert s[|parts[1]|+2..] == Quoted(parts[2..]);
      }
    }
  }

  lemma {:induction false} SeekSkips(a: seq<string>, b: seq<string>, key: string)
    requires key !in a && |b| >= 1
    ensures Seek(a + b, key) == Seek(b, key)
  {
    if a == [] {
      assert a + b == b;
    } else {
      assert (a + b)[1..] == a[1..] + b;
      SeekSkips(a[1..], b, key);
    }
  }

  lemma {:induction false} QuotedConcat(a: seq<string>, b: seq<string>)
    requires |a| >= 1 && |b| >= 1
    ensures Quoted(a + b) == Quoted(a) + ([QUOTE] + Quoted(b))
  {
    assert (a + b)[1..] == a[1..] + b;
    if |a| > 1 {
      QuotedConcat(a[1..], b);
      var u, v := Quoted(a[1..]), [QUOTE] + Quoted(b);
      assert Quoted(a + b) == a[0] + ([QUOTE] + (u + v));
      Assoc([QUOTE], u, v);
      Assoc(a[0], [QUOTE] + u, v);
    }
  }

  // ---- The parts of an escaped string --------------------------------------------------

  /** An escaped text, cut at its quotes. */
  function EscapeParts(s: string): (parts: seq<string>)
    ensures |parts| >= 1
  {
    if s == "" then [""]
    else
      var rest := EscapeParts(s[1..]);
      if s[0] == QUOTE then [[BACKSLASH]] + rest
      else if s[0] == BACKSLASH then [[BACKSLASH, BACKSLASH] + rest[0]] + rest[1..]
      else [[s[0]] + rest[0]] + rest[1..]
  }

  /** What comes after the last quote of s; all of s if there is none. */
  function Tail(s: string): string {
    if QuoteFree(s) then s else Tail(s[1..])
  }

  lemma PrefixFirst(x: string, parts: seq<string>)
    requires |parts| >= 1
    ensures Quoted([x + parts[0]] + parts[1..]) == x + Quoted(parts)
  {
    if |parts| > 1 {
      assert ([x + parts[0]] + parts[1..])[1..] == parts[1..];
      Assoc(x, parts[0], [QUOTE] + Quoted(parts[1..]));
    }
  }

  lemma {:induction false} PartsOfEscape(s: string)
    ensures Quoted(EscapeParts(s)) == Escape(s)
    ensures AllQuoteFree(EscapeParts(s))
  {
    if s != "" {
      var rest := EscapeParts(s[1..]);
      PartsOfEscape(s[1..]);
      if s[0] == QUOTE {
        assert ([[BACKSLASH]] + rest)[1..] == rest;
      } else {
        PrefixFirst(if s[0] == BACKSLASH then [BACKSLASH, BACKSLASH] else [s[0]], rest);
      }
    }
  }

  predicate EndsEscaped(part: string) {
    part != "" && part[|part|-1] == BACKSLASH
  }

  /** Every part but the last ends with the backslash of an escaped quote ... */
  lemma {:induction false} InnerParts(s: string)
    ensures forall i :: 0 <= i < |EscapeParts(s)| - 1 ==> EndsEscaped(EscapeParts(s)[i])
  {
    if s != "" {
      InnerParts(s[1..]);
      EscapeStep(s);
      hide EscapeParts;
    }
  }

  /** ... and the last is the escaped tail. */
  lemma {:induction false} LastPart(s: string)
    ensures EscapeParts(s)[|EscapeParts(s)|-1] == Escape(Tail(s))
  {
    if s != "" {
      LastPart(s[1..]);
      TailStep(s);
      EscapeStep(s);
      if |EscapeParts(s[1..])| == 1 { TailWhole(s[1..]); }
      hide Tail, EscapeParts, Escape;
    }
  }

  lemma EscapeStep(s: string)
    requires s != ""
    ensures var rest := EscapeParts(s[1..]);
            var x := if s[0] == BACKSLASH then [BACKSLASH, BACKSLASH] else [s[0]];
            EscapeParts(s) == (if s[0] == QUOTE then [[BACKSLASH]] + rest else [x + rest[0]] + rest[1..])
            && (s[0] != QUOTE ==> Escape(s) == x + Escape(s[1..]))
  {}

  lemma TailWhole(s: string)
    requires |EscapeParts(s)| == 1
    ensures Tail(s) == s
  {
    if s != "" { TailStep(s); }
  }

  lemma TailStep(s: string)
    requires s != ""
    ensures s[0] == QUOTE ==> Tail(s) == Tail(s[1..]) && |EscapeParts(s)| > 1
    ensures s[0] != QUOTE ==> Tail(s) == if |EscapeParts(s)| == 1 then s else Tail(s[1..])
    ensures |EscapeParts(s)| == 1 <==> QuoteFree(s)
  {
    if |s| > 1 { TailStep(s[1..]); }
    if s[0] == QUOTE { assert s[0] in s; }
    assert QuoteFree(s) <==> s[0] != QUOTE && QuoteFree(s[1..]);
  }

  predicate NoEscapes(s: string) {
    forall i :: 0 <= i < |s| ==> s[i] != QUOTE && s[i] != BACKSLASH
  }

  lemma {:induction false} EscapePlain(s: string)
    ensures NoEscapes(s) ==> Escape(s) == s
    ensures NoEscapes(Escape(s)) ==> NoEscapes(s)
  {
    if s != "" {
      EscapePlain(s[1..]);
      var rest, k := Escape(s[1..]), |Escape(s)| - |Escape(s[1..])|;
      assert Escape(s)[k..] == rest;
      if NoEscapes(Escape(s)) {
        assert Escape(s)[0] == if s[0] == QUOTE || s[0] == BACKSLASH then BACKSLASH else s[0];
        forall i | 0 <= i < |rest| ensures rest[i] != QUOTE && rest[i] != BACKSLASH {
          assert rest[i] == Escape(s)[k + i];
        }
        assert s == [s[0]] + s[1..];
      }
    }
  }

  /** A plain key shows up among the parts of an escaped text exactly when it is the
      text's tail, and then only as the last part. */
  lemma KeyAmongParts(s: string, key: string)
    requires NoEscapes(key) && key != ""
    ensures var parts := EscapeParts(s);
            && key !in parts[..|parts|-1]
            && (parts[|parts|-1] == key <==> Tail(s) == key)
  {
    var parts := EscapeParts(s);
    InnerParts(s);
    LastPart(s);
    hide EscapeParts, Tail;
    EscapePlain(Tail(s));
    EscapePlain(key);
    forall i | 0 <= i < |parts| - 1 ensures parts[i] != key {
      assert EndsEscaped(parts[i]);
    }
  }

  // ---- Reading a field that was found -----------------------------------------------------

  /** json_str once the key is found: skip to the value and read it. */
  function ReadValue(found: Option<string>, cap: nat): Option<string>
    requires cap >= 1
  {
    if found.None? then None
    else
      var value := SkipColons(found.value);
      if value == "" || value[0] != QUOTE then None else ReadString(value[1..], cap - 1)
  }

  lemma SkipsToQuote(colon: string, value: string)
    requires colon == ":" || colon == ": "
    requires value != "" && value[0] == QUOTE
    ensures SkipColons(colon + value) == value
  {
    assert SkipColons(value) == value;
    if colon == ":" {
      assert (colon + value)[1..] == value;
    } else {
      assert (colon + value)[1..] == " " + value;
      assert (" " + value)[1..] == value;
    }
  }

  /** The text after a key: colon, quote, value, quote, and the rest. */
  lemma ValueText(colon: string, v: string, parts: seq<string>, rest: seq<string>)
    requires |parts| >= 1 && Quoted(parts) == Escape(v) && |rest| >= 1
    ensures Quoted([colon] + (parts + rest)) == colon + ([QUOTE] + (Escape(v) + [QUOTE] + Quoted(rest)))
  {
    QuotedConcat([colon], parts + rest);
    QuotedConcat(parts, rest);
    SingleQuoted(colon);
    hide Quoted, Escape;
    Assoc(Escape(v), [QUOTE], Quoted(rest));
  }

  lemma ReadsValue(colon: string, v: string, parts: seq<string>, rest: seq<string>, cap: nat)
    requires colon == ":" || colon == ": "
    requires Printable(v) && |parts| >= 1 && Quoted(parts) == Escape(v) && |rest| >= 1 && cap >= 1
    ensures ReadValue(Some(Quoted([colon] + (parts + rest))), cap) == if |v| < cap then Some(v) else None
  {
    hide Quoted, SkipColons, ReadString, Escape, Printable;
    var inner := Escape(v) + [QUOTE] + Quoted(rest);
    ValueText(colon, v, parts, rest);
    SkipsToQuote(colon, [QUOTE] + inner);
    assert ([QUOTE] + inner)[1..] == inner;
    ReadsEscaped(v, Quoted(rest), cap - 1);
  }

  lemma NoValueAfterComma(rest: seq<string>, cap: nat)
    requires |rest| >= 1 && cap >= 1
    ensures ReadValue(Some(Quoted([","] + rest)), cap) == None
  {
    QuotedConcat([","], rest);
    assert Quoted([","]) == ",";
    assert Quoted([","] + rest)[0] == ',';
  }

  // ---- M2 ---------------------------------------------------------------------------------

  function NextKey(key: string, rest: seq<string>): (parts: seq<string>)
    ensures |parts| == |rest| + 3
  {
    [","] + ([key] + ([":"] + rest))
  }

  lemma QuotedCons(part: string, rest: seq<string>)
    requires |rest| >= 1
    ensures Quoted([part] + rest) == Q(part, Quoted(rest))
  {
    assert ([part] + rest)[1..] == rest;
  }

  lemma ThenParts(parts: seq<string>, key: string, rest: seq<string>)
    requires |parts| >= 1 && |rest| >= 1
    ensures Quoted(parts + NextKey(key, rest)) == Then(Quoted(parts), key, Quoted(rest))
  {
    QuotedConcat(parts, NextKey(key, rest));
    hide Quoted;
    QuotedCons(",", [key] + ([":"] + rest));
    QuotedCons(key, [":"] + rest);
    QuotedCons(":", rest);
  }

  /** The parts from the tag on, from the ciphertext on, and so on backwards. */
  function TagParts(tag: string): seq<string> { [tag] + ["}"] }
  function CtParts(ct: string, tag: string): seq<string> { [ct] + NextKey("tag", TagParts(tag)) }
  function NonceParts(nonce: string, ct: string, tag: string): seq<string> { [nonce] + NextKey("ct", CtParts(ct, tag)) }
  function SidParts(sid: string, nonce: string, ct: string, tag: string): seq<string> {
    EscapeParts(sid) + NextKey("nonce", NonceParts(nonce, ct, tag))
  }
  function M2Parts(sid: string, nonce: string, ct: string, tag: string): seq<string> {
    ["{"] + (["v"] + ([":1,"] + (["type"] + ([":"] + (["M2"] + NextKey("sid", SidParts(sid, nonce, ct, tag)))))))
  }

  lemma M2TextIsQuoted(sid: string, nonce: string, ct: string, tag: string)
    ensures Quoted(M2Parts(sid, nonce, ct, tag)) == M2Text(sid, nonce, ct, tag)
  {
    hide Quoted, Escape, EscapeParts, Then, NextKey, Q;
    QuotedCons(tag, ["}"]);
    SingleQuoted("}");
    SingleQuoted(nonce);
    SingleQuoted(ct);
    SingleQuoted("M2");
    PartsOfEscape(sid);
    ThenParts([ct], "tag", TagParts(tag));
    ThenParts([nonce], "ct", CtParts(ct, tag));
    ThenParts(EscapeParts(sid), "nonce", NonceParts(nonce, ct, tag));
    ThenParts(["M2"], "sid", SidParts(sid, nonce, ct, tag));
    M2Opening(["M2"] + NextKey("sid", SidParts(sid, nonce, ct, tag)));
  }

  lemma SingleQuoted(part: string)
    ensures Quoted([part]) == part
  {}

  lemma M2Opening(rest: seq<string>)
    requires |rest| >= 1
    ensures Quoted(["{"] + (["v"] + ([":1,"] + (["type"] + ([":"] + rest)))))
        == Q("{", Q("v", Q(":1,", Q("type", Q(":", Quoted(rest))))))
  {
    hide Quoted, Q;
    QuotedCons("{", ["v"] + ([":1,"] + (["type"] + ([":"] + rest))));
    QuotedCons("v", [":1,"] + (["type"] + ([":"] + rest)));
    QuotedCons(":1,", ["type"] + ([":"] + rest));
    QuotedCons("type", [":"] + rest);
    QuotedCons(":", rest);
  }

  /** Identities for which no key of M2 hides in the sid value. */
  predicate Clean(sid: string) {
    Tail(sid) != "nonce" && Tail(sid) != "ct" && Tail(sid) != "tag"
  }

  /** Field is: find the key, then read its value. */
  lemma FieldOfParts(parts: seq<string>, key: string, cap: nat)
    requires |parts| >= 1 && QuoteFree(key) && AllQuoteFree(parts) && cap >= 1
    ensures Field(Quoted(parts), key, cap) == ReadValue(Seek(parts[1..], key), cap)
  {
    FindsWholePart(parts, key);
  }

  predicate PlainFields(nonce: string, ct: string, tag: string) {
    && Printable(nonce) && NoEscapes(nonce) && Printable(ct) && NoEscapes(ct) && Printable(tag) && NoEscapes(tag)
  }

  lemma M2PartsQuoteFree(sid: string, nonce: string, ct: string, tag: string)
    requires PlainFields(nonce, ct, tag)
    ensures AllQuoteFree(M2Parts(sid, nonce, ct, tag))
  {
    hide Escape, EscapeParts;
    PartsOfEscape(sid);
    assert AllQuoteFree(TagParts(tag));
    assert AllQuoteFree(CtParts(ct, tag));
    assert AllQuoteFree(NonceParts(nonce, ct, tag));
    assert AllQuoteFree(SidParts(sid, nonce, ct, tag));
  }

  /** Where each key is found. */
  lemma SeekOpening(rest: seq<string>, key: string)
    requires |rest| >= 1 && key != "v" && key != ":1," && key != "type" && key != ":" && key != "M2"
    ensures var parts := ["{"] + (["v"] + ([":1,"] + (["type"] + ([":"] + (["M2"] + rest)))));
            Seek(parts[1..], key) == Seek(rest, key)
  {
    var parts := ["{"] + (["v"] + ([":1,"] + (["type"] + ([":"] + (["M2"] + rest)))));
    assert parts[1..] == ["v", ":1,", "type", ":", "M2"] + rest;
    SeekSkips(["v", ":1,", "type", ":", "M2"], rest, key);
  }

  lemma SeekHead(k: string, rest: seq<string>, key: string)
    requires |rest| >= 1 && key != "," && key != ":"
    ensures Seek(NextKey(k, rest), key) == if k == key then Some(Quoted([":"] + rest)) else Seek(rest, key)
  {
    hide Quoted;
    var tail := [":"] + rest;
    assert tail[1..] == rest && tail[0] == ":";
    assert Seek(tail, key) == Seek(rest, key);
    assert ([k] + tail)[1..] == tail;
    assert NextKey(k, rest)[1..] == [k] + tail;
  }

  lemma SeekNext(part: seq<string>, k: string, rest: seq<string>, key: string)
    requires |rest| >= 1 && key !in part && key != "," && key != ":"
    ensures Seek(part + NextKey(k, rest), key) == if k == key then Some(Quoted([":"] + rest)) else Seek(rest, key)
  {
    SeekSkips(part, NextKey(k, rest), key);
    hide Quoted, NextKey, Seek;
    SeekHead(k, rest, key);
  }

  /** A key inside the sid value is found first exactly when it is the sid's tail. */
  lemma SeekInSid(sid: string, rest: seq<string>, key: string)
    requires NoEscapes(key) && key != "" && |rest| >= 1
    ensures Seek(EscapeParts(sid) + rest, key) == if Tail(sid) == key then Some(Quoted(rest)) else Seek(rest, key)
  {
    KeyAmongParts(sid, key);
    hide EscapeParts, Quoted, Tail;
    var parts := EscapeParts(sid);
    var m := |parts| - 1;
    assert parts + rest == parts[..m] + ([parts[m]] + rest);
    SeekSkips(parts[..m], [parts[m]] + rest, key);
    assert ([parts[m]] + rest)[1..] == rest;
  }

  lemma FieldSid(sid: string, nonce: string, ct: string, tag: string, cap: nat)
    requires Printable(sid) && PlainFields(nonce, ct, tag) && cap >= 1
    ensures Field(M2Text(sid, nonce, ct, tag), "sid", cap) == if |sid| < cap then Some(sid) else None
  {
    var sidParts := SidParts(sid, nonce, ct, tag);
    M2TextIsQuoted(sid, nonce, ct, tag);
    M2PartsQuoteFree(sid, nonce, ct, tag);
    FieldOfParts(M2Parts(sid, nonce, ct, tag), "sid", cap);
    PartsOfEscape(sid);
    hide Quoted, Escape, EscapeParts, Seek, M2Text, Field;
    SeekOpening(NextKey("sid", sidParts), "sid");
    SeekNext([], "sid", sidParts, "sid");
    assert [] + NextKey("sid", sidParts) == NextKey("sid", sidParts);
    ReadsValue(":", sid, EscapeParts(sid), NextKey("nonce", NonceParts(nonce, ct, tag)), cap);
  }

  /** Where the search for a later key arrives: past the opening and the sid. */
  lemma SeekPastSid(sid: string, nonce: string, ct: string, tag: string, key: string)
    requires PlainFields(nonce, ct, tag) && (key == "nonce" || key == "ct" || key == "tag")
    ensures Seek(M2Parts(sid, nonce, ct, tag)[1..], key)
         == if Tail(sid) == key then Some(Quoted(NextKey("nonce", NonceParts(nonce, ct, tag))))
            else Seek(NextKey("nonce", NonceParts(nonce, ct, tag)), key)
  {
    hide Quoted, Escape, EscapeParts, Seek, NextKey, Tail;
    var sidParts := SidParts(sid, nonce, ct, tag);
    SeekOpening(NextKey("sid", sidParts), key);
    SeekNext([], "sid", sidParts, key);
    assert [] + NextKey("sid", sidParts) == NextKey("sid", sidParts);
    SeekInSid(sid, NextKey("nonce", NonceParts(nonce, ct, tag)), key);
  }

  /** The value of a key found at the sid's tail cannot be read. */
  lemma FieldHidden(sid: string, nonce: string, ct: string, tag: string, key: string, cap: nat)
    requires PlainFields(nonce, ct, tag) && cap >= 1
    requires Tail(sid) == key && (key == "nonce" || key == "ct" || key == "tag")
    ensures Field(M2Text(sid, nonce, ct, tag), key, cap) == None
  {
    M2TextIsQuoted(sid, nonce, ct, tag);
    M2PartsQuoteFree(sid, nonce, ct, tag);
    FieldOfParts(M2Parts(sid, nonce, ct, tag), key, cap);
    SeekPastSid(sid, nonce, ct, tag, key);
    NoValueAfterComma(["nonce"] + ([":"] + NonceParts(nonce, ct, tag)), cap);
  }

  /** Binary fields: printable, nothing to escape, and of a length no key has. */
  predicate BinaryFields(nonce: string, ct: string, tag: string) {
    PlainFields(nonce, ct, tag) && |nonce| % 4 == 0 && |ct| % 4 == 0 && |tag| % 4 == 0
  }

  lemma FieldLater(sid: string, nonce: string, ct: string, tag: string, key: string, cap: nat)
    requires BinaryFields(nonce, ct, tag) && cap >= 1
    requires Tail(sid) != key && (key == "nonce" || key == "ct" || key == "tag")
    ensures var v := if key == "nonce" then nonce else if key == "ct" then ct else tag;
            Field(M2Text(sid, nonce, ct, tag), key, cap) == if |v| < cap then Some(v) else None
  {
    M2TextIsQuoted(sid, nonce, ct, tag);
    M2PartsQuoteFree(sid, nonce, ct, tag);
    FieldOfParts(M2Parts(sid, nonce, ct, tag), key, cap);
    hide Field, M2Text, M2Parts;
    SeekPastSid(sid, nonce, ct, tag, key);
    hide Tail;
    SeekBinary(nonce, ct, tag, key);
    EscapePlain(nonce);
    EscapePlain(ct);
    EscapePlain(tag);
    ReadsValue(":", nonce, [nonce], NextKey("ct", CtParts(ct, tag)), cap);
    ReadsValue(":", ct, [ct], NextKey("tag", TagParts(tag)), cap);
    ReadsValue(":", tag, [tag], ["}"], cap);
  }

  lemma SeekBinary(nonce: string, ct: string, tag: string, key: string)
    requires BinaryFields(nonce, ct, tag) && (key == "nonce" || key == "ct" || key == "tag")
    ensures Seek(NextKey("nonce", NonceParts(nonce, ct, tag)), key)
         == Some(Quoted([":"] + (if key == "nonce" then NonceParts(nonce, ct, tag)
                                 else if key == "ct" then CtParts(ct, tag) else TagParts(tag))))
  {
    hide Quoted, Seek, NextKey;
    SeekNext([], "nonce", NonceParts(nonce, ct, tag), key);
    assert [] + NextKey("nonce", NonceParts(nonce, ct, tag)) == NextKey("nonce", NonceParts(nonce, ct, tag));
    SeekNext([nonce], "ct", CtParts(ct, tag), key);
    SeekNext([ct], "tag", TagParts(tag), key);
  }

  // ---- The envelope -----------------------------------------------------------------------

  lemma {:induction false} EscapeSize(s: string)
    ensures |s| <= |Escape(s)| <= 2 * |s|
    ensures Printable(s) ==> Printable(Escape(s))
  {
    if s != "" { EscapeSize(s[1..]); }
  }

  lemma TextSize(sid: string, nonce: string, ct: string, tag: string)
    requires Printable(sid) && PlainFields(nonce, ct, tag)
    ensures |M2Text(sid, nonce, ct, tag)| <= 2 * |sid| + |nonce| + |ct| + |tag| + 60
    ensures Printable(M2Text(sid, nonce, ct, tag))
  {
    EscapeSize(sid);
    hide Escape;
    PrintableQ(tag, "}");
    PrintableThen(ct, "tag", Q(tag, "}"));
    var fromCt := Then(ct, "tag", Q(tag, "}"));
    PrintableThen(nonce, "ct", fromCt);
    var fromNonce := Then(nonce, "ct", fromCt);
    PrintableThen(Escape(sid), "nonce", fromNonce);
    var fromSid := Then(Escape(sid), "nonce", fromNonce);
    PrintableThen("M2", "sid", fromSid);
    PrintableOpening(Then("M2", "sid", fromSid));
  }

  lemma PrintableQ(a: string, rest: string)
    requires Printable(a) && Printable(rest)
    ensures Printable(Q(a, rest)) && |Q(a, rest)| == |a| + 1 + |rest|
  {}

  lemma PrintableThen(value: string, key: string, rest: string)
    requires Printable(value) && Printable(key) && Printable(rest)
    ensures Printable(Then(value, key, rest)) && |Then(value, key, rest)| == |value| + |key| + |rest| + 6
  {
    hide Q;
    PrintableQ(":", rest);
    PrintableQ(key, Q(":", rest));
    PrintableQ(",", Q(key, Q(":", rest)));
    PrintableQ(value, Q(",", Q(key, Q(":", rest))));
  }

  lemma PrintableOpening(rest: string)
    requires Printable(rest)
    ensures var text := Q("{", Q("v", Q(":1,", Q("type", Q(":", rest)))));
            Printable(text) && |text| == |rest| + 15
  {
    hide Q;
    PrintableQ(":", rest);
    PrintableQ("type", Q(":", rest));
    PrintableQ(":1,", Q("type", Q(":", rest)));
    PrintableQ("v", Q(":1,", Q("type", Q(":", rest))));
    PrintableQ("{", Q("v", Q(":1,", Q("type", Q(":", rest)))));
  }

  function EnvelopeParts(payload: string): seq<string> {
    ["{"] + (["ok"] + ([": true, "] + (["payload"] + ([": "] + (EscapeParts(payload) + ["}"])))))
  }

  lemma EnvelopeIsQuoted(payload: string)
    ensures Quoted(EnvelopeParts(payload)) == Envelope(payload)
  {
    PartsOfEscape(payload);
    QuotedConcat(EscapeParts(payload), ["}"]);
    SingleQuoted("}");
    hide Quoted, Escape, EscapeParts;
    var inner := EscapeParts(payload) + ["}"];
    assert Quoted(inner) == Q(Escape(payload), "}");
    hide Q;
    QuotedCons(": ", inner);
    QuotedCons("payload", [": "] + inner);
    QuotedCons(": true, ", ["payload"] + ([": "] + inner));
    QuotedCons("ok", [": true, "] + (["payload"] + ([": "] + inner)));
    QuotedCons("{", ["ok"] + ([": true, "] + (["payload"] + ([": "] + inner))));
  }

  lemma EnvelopeQuoteFree(payload: string)
    ensures AllQuoteFree(EnvelopeParts(payload))
  {
    PartsOfEscape(payload);
    hide EscapeParts, Quoted;
    assert AllQuoteFree(["payload"] + ([": "] + (EscapeParts(payload) + ["}"])));
  }

  lemma SeekOne(head: string, rest: seq<string>, key: string)
    requires |rest| >= 1
    ensures Seek([head] + rest, key) == if head == key then Some(Quoted(rest)) else Seek(rest, key)
  {
    hide Quoted;
    assert ([head] + rest)[1..] == rest;
  }

  lemma SeekPayload(inner: seq<string>)
    requires |inner| >= 1
    ensures Seek(["ok"] + ([": true, "] + (["payload"] + ([": "] + inner))), "payload") == Some(Quoted([": "] + inner))
  {
    hide Quoted, Seek;
    var value := [": "] + inner;
    var tail := ["payload"] + value;
    assert |"ok"| == 2 && |": true, "| == 8 && |"payload"| == 7;
    SeekOne("ok", [": true, "] + tail, "payload");
    SeekOne(": true, ", tail, "payload");
    SeekOne("payload", value, "payload");
  }

  lemma ReadsPayload(payload: string, cap: nat)
    requires Printable(payload) && cap >= 1
    ensures Field(Envelope(payload), "payload", cap) == if |payload| < cap then Some(payload) else None
  {
    EnvelopeIsQuoted(payload);
    EnvelopeQuoteFree(payload);
    FieldOfParts(EnvelopeParts(payload), "payload", cap);
    PartsOfEscape(payload);
    hide Field, Quoted, Escape, EscapeParts, Envelope, Seek, AllQuoteFree;
    var inner := EscapeParts(payload) + ["}"];
    SeekPayload(inner);
    var rest := ["ok"] + ([": true, "] + (["payload"] + ([": "] + inner)));
    assert (["{"] + rest)[1..] == rest;
    ReadsValue(": ", payload, EscapeParts(payload), ["}"], cap);
  }

  lemma SaysOk(payload: string)
    ensures AfterFirst(Envelope(payload), "\"ok\": true").Some?
    ensures |Envelope(payload)| <= 2 * |payload| + 30
  {
    EscapeSize(payload);
    hide Escape;
    var env := Envelope(payload);
    var rest := Q("payload", Q(": ", Q(Escape(payload), "}")));
    assert env[1..] == "\"ok\": true" + (", " + ([QUOTE] + rest));
    assert "\"ok\": true" <= env[1..];
  }

  /** Which texts Python prints the C device has room for. */
  predicate Fits(sid: string, nonce: string, ct: string, tag: string) {
    && |Envelope(M2Text(sid, nonce, ct, tag))| < 1024 && |M2Text(sid, nonce, ct, tag)| < 640
    && |sid| < 32 && |nonce| < 24 && |ct| < 96 && |tag| < 32
  }

  /** The C extractor undoes the Python printer exactly when it can: for every server id of
      printable ASCII and all base64 fields, the four fields come back as printed if they
      fit and the id's tail is no later key, and else there is an error. */
  lemma ParsesExactly(sid: string, nonce: string, ct: string, tag: string)
    requires Printable(sid) && BinaryFields(nonce, ct, tag)
    ensures ParseReply(Envelope(M2Text(sid, nonce, ct, tag)))
         == if Fits(sid, nonce, ct, tag) && Clean(sid) then Some(Reply(sid, nonce, ct, tag)) else None
  {
    hide Field, M2Text, Envelope, AfterFirst, Tail, Printable;
    var text := M2Text(sid, nonce, ct, tag);
    TextSize(sid, nonce, ct, tag);
    SaysOk(text);
    ReadsPayload(text, 640);
    FieldSid(sid, nonce, ct, tag, 32);
    AllLater(sid, nonce, ct, tag);
  }

  /** An id of less than 32 characters and the fields of a reply with a ciphertext of at
      most 64 bytes always fit. */
  lemma ShortFits(sid: string, nonce: string, ct: string, tag: string)
    requires Printable(sid) && PlainFields(nonce, ct, tag)
    requires |sid| < 32 && |nonce| < 24 && |ct| < 96 && |tag| < 32
    ensures Fits(sid, nonce, ct, tag)
  {
    TextSize(sid, nonce, ct, tag);
    SaysOk(M2Text(sid, nonce, ct, tag));
    hide M2Text, Envelope;
  }

  lemma AllLater(sid: string, nonce: string, ct: string, tag: string)
    requires Printable(sid) && BinaryFields(nonce, ct, tag)
    ensures var text := M2Text(sid, nonce, ct, tag);
            && Field(text, "nonce", 24) == (if Tail(sid) == "nonce" || |nonce| >= 24 then None else Some(nonce))
            && Field(text, "ct", 96) == (if Tail(sid) == "ct" || |ct| >= 96 then None else Some(ct))
            && Field(text, "tag", 32) == (if Tail(sid) == "tag" || |tag| >= 32 then None else Some(tag))
  {
    hide Field, M2Text, Tail;
    if Tail(sid) == "nonce" { FieldHidden(sid, nonce, ct, tag, "nonce", 24); }
    else { FieldLater(sid, nonce, ct, tag, "nonce", 24); }
    if Tail(sid) == "ct" { FieldHidden(sid, nonce, ct, tag, "ct", 96); }
    else { FieldLater(sid, nonce, ct, tag, "ct", 96); }
    if Tail(sid) == "tag" { FieldHidden(sid, nonce, ct, tag, "tag", 32); }
    else { FieldLater(sid, nonce, ct, tag, "tag", 32); }
  }

  // ---- Replies that refuse -------------------------------------------------------------------

  /** build_error_envelope: {"ok": false, "error_type": "..", "message": ".."} */
  function ErrorEnvelope(error: string, message: string): string {
    Q("{", Q("ok", Q(": false, ", Q("error_type", Q(": ",
      Q(Escape(error), Q(", ", Q("message", Q(": ", Q(Escape(message), "}"))))))))))
  }

  function MessageParts(message: string): seq<string> {
    [", "] + (["message"] + ([": "] + (EscapeParts(message) + ["}"])))
  }

  function ErrorParts(error: string, message: string): seq<string> {
    ["{"] + (["ok"] + ([": false, "] + (["error_type"] + ([": "] + (EscapeParts(error) + MessageParts(message))))))
  }

  lemma MessageIsQuoted(message: string)
    ensures Quoted(MessageParts(message)) == Q(", ", Q("message", Q(": ", Q(Escape(message), "}"))))
  {
    PartsOfEscape(message);
    QuotedConcat(EscapeParts(message), ["}"]);
    SingleQuoted("}");
    hide Quoted, Escape, EscapeParts;
    var inner := EscapeParts(message) + ["}"];
    assert Quoted(inner) == Q(Escape(message), "}");
    hide Q;
    QuotedCons(": ", inner);
    QuotedCons("message", [": "] + inner);
    QuotedCons(", ", ["message"] + ([": "] + inner));
  }

  lemma ErrorIsQuoted(error: string, message: string)
    ensures Quoted(ErrorParts(error, message)) == ErrorEnvelope(error, message)
  {
    MessageIsQuoted(message);
    PartsOfEscape(error);
    QuotedConcat(EscapeParts(error), MessageParts(message));
    hide Quoted, Escape, EscapeParts, MessageParts;
    var inner := EscapeParts(error) + MessageParts(message);
    assert Quoted(inner) == Q(Escape(error), Quoted(MessageParts(message)));
    hide Q;
    QuotedCons(": ", inner);
    QuotedCons("error_type", [": "] + inner);
    QuotedCons(": false, ", ["error_type"] + ([": "] + inner));
    QuotedCons("ok", [": false, "] + (["error_type"] + ([": "] + inner)));
    QuotedCons("{", ["ok"] + ([": false, "] + (["error_type"] + ([": "] + inner))));
  }

  /** No part that is the key comes before one that begins with the suffix. */
  predicate NeverFollowed(parts: seq<string>, key: string, suffix: string) {
    forall i :: 0 <= i < |parts| - 1 && parts[i] == key ==> !(suffix <= parts[i+1])
  }

  lemma {:induction false} SkipToQuote(part: string, rest: string, pat: string)
    requires QuoteFree(part) && pat != "" && pat[0] == QUOTE
    ensures AfterFirst(part + rest, pat) == AfterFirst(rest, pat)
  {
    if part == "" {
      assert part + rest == rest;
    } else {
      assert part[0] in part;
      assert (part + rest)[0] == part[0];
      assert (part + rest)[1..] == part[1..] + rest;
      SkipToQuote(part[1..], rest, pat);
    }
  }

  lemma SuffixInPart(part: string, parts: seq<string>, suffix: string)
    requires QuoteFree(suffix) && suffix <= Quoted([part] + parts)
    ensures suffix <= part
  {
    var text := Quoted([part] + parts);
    assert ([part] + parts)[1..] == parts;
    assert parts != [] ==> text[|part|] == QUOTE;
    forall i | 0 <= i < |suffix| ensures suffix[i] != QUOTE {
      assert suffix[i] in suffix;
    }
  }

  /** A quoted key and what follows it are found only at a whole part and the next one. */
  lemma {:induction false} NeverFound(parts: seq<string>, key: string, suffix: string)
    requires |parts| >= 1 && QuoteFree(key) && QuoteFree(suffix) && suffix != "" && AllQuoteFree(parts)
    requires NeverFollowed(parts[1..], key, suffix)
    ensures AfterFirst(Quoted(parts), Pattern(key) + suffix).None?
  {
    var pat := Pattern(key) + suffix;
    if |parts| == 1 {
      SkipToQuote(parts[0], "", pat);
      assert parts[0] + "" == parts[0];
    } else {
      var tail := parts[1..];
      var s := [QUOTE] + Quoted(tail);
      assert Quoted(parts) == parts[0] + s;
      SkipToQuote(parts[0], s, pat);
      assert NeverFollowed(tail[1..], key, suffix);
      NeverFound(tail, key, suffix);
      assert s[1..] == Quoted(tail);
      if pat <= s { NotHere(tail, key, suffix); }
    }
  }

  lemma QuotedHead(tail: seq<string>)
    requires |tail| >= 2
    ensures [QUOTE] + Quoted(tail) == Pattern(tail[0]) + Quoted(tail[1..])
  {
    var rest := Quoted(tail[1..]);
    assert Quoted(tail) == tail[0] + ([QUOTE] + rest);
    hide Quoted;
    Assoc([QUOTE], tail[0], [QUOTE] + rest);
    Assoc([QUOTE] + tail[0], [QUOTE], rest);
  }

  lemma PatternThere(tail: seq<string>, key: string)
    requires |tail| >= 1 && QuoteFree(key) && AllQuoteFree(tail) && Pattern(key) <= [QUOTE] + Quoted(tail)
    ensures |tail| >= 2 && tail[0] == key && [QUOTE] + Quoted(tail) == Pattern(key) + Quoted(tail[1..])
  {
    assert QuoteFree(tail[0]);
    hide Pattern, QuoteFree;
    if |tail| == 1 {
      assert Quoted(tail) == tail[0];
      NoSecondQuote(tail[0], key);
    } else {
      hide Quoted;
      QuotedHead(tail);
      PrefixIsWhole(tail[0], Quoted(tail[1..]), key);
    }
  }

  lemma PrefixDrops(a: string, b: string, c: string)
    ensures a + b <= a + c ==> b <= c
    ensures a + b <= c ==> a <= c
  {
    if a + b <= a + c {
      assert (a + c)[|a|..] == c && (a + c)[..|a| + |b|] == a + b;
      assert c[..|b|] == (a + c)[|a|..|a| + |b|] == b;
    }
    if a + b <= c { assert c[..|a|] == (a + b)[..|a|] == a; }
  }

  lemma NotHere(tail: seq<string>, key: string, suffix: string)
    requires |tail| >= 1 && QuoteFree(key) && QuoteFree(suffix) && suffix != "" && AllQuoteFree(tail)
    requires NeverFollowed(tail, key, suffix)
    ensures !(Pattern(key) + suffix <= [QUOTE] + Quoted(tail))
  {
    hide *;
    var s := [QUOTE] + Quoted(tail);
    if Pattern(key) + suffix <= s {
      PrefixDrops(Pattern(key), suffix, s);
      PatternThere(tail, key);
      PrefixDrops(Pattern(key), suffix, Quoted(tail[1..]));
      assert tail[1..] == [tail[1]] + tail[2..];
      SuffixInPart(tail[1], tail[2..], suffix);
      NotFollowedHere(tail, key, suffix);
    }
  }

  lemma NotFollowedHere(tail: seq<string>, key: string, suffix: string)
    requires |tail| >= 2 && tail[0] == key && NeverFollowed(tail, key, suffix)
    ensures !(suffix <= tail[1])
  {}

  /** A part that is "ok" is followed by the flag, a comma or the end. */
  lemma OkNeverFollowed(error: string, message: string, suffix: string)
    requires suffix == ": true" || suffix == ":true"
    ensures NeverFollowed(ErrorParts(error, message)[1..], "ok", suffix)
  {
    InnerParts(error);
    InnerParts(message);
    hide EscapeParts;
    var (a, b) := (EscapeParts(error), EscapeParts(message));
    var tail := ErrorParts(error, message)[1..];
    assert tail == ["ok", ": false, ", "error_type", ": "] + a + [", ", "message", ": "] + b + ["}"];
    hide ErrorParts;
    assert "ok"[1] != BACKSLASH && suffix[0] == ':' && (suffix[1] == 't' || suffix[2] == 't');
    assert ": false, "[1] == ' ' && ": false, "[2] == 'f' && ", "[0] == ',' && "}"[0] == '}';
    assert |"error_type"| == 10 && |": false, "| == 9 && |"message"| == 7 && |"}"| == 1;
    assert ": "[0] == ':' && ", "[0] == ',' && "ok"[0] == 'o';
    forall i | 0 <= i < |tail| - 1 && tail[i] == "ok" ensures !(suffix <= tail[i+1]) {
      if i == 0 {
        assert tail[1] == ": false, ";
      } else if 4 <= i < 4 + |a| {
        assert tail[i] == a[i-4];
        assert i == 3 + |a|;
        assert tail[i+1] == ", ";
      } else if 7 + |a| <= i {
        assert tail[i] == b[i-7-|a|];
        assert i == 6 + |a| + |b|;
        assert tail[i+1] == "}";
      }
    }
  }

  lemma ErrorQuoteFree(error: string, message: string)
    ensures AllQuoteFree(ErrorParts(error, message))
  {
    PartsOfEscape(error);
    PartsOfEscape(message);
    hide EscapeParts, Quoted;
    assert AllQuoteFree(MessageParts(message));
    assert AllQuoteFree(["error_type"] + ([": "] + (EscapeParts(error) + MessageParts(message))));
  }

  /** No refusal Python prints contains what says that a reply is fine. */
  lemma RefusalNeverOk(error: string, message: string)
    ensures AfterFirst(ErrorEnvelope(error, message), "\"ok\": true").None?
    ensures AfterFirst(ErrorEnvelope(error, message), "\"ok\":true").None?
  {
    ErrorIsQuoted(error, message);
    ErrorQuoteFree(error, message);
    OkNeverFollowed(error, message, ": true");
    OkNeverFollowed(error, message, ":true");
    assert Pattern("ok") + ": true" == "\"ok\": true" && Pattern("ok") + ":true" == "\"ok\":true";
    hide Quoted, ErrorParts, ErrorEnvelope, AfterFirst, Pattern, NeverFollowed, AllQuoteFree;
    NeverFound(ErrorParts(error, message), "ok", ": true");
    NeverFound(ErrorParts(error, message), "ok", ":true");
  }

  // ---- What the pieces mean -----------------------------------------------------------------

  predicate OccursAt(s: string, pat: string, k: int) {
    0 <= k <= |s| && pat <= s[k..]
  }

  predicate FirstAt(s: string, pat: string, k: int) {
    OccursAt(s, pat, k) && forall j :: 0 <= j < k ==> !OccursAt(s, pat, j)
  }

  lemma OccursLater(s: string, pat: string, k: int)
    requires s != "" && k >= 1
    ensures OccursAt(s, pat, k) <==> OccursAt(s[1..], pat, k - 1)
  {
    if k <= |s| { assert s[k..] == s[1..][k-1..]; }
  }

  /** strstr: nothing if the pattern occurs nowhere, and else the text after the first place
      it does. */
  lemma {:induction false} FirstOccurrence(s: string, pat: string) returns (k: int)
    ensures AfterFirst(s, pat).None? ==> forall j :: !OccursAt(s, pat, j)
    ensures AfterFirst(s, pat).Some? ==> FirstAt(s, pat, k) && AfterFirst(s, pat).value == s[k..][|pat|..]
  {
    k := 0;
    assert s[0..] == s;
    if !(pat <= s) && s != "" {
      var j := FirstOccurrence(s[1..], pat);
      forall i | i >= 1 ensures OccursAt(s, pat, i) <==> OccursAt(s[1..], pat, i - 1) { OccursLater(s, pat, i); }
      hide AfterFirst;
      if AfterFirst(s[1..], pat).Some? {
        k := j + 1;
        assert s[k..] == s[1..][j..];
        forall i | 0 <= i < k ensures !OccursAt(s, pat, i) {
          if i > 0 { assert !OccursAt(s[1..], pat, i - 1); }
        }
      }
    }
  }

  /** The blanks and colons skipped are all there are. */
  lemma {:induction false} SkipsColonsExactly(s: string)
    ensures var k := |s| - |SkipColons(s)|;
            && 0 <= k <= |s| && SkipColons(s) == s[k..]
            && (forall i :: 0 <= i < k ==> s[i] == ' ' || s[i] == ':')
            && (k < |s| ==> s[k] != ' ' && s[k] != ':')
  {
    if s != "" && (s[0] == ' ' || s[0] == ':') { SkipsColonsExactly(s[1..]); }
  }

  /** `raw` spells v: plain characters, \" \\ and \/ for themselves, and \n for a new line. */
  predicate Spells(raw: string, v: string) {
    if v == "" then raw == ""
    else if raw == "" || raw[0] == '"' then false
    else if raw[0] != '\\' then raw[0] == v[0] && Spells(raw[1..], v[1..])
    else
      |raw| >= 2 && Spells(raw[2..], v[1..]) &&
      (if raw[1] == 'n' then v[0] == '\n' else (raw[1] == '"' || raw[1] == '\\' || raw[1] == '/') && v[0] == raw[1])
  }

  lemma {:induction false} ReadsSpelling(s: string, raw: string, v: string, room: nat)
    requires Spells(raw, v) && raw + ['"'] <= s
    ensures ReadString(s, room) == if |v| <= room then Some(v) else None
  {
    if v == "" {
      assert s[0] == (raw + ['"'])[0];
    } else {
      var k := if raw[0] == '\\' then 2 else 1;
      assert s[..|raw|+1] == raw + ['"'];
      assert forall i :: 0 <= i < |raw| ==> s[i] == raw[i];
      assert raw[k..] + ['"'] <= s[k..] by { assert s[k..][..|raw|+1-k] == s[..|raw|+1][k..]; }
      if room > 0 { ReadsSpelling(s[k..], raw[k..], v[1..], room - 1); }
      assert v == [v[0]] + v[1..];
    }
  }

  lemma {:induction false} SpellingOfRead(s: string, room: nat) returns (raw: string)
    requires ReadString(s, room).Some?
    ensures Spells(raw, ReadString(s, room).value) && raw + ['"'] <= s && |ReadString(s, room).value| <= room
    decreases |s|
  {
    if s[0] == QUOTE {
      raw := "";
    } else {
      var k := if s[0] == BACKSLASH then 2 else 1;
      var rest := SpellingOfRead(s[k..], room - 1);
      raw := s[..k] + rest;
      assert raw + ['"'] == s[..k] + (rest + ['"']);
      assert s == s[..k] + s[k..];
      assert raw[k..] == rest;
      assert ReadString(s, room).value[1..] == ReadString(s[k..], room - 1).value;
    }
  }

  /** json_str reads v exactly when the text begins with a spelling of v and a closing quote,
      and v fits. */
  lemma ReadsExactly(s: string, v: string, room: nat)
    ensures ReadString(s, room) == Some(v) <==> |v| <= room && exists raw :: Spells(raw, v) && raw + ['"'] <= s
  {
    if ReadString(s, room) == Some(v) {
      var raw := SpellingOfRead(s, room);
    }
    if raw :| Spells(raw, v) && raw + ['"'] <= s {
      ReadsSpelling(s, raw, v, room);
    }
  }

  /** json.dumps puts a backslash before quotes and backslashes, and nowhere else. */
  lemma {:induction false} EscapesExactly(s: string, t: string)
    ensures Escape(s + t) == Escape(s) + Escape(t)
    ensures forall c :: Escape([c]) == if c == '"' || c == '\\' then ['\\', c] else [c]
  {
    if s == "" {
      assert s + t == t;
    } else {
      assert (s + t)[0] == s[0] && (s + t)[1..] == s[1..] + t;
      EscapesExactly(s[1..], t);
      Assoc(if s[0] == QUOTE || s[0] == BACKSLASH then [BACKSLASH, s[0]] else [s[0]], Escape(s[1..]), Escape(t));
    }
    forall c ensures Escape([c]) == if c == '"' || c == '\\' then ['\\', c] else [c] {
      assert [c][1..] == "";
    }
  }

  /** Between two string members: the end of one, a key and the start of the next. */
  lemma ThenIs(value: string, key: string, rest: string)
    ensures Then(value, key, rest) == value + (("\",\"" + key + "\":\"") + rest)
  {
    var joint := "\",\"" + key + "\":\"";
    assert [QUOTE] + ("," + ([QUOTE] + (key + ([QUOTE] + (":" + ([QUOTE] + rest)))))) == joint + rest;
  }

  lemma OpensUntyped(rest: string)
    ensures Q("{", Q("v", Q(":1,", Q("type", Q(":", rest))))) == "{\"v\":1,\"type\":\"" + rest
  {
    var text := Q("{", Q("v", Q(":1,", Q("type", Q(":", rest)))));
    var head := "{\"v\":1,\"type\":\"";
    assert |head| == 15 && |text| == 15 + |rest|;
    assert text[..15] == head;
    assert text[15..] == rest;
  }

  lemma Opens(rest: string)
    ensures Q("{", Q("v", Q(":1,", Q("type", Q(":", Then("M2", "sid", rest))))))
         == "{\"v\":1,\"type\":\"M2\",\"sid\":\"" + rest
  {
    hide Q, Then;
    var (open, joint) := ("{\"v\":1,\"type\":\"", "\",\"" + "sid" + "\":\"");
    OpensUntyped(Then("M2", "sid", rest));
    ThenIs("M2", "sid", rest);
    Assoc("M2", joint, rest);
    Assoc(open, "M2" + joint, rest);
    assert open + ("M2" + joint) == "{\"v\":1,\"type\":\"M2\",\"sid\":\"";
  }

  /** The text of M2, character by character. */
  lemma PrintsM2Exactly(sid: string, nonce: string, ct: string, tag: string)
    ensures M2Text(sid, nonce, ct, tag)
         == "{\"v\":1,\"type\":\"M2\",\"sid\":\"" + (Escape(sid) + (("\",\"" + "nonce" + "\":\"")
            + (nonce + (("\",\"" + "ct" + "\":\"") + (ct + (("\",\"" + "tag" + "\":\"") + (tag + "\"}")))))))
  {
    assert Q(tag, "}") == tag + "\"}";
    var fromCt := Then(ct, "tag", Q(tag, "}"));
    var fromNonce := Then(nonce, "ct", fromCt);
    hide Escape, Then, Q;
    ThenIs(ct, "tag", Q(tag, "}"));
    ThenIs(nonce, "ct", fromCt);
    ThenIs(Escape(sid), "nonce", fromNonce);
    Opens(Then(Escape(sid), "nonce", fromNonce));
  }

  /** The two envelopes, character by character. */
  lemma PrintsEnvelopesExactly(payload: string, error: string, message: string)
    ensures Envelope(payload) == "{\"ok\": true, \"payload\": \"" + (Escape(payload) + "\"}")
    ensures ErrorEnvelope(error, message)
         == "{\"ok\": false, \"error_type\": \"" + (Escape(error) + ("\", \"message\": \"" + (Escape(message) + "\"}")))
  {
    hide Escape;
    OkOpens(Escape(payload) + "\"}");
    assert Q(Escape(payload), "}") == Escape(payload) + "\"}";
    assert Q(Escape(message), "}") == Escape(message) + "\"}";
    MessageOpens(Escape(error), Escape(message) + "\"}");
    ErrorOpens(Escape(error) + ("\", \"message\": \"" + (Escape(message) + "\"}")));
    hide Q;
  }

  lemma OkOpens(rest: string)
    ensures Q("{", Q("ok", Q(": true, ", Q("payload", Q(": ", rest))))) == "{\"ok\": true, \"payload\": \"" + rest
  {
    var text := Q("{", Q("ok", Q(": true, ", Q("payload", Q(": ", rest)))));
    assert |"{\"ok\": true, \"payload\": \""| == 25 && text[25..] == rest;
    assert text[..25] == "{\"ok\": true, \"payload\": \"";
  }

  lemma ErrorOpens(rest: string)
    ensures Q("{", Q("ok", Q(": false, ", Q("error_type", Q(": ", rest)))))
         == "{\"ok\": false, \"error_type\": \"" + rest
  {
    var text := Q("{", Q("ok", Q(": false, ", Q("error_type", Q(": ", rest)))));
    assert |"{\"ok\": false, \"error_type\": \""| == 29 && text[29..] == rest;
    assert text[..29] == "{\"ok\": false, \"error_type\": \"";
  }

  lemma MessageOpens(value: string, rest: string)
    ensures Q(value, Q(", ", Q("message", Q(": ", rest)))) == value + ("\", \"message\": \"" + rest)
  {
    assert [QUOTE] + (", " + ([QUOTE] + ("message" + ([QUOTE] + (": " + ([QUOTE] + rest))))))
        == "\", \"message\": \"" + rest;
  }
}
