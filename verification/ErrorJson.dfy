/** The ERROR payload: a closed-schema JSON object, its strict scanner and its escaping printer. */
module ErrorJson {
  import opened Base
  import Utf8

  datatype ErrorPayload = ErrorPayload(code: Bytes, retryable: bool, requestId: Bytes)

  const QUOTE: byte := 0x22
  const BACKSLASH: byte := 0x5C
  const COLON: byte := 0x3A
  const COMMA: byte := 0x2C
  const OPEN: byte := 0x7B
  const CLOSE: byte := 0x7D

  function KeyCode(): Bytes { Ascii("code") }
  function KeyRetryable(): Bytes { Ascii("retryable") }
  function KeyRequestId(): Bytes { Ascii("request_id") }
  function TrueText(): (b: Bytes) ensures |b| == 4 && b[0] == 0x74 { Ascii("true") }
  function FalseText(): (b: Bytes) ensures |b| == 5 && b[0] == 0x66 { Ascii("false") }

  /** The printer's literals: an ASCII key in quotes, the byte before it and the colon after it. */
  function Lead(first: byte, key: Bytes): Bytes {
    [first, QUOTE] + (key + [QUOTE, COLON])
  }

  // ----- printing -----

  /** A lower-case hexadecimal digit. */
  function HexDigit(n: nat): (c: byte)
    requires n < 16
    ensures HexValue(c) == Some(n)
  {
    if n < 10 then (0x30 + n) as byte else (0x57 + n) as byte
  }

  function HexValue(c: byte): (r: Option<nat>)
    ensures r.Some? ==> r.value < 16
  {
    if 0x30 <= c <= 0x39 then Some(c as nat - 0x30)
    else if 0x61 <= c <= 0x66 then Some(c as nat - 0x57)
    else if 0x41 <= c <= 0x46 then Some(c as nat - 0x37)
    else None
  }

  /** How one byte of a string is printed; the bytes of multi-byte characters stand for themselves. */
  function EscapeByte(c: byte): Bytes {
    if c == QUOTE then [BACKSLASH, QUOTE]
    else if c == BACKSLASH then [BACKSLASH, BACKSLASH]
    else if c == 0x0A then [BACKSLASH, 0x6E]
    else if c == 0x0D then [BACKSLASH, 0x72]
    else if c == 0x09 then [BACKSLASH, 0x74]
    else if c < 0x20 then [BACKSLASH, 0x75, 0x30, 0x30, HexDigit(c as nat / 16), HexDigit(c as nat % 16)]
    else [c]
  }

  function Escape(v: Bytes): Bytes {
    if v == [] then [] else EscapeByte(v[0]) + Escape(v[1..])
  }

  /** `json_string` appends character by character. */
  method ComputeEscape(v: Bytes) returns (out: Bytes)
    ensures out == Escape(v)
  {
    out := [];
    assert v[0..] == v && [] + Escape(v) == Escape(v);
    for i := 0 to |v|
      invariant out + Escape(v[i..]) == Escape(v)
    {
      assert v[i..][0] == v[i] && v[i..][1..] == v[i + 1..];
      Assoc(out, EscapeByte(v[i]), Escape(v[i + 1..]));
      out := out + EscapeByte(v[i]);
    }
    assert out + [] == out;
  }

  function JsonString(v: Bytes): Bytes {
    [QUOTE] + (Escape(v) + [QUOTE])
  }

  function BoolBytes(b: bool): Bytes {
    if b then TrueText() else FalseText()
  }

  /** A compact body around two quoted texts. */
  function Body(codeText: Bytes, retryable: bool, idText: Bytes): Bytes {
    Lead(OPEN, KeyCode()) + (codeText + (Lead(COMMA, KeyRetryable()) + AfterRetryable(retryable, idText)))
  }

  /** What follows the first colon of the second member. */
  function AfterRetryable(retryable: bool, idText: Bytes): Bytes {
    BoolBytes(retryable) + (Lead(COMMA, KeyRequestId()) + (idText + [CLOSE]))
  }

  /** The canonical compact body. */
  function Print(e: ErrorPayload): Bytes {
    Body(JsonString(e.code), e.retryable, JsonString(e.requestId))
  }

  // ----- scanning -----

  predicate IsWs(c: byte) {
    c == 0x20 || c == 0x09 || c == 0x0A || c == 0x0D
  }

  function SkipWs(b: Bytes, i: nat): (j: nat)
    requires i <= |b|
    ensures i <= j <= |b|
    ensures j < |b| ==> !IsWs(b[j])
    decreases |b| - i
  {
    if i < |b| && IsWs(b[i]) then SkipWs(b, i + 1) else i
  }

  predicate At(b: Bytes, i: nat, c: byte) {
    i < |b| && b[i] == c
  }

  /** Value of a run of hexadecimal digits. */
  function HexNumber(h: Bytes): (r: Option<nat>)
    ensures r.Some? && |h| <= 4 ==> r.value < 0x1_0000
    ensures r.Some? && |h| <= 3 ==> r.value < 0x1000
    ensures r.Some? && |h| <= 2 ==> r.value < 0x100
    ensures r.Some? && |h| <= 1 ==> r.value < 0x10
  {
    if h == [] then Some(0)
    else
      match (HexNumber(h[..|h| - 1]), HexValue(h[|h| - 1]))
      case (Some(n), Some(d)) => Some(16 * n + d)
      case _ => None
  }

  /** Four characters after `\u`, as `u32::from_str_radix` reads them: a leading plus sign is accepted. */
  function HexEscape(h: Bytes): (r: CodecResult<nat>)
    requires |h| == 4
    ensures r.Ok? ==> r.value < 0x1_0000
  {
    var digits := if h[0] == 0x2B then h[1..] else h;
    match HexNumber(digits)
    case None => Err(BadConstant)
    case Some(cp) => if 0xD800 <= cp <= 0xDFFF then Err(BadConstant) else Ok(cp)
  }

  /** The escape whose character after the backslash is at `i`: its bytes, and where scanning continues. */
  function ScanEscape(b: Bytes, i: nat): (r: CodecResult<(Bytes, nat)>)
    ensures r.Ok? ==> i < r.value.1 <= |b|
  {
    if i >= |b| then Err(Truncated)
    else if b[i] == QUOTE || b[i] == BACKSLASH || b[i] == 0x2F then Ok(([b[i]], i + 1))
    else if b[i] == 0x62 then Ok(([0x08], i + 1))
    else if b[i] == 0x66 then Ok(([0x0C], i + 1))
    else if b[i] == 0x6E then Ok(([0x0A], i + 1))
    else if b[i] == 0x72 then Ok(([0x0D], i + 1))
    else if b[i] == 0x74 then Ok(([0x09], i + 1))
    else if b[i] == 0x75 then
      if i + 5 > |b| then Err(Truncated)
      else
        var cp :- HexEscape(b[i + 1..i + 5]);
        Ok((Utf8.Encode(cp), i + 5))
    else Err(BadConstant)
  }

  /** The string body at `i`, appended to `out`, up to and including the closing quote. */
  function ScanChars(b: Bytes, i: nat, out: Bytes): (r: CodecResult<(Bytes, nat)>)
    ensures r.Ok? ==> i < r.value.1 <= |b|
    decreases |b| - i
  {
    if i >= |b| then Err(Truncated)
    else if b[i] == QUOTE then Ok((out, i + 1))
    else if b[i] == BACKSLASH then
      var (bytes, next) :- ScanEscape(b, i + 1);
      ScanChars(b, next, out + bytes)
    else if b[i] < 0x20 then Err(BadConstant)
    else ScanChars(b, i + 1, out + [b[i]])
  }

  function ScanString(b: Bytes, i: nat): (r: CodecResult<(Bytes, nat)>)
    ensures r.Ok? ==> i < r.value.1 <= |b| && Utf8.Valid(r.value.0)
  {
    if !At(b, i, QUOTE) then Err(BadConstant)
    else
      var (out, next) :- ScanChars(b, i + 1, []);
      if Utf8.Valid(out) then Ok((out, next)) else Err(BadConstant)
  }

  /** An invalid suffix reads as empty text. */
  function ScanBoolean(b: Bytes, i: nat): (r: CodecResult<(bool, nat)>)
    requires i <= |b|
    ensures r.Ok? ==> i < r.value.1 <= |b|
  {
    var text := if Utf8.Valid(b[i..]) then b[i..] else [];
    if TrueText() <= text then Ok((true, i + 4))
    else if FalseText() <= text then Ok((false, i + 5))
    else Err(BadConstant)
  }

  datatype Fields = Fields(code: Option<Bytes>, retryable: Option<bool>, requestId: Option<Bytes>)

  const NO_FIELDS := Fields(None, None, None)

  /** The value of one key at `i`, stored into its slot. */
  function ScanValue(b: Bytes, i: nat, key: Bytes, fields: Fields): (r: CodecResult<(Fields, nat)>)
    requires i <= |b|
    ensures r.Ok? ==> i < r.value.1 <= |b|
  {
    if key == KeyCode() then
      if fields.code.Some? then Err(Duplicate)
      else
        var (v, next) :- ScanString(b, i);
        Ok((fields.(code := Some(v)), next))
    else if key == KeyRetryable() then
      if fields.retryable.Some? then Err(Duplicate)
      else
        var (v, next) :- ScanBoolean(b, i);
        Ok((fields.(retryable := Some(v)), next))
    else if key == KeyRequestId() then
      if fields.requestId.Some? then Err(Duplicate)
      else
        var (v, next) :- ScanString(b, i);
        Ok((fields.(requestId := Some(v)), next))
    else Err(BadConstant)
  }

  /** One `"key" : value`, with its surrounding white space; the position of what follows. */
  function ScanMember(b: Bytes, i: nat, fields: Fields): (r: CodecResult<(Fields, nat)>)
    requires i <= |b|
    ensures r.Ok? ==> i < r.value.1 <= |b|
  {
    var (key, afterKey) :- ScanString(b, SkipWs(b, i));
    var colon := SkipWs(b, afterKey);
    if !At(b, colon, COLON) then Err(BadConstant)
    else
      var (fields', afterValue) :- ScanValue(b, SkipWs(b, colon + 1), key, fields);
      Ok((fields', SkipWs(b, afterValue)))
  }

  /** Members up to and including the closing brace. */
  function ScanMembers(b: Bytes, i: nat, fields: Fields): (r: CodecResult<(Fields, nat)>)
    requires i <= |b|
    ensures r.Ok? ==> i < r.value.1 <= |b|
    decreases |b| - i
  {
    var (fields', next) :- ScanMember(b, i, fields);
    if At(b, next, CLOSE) then Ok((fields', next + 1))
    else if !At(b, next, COMMA) then Err(BadConstant)
    else ScanMembers(b, next + 1, fields')
  }

  function Finish(fields: Fields): CodecResult<ErrorPayload> {
    match fields
    case Fields(Some(code), Some(retryable), Some(requestId)) => Ok(ErrorPayload(code, retryable, requestId))
    case _ => Err(BadConstant)
  }

  /** After the closing brace only white space may follow, and all three values must be there. */
  function Conclude(b: Bytes, r: CodecResult<(Fields, nat)>): CodecResult<ErrorPayload>
    requires r.Ok? ==> r.value.1 <= |b|
  {
    var (fields, next) :- r;
    if SkipWs(b, next) < |b| then Err(BadConstant) else Finish(fields)
  }

  /** Specification of `parse_error_json`. */
  function Parse(b: Bytes): CodecResult<ErrorPayload> {
    var start := SkipWs(b, 0);
    if !At(b, start, OPEN) then Err(BadConstant)
    else
      var first := SkipWs(b, start + 1);
      if At(b, first, CLOSE) then Err(BadConstant)
      else Conclude(b, ScanMembers(b, first, NO_FIELDS))
  }

  const ERROR_MAX_BYTES: nat := 4096

  function DecodeError(payload: Bytes): CodecResult<ErrorPayload> {
    if |payload| > ERROR_MAX_BYTES then Err(BadLength)
    else if !Utf8.Valid(payload) then Err(BadConstant)
    else Parse(payload)
  }

  // ----- printing, then scanning -----

  lemma HexEscapeOfControl(c: byte)
    requires c < 0x20
    ensures HexEscape([0x30, 0x30, HexDigit(c as nat / 16), HexDigit(c as nat % 16)]) == Ok(c as nat)
  {
    var h: Bytes := [0x30, 0x30, HexDigit(c as nat / 16), HexDigit(c as nat % 16)];
    assert h[..3] == [0x30, 0x30, h[2]] && h[..3][..2] == [0x30, 0x30] && h[..3][..2][..1] == [0x30]
           && h[..3][..2][..1][..0] == [];
    assert HexNumber(h[..3][..2][..1]) == Some(0);
    assert HexNumber(h[..3][..2]) == Some(0);
    assert HexNumber(h[..3]) == Some(c as nat / 16);
  }

  /** The backslash escape at `i` that stands for the bytes `bytes`. */
  lemma ScanCharsEscape(b: Bytes, i: nat, out: Bytes, bytes: Bytes, next: nat)
    requires i < |b| && b[i] == BACKSLASH && ScanEscape(b, i + 1) == Ok((bytes, next))
    ensures ScanChars(b, i, out) == ScanChars(b, next, out + bytes)
  {
    hide ScanEscape;
  }

  lemma ScanCharsPlain(b: Bytes, i: nat, out: Bytes)
    requires i < |b| && b[i] != QUOTE && b[i] != BACKSLASH && b[i] >= 0x20
    ensures ScanChars(b, i, out) == ScanChars(b, i + 1, out + [b[i]])
  {
    hide ScanEscape;
  }

  lemma ScanCharsQuote(b: Bytes, i: nat, out: Bytes)
    requires i < |b| && b[i] == QUOTE
    ensures ScanChars(b, i, out) == Ok((out, i + 1))
  {
    hide ScanEscape;
  }

  predicate IsPlain(c: byte) {
    c >= 0x20 && c != QUOTE && c != BACKSLASH
  }

  /** Where the printed form of one byte stands, scanning an escape yields that byte. */
  lemma ScanPrintedEscape(b: Bytes, i: nat, c: byte)
    requires i + |EscapeByte(c)| <= |b| && b[i..i + |EscapeByte(c)|] == EscapeByte(c) && !IsPlain(c)
    ensures b[i] == BACKSLASH && ScanEscape(b, i + 1) == Ok(([c], i + |EscapeByte(c)|))
  {
    hide HexDigit, HexEscape;
    var e := EscapeByte(c);
    assert b[i] == b[i..i + |e|][0] && b[i + 1] == b[i..i + |e|][1];
    if |e| == 6 {
      HexEscapeOfControl(c);
      assert b[i + 2..i + 6] == b[i..i + 6][2..6] == [0x30, 0x30, HexDigit(c as nat / 16), HexDigit(c as nat % 16)];
    }
  }

  /** Each printed byte is scanned back, whatever escape class it is in, and never ends the string. */
  lemma ScanEscapedByte(b: Bytes, i: nat, c: byte, rest: Bytes, out: Bytes)
    requires i <= |b| && b[i..] == EscapeByte(c) + rest
    ensures i + |EscapeByte(c)| <= |b| && b[i + |EscapeByte(c)|..] == rest
    ensures ScanChars(b, i, out) == ScanChars(b, i + |EscapeByte(c)|, out + [c])
  {
    hide ScanChars, ScanEscape, HexDigit;
    FieldAt(b, i, EscapeByte(c), rest);
    if IsPlain(c) {
      assert b[i] == b[i..i + 1][0];
      ScanCharsPlain(b, i, out);
    } else {
      ScanPrintedEscape(b, i, c);
      ScanCharsEscape(b, i, out, [c], i + |EscapeByte(c)|);
    }
  }

  lemma {:induction false} ScanEscaped(b: Bytes, i: nat, v: Bytes, rest: Bytes, out: Bytes)
    requires i <= |b| && b[i..] == Escape(v) + ([QUOTE] + rest)
    ensures ScanChars(b, i, out) == Ok((out + v, |b| - |rest|)) && |rest| < |b|
    decreases |v|
  {
    hide ScanChars, EscapeByte;
    if v == [] {
      assert b[i..] == [QUOTE] + rest && out + v == out;
      assert b[i] == b[i..][0];
      ScanCharsQuote(b, i, out);
    } else {
      Assoc(EscapeByte(v[0]), Escape(v[1..]), [QUOTE] + rest);
      ScanEscapedByte(b, i, v[0], Escape(v[1..]) + ([QUOTE] + rest), out);
      ScanEscaped(b, i + |EscapeByte(v[0])|, v[1..], rest, out + [v[0]]);
      assert out + [v[0]] + v[1..] == out + v;
    }
  }

  lemma ScanPrintedString(b: Bytes, i: nat, v: Bytes, rest: Bytes)
    requires i <= |b| && b[i..] == JsonString(v) + rest && Utf8.Valid(v)
    ensures ScanString(b, i) == Ok((v, |b| - |rest|)) && |rest| < |b| && b[|b| - |rest|..] == rest
    ensures At(b, i, QUOTE)
  {
    hide ScanChars, Escape;
    Assoc([QUOTE], Escape(v) + [QUOTE], rest);
    Assoc(Escape(v), [QUOTE], rest);
    FieldAt(b, i, JsonString(v), rest);
    FieldAt(b, i, [QUOTE], Escape(v) + ([QUOTE] + rest));
    assert b[i..i + 1][0] == b[i];
    ScanEscaped(b, i + 1, v, rest, []);
    assert [] + v == v;
  }

  // ----- the printed object -----

  lemma {:induction false} EscapeAppend(a: Bytes, b: Bytes)
    ensures Escape(a + b) == Escape(a) + Escape(b)
  {
    hide EscapeByte;
    if a == [] {
      assert a + b == b;
    } else {
      assert (a + b)[1..] == a[1..] + b;
      EscapeAppend(a[1..], b);
    }
  }

  lemma {:induction false} EscapePlain(v: Bytes)
    requires forall i :: 0 <= i < |v| ==> IsPlain(v[i])
    ensures Escape(v) == v
  {
    if v != [] {
      assert IsPlain(v[0]);
      EscapePlain(v[1..]);
    }
  }

  /** Escaping text gives text. */
  lemma {:induction false} EscapeValid(v: Bytes)
    requires Utf8.Valid(v)
    ensures Utf8.Valid(Escape(v))
    decreases |v|
  {
    hide Utf8.ScalarLen;
    if v != [] {
      var n := Utf8.ScalarLen(v);
      var head := v[..n];
      assert v == head + v[n..];
      EscapeAppend(head, v[n..]);
      EscapeValid(v[n..]);
      EscapeScalarValid(v);
      Utf8.ValidAppend(Escape(head), Escape(v[n..]));
    }
  }

  lemma EscapeScalarValid(v: Bytes)
    requires Utf8.ScalarLen(v) > 0
    ensures Utf8.Valid(Escape(v[..Utf8.ScalarLen(v)]))
  {
    var n := Utf8.ScalarLen(v);
    var head := v[..n];
    if n == 1 {
      assert head[1..] == [] && Escape(head) == EscapeByte(v[0]) + Escape([]);
      Utf8.AsciiValid(Escape(head));
    } else {
      hide Utf8.ScalarLen;
      EscapePlain(head);
      Utf8.ScalarLenOfPrefix(v, head);
      assert head[n..] == [];
    }
  }

  lemma JsonStringValid(v: Bytes)
    requires Utf8.Valid(v)
    ensures Utf8.Valid(JsonString(v))
  {
    hide Escape;
    EscapeValid(v);
    Utf8.AsciiValid([QUOTE]);
    Utf8.ValidAppend(Escape(v), [QUOTE]);
    Utf8.ValidAppend([QUOTE], Escape(v) + [QUOTE]);
  }

  lemma AfterRetryableValid(retryable: bool, idText: Bytes)
    requires Utf8.Valid(idText)
    ensures Utf8.Valid(AfterRetryable(retryable, idText))
  {
    hide Lead, KeyRequestId, Utf8.Valid;
    Utf8.AsciiValid(BoolBytes(retryable));
    LeadsValid();
    Utf8.AsciiValid([CLOSE]);
    Utf8.ValidAppend(idText, [CLOSE]);
    Utf8.ValidAppend(Lead(COMMA, KeyRequestId()), idText + [CLOSE]);
    Utf8.ValidAppend(BoolBytes(retryable), Lead(COMMA, KeyRequestId()) + (idText + [CLOSE]));
  }

  lemma BodyValid(codeText: Bytes, retryable: bool, idText: Bytes)
    requires Utf8.Valid(codeText) && Utf8.Valid(idText)
    ensures Utf8.Valid(Body(codeText, retryable, idText))
  {
    hide Lead, KeyCode, KeyRetryable, KeyRequestId, Utf8.Valid, AfterRetryable;
    var tail := AfterRetryable(retryable, idText);
    AfterRetryableValid(retryable, idText);
    LeadsValid();
    Utf8.ValidAppend(Lead(COMMA, KeyRetryable()), tail);
    Utf8.ValidAppend(codeText, Lead(COMMA, KeyRetryable()) + tail);
    Utf8.ValidAppend(Lead(OPEN, KeyCode()), codeText + (Lead(COMMA, KeyRetryable()) + tail));
  }

  predicate AllPlain(v: Bytes) {
    forall i :: 0 <= i < |v| ==> IsPlain(v[i])
  }

  lemma KeysPlain()
    ensures AllPlain(KeyCode()) && AllPlain(KeyRetryable()) && AllPlain(KeyRequestId())
    ensures Utf8.Valid(KeyCode()) && Utf8.Valid(KeyRetryable()) && Utf8.Valid(KeyRequestId())
  {
    hide Utf8.Valid;
    Utf8.AsciiValid(KeyCode());
    Utf8.AsciiValid(KeyRetryable());
    Utf8.AsciiValid(KeyRequestId());
  }

  /** A literal of the printer is a scanner token for its key, between punctuation. */
  lemma LeadTokens(first: byte, key: Bytes)
    requires AllPlain(key)
    ensures Lead(first, key) == [first] + (JsonString(key) + [COLON])
  {
    EscapePlain(key);
    hide Escape;
  }

  lemma KeysDiffer()
    ensures KeyCode() != KeyRetryable() && KeyCode() != KeyRequestId() && KeyRetryable() != KeyRequestId()
  {
    assert |KeyCode()| == 4 && |KeyRetryable()| == 9 && |KeyRequestId()| == 10;
  }

  lemma LeadsValid()
    ensures Utf8.Valid(Lead(OPEN, KeyCode())) && Utf8.Valid(Lead(COMMA, KeyRetryable()))
    ensures Utf8.Valid(Lead(COMMA, KeyRequestId()))
  {
    hide JsonString, Utf8.Valid, KeyCode, KeyRetryable, KeyRequestId;
    KeysPlain();
    LeadValid(OPEN, KeyCode());
    LeadValid(COMMA, KeyRetryable());
    LeadValid(COMMA, KeyRequestId());
  }

  lemma LeadValid(first: byte, key: Bytes)
    requires AllPlain(key) && Utf8.Valid(key) && first < 0x80
    ensures Utf8.Valid(Lead(first, key))
  {
    hide JsonString, Lead;
    LeadTokens(first, key);
    JsonStringValid(key);
    Utf8.AsciiValid([COLON]);
    Utf8.AsciiValid([first]);
    Utf8.ValidAppend(JsonString(key), [COLON]);
    Utf8.ValidAppend([first], JsonString(key) + [COLON]);
  }

  /** White space is skipped up to the first byte of what follows. */
  lemma SkipNothing(b: Bytes, i: nat)
    requires i <= |b| && b[i..] != [] && !IsWs(b[i..][0])
    ensures SkipWs(b, i) == i
  {
    assert b[i] == b[i..][0];
  }

  lemma TokenAt(b: Bytes, i: nat, c: byte, rest: Bytes)
    requires i <= |b| && b[i..] == [c] + rest && !IsWs(c)
    ensures At(b, i, c) && b[i + 1..] == rest && SkipWs(b, i) == i
  {
    SkipNothing(b, i);
    FieldAt(b, i, [c], rest);
  }

  lemma StartsWithQuote(v: Bytes, rest: Bytes)
    ensures JsonString(v) + rest != [] && (JsonString(v) + rest)[0] == QUOTE
  {
    hide Escape;
  }

  lemma ScanMemberStep(b: Bytes, i: nat, key: Bytes, colon: nat, fields: Fields)
    requires i <= |b| && SkipWs(b, i) == i && ScanString(b, i) == Ok((key, colon))
    requires At(b, colon, COLON) && SkipWs(b, colon) == colon && SkipWs(b, colon + 1) == colon + 1
    ensures var value := ScanValue(b, colon + 1, key, fields);
            ScanMember(b, i, fields) ==
            if value.Err? then Err(value.error) else Ok((value.value.0, SkipWs(b, value.value.1)))
  {
    hide ScanString, ScanValue, SkipWs;
  }

  lemma KeyScanned(b: Bytes, i: nat, key: Bytes, rest: Bytes)
    requires i <= |b| && b[i..] == JsonString(key) + rest && Utf8.Valid(key)
    ensures SkipWs(b, i) == i && ScansTo(b, i, key, rest)
  {
    hide ScanString, JsonString, SkipWs, Utf8.Valid;
    StartsWithQuote(key, rest);
    SkipNothing(b, i);
    ScanPrintedString(b, i, key, rest);
  }

  lemma ColonScanned(b: Bytes, colon: nat, rest: Bytes)
    requires colon <= |b| && b[colon..] == [COLON] + rest && rest != [] && !IsWs(rest[0])
    ensures At(b, colon, COLON) && SkipWs(b, colon) == colon && SkipWs(b, colon + 1) == colon + 1
            && b[colon + 1..] == rest
  {
    hide SkipWs, At;
    TokenAt(b, colon, COLON, rest);
    SkipNothing(b, colon + 1);
  }

  /** A printed key and its colon are scanned, leaving the value. */
  lemma ScanPrintedKey(b: Bytes, i: nat, key: Bytes, fields: Fields, rest: Bytes)
    requires i <= |b| && b[i..] == JsonString(key) + ([COLON] + rest)
    requires Utf8.Valid(key) && rest != [] && !IsWs(rest[0])
    ensures |rest| < |b| && b[|b| - |rest|..] == rest
    ensures var value := ScanValue(b, |b| - |rest|, key, fields);
            ScanMember(b, i, fields) ==
            if value.Err? then Err(value.error) else Ok((value.value.0, SkipWs(b, value.value.1)))
  {
    hide ScanMember, ScanString, ScanValue, JsonString, SkipWs, Utf8.Valid, At, IsWs;
    KeyScanned(b, i, key, [COLON] + rest);
    var colon := |b| - |rest| - 1;
    ColonScanned(b, colon, rest);
    ScanMemberStep(b, i, key, colon, fields);
  }

  /** Wherever it stands, the quoted text is scanned as `v`, up to its closing quote. */
  ghost predicate ScannedAs(text: Bytes, v: Bytes) {
    && text != [] && text[0] == QUOTE && Utf8.Valid(text)
    && forall b, i, rest :: 0 <= i <= |b| && b[i..] == text + rest ==> ScansTo(b, i, v, rest)
  }

  predicate ScansTo(b: Bytes, i: nat, v: Bytes, rest: Bytes) {
    ScanString(b, i) == Ok((v, |b| - |rest|)) && |rest| < |b| && b[|b| - |rest|..] == rest
  }

  lemma JsonStringSpells(v: Bytes)
    requires Utf8.Valid(v)
    ensures ScannedAs(JsonString(v), v)
  {
    hide ScanString, Utf8.Valid;
    JsonStringValid(v);
    assert JsonString(v)[0] == QUOTE by { hide Escape; }
    hide JsonString;
    forall b: Bytes, i: nat, rest: Bytes | 0 <= i <= |b| && b[i..] == JsonString(v) + rest
      ensures ScansTo(b, i, v, rest)
    {
      ScanPrintedString(b, i, v, rest);
    }
  }

  lemma ScanSpelled(b: Bytes, i: nat, text: Bytes, v: Bytes, rest: Bytes)
    requires i <= |b| && b[i..] == text + rest && ScannedAs(text, v)
    ensures ScansTo(b, i, v, rest) && text + rest != [] && (text + rest)[0] == QUOTE
  {
    hide ScansTo, Utf8.Valid;
  }

  lemma ScanStringValue(b: Bytes, i: nat, key: Bytes, text: Bytes, v: Bytes, fields: Fields, rest: Bytes)
    requires i <= |b| && b[i..] == text + rest && ScannedAs(text, v) && rest != [] && !IsWs(rest[0])
    requires key == KeyCode() ==> fields.code.None?
    requires key != KeyCode() ==> key == KeyRequestId() && key != KeyRetryable() && fields.requestId.None?
    ensures |rest| < |b| && b[|b| - |rest|..] == rest
    ensures ScanValue(b, i, key, fields) ==
            Ok((if key == KeyCode() then fields.(code := Some(v)) else fields.(requestId := Some(v)), |b| - |rest|))
    ensures SkipWs(b, |b| - |rest|) == |b| - |rest|
  {
    hide ScanString, ScannedAs, SkipWs, Utf8.Valid, KeyCode, KeyRetryable, KeyRequestId;
    ScanSpelled(b, i, text, v, rest);
    SkipNothing(b, |b| - |rest|);
  }

  lemma BooleanScanned(b: Bytes, i: nat, v: bool, rest: Bytes)
    requires i <= |b| && b[i..] == BoolBytes(v) + rest && Utf8.Valid(b[i..])
    ensures |rest| < |b| && b[|b| - |rest|..] == rest && ScanBoolean(b, i) == Ok((v, |b| - |rest|))
  {
    hide Utf8.Valid, TrueText, FalseText;
    FieldAt(b, i, BoolBytes(v), rest);
    assert b[i..][0] == BoolBytes(v)[0];
    assert BoolBytes(v) <= b[i..];
  }

  lemma ScanBooleanValue(b: Bytes, i: nat, v: bool, fields: Fields, rest: Bytes)
    requires i <= |b| && b[i..] == BoolBytes(v) + rest && Utf8.Valid(b[i..]) && rest != [] && !IsWs(rest[0])
    requires fields.retryable.None?
    ensures |rest| < |b| && b[|b| - |rest|..] == rest
    ensures ScanValue(b, i, KeyRetryable(), fields) == Ok((fields.(retryable := Some(v)), |b| - |rest|))
    ensures SkipWs(b, |b| - |rest|) == |b| - |rest|
  {
    hide SkipWs, Utf8.Valid, KeyCode, KeyRetryable, KeyRequestId, BoolBytes, ScanBoolean, ScanString;
    KeysDiffer();
    BooleanScanned(b, i, v, rest);
    SkipNothing(b, |b| - |rest|);
  }

  /** Whatever escapes its two texts are written with, a compact body is parsed to what they spell. */
  lemma ParseOfBody(e: ErrorPayload, codeText: Bytes, idText: Bytes)
    requires ScannedAs(codeText, e.code) && ScannedAs(idText, e.requestId)
    ensures Parse(Body(codeText, e.retryable, idText)) == Ok(e)
  {
    hide Parse, Body, JsonString, BoolBytes, KeyCode, KeyRetryable, KeyRequestId, Utf8.Valid, AfterRetryable,
         ScanMembers;
    var last := idText + [CLOSE];
    var middle := BoolBytes(e.retryable) + ([COMMA] + (JsonString(KeyRequestId()) + ([COLON] + last)));
    var first := codeText + ([COMMA] + (JsonString(KeyRetryable()) + ([COLON] + middle)));
    BodyShape(codeText, e.retryable, idText);
    AfterRetryableValid(e.retryable, idText);
    ParseObject(Body(codeText, e.retryable, idText), e, codeText, idText, first, middle, last);
  }

  /** Parsing the printed object returns the same code, flag and request id. */
  lemma ParseOfPrint(e: ErrorPayload)
    requires Utf8.Valid(e.code) && Utf8.Valid(e.requestId)
    ensures Parse(Print(e)) == Ok(e)
  {
    hide Parse, Body, JsonString, ScannedAs, Utf8.Valid;
    JsonStringSpells(e.code);
    JsonStringSpells(e.requestId);
    ParseOfBody(e, JsonString(e.code), JsonString(e.requestId));
  }

  lemma ParseObject(b: Bytes, e: ErrorPayload, codeText: Bytes, idText: Bytes, first: Bytes, middle: Bytes, last: Bytes)
    requires b[0..] == [OPEN] + (JsonString(KeyCode()) + ([COLON] + first))
    requires ScannedAs(codeText, e.code) && ScannedAs(idText, e.requestId) && Utf8.Valid(middle)
    requires last == idText + [CLOSE]
    requires middle == BoolBytes(e.retryable) + ([COMMA] + (JsonString(KeyRequestId()) + ([COLON] + last)))
    requires first == codeText + ([COMMA] + (JsonString(KeyRetryable()) + ([COLON] + middle)))
    ensures Parse(b) == Ok(e)
  {
    hide JsonString, BoolBytes, ScanMembers, SkipWs, KeyCode, KeyRetryable, KeyRequestId, Utf8.Valid, ScannedAs;
    TokenAt(b, 0, OPEN, JsonString(KeyCode()) + ([COLON] + first));
    StartsWithQuote(KeyCode(), [COLON] + first);
    SkipNothing(b, 1);
    assert b[1] == b[1..][0];
    ParseMembers(b, e, codeText, idText, first, middle, last);
    SkipAtEnd(b);
  }

  lemma SkipAtEnd(b: Bytes)
    ensures SkipWs(b, |b|) == |b|
  {
  }

  /** A compact body as scanner tokens. */
  lemma BodyShape(codeText: Bytes, retryable: bool, idText: Bytes)
    ensures var last := idText + [CLOSE];
            var middle := BoolBytes(retryable) + ([COMMA] + (JsonString(KeyRequestId()) + ([COLON] + last)));
            var first := codeText + ([COMMA] + (JsonString(KeyRetryable()) + ([COLON] + middle)));
            && Body(codeText, retryable, idText)[0..] == [OPEN] + (JsonString(KeyCode()) + ([COLON] + first))
            && AfterRetryable(retryable, idText) == middle
  {
    hide JsonString, BoolBytes, Lead, KeyCode, KeyRetryable, KeyRequestId;
    KeysPlain();
    LeadTokens(OPEN, KeyCode());
    LeadTokens(COMMA, KeyRetryable());
    LeadTokens(COMMA, KeyRequestId());
    var last := idText + [CLOSE];
    Assoc([COMMA], JsonString(KeyRequestId()) + [COLON], last);
    Assoc(JsonString(KeyRequestId()), [COLON], last);
    var middle := AfterRetryable(retryable, idText);
    Assoc([COMMA], JsonString(KeyRetryable()) + [COLON], middle);
    Assoc(JsonString(KeyRetryable()), [COLON], middle);
    var first := codeText + (Lead(COMMA, KeyRetryable()) + middle);
    Assoc([OPEN], JsonString(KeyCode()) + [COLON], first);
    Assoc(JsonString(KeyCode()), [COLON], first);
  }

  /** The value of `code`, up to the comma before the next key. */
  lemma ParseCode(b: Bytes, i: nat, text: Bytes, v: Bytes, rest: Bytes)
    requires i <= |b| && ScannedAs(text, v)
    requires b[i..] == JsonString(KeyCode()) + ([COLON] + (text + ([COMMA] + rest)))
    ensures |rest| < |b| && b[|b| - |rest|..] == rest
    ensures ScanMembers(b, i, NO_FIELDS) == ScanMembers(b, |b| - |rest|, NO_FIELDS.(code := Some(v)))
  {
    hide JsonString, ScanMember, ScanMembers, ScanValue, SkipWs, KeyCode, KeyRetryable, KeyRequestId, Utf8.Valid,
         ScannedAs;
    var value := text + ([COMMA] + rest);
    KeysPlain();
    SpelledStart(text, v, [COMMA] + rest);
    ScanPrintedKey(b, i, KeyCode(), NO_FIELDS, value);
    ScanStringValue(b, |b| - |value|, KeyCode(), text, v, NO_FIELDS, [COMMA] + rest);
    TokenAt(b, |b| - |rest| - 1, COMMA, rest);
    ScanMembersMore(b, i, NO_FIELDS, NO_FIELDS.(code := Some(v)), |b| - |rest| - 1);
  }

  lemma SpelledStart(text: Bytes, v: Bytes, rest: Bytes)
    requires ScannedAs(text, v)
    ensures text + rest != [] && (text + rest)[0] == QUOTE
  {
    hide ScansTo, Utf8.Valid;
  }

  lemma ParseRetryable(b: Bytes, i: nat, v: bool, fields: Fields, rest: Bytes)
    requires i <= |b| && fields.retryable.None? && Utf8.Valid(BoolBytes(v) + ([COMMA] + rest))
    requires b[i..] == JsonString(KeyRetryable()) + ([COLON] + (BoolBytes(v) + ([COMMA] + rest)))
    ensures |rest| < |b| && b[|b| - |rest|..] == rest
    ensures ScanMembers(b, i, fields) == ScanMembers(b, |b| - |rest|, fields.(retryable := Some(v)))
  {
    hide JsonString, BoolBytes, ScanMember, ScanMembers, ScanValue, SkipWs, KeyCode, KeyRetryable, KeyRequestId,
         Utf8.Valid;
    var value := BoolBytes(v) + ([COMMA] + rest);
    KeysPlain();
    StartsWithLetter(v, [COMMA] + rest);
    ScanPrintedKey(b, i, KeyRetryable(), fields, value);
    ScanBooleanValue(b, |b| - |value|, v, fields, [COMMA] + rest);
    TokenAt(b, |b| - |rest| - 1, COMMA, rest);
    ScanMembersMore(b, i, fields, fields.(retryable := Some(v)), |b| - |rest| - 1);
  }

  lemma ParseRequestId(b: Bytes, i: nat, text: Bytes, v: Bytes, fields: Fields)
    requires i <= |b| && fields.requestId.None? && ScannedAs(text, v)
    requires b[i..] == JsonString(KeyRequestId()) + ([COLON] + (text + [CLOSE]))
    ensures ScanMembers(b, i, fields) == Ok((fields.(requestId := Some(v)), |b|))
  {
    hide JsonString, ScanMember, ScanMembers, ScanValue, SkipWs, KeyCode, KeyRetryable, KeyRequestId, Utf8.Valid,
         ScannedAs;
    var value := text + [CLOSE];
    KeysPlain();
    KeysDiffer();
    SpelledStart(text, v, [CLOSE]);
    ScanPrintedKey(b, i, KeyRequestId(), fields, value);
    ScanStringValue(b, |b| - |value|, KeyRequestId(), text, v, fields, [CLOSE]);
    assert b[|b| - 1] == b[|b| - 1..][0] == CLOSE;
    ScanMembersLast(b, i, fields, fields.(requestId := Some(v)));
  }

  lemma ParseMembers(b: Bytes, e: ErrorPayload, codeText: Bytes, idText: Bytes, first: Bytes, middle: Bytes,
                     last: Bytes)
    requires ScannedAs(codeText, e.code) && ScannedAs(idText, e.requestId) && Utf8.Valid(middle)
    requires last == idText + [CLOSE]
    requires middle == BoolBytes(e.retryable) + ([COMMA] + (JsonString(KeyRequestId()) + ([COLON] + last)))
    requires first == codeText + ([COMMA] + (JsonString(KeyRetryable()) + ([COLON] + middle)))
    requires |b| > 0 && b[1..] == JsonString(KeyCode()) + ([COLON] + first)
    ensures ScanMembers(b, 1, NO_FIELDS) == Ok((Fields(Some(e.code), Some(e.retryable), Some(e.requestId)), |b|))
  {
    hide JsonString, BoolBytes, ScanMembers, KeyCode, KeyRetryable, KeyRequestId, Utf8.Valid, ScannedAs;
    var r2 := JsonString(KeyRequestId()) + ([COLON] + last);
    var r1 := JsonString(KeyRetryable()) + ([COLON] + middle);
    ParseCode(b, 1, codeText, e.code, r1);
    ParseRetryable(b, |b| - |r1|, e.retryable, NO_FIELDS.(code := Some(e.code)), r2);
    ParseRequestId(b, |b| - |r2|, idText, e.requestId, Fields(Some(e.code), Some(e.retryable), None));
  }

  lemma StartsWithLetter(v: bool, rest: Bytes)
    ensures BoolBytes(v) + rest != [] && !IsWs((BoolBytes(v) + rest)[0])
  {
    hide TrueText, FalseText;
    assert (BoolBytes(v) + rest)[0] == BoolBytes(v)[0];
  }

  lemma ScanMembersLast(b: Bytes, i: nat, fields: Fields, fields': Fields)
    requires i <= |b| && b != [] && ScanMember(b, i, fields) == Ok((fields', |b| - 1)) && b[|b| - 1] == CLOSE
    ensures ScanMembers(b, i, fields) == Ok((fields', |b|))
  {
    hide ScanMember;
  }

  lemma ScanMembersMore(b: Bytes, i: nat, fields: Fields, fields': Fields, comma: nat)
    requires i <= |b| && ScanMember(b, i, fields) == Ok((fields', comma)) && At(b, comma, COMMA)
    ensures ScanMembers(b, i, fields) == ScanMembers(b, comma + 1, fields')
  {
    hide ScanMember;
  }

  /** Every payload the encoder can emit is decoded to the triple it was made from. */
  lemma DecodeErrorOfPrint(e: ErrorPayload)
    requires Utf8.Valid(e.code) && Utf8.Valid(e.requestId)
    ensures DecodeError(Print(e)) == if |Print(e)| <= ERROR_MAX_BYTES then Ok(e) else Err(BadLength)
  {
    hide Parse, Body, JsonString, Utf8.Valid;
    JsonStringValid(e.code);
    JsonStringValid(e.requestId);
    BodyValid(JsonString(e.code), e.retryable, JsonString(e.requestId));
    ParseOfPrint(e);
  }

  // ----- what a parsed payload holds -----

  predicate TextFields(fields: Fields) {
    && (fields.code.Some? ==> Utf8.Valid(fields.code.value))
    && (fields.requestId.Some? ==> Utf8.Valid(fields.requestId.value))
  }

  lemma MemberIsText(b: Bytes, i: nat, fields: Fields)
    requires i <= |b| && TextFields(fields) && ScanMember(b, i, fields).Ok?
    ensures TextFields(ScanMember(b, i, fields).value.0)
  {
    hide ScanString, ScanBoolean, SkipWs, Utf8.Valid, KeyCode, KeyRetryable, KeyRequestId;
  }

  lemma {:induction false} MembersAreText(b: Bytes, i: nat, fields: Fields)
    requires i <= |b| && TextFields(fields) && ScanMembers(b, i, fields).Ok?
    ensures TextFields(ScanMembers(b, i, fields).value.0)
    decreases |b| - i
  {
    hide ScanMember, TextFields;
    MemberIsText(b, i, fields);
    var (fields', next) := ScanMember(b, i, fields).value;
    if !At(b, next, CLOSE) {
      MembersAreText(b, next + 1, fields');
    }
  }

  /** An accepted payload holds valid text, even where its bytes were reached through escapes. */
  lemma DecodedIsText(payload: Bytes)
    requires DecodeError(payload).Ok?
    ensures Utf8.Valid(DecodeError(payload).value.code) && Utf8.Valid(DecodeError(payload).value.requestId)
  {
    hide ScanMembers, SkipWs, Utf8.Valid;
    MembersAreText(payload, SkipWs(payload, SkipWs(payload, 0) + 1), NO_FIELDS);
  }

  // ----- a body that is shorter than its canonical form -----

  /** The two-byte escape of the backspace, `n` times. */
  function BackspaceEscapes(n: nat): (b: Bytes)
    ensures |b| == 2 * n
    ensures forall i :: 0 <= i < |b| ==> b[i] < 0x80
  {
    if n == 0 then [] else [BACKSLASH, 0x62] + BackspaceEscapes(n - 1)
  }

  function Backspaces(n: nat): (b: Bytes)
    ensures |b| == n
    ensures forall i :: 0 <= i < |b| ==> b[i] == 0x08
  {
    if n == 0 then [] else [0x08] + Backspaces(n - 1)
  }

  function BackspaceText(n: nat): Bytes {
    [QUOTE] + (BackspaceEscapes(n) + [QUOTE])
  }

  lemma {:induction false} ScanBackspaces(b: Bytes, i: nat, n: nat, rest: Bytes, out: Bytes)
    requires i <= |b| && b[i..] == BackspaceEscapes(n) + ([QUOTE] + rest)
    ensures ScanChars(b, i, out) == Ok((out + Backspaces(n), |b| - |rest|)) && |rest| < |b|
    decreases n
  {
    hide ScanChars;
    if n == 0 {
      assert b[i..] == [QUOTE] + rest && out + [] == out;
      assert b[i] == b[i..][0];
      ScanCharsQuote(b, i, out);
    } else {
      var escape: Bytes := [BACKSLASH, 0x62];
      Assoc(escape, BackspaceEscapes(n - 1), [QUOTE] + rest);
      FieldAt(b, i, escape, BackspaceEscapes(n - 1) + ([QUOTE] + rest));
      assert b[i] == b[i..i + 2][0] && b[i + 1] == b[i..i + 2][1];
      ScanCharsEscape(b, i, out, [0x08], i + 2);
      ScanBackspaces(b, i + 2, n - 1, rest, out + [0x08]);
      Assoc(out, [0x08], Backspaces(n - 1));
    }
  }

  lemma BackspacesSpelled(n: nat)
    ensures ScannedAs(BackspaceText(n), Backspaces(n))
  {
    hide ScanChars, BackspaceEscapes, Backspaces, Utf8.Valid;
    var text, v := BackspaceText(n), Backspaces(n);
    Utf8.AsciiValid(text);
    Utf8.AsciiValid(v);
    forall b: Bytes, i: nat, rest: Bytes | 0 <= i <= |b| && b[i..] == text + rest ensures ScansTo(b, i, v, rest) {
      Assoc([QUOTE], BackspaceEscapes(n) + [QUOTE], rest);
      Assoc(BackspaceEscapes(n), [QUOTE], rest);
      FieldAt(b, i, text, rest);
      FieldAt(b, i, [QUOTE], BackspaceEscapes(n) + ([QUOTE] + rest));
      assert b[i..i + 1][0] == b[i];
      ScanBackspaces(b, i + 1, n, rest, []);
      assert [] + v == v;
    }
  }

  lemma {:induction false} BackspacesPrintLong(n: nat)
    ensures |Escape(Backspaces(n))| == 6 * n
  {
    if n > 0 {
      assert Backspaces(n)[0] == 0x08 && Backspaces(n)[1..] == Backspaces(n - 1);
      assert |EscapeByte(0x08)| == 6;
      BackspacesPrintLong(n - 1);
    }
  }

  /** A thousand backspaces are accepted in about 2000 bytes, and printed again they exceed the limit. */
  lemma AcceptedButTooLong(e: ErrorPayload, body: Bytes)
    requires e == ErrorPayload(Backspaces(1000), true, [])
    requires body == Body(BackspaceText(1000), true, JsonString([]))
    ensures DecodeError(body) == Ok(e) && |Print(e)| > ERROR_MAX_BYTES
  {
    hide Parse, Escape, ScannedAs, Utf8.Valid, Backspaces, BackspaceEscapes;
    var text := BackspaceText(1000);
    BackspacesSpelled(1000);
    Utf8.AsciiValid([]);
    JsonStringSpells([]);
    ParseOfBody(e, text, JsonString([]));
    SpelledIsText(text, e.code);
    JsonStringValid([]);
    BodyValid(text, true, JsonString([]));
    BackspacesPrintLong(1000);
    EscapeNothing();
    assert |KeyCode()| == 4 && |KeyRetryable()| == 9 && |KeyRequestId()| == 10;
  }

  lemma EscapeNothing()
    ensures Escape([]) == []
  {
  }

  lemma SpelledIsText(text: Bytes, v: Bytes)
    requires ScannedAs(text, v)
    ensures Utf8.Valid(text)
  {
  }
}
