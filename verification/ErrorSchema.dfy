/**
 * The closed schema of ERROR bodies, apart from any scanner: an object of three members in any order, each key once.
 * The parser accepts exactly these bodies.
 */
module ErrorSchema {
  import opened Base
  import opened ErrorJson
  import Utf8

  // ----- strings -----

  /** The two-character escapes: what each letter after the backslash stands for. */
  function EscapeTable(): map<byte, byte> {
    map[0x22 := 0x22, 0x5C := 0x5C, 0x2F := 0x2F, 0x62 := 0x08, 0x66 := 0x0C, 0x6E := 0x0A, 0x72 := 0x0D, 0x74 := 0x09]
  }

  predicate IsHex(c: byte, d: nat) {
    d < 16 && if d < 10 then c as nat == 0x30 + d else c as nat == 0x61 + d - 10 || c as nat == 0x41 + d - 10
  }

  /** Four hexadecimal digits; a plus sign may stand for the first, as in Rust's integer parser. */
  predicate FourHex(h: Bytes, a: nat, b: nat, c: nat, d: nat) {
    |h| == 4 && (IsHex(h[0], a) || (h[0] == 0x2B && a == 0)) && IsHex(h[1], b) && IsHex(h[2], c) && IsHex(h[3], d)
  }

  /** The code point of one encoded scalar. */
  function CodePoint(v: Bytes): int
    requires 1 <= |v| <= 4
  {
    var b := v[0] as int;
    if |v| == 1 then b
    else if |v| == 2 then 64 * (b - 0xC0) + (v[1] as int - 0x80)
    else if |v| == 3 then 4096 * (b - 0xE0) + 64 * (v[1] as int - 0x80) + (v[2] as int - 0x80)
    else 262144 * (b - 0xF0) + 4096 * (v[1] as int - 0x80) + 64 * (v[2] as int - 0x80) + (v[3] as int - 0x80)
  }

  /** `v` is the well-formed UTF-8 encoding of the one code point `cp`. */
  predicate Scalar(v: Bytes, cp: nat) {
    v != [] && Utf8.ScalarLen(v) == |v| && |v| <= 4 && CodePoint(v) == cp
  }

  /** One character of a quoted text, and the bytes it stands for. */
  ghost predicate Piece(text: Bytes, v: Bytes) {
    || (|text| == 1 && text == v && text[0] >= 0x20 && text[0] != QUOTE && text[0] != BACKSLASH)
    || (|text| == 2 && text[0] == BACKSLASH && text[1] in EscapeTable() && v == [EscapeTable()[text[1]]])
    || (|text| == 6 && text[0] == BACKSLASH && text[1] == 0x75 && UnicodeEscape(text[2..], v))
  }

  ghost predicate UnicodeEscape(h: Bytes, v: Bytes) {
    exists a: nat, b: nat, c: nat, d: nat :: FourHex(h, a, b, c, d) && Scalar(v, 4096 * a + 256 * b + 16 * c + d)
  }

  ghost predicate Pieces(texts: seq<Bytes>, vs: seq<Bytes>) {
    |texts| == |vs| && forall i :: 0 <= i < |texts| ==> Piece(texts[i], vs[i])
  }

  function Flat(parts: seq<Bytes>): Bytes {
    if parts == [] then [] else parts[0] + Flat(parts[1..])
  }

  /** A quoted text and the valid UTF-8 string it spells. */
  ghost predicate Quoted(text: Bytes, v: Bytes) {
    Utf8.Valid(v) && exists texts, vs :: QuotedBy(text, v, texts, vs)
  }

  ghost predicate QuotedBy(text: Bytes, v: Bytes, texts: seq<Bytes>, vs: seq<Bytes>) {
    Pieces(texts, vs) && text == [QUOTE] + (Flat(texts) + [QUOTE]) && v == Flat(vs)
  }

  // ----- objects -----

  /** `code` */
  function CodeKey(): Bytes { [0x63, 0x6F, 0x64, 0x65] }

  /** `retryable` */
  function FlagKey(): Bytes { [0x72, 0x65, 0x74, 0x72, 0x79, 0x61, 0x62, 0x6C, 0x65] }

  /** `request_id` */
  function IdKey(): Bytes { [0x72, 0x65, 0x71, 0x75, 0x65, 0x73, 0x74, 0x5F, 0x69, 0x64] }

  /** `true` or `false` */
  function FlagText(v: bool): Bytes { if v then [0x74, 0x72, 0x75, 0x65] else [0x66, 0x61, 0x6C, 0x73, 0x65] }

  predicate Blank(w: Bytes) {
    forall i :: 0 <= i < |w| ==> w[i] in {0x20, 0x09, 0x0A, 0x0D}
  }

  /** A member: key text and value text, with the white space around them. */
  datatype Member = Member(w0: Bytes, key: Bytes, w1: Bytes, w2: Bytes, value: Bytes, w3: Bytes)

  function MemberText(m: Member): Bytes {
    m.w0 + (m.key + (m.w1 + ([COLON] + (m.w2 + (m.value + m.w3)))))
  }

  function MembersText(ms: seq<Member>): Bytes {
    if ms == [] then []
    else if |ms| == 1 then MemberText(ms[0])
    else MemberText(ms[0]) + ([COMMA] + MembersText(ms[1..]))
  }

  predicate Spaced(m: Member) {
    Blank(m.w0) && Blank(m.w1) && Blank(m.w2) && Blank(m.w3)
  }

  ghost predicate StringMember(m: Member, key: Bytes, v: Bytes) {
    Spaced(m) && Quoted(m.key, key) && Quoted(m.value, v)
  }

  ghost predicate FlagMember(m: Member, key: Bytes, v: bool) {
    Spaced(m) && Quoted(m.key, key) && m.value == FlagText(v)
  }

  /** Three members, one for each key, in any order. */
  ghost predicate ThreeMembers(ms: seq<Member>, e: ErrorPayload) {
    |ms| == 3 && exists i, j, k :: OneEach(ms, e, i, j, k)
  }

  ghost predicate OneEach(ms: seq<Member>, e: ErrorPayload, i: nat, j: nat, k: nat) {
    && i < |ms| && j < |ms| && k < |ms| && i != j && i != k && j != k
    && StringMember(ms[i], CodeKey(), e.code)
    && FlagMember(ms[j], FlagKey(), e.retryable)
    && StringMember(ms[k], IdKey(), e.requestId)
  }

  /** An object of the closed schema that says `e`, with nothing but white space around it. */
  ghost predicate ErrorBody(b: Bytes, e: ErrorPayload) {
    exists lead, ms, trail :: BodyOf(b, lead, ms, trail) && ThreeMembers(ms, e)
  }

  ghost predicate BodyOf(b: Bytes, lead: Bytes, ms: seq<Member>, trail: Bytes) {
    Blank(lead) && Blank(trail) && b == lead + ([OPEN] + (MembersText(ms) + ([CLOSE] + trail)))
  }

  // ----- characters -----

  lemma HexMeans(c: byte, d: nat)
    ensures IsHex(c, d) <==> HexValue(c) == Some(d)
  {
  }

  lemma ThreeDigits(h: Bytes, b: nat, c: nat, d: nat)
    requires |h| == 3
    ensures IsHex(h[0], b) && IsHex(h[1], c) && IsHex(h[2], d) ==> HexNumber(h) == Some(256 * b + 16 * c + d)
    ensures HexNumber(h).Some? ==> HexValue(h[0]).Some? && HexValue(h[1]).Some? && HexValue(h[2]).Some?
  {
    hide HexValue, IsHex, HexNumber;
    HexMeans(h[0], b);
    HexMeans(h[1], c);
    HexMeans(h[2], d);
    HexNumberStep(h);
    HexNumberStep(h[..2]);
    HexNumberStep(h[..1]);
    assert h[..2][..1] == h[..1] && h[..1][..0] == [];
    NoDigits();
  }

  lemma FourDigits(h: Bytes, a: nat, b: nat, c: nat, d: nat)
    requires |h| == 4
    ensures IsHex(h[0], a) && IsHex(h[1], b) && IsHex(h[2], c) && IsHex(h[3], d) ==>
              HexNumber(h) == Some(4096 * a + 256 * b + 16 * c + d)
    ensures HexNumber(h).Some? ==>
              HexValue(h[0]).Some? && HexValue(h[1]).Some? && HexValue(h[2]).Some? && HexValue(h[3]).Some?
  {
    hide HexValue, IsHex, HexNumber;
    HexMeans(h[3], d);
    ThreeDigits(h[..3], a, b, c);
    HexNumberStep(h);
  }

  lemma NoDigits()
    ensures HexNumber([]) == Some(0)
  {
  }

  lemma HexNumberStep(h: Bytes)
    requires h != []
    ensures HexNumber(h) == match (HexNumber(h[..|h| - 1]), HexValue(h[|h| - 1]))
                            case (Some(n), Some(d)) => Some(16 * n + d)
                            case _ => None
  {
    hide HexValue;
  }

  /** `HexEscape` reads four digits, the first of which may be a plus sign, and refuses surrogates. */
  lemma HexEscapeReads(h: Bytes, a: nat, b: nat, c: nat, d: nat)
    requires FourHex(h, a, b, c, d)
    ensures var cp := 4096 * a + 256 * b + 16 * c + d;
            HexEscape(h) == if 0xD800 <= cp <= 0xDFFF then Err(BadConstant) else Ok(cp)
  {
    hide HexNumber, HexValue, IsHex;
    PlusIsNoDigit();
    if h[0] == 0x2B {
      HexMeans(h[0], a);
      assert h[1..] == [h[1], h[2], h[3]];
      ThreeDigits(h[1..], b, c, d);
    } else {
      FourDigits(h, a, b, c, d);
    }
  }

  lemma PlusIsNoDigit()
    ensures HexValue(0x2B) == None
  {
  }

  lemma HexEscapeRead(h: Bytes) returns (a: nat, b: nat, c: nat, d: nat)
    requires |h| == 4 && HexEscape(h).Ok?
    ensures FourHex(h, a, b, c, d)
  {
    hide HexNumber, HexValue, IsHex;
    a := if h[0] == 0x2B then 0 else HexOr(h[0]);
    b, c, d := HexOr(h[1]), HexOr(h[2]), HexOr(h[3]);
    HexMeans(h[0], a);
    HexMeans(h[1], b);
    HexMeans(h[2], c);
    HexMeans(h[3], d);
    if h[0] == 0x2B {
      ThreeDigits(h[1..], b, c, d);
    } else {
      FourDigits(h, a, b, c, d);
    }
  }

  function HexOr(c: byte): nat {
    if HexValue(c).Some? then HexValue(c).value else 0
  }

  /** The encoder of code points writes the one well-formed encoding. */
  lemma EncodeMeans(cp: nat, v: Bytes)
    requires cp < 0x1_0000 && !(0xD800 <= cp <= 0xDFFF)
    ensures Scalar(v, cp) <==> v == Utf8.Encode(cp)
  {
    EncodeKeepsCodePoint(cp);
    if Scalar(v, cp) {
      ScalarUnique(v, cp);
    }
  }

  lemma EncodeKeepsCodePoint(cp: nat)
    requires cp < 0x1_0000 && !(0xD800 <= cp <= 0xDFFF)
    ensures Scalar(Utf8.Encode(cp), cp)
  {
    if cp >= 0x800 {
      assert cp / 64 % 64 == cp / 64 - 64 * (cp / 4096);
    }
  }

  lemma ScalarUnique(v: Bytes, cp: nat)
    requires cp < 0x1_0000 && !(0xD800 <= cp <= 0xDFFF) && Scalar(v, cp)
    ensures v == Utf8.Encode(cp)
  {
    if |v| == 3 {
      var x, y, z := v[0] as int - 0xE0, v[1] as int - 0x80, v[2] as int - 0x80;
      assert cp == 64 * (64 * x + y) + z && cp / 64 == 64 * x + y && cp % 64 == z;
      assert cp / 4096 == x && cp / 64 % 64 == y;
    }
  }

  /** Surrogates have no encoding. */
  lemma NoSurrogate(v: Bytes, cp: nat)
    requires Scalar(v, cp)
    ensures !(0xD800 <= cp <= 0xDFFF)
  {
  }

  // ----- strings, scanned and cut -----

  /** A character is scanned to what it stands for. */
  lemma PieceScanned(b: Bytes, i: nat, text: Bytes, v: Bytes, rest: Bytes, out: Bytes)
    requires i <= |b| && b[i..] == text + rest && Piece(text, v)
    ensures i + |text| <= |b| && b[i + |text|..] == rest
    ensures ScanChars(b, i, out) == ScanChars(b, i + |text|, out + v)
  {
    hide ScanChars, ScanEscape, UnicodeEscape;
    FieldAt(b, i, text, rest);
    assert b[i] == b[i..i + |text|][0];
    if |text| == 1 {
      assert v == [b[i]];
      ScanCharsPlain(b, i, out);
    } else {
      assert b[i + 1] == b[i..i + |text|][1];
      if |text| == 6 {
        assert b[i + 2..i + 6] == b[i..i + 6][2..];
      }
      EscapeScanned(b, i + 1, text, v);
      ScanCharsEscape(b, i, out, v, i + |text|);
    }
  }

  lemma EscapeScanned(b: Bytes, i: nat, text: Bytes, v: Bytes)
    requires i + |text| - 1 <= |b| && |text| > 1 && Piece(text, v) && b[i] == text[1]
    requires |text| == 6 ==> b[i + 1..i + 5] == text[2..]
    ensures ScanEscape(b, i) == Ok((v, i + |text| - 1))
  {
    hide HexEscape, Scalar, FourHex, Utf8.Encode;
    if |text| == 6 {
      var h := text[2..];
      var x: nat, y: nat, z: nat, w: nat :| FourHex(h, x, y, z, w) && Scalar(v, 4096 * x + 256 * y + 16 * z + w);
      var cp := 4096 * x + 256 * y + 16 * z + w;
      HexEscapeReads(h, x, y, z, w);
      NoSurrogate(v, cp);
      EncodeMeans(cp, v);
    }
  }

  /** What an escape is scanned to, it stands for. */
  lemma EscapeCut(b: Bytes, i: nat)
    requires i >= 1 && i <= |b| && b[i - 1] == BACKSLASH && ScanEscape(b, i).Ok?
    ensures var (v, next) := ScanEscape(b, i).value; Piece(b[i - 1..next], v)
  {
    hide HexEscape, Scalar, FourHex, Utf8.Encode;
    var (v, next) := ScanEscape(b, i).value;
    var text := b[i - 1..next];
    if b[i] == 0x75 {
      var h := b[i + 1..i + 5];
      var x, y, z, w := HexEscapeRead(h);
      HexEscapeReads(h, x, y, z, w);
      EncodeMeans(4096 * x + 256 * y + 16 * z + w, v);
      assert text[2..] == h;
      assert UnicodeEscape(h, v);
    }
  }

  lemma {:induction false} PiecesScanned(b: Bytes, i: nat, texts: seq<Bytes>, vs: seq<Bytes>, rest: Bytes, out: Bytes)
    requires i <= |b| && b[i..] == Flat(texts) + ([QUOTE] + rest) && Pieces(texts, vs)
    ensures ScanChars(b, i, out) == Ok((out + Flat(vs), |b| - |rest|)) && |rest| < |b|
    decreases |texts|
  {
    hide ScanChars, Piece;
    if texts == [] {
      assert b[i..] == [QUOTE] + rest && out + [] == out;
      assert b[i] == b[i..][0];
      ScanCharsQuote(b, i, out);
    } else {
      var t, v := texts[0], vs[0];
      Assoc(t, Flat(texts[1..]), [QUOTE] + rest);
      PieceScanned(b, i, t, v, Flat(texts[1..]) + ([QUOTE] + rest), out);
      PiecesScanned(b, i + |t|, texts[1..], vs[1..], rest, out + v);
      Assoc(out, v, Flat(vs[1..]));
    }
  }

  lemma {:induction false} PiecesCut(b: Bytes, i: nat, out: Bytes) returns (texts: seq<Bytes>, vs: seq<Bytes>)
    requires ScanChars(b, i, out).Ok?
    ensures var (v, next) := ScanChars(b, i, out).value;
            && i < next <= |b| && Pieces(texts, vs) && b[i..next] == Flat(texts) + [QUOTE] && v == out + Flat(vs)
    decreases |b| - i
  {
    hide ScanEscape, Piece;
    if b[i] == QUOTE {
      texts, vs := [], [];
      assert out + [] == out && b[i..i + 1] == [QUOTE];
    } else {
      var t, v := PieceCut(b, i);
      var next := i + |t|;
      assert ScanChars(b, i, out) == ScanChars(b, next, out + v);
      var more, values := PiecesCut(b, next, out + v);
      texts, vs := [t] + more, [v] + values;
      Assoc(out, v, Flat(values));
      Assoc(t, Flat(more), [QUOTE]);
      var end := ScanChars(b, i, out).value.1;
      assert b[i..end] == t + b[next..end];
    }
  }

  lemma PieceCut(b: Bytes, i: nat) returns (t: Bytes, v: Bytes)
    requires i < |b| && b[i] != QUOTE
    requires b[i] == BACKSLASH ==> ScanEscape(b, i + 1).Ok?
    requires b[i] != BACKSLASH ==> b[i] >= 0x20
    ensures t != [] && i + |t| <= |b| && t == b[i..i + |t|] && Piece(t, v)
    ensures b[i] == BACKSLASH ==> ScanEscape(b, i + 1) == Ok((v, i + |t|))
    ensures b[i] != BACKSLASH ==> |t| == 1 && v == [b[i]]
  {
    hide ScanEscape, UnicodeEscape;
    if b[i] == BACKSLASH {
      EscapeCut(b, i + 1);
      v := ScanEscape(b, i + 1).value.0;
      t := b[i..ScanEscape(b, i + 1).value.1];
    } else {
      t, v := b[i..i + 1], [b[i]];
    }
  }

  /** A quoted text is scanned to what it spells. */
  lemma StringScanned(b: Bytes, i: nat, text: Bytes, v: Bytes, rest: Bytes)
    requires i <= |b| && b[i..] == text + rest && Quoted(text, v)
    ensures ScansTo(b, i, v, rest) && text != [] && text[0] == QUOTE
  {
    hide ScanChars, Pieces, Utf8.Valid;
    var texts, vs :| QuotedBy(text, v, texts, vs);
    Assoc([QUOTE], Flat(texts) + [QUOTE], rest);
    Assoc(Flat(texts), [QUOTE], rest);
    FieldAt(b, i, text, rest);
    FieldAt(b, i, [QUOTE], Flat(texts) + ([QUOTE] + rest));
    assert b[i..i + 1][0] == b[i];
    PiecesScanned(b, i + 1, texts, vs, rest, []);
    assert [] + v == v;
  }

  /** What a string is scanned to, its text spells. */
  lemma StringCut(b: Bytes, i: nat)
    requires ScanString(b, i).Ok?
    ensures var (v, next) := ScanString(b, i).value; Quoted(b[i..next], v)
  {
    hide ScanChars, Pieces, Utf8.Valid;
    var (v, next) := ScanString(b, i).value;
    var texts, vs := PiecesCut(b, i + 1, []);
    assert [] + Flat(vs) == Flat(vs);
    assert b[i..next] == [QUOTE] + b[i + 1..next];
    assert QuotedBy(b[i..next], v, texts, vs);
  }

  // ----- members, scanned and cut -----

  /** The member fills a slot that was empty. */
  ghost predicate Sets(m: Member, f: Fields, g: Fields) {
    || (f.code.None? && g.code.Some? && g == f.(code := g.code) && StringMember(m, CodeKey(), g.code.value))
    || (f.retryable.None? && g.retryable.Some? && g == f.(retryable := g.retryable)
        && FlagMember(m, FlagKey(), g.retryable.value))
    || (f.requestId.None? && g.requestId.Some? && g == f.(requestId := g.requestId)
        && StringMember(m, IdKey(), g.requestId.value))
  }

  lemma Keys()
    ensures CodeKey() == KeyCode() && FlagKey() == KeyRetryable() && IdKey() == KeyRequestId()
    ensures FlagText(true) == TrueText() && FlagText(false) == FalseText()
    ensures CodeKey() != FlagKey() && CodeKey() != IdKey() && FlagKey() != IdKey()
  {
    CodeLiteral();
    FlagLiteral();
    IdLiteral();
    assert TrueText() == FlagText(true);
    assert FalseText() == FlagText(false);
  }

  lemma CodeLiteral()
    ensures CodeKey() == KeyCode()
  {
  }

  lemma FlagLiteral()
    ensures FlagKey() == KeyRetryable()
  {
  }

  lemma IdLiteral()
    ensures IdKey() == KeyRequestId()
  {
  }

  /** White space is skipped up to the next byte that is none. */
  lemma {:induction false} BlankSkipped(b: Bytes, i: nat, w: Bytes, rest: Bytes)
    requires i <= |b| && b[i..] == w + rest && Blank(w) && (rest == [] || !IsWs(rest[0]))
    ensures i + |w| <= |b| && SkipWs(b, i) == i + |w| && b[i + |w|..] == rest
    decreases |w|
  {
    if w == [] {
      assert b[i..] == rest;
      if rest != [] {
        assert b[i] == rest[0];
      }
    } else {
      FieldAt(b, i, [w[0]], w[1..] + rest) by {
        assert w + rest == [w[0]] + (w[1..] + rest);
      }
      assert b[i] == b[i..i + 1][0];
      BlankSkipped(b, i + 1, w[1..], rest);
    }
  }

  lemma {:induction false} SkippedIsBlank(b: Bytes, i: nat)
    requires i <= |b|
    ensures Blank(b[i..SkipWs(b, i)]) && SkipWs(b, SkipWs(b, i)) == SkipWs(b, i)
    decreases |b| - i
  {
    if i < |b| && IsWs(b[i]) {
      SkippedIsBlank(b, i + 1);
      var w := b[i..SkipWs(b, i)];
      assert w == [b[i]] + b[i + 1..SkipWs(b, i)];
    }
  }

  /** After an ASCII byte, valid text goes on as valid text. */
  lemma SuffixValid(b: Bytes, i: nat)
    requires Utf8.Valid(b) && 0 < i <= |b| && b[i - 1] < 0x80
    ensures Utf8.Valid(b[i..])
  {
    hide Utf8.Valid;
    assert b == b[..i - 1] + [b[i - 1]] + b[i..];
    Utf8.ValidSplitAscii(b[..i - 1], b[i - 1], b[i..]);
  }

  lemma FlagScanned(b: Bytes, i: nat, v: bool, rest: Bytes)
    requires Utf8.Valid(b) && 0 < i <= |b| && b[i - 1] < 0x80 && b[i..] == FlagText(v) + rest
    ensures ScanBoolean(b, i) == Ok((v, |b| - |rest|)) && |rest| < |b| && b[|b| - |rest|..] == rest
  {
    hide Utf8.Valid, TrueText, FalseText, FlagText;
    SuffixValid(b, i);
    Keys();
    BooleanScanned(b, i, v, rest);
  }

  lemma FlagCut(b: Bytes, i: nat)
    requires i <= |b| && ScanBoolean(b, i).Ok?
    ensures var (v, next) := ScanBoolean(b, i).value; b[i..next] == FlagText(v)
  {
    hide Utf8.Valid, TrueText, FalseText, FlagText;
    Keys();
    var text := b[i..];
    if TrueText() <= text {
      assert b[i..i + 4] == text[..4];
    }
    if FalseText() <= text {
      assert b[i..i + 5] == text[..5];
    }
  }

  function KeyOf(m: Member, f: Fields, g: Fields): Bytes {
    if f.code != g.code then CodeKey() else if f.retryable != g.retryable then FlagKey() else IdKey()
  }

  /** The value of a member is scanned into its slot. */
  lemma ValueScanned(b: Bytes, i: nat, m: Member, f: Fields, g: Fields, rest: Bytes)
    requires Utf8.Valid(b) && 0 < i <= |b| && b[i - 1] < 0x80 && b[i..] == m.value + rest && Sets(m, f, g)
    ensures ScanValue(b, i, KeyOf(m, f, g), f) == Ok((g, |b| - |rest|)) && |rest| < |b| && b[|b| - |rest|..] == rest
    ensures m.value != [] && !IsWs(m.value[0])
    ensures Quoted(m.key, KeyOf(m, f, g)) && Spaced(m)
  {
    hide Quoted, Utf8.Valid, KeyCode, KeyRetryable, KeyRequestId, CodeKey, FlagKey, IdKey, ScanString, ScanBoolean,
         Spaced, FlagText;
    Keys();
    if FlagMember(m, FlagKey(), g.retryable.Some? && g.retryable.value) && f.retryable != g.retryable {
      FlagScanned(b, i, g.retryable.value, rest);
      FlagStarts(g.retryable.value);
    } else if f.code != g.code {
      StringScanned(b, i, m.value, g.code.value, rest);
    } else {
      StringScanned(b, i, m.value, g.requestId.value, rest);
    }
  }

  lemma FlagStarts(v: bool)
    ensures FlagText(v) != [] && !IsWs(FlagText(v)[0])
  {
  }

  lemma ValueCut(b: Bytes, i: nat, key: Bytes, f: Fields)
    requires i <= |b| && ScanValue(b, i, key, f).Ok?
    ensures var (g, next) := ScanValue(b, i, key, f).value; var value := b[i..next];
            || (key == CodeKey() && f.code.None? && g.code.Some? && g == f.(code := g.code)
                && Quoted(value, g.code.value))
            || (key == FlagKey() && f.retryable.None? && g.retryable.Some? && g == f.(retryable := g.retryable)
                && value == FlagText(g.retryable.value))
            || (key == IdKey() && f.requestId.None? && g.requestId.Some? && g == f.(requestId := g.requestId)
                && Quoted(value, g.requestId.value))
  {
    hide Quoted, KeyCode, KeyRetryable, KeyRequestId, CodeKey, FlagKey, IdKey, ScanString, ScanBoolean, FlagText;
    Keys();
    if key == KeyRetryable() {
      FlagCut(b, i);
    } else {
      StringCut(b, i);
    }
  }

  /** A member before `rest`, from its colon on and from its value on. */
  function FromValue(m: Member, rest: Bytes): Bytes {
    m.value + (m.w3 + rest)
  }

  function BehindKey(m: Member, rest: Bytes): Bytes {
    m.w1 + ([COLON] + (m.w2 + rest))
  }

  lemma MemberFields(m: Member, rest: Bytes)
    ensures MemberText(m) + rest == m.w0 + (m.key + BehindKey(m, FromValue(m, rest)))
  {
    var t2 := m.value + m.w3;
    var t1 := m.w1 + ([COLON] + (m.w2 + t2));
    Assoc(m.w0, m.key + t1, rest);
    Assoc(m.key, t1, rest);
    Assoc(m.w1, [COLON] + (m.w2 + t2), rest);
    Assoc([COLON], m.w2 + t2, rest);
    Assoc(m.w2, t2, rest);
    Assoc(m.value, m.w3, rest);
  }

  /** The colon of a member is scanned, with the white space around it. */
  lemma ColonPartScanned(b: Bytes, i: nat, w1: Bytes, w2: Bytes, rest: Bytes)
    requires i <= |b| && b[i..] == w1 + ([COLON] + (w2 + rest))
    requires Blank(w1) && Blank(w2) && rest != [] && !IsWs(rest[0])
    ensures |rest| < |b| && b[|b| - |rest|..] == rest && b[|b| - |rest| - 1] < 0x80
    ensures At(b, SkipWs(b, i), COLON) && SkipWs(b, SkipWs(b, i) + 1) == |b| - |rest|
  {
    hide SkipWs, Blank, IsWs;
    var r := w2 + rest;
    PunctuationIsNoWs();
    BlankSkipped(b, i, w1, [COLON] + r);
    var colon := i + |w1|;
    FieldAt(b, colon, [COLON], r);
    assert b[colon] == b[colon..colon + 1][0];
    BlankSkipped(b, colon + 1, w2, rest);
    BeforeValue(b, colon, w2, rest);
  }

  /** The key of a member is scanned, behind its white space. */
  lemma KeyTextScanned(b: Bytes, i: nat, w: Bytes, text: Bytes, key: Bytes, rest: Bytes)
    requires i <= |b| && b[i..] == w + (text + rest) && Blank(w) && Quoted(text, key)
    ensures ScansTo(b, SkipWs(b, i), key, rest)
  {
    hide Quoted, ScanString, SkipWs, Blank, IsWs, ScansTo;
    QuotedStarts(text, key, rest);
    BlankSkipped(b, i, w, text + rest);
    StringScanned(b, i + |w|, text, key, rest);
  }

  /** The key and the colon of a member are scanned, up to its value. */
  lemma KeyPartScanned(b: Bytes, i: nat, m: Member, key: Bytes, rest: Bytes)
    requires i <= |b| && b[i..] == m.w0 + (m.key + BehindKey(m, rest))
    requires Quoted(m.key, key) && Spaced(m) && rest != [] && !IsWs(rest[0])
    ensures |rest| < |b| && b[|b| - |rest|..] == rest && b[|b| - |rest| - 1] < 0x80
    ensures ScanString(b, SkipWs(b, i)).Ok? && ScanString(b, SkipWs(b, i)).value.0 == key
    ensures var colon := SkipWs(b, ScanString(b, SkipWs(b, i)).value.1);
            At(b, colon, COLON) && SkipWs(b, colon + 1) == |b| - |rest|
  {
    hide Quoted, ScanString, SkipWs, Blank, IsWs, At;
    var behind := BehindKey(m, rest);
    KeyTextScanned(b, i, m.w0, m.key, key, behind);
    ColonPartScanned(b, |b| - |behind|, m.w1, m.w2, rest);
  }

  /** The value of a member is scanned into its slot, with the white space behind it. */
  lemma ValuePartScanned(b: Bytes, i: nat, m: Member, f: Fields, g: Fields, rest: Bytes)
    requires Utf8.Valid(b) && 0 < i <= |b| && b[i - 1] < 0x80 && b[i..] == FromValue(m, rest) && Sets(m, f, g)
    requires rest != [] && !IsWs(rest[0])
    ensures |rest| <= |b| && b[|b| - |rest|..] == rest
    ensures var r := ScanValue(b, i, KeyOf(m, f, g), f);
            r.Ok? && r.value.0 == g && SkipWs(b, r.value.1) == |b| - |rest|
  {
    hide Quoted, Utf8.Valid, ScanValue, Sets, SkipWs, Blank, KeyOf, IsWs;
    SetsMeans(m, f, g);
    var after := m.w3 + rest;
    ValueScanned(b, i, m, f, g, after);
    BlankSkipped(b, |b| - |after|, m.w3, rest);
  }

  /** A member is scanned into its slot, whatever its white space and escapes. */
  lemma MemberScanned(b: Bytes, i: nat, m: Member, f: Fields, g: Fields, rest: Bytes)
    requires Utf8.Valid(b) && i <= |b| && b[i..] == MemberText(m) + rest && Sets(m, f, g)
    requires rest != [] && !IsWs(rest[0])
    ensures ScanMember(b, i, f) == Ok((g, |b| - |rest|)) && |rest| <= |b| && b[|b| - |rest|..] == rest
  {
    hide Quoted, Utf8.Valid, ScanString, ScanValue, ScanMember, Sets, SkipWs, MemberText, Spaced, KeyOf, IsWs,
         FromValue, BehindKey, At;
    var value := FromValue(m, rest);
    MemberFields(m, rest);
    SetsMeans(m, f, g);
    StartOfValue(m, f, g, rest);
    KeyPartScanned(b, i, m, KeyOf(m, f, g), value);
    ValuePartScanned(b, |b| - |value|, m, f, g, rest);
    MemberSteps(b, i, f, KeyOf(m, f, g), |b| - |value|);
  }

  lemma MemberSteps(b: Bytes, i: nat, f: Fields, key: Bytes, atValue: nat)
    requires i <= |b| && atValue <= |b|
    requires ScanString(b, SkipWs(b, i)).Ok? && ScanString(b, SkipWs(b, i)).value.0 == key
    requires var colon := SkipWs(b, ScanString(b, SkipWs(b, i)).value.1);
             At(b, colon, COLON) && SkipWs(b, colon + 1) == atValue
    requires ScanValue(b, atValue, key, f).Ok?
    ensures var (g, afterValue) := ScanValue(b, atValue, key, f).value;
            ScanMember(b, i, f) == Ok((g, SkipWs(b, afterValue)))
  {
    hide ScanString, ScanValue, SkipWs;
  }

  lemma SetsMeans(m: Member, f: Fields, g: Fields)
    requires Sets(m, f, g)
    ensures Quoted(m.key, KeyOf(m, f, g)) && Spaced(m)
  {
    hide Quoted, CodeKey, FlagKey, IdKey, Spaced, FlagText;
  }

  lemma PunctuationIsNoWs()
    ensures !IsWs(COLON) && !IsWs(COMMA) && !IsWs(OPEN) && !IsWs(CLOSE) && !IsWs(QUOTE)
  {
  }

  lemma QuotedStarts(text: Bytes, v: Bytes, rest: Bytes)
    requires Quoted(text, v)
    ensures text + rest != [] && !IsWs((text + rest)[0])
  {
    hide Pieces, Utf8.Valid;
    var texts, vs :| QuotedBy(text, v, texts, vs);
  }

  lemma StartOfValue(m: Member, f: Fields, g: Fields, rest: Bytes)
    requires Sets(m, f, g)
    ensures FromValue(m, rest) != [] && !IsWs(FromValue(m, rest)[0])
  {
    hide Quoted, CodeKey, FlagKey, IdKey, Spaced, FlagText, IsWs;
    if f.retryable != g.retryable {
      FlagStarts(g.retryable.value);
    } else if f.code != g.code {
      QuotedStarts(m.value, g.code.value, m.w3 + rest);
    } else {
      QuotedStarts(m.value, g.requestId.value, m.w3 + rest);
    }
  }

  /** The byte before a value is the colon or white space. */
  lemma BeforeValue(b: Bytes, colon: nat, w: Bytes, rest: Bytes)
    requires colon < |b| && b[colon] == COLON && b[colon + 1..] == w + rest && Blank(w)
    ensures colon + 1 + |w| <= |b| && b[colon + |w|] < 0x80
  {
    FieldAt(b, colon + 1, w, rest);
    if w != [] {
      assert b[colon + |w|] == b[colon + 1..colon + 1 + |w|][|w| - 1];
    }
  }

  /** What a member is scanned to, its text says. */
  lemma MemberCut(b: Bytes, i: nat, f: Fields) returns (m: Member)
    requires i <= |b| && ScanMember(b, i, f).Ok?
    ensures var (g, next) := ScanMember(b, i, f).value; MemberText(m) == b[i..next] && Sets(m, f, g)
  {
    hide Quoted, CodeKey, FlagKey, IdKey, ScanString, ScanValue, SkipWs, Blank, FlagText;
    var i0 := SkipWs(b, i);
    var (key, i1) := ScanString(b, i0).value;
    var i2 := SkipWs(b, i1);
    var i3 := SkipWs(b, i2 + 1);
    var (g, i4) := ScanValue(b, i3, key, f).value;
    var i5 := SkipWs(b, i4);
    m := Member(b[i..i0], b[i0..i1], b[i1..i2], b[i2 + 1..i3], b[i3..i4], b[i4..i5]);
    SkippedIsBlank(b, i);
    SkippedIsBlank(b, i1);
    SkippedIsBlank(b, i2 + 1);
    SkippedIsBlank(b, i4);
    StringCut(b, i0);
    ValueCut(b, i3, key, f);
    CutSeven(b, i, i0, i1, i2, i3, i4, i5);
  }

  lemma CutSeven(b: Bytes, i: nat, i0: nat, i1: nat, i2: nat, i3: nat, i4: nat, i5: nat)
    requires i <= i0 <= i1 <= i2 < i3 <= i4 <= i5 <= |b| && b[i2] == COLON
    ensures MemberText(Member(b[i..i0], b[i0..i1], b[i1..i2], b[i2 + 1..i3], b[i3..i4], b[i4..i5])) == b[i..i5]
  {
    assert b[i3..i5] == b[i3..i4] + b[i4..i5];
    assert b[i2 + 1..i5] == b[i2 + 1..i3] + b[i3..i5];
    assert b[i2..i5] == [COLON] + b[i2 + 1..i5];
    assert b[i1..i5] == b[i1..i2] + b[i2..i5];
    assert b[i0..i5] == b[i0..i1] + b[i1..i5];
    assert b[i..i5] == b[i..i0] + b[i0..i5];
  }

  // ----- objects, scanned and cut -----

  /** The members fill slot after slot. */
  ghost predicate Run(ms: seq<Member>, fs: seq<Fields>) {
    |fs| == |ms| + 1 && forall i :: 0 <= i < |ms| ==> Sets(ms[i], fs[i], fs[i + 1])
  }

  /** The members and what follows them, member by member. */
  function MembersThen(ms: seq<Member>, rest: Bytes): Bytes
    requires ms != []
    decreases |ms|, 1
  {
    MemberText(ms[0]) + AfterMember(ms, rest)
  }

  function AfterMember(ms: seq<Member>, rest: Bytes): Bytes
    requires ms != []
    decreases |ms|, 0
  {
    if |ms| == 1 then [CLOSE] + rest else [COMMA] + MembersThen(ms[1..], rest)
  }

  lemma {:induction false} MembersThenMeans(ms: seq<Member>, rest: Bytes)
    requires ms != []
    ensures MembersThen(ms, rest) == MembersText(ms) + ([CLOSE] + rest)
    decreases |ms|
  {
    hide MemberText;
    if |ms| > 1 {
      MembersThenMeans(ms[1..], rest);
      Assoc([COMMA], MembersText(ms[1..]), [CLOSE] + rest);
      Assoc(MemberText(ms[0]), [COMMA] + MembersText(ms[1..]), [CLOSE] + rest);
    }
  }

  lemma AfterMemberStarts(ms: seq<Member>, rest: Bytes)
    requires ms != []
    ensures AfterMember(ms, rest) != [] && !IsWs(AfterMember(ms, rest)[0])
  {
    hide MembersThen;
  }

  lemma {:induction false} MembersScanned(b: Bytes, i: nat, ms: seq<Member>, fs: seq<Fields>, rest: Bytes)
    requires Utf8.Valid(b) && i <= |b| && ms != [] && Run(ms, fs) && b[i..] == MembersThen(ms, rest)
    ensures ScanMembers(b, i, fs[0]) == Ok((fs[|ms|], |b| - |rest|)) && |rest| < |b| && b[|b| - |rest|..] == rest
    decreases |ms|
  {
    hide Utf8.Valid, ScanMember, ScanMembers, Sets, MemberText, IsWs, Run, AfterMember;
    RunCons(ms, fs);
    var m, f, g, after := ms[0], fs[0], fs[1], AfterMember(ms, rest);
    AfterMemberStarts(ms, rest);
    MemberScanned(b, i, m, f, g, after);
    MembersStep(b, i, ms, f, g, rest);
    if |ms| > 1 {
      MembersScanned(b, |b| - |after| + 1, ms[1..], fs[1..], rest);
    }
  }

  lemma MembersStep(b: Bytes, i: nat, ms: seq<Member>, f: Fields, g: Fields, rest: Bytes)
    requires i <= |b| && ms != [] && |AfterMember(ms, rest)| <= |b|
    requires var end := |b| - |AfterMember(ms, rest)|;
             b[end..] == AfterMember(ms, rest) && ScanMember(b, i, f) == Ok((g, end))
    ensures if |ms| == 1 then
              ScanMembers(b, i, f) == Ok((g, |b| - |rest|)) && |rest| < |b| && b[|b| - |rest|..] == rest
            else
              var next := |b| - |AfterMember(ms, rest)| + 1;
              && next <= |b| && b[next..] == MembersThen(ms[1..], rest)
              && ScanMembers(b, i, f) == ScanMembers(b, next, g)
  {
    hide ScanMember, ScanMembers, MembersThen;
    if |ms| == 1 {
      MembersEnd(b, i, f, g, rest);
    } else {
      MembersGoOn(b, i, f, g, MembersThen(ms[1..], rest));
    }
  }

  lemma RunCons(ms: seq<Member>, fs: seq<Fields>)
    requires ms != [] && Run(ms, fs)
    ensures |fs| == |ms| + 1 && Sets(ms[0], fs[0], fs[1]) && Run(ms[1..], fs[1..])
  {
    hide Sets;
    forall j | 0 <= j < |ms[1..]| ensures Sets(ms[1..][j], fs[1..][j], fs[1..][j + 1]) {
      assert Sets(ms[j + 1], fs[j + 1], fs[j + 2]);
    }
  }

  lemma MembersEnd(b: Bytes, i: nat, f: Fields, g: Fields, rest: Bytes)
    requires i <= |b| && |rest| < |b| && b[|b| - |rest| - 1..] == [CLOSE] + rest
    requires ScanMember(b, i, f) == Ok((g, |b| - |rest| - 1))
    ensures ScanMembers(b, i, f) == Ok((g, |b| - |rest|)) && b[|b| - |rest|..] == rest
  {
    hide ScanMember;
    FieldAt(b, |b| - |rest| - 1, [CLOSE], rest);
    assert b[|b| - |rest| - 1] == b[|b| - |rest| - 1..][0];
  }

  lemma MembersGoOn(b: Bytes, i: nat, f: Fields, g: Fields, rest: Bytes)
    requires i <= |b| && |rest| < |b| && b[|b| - |rest| - 1..] == [COMMA] + rest
    requires ScanMember(b, i, f) == Ok((g, |b| - |rest| - 1))
    ensures ScanMembers(b, i, f) == ScanMembers(b, |b| - |rest|, g) && b[|b| - |rest|..] == rest
  {
    hide ScanMember;
    FieldAt(b, |b| - |rest| - 1, [COMMA], rest);
    assert b[|b| - |rest| - 1] == b[|b| - |rest| - 1..][0];
  }

  lemma {:induction false} MembersCut(b: Bytes, i: nat, f: Fields) returns (ms: seq<Member>, fs: seq<Fields>)
    requires i <= |b| && ScanMembers(b, i, f).Ok?
    ensures ms != [] && Run(ms, fs) && |fs| == |ms| + 1 && fs[0] == f
    ensures var (g, next) := ScanMembers(b, i, f).value; fs[|ms|] == g && b[i..next] == MembersText(ms) + [CLOSE]
    decreases |b| - i
  {
    hide ScanMember, Sets, MemberText, MembersText, Run;
    var (g, next) := ScanMember(b, i, f).value;
    var m := MemberCut(b, i, f);
    if At(b, next, CLOSE) {
      ms, fs := [m], [f, g];
      RunOne(m, f, g);
      OneText(m);
      assert b[i..next + 1] == b[i..next] + [CLOSE];
    } else {
      var more, states := MembersCut(b, next + 1, g);
      ms, fs := [m] + more, [f] + states;
      RunMore(m, f, g, more, states);
      MoreText(m, more);
      var end := ScanMembers(b, i, f).value.1;
      assert b[i..end] == b[i..next] + ([COMMA] + b[next + 1..end]);
    }
  }

  lemma RunOne(m: Member, f: Fields, g: Fields)
    requires Sets(m, f, g)
    ensures Run([m], [f, g])
  {
    hide Sets;
  }

  lemma RunMore(m: Member, f: Fields, g: Fields, ms: seq<Member>, fs: seq<Fields>)
    requires Sets(m, f, g) && Run(ms, fs) && fs[0] == g
    ensures Run([m] + ms, [f] + fs) && ([f] + fs)[|ms| + 1] == fs[|ms|]
  {
    hide Sets;
    forall j | 0 <= j < |ms| + 1 ensures Sets(([m] + ms)[j], ([f] + fs)[j], ([f] + fs)[j + 1]) {
      if j > 0 {
        assert Sets(ms[j - 1], fs[j - 1], fs[j]);
      }
    }
  }

  lemma OneText(m: Member)
    ensures MembersText([m]) == MemberText(m)
  {
    hide MemberText;
  }

  lemma MoreText(m: Member, ms: seq<Member>)
    requires ms != []
    ensures MembersText([m] + ms) + [CLOSE] == MemberText(m) + ([COMMA] + (MembersText(ms) + [CLOSE]))
  {
    hide MemberText;
    assert ([m] + ms)[1..] == ms;
    Assoc([COMMA], MembersText(ms), [CLOSE]);
    Assoc(MemberText(m), [COMMA] + MembersText(ms), [CLOSE]);
  }

  // ----- three members -----

  function Full(e: ErrorPayload): Fields {
    Fields(Some(e.code), Some(e.retryable), Some(e.requestId))
  }

  function Filled(f: Fields): nat {
    (if f.code.Some? then 1 else 0) + (if f.retryable.Some? then 1 else 0) + (if f.requestId.Some? then 1 else 0)
  }

  lemma SetsFills(m: Member, f: Fields, g: Fields)
    requires Sets(m, f, g)
    ensures Filled(g) == Filled(f) + 1
  {
    hide StringMember, FlagMember;
  }

  lemma {:induction false} RunFills(ms: seq<Member>, fs: seq<Fields>, n: nat)
    requires Run(ms, fs) && n <= |ms|
    ensures Filled(fs[n]) == Filled(fs[0]) + n
  {
    hide Sets;
    if n > 0 {
      RunFills(ms, fs, n - 1);
      assert Sets(ms[n - 1], fs[n - 1], fs[n]);
      SetsFills(ms[n - 1], fs[n - 1], fs[n]);
    }
  }

  /** Slots that are filled once each are filled by three members, one for each key. */
  lemma RunIsThree(ms: seq<Member>, fs: seq<Fields>, e: ErrorPayload)
    requires Run(ms, fs) && fs[0] == NO_FIELDS && fs[|ms|] == Full(e)
    ensures ThreeMembers(ms, e)
  {
    hide StringMember, FlagMember, CodeKey, FlagKey, IdKey;
    RunFills(ms, fs, |ms|);
    assert |ms| == 3;
    assert Sets(ms[0], fs[0], fs[1]) && Sets(ms[1], fs[1], fs[2]) && Sets(ms[2], fs[2], fs[3]);
    var i := if fs[1].code.Some? then 0 else if fs[2].code.Some? then 1 else 2;
    var j := if fs[1].retryable.Some? then 0 else if fs[2].retryable.Some? then 1 else 2;
    var k := if fs[1].requestId.Some? then 0 else if fs[2].requestId.Some? then 1 else 2;
    assert OneEach(ms, e, i, j, k);
  }

  lemma ThreeIsRun(ms: seq<Member>, e: ErrorPayload) returns (fs: seq<Fields>)
    requires ThreeMembers(ms, e)
    ensures Run(ms, fs) && fs[0] == NO_FIELDS && fs[|ms|] == Full(e)
  {
    hide StringMember, FlagMember, CodeKey, FlagKey, IdKey;
    var i: nat, j: nat, k: nat :| OneEach(ms, e, i, j, k);
    fs := seq(4, n requires 0 <= n < 4 => After(e, i, j, k, n));
    forall n | 0 <= n < 3 ensures Sets(ms[n], fs[n], fs[n + 1]) {
      assert n == i || n == j || n == k;
    }
  }

  function After(e: ErrorPayload, i: nat, j: nat, k: nat, n: nat): Fields {
    Fields(if i < n then Some(e.code) else None, if j < n then Some(e.retryable) else None,
           if k < n then Some(e.requestId) else None)
  }

  // ----- bodies -----

  /** Every body of the schema is accepted, for the payload it says. */
  lemma SchemaIsParsed(b: Bytes, e: ErrorPayload)
    requires Utf8.Valid(b) && ErrorBody(b, e)
    ensures Parse(b) == Ok(e)
  {
    hide Utf8.Valid, ThreeMembers, MembersText, ScanMembers, SkipWs, Blank, Run, IsWs;
    var lead, ms, trail :| BodyOf(b, lead, ms, trail) && ThreeMembers(ms, e);
    BodyScanned(b, e, lead, ms, trail);
  }

  lemma BodyScanned(b: Bytes, e: ErrorPayload, lead: Bytes, ms: seq<Member>, trail: Bytes)
    requires Utf8.Valid(b) && BodyOf(b, lead, ms, trail) && ThreeMembers(ms, e)
    ensures Parse(b) == Ok(e)
  {
    hide Utf8.Valid, ThreeMembers, MembersText, ScanMembers, SkipWs, Blank, IsWs;
    OpeningScanned(b, lead, MembersText(ms) + ([CLOSE] + trail));
    ObjectScanned(b, |lead| + 1, ms, e, trail);
    FirstSkip(b, |lead| + 1, NO_FIELDS);
    NotClosed(b, |lead| + 1, NO_FIELDS);
    TrailSkipped(b, trail);
  }

  lemma TrailSkipped(b: Bytes, trail: Bytes)
    requires |trail| <= |b| && b[|b| - |trail|..] == trail && Blank(trail)
    ensures SkipWs(b, |b| - |trail|) == |b|
  {
    hide SkipWs, Blank;
    assert trail == trail + [];
    BlankSkipped(b, |b| - |trail|, trail, []);
  }

  lemma OpeningScanned(b: Bytes, lead: Bytes, rest: Bytes)
    requires Blank(lead) && b == lead + ([OPEN] + rest)
    ensures SkipWs(b, 0) == |lead| && At(b, |lead|, OPEN) && b[|lead| + 1..] == rest
  {
    hide SkipWs, Blank, IsWs;
    assert b[0..] == b;
    PunctuationIsNoWs();
    BlankSkipped(b, 0, lead, [OPEN] + rest);
    FieldAt(b, |lead|, [OPEN], rest);
    assert b[|lead|] == b[|lead|..|lead| + 1][0];
  }

  lemma ObjectScanned(b: Bytes, i: nat, ms: seq<Member>, e: ErrorPayload, trail: Bytes)
    requires Utf8.Valid(b) && ThreeMembers(ms, e) && i <= |b| && b[i..] == MembersText(ms) + ([CLOSE] + trail)
    ensures ScanMembers(b, i, NO_FIELDS) == Ok((Full(e), |b| - |trail|)) && |trail| < |b| && b[|b| - |trail|..] == trail
  {
    hide Utf8.Valid, ThreeMembers, MembersText, MembersThen, ScanMembers, Run;
    var fs := ThreeIsRun(ms, e);
    ThreeNotEmpty(ms, e);
    RunLength(ms, fs);
    MembersThenMeans(ms, trail);
    MembersScanned(b, i, ms, fs, trail);
  }

  lemma ThreeNotEmpty(ms: seq<Member>, e: ErrorPayload)
    requires ThreeMembers(ms, e)
    ensures ms != []
  {
    hide OneEach;
  }

  lemma FirstSkip(b: Bytes, i: nat, f: Fields)
    requires i <= |b|
    ensures ScanMembers(b, SkipWs(b, i), f) == ScanMembers(b, i, f)
  {
    hide ScanString, ScanValue, SkipWs;
    SkippedIsBlank(b, i);
  }

  /** Where a member is scanned there is no closing brace. */
  lemma NotClosed(b: Bytes, i: nat, f: Fields)
    requires i <= |b| && ScanMembers(b, i, f).Ok?
    ensures !At(b, SkipWs(b, i), CLOSE)
  {
    hide ScanChars, ScanValue, SkipWs, Utf8.Valid;
  }

  /** Every accepted text is a body of the schema. */
  lemma ParsedIsSchema(b: Bytes)
    requires Parse(b).Ok?
    ensures ErrorBody(b, Parse(b).value)
  {
    hide ScanMembers, SkipWs, Blank, ThreeMembers, MembersText, Run;
    var e := Parse(b).value;
    var start := SkipWs(b, 0);
    var first := SkipWs(b, start + 1);
    FirstSkip(b, start + 1, NO_FIELDS);
    var (g, next) := ScanMembers(b, start + 1, NO_FIELDS).value;
    var ms, fs := MembersCut(b, start + 1, NO_FIELDS);
    SkippedIsBlank(b, 0);
    SkippedIsBlank(b, next);
    RunIsThree(ms, fs, e) by { RunLength(ms, fs); }
    var lead, trail := b[0..start], b[next..];
    assert b[next..SkipWs(b, next)] == trail;
    assert b == lead + ([OPEN] + (b[start + 1..next] + trail));
    Assoc(MembersText(ms), [CLOSE], trail);
    assert BodyOf(b, lead, ms, trail);
  }

  lemma RunLength(ms: seq<Member>, fs: seq<Fields>)
    requires Run(ms, fs)
    ensures |fs| == |ms| + 1
  {
    hide Sets;
  }

  /** `parse_error_json` accepts exactly the bodies of the schema, each for the one payload it says. */
  lemma ParseIsSchema(b: Bytes, e: ErrorPayload)
    requires Utf8.Valid(b)
    ensures Parse(b) == Ok(e) <==> ErrorBody(b, e)
  {
    hide Utf8.Valid, Parse, ErrorBody;
    if Parse(b) == Ok(e) {
      ParsedIsSchema(b);
    }
    if ErrorBody(b, e) {
      SchemaIsParsed(b, e);
    }
  }

  /** ERROR payloads: at most 4096 bytes of valid UTF-8, and a body of the schema. */
  lemma DecodeErrorMeans(payload: Bytes, e: ErrorPayload)
    ensures DecodeError(payload) == Ok(e) <==> |payload| <= 4096 && Utf8.Valid(payload) && ErrorBody(payload, e)
  {
    hide Utf8.Valid, Parse, ErrorBody;
    if Utf8.Valid(payload) {
      ParseIsSchema(payload, e);
    }
  }
}
