/** One TreeFrame: the fixed 64-byte header, the kind limits and the payload dispatch, identity encoding only. */
module TreeFrame {
  import opened Base
  import opened ErrorJson
  import opened TreePayload
  import MetaPage
  import Utf8

  const FRAME_MAGIC: Bytes := Ascii("MST2")
  const VERSION: nat := 2
  const HEADER_LEN: nat := 64
  const KIND_META: byte := 1
  const KIND_OBJECT: byte := 2
  const KIND_CHUNK: byte := 3
  const KIND_END: byte := 254
  const KIND_ERROR: byte := 255
  const DATA_MAX_WIRE: nat := 2_097_152

  datatype Frame =
    | Meta(pages: seq<Item>)
    | Object(objects: seq<Item>)
    | Chunk(chunk: ChunkPayload)
    | End(summary: EndPayload)
    | Error(failure: ErrorPayload)

  predicate Terminator(f: Frame) {
    f.End? || f.Error?
  }

  function KindOf(f: Frame): byte {
    match f
    case Meta(_) => KIND_META
    case Object(_) => KIND_OBJECT
    case Chunk(_) => KIND_CHUNK
    case End(_) => KIND_END
    case Error(_) => KIND_ERROR
  }

  function RawLimit(kind: byte): CodecResult<nat> {
    if kind == KIND_META then Ok(META_MAX_RAW)
    else if kind == KIND_OBJECT then Ok(OBJECT_MAX_RAW)
    else if kind == KIND_CHUNK then Ok(CHUNK_HEADER_LEN + CHUNK_MAX_LEN)
    else if kind == KIND_END then Ok(END_LEN)
    else if kind == KIND_ERROR then Ok(ERROR_MAX_BYTES)
    else Err(BadConstant)
  }

  // ----- encoding -----

  function Header(kind: byte, flags: byte, wireLen: nat, rawLen: nat, sid: nat, sequence: nat,
                  digest: Digest): (b: Bytes)
    ensures |b| == HEADER_LEN
  {
    FRAME_MAGIC + (Le16(VERSION) + ([kind, flags] + (Le32(HEADER_LEN) + (Le32(wireLen) + (Le32(rawLen)
    + (Le32(sid) + (Le64(sequence) + digest)))))))
  }

  function FrameBytes(sha: Hash, kind: byte, payload: Bytes, sid: nat, sequence: nat): (b: Bytes)
    ensures |b| == HEADER_LEN + |payload|
  {
    Header(kind, 0, |payload|, |payload|, sid, sequence, sha(payload)) + payload
  }

  function EncodePayload(sha: Hash, f: Frame): CodecResult<Bytes> {
    match f
    case Meta(pages) => EncodeMeta(sha, pages)
    case Object(objects) => EncodeObject(sha, objects)
    case Chunk(c) => EncodeChunk(c)
    case End(e) => Ok(EncodeEnd(e))
    case Error(e) => if |Print(e)| > ERROR_MAX_BYTES then Err(BadLength) else Ok(Print(e))
  }

  /** The `encode` methods of the five payloads. */
  function EncodeFrame(sha: Hash, f: Frame, sid: U32, sequence: U64): CodecResult<Bytes> {
    var payload :- EncodePayload(sha, f);
    Ok(FrameBytes(sha, KindOf(f), payload, sid, sequence))
  }

  // ----- parsing -----

  function DecodePayload(sha: Hash, kind: byte, payload: Bytes, rawLen: nat): CodecResult<Frame> {
    if kind == KIND_META then
      var pages :- DecodeMeta(sha, payload);
      Ok(Meta(pages))
    else if kind == KIND_OBJECT then
      var objects :- DecodeObject(sha, payload);
      Ok(Object(objects))
    else if kind == KIND_CHUNK then
      var c :- DecodeChunk(payload, rawLen);
      Ok(Chunk(c))
    else if kind == KIND_END then
      var e :- DecodeEnd(payload);
      Ok(End(e))
    else if kind == KIND_ERROR then
      var e :- DecodeError(payload);
      Ok(Error(e))
    else Err(BadConstant)
  }

  /** Specification of `parse_frame` in a build without zstd: the frame, and how many bytes it takes. */
  function ParseFrame(sha: Hash, buf: Bytes): (r: CodecResult<(Frame, nat)>)
    ensures r.Ok? ==> HEADER_LEN <= r.value.1 <= |buf|
  {
    if |buf| < HEADER_LEN then Err(Truncated)
    else if buf[0..4] != FRAME_MAGIC then Err(BadConstant)
    else if U16At(buf, 4) != VERSION then Err(BadConstant)
    else if U32At(buf, 8) != HEADER_LEN then Err(BadConstant)
    else
      var kind, flags, wireLen, rawLen := buf[6], buf[7], U32At(buf, 12), U32At(buf, 16);
      if flags > 1 then Err(BadConstant)
      else if U32At(buf, 20) == 0 then Err(BadConstant)
      else if (kind == KIND_END || kind == KIND_ERROR) && flags == 1 then Err(BadConstant)
      else if flags == 0 && wireLen != rawLen then Err(BadLength)
      else
        var limit :- RawLimit(kind);
        if rawLen > limit || wireLen > DATA_MAX_WIRE then Err(BadLength)
        else if |buf| < HEADER_LEN + wireLen then Err(Truncated)
        else if flags == 1 then Err(Unsupported)
        else
          var payload := buf[HEADER_LEN..HEADER_LEN + wireLen];
          if sha(payload) != buf[32..64] then Err(DigestMismatch)
          else
            var f :- DecodePayload(sha, kind, payload, rawLen);
            Ok((f, HEADER_LEN + wireLen))
  }

  // ----- the header in place -----

  lemma HeaderInPlace(buf: Bytes)
    requires |buf| >= HEADER_LEN && buf[0..4] == FRAME_MAGIC && U16At(buf, 4) == VERSION && U32At(buf, 8) == HEADER_LEN
    ensures buf == Header(buf[6], buf[7], U32At(buf, 12), U32At(buf, 16), U32At(buf, 20), U64At(buf, 24), buf[32..64])
                   + buf[HEADER_LEN..]
  {
    hide Le16, Le32, Le64, U16At, U32At, U64At;
    var rest := buf[HEADER_LEN..];
    HeaderTail(buf);
    CutAt(buf, 0, 4);
    CutAt(buf, 4, 2);
    CutAt(buf, 6, 2);
    assert buf[0..] == buf && buf[6..8] == [buf[6], buf[7]];
    var f4 := Le32(U32At(buf, 12))
        + (Le32(U32At(buf, 16)) + (Le32(U32At(buf, 20)) + (Le64(U64At(buf, 24)) + buf[32..64])));
    var f3 := Le32(HEADER_LEN) + f4;
    Assoc([buf[6], buf[7]], f3, rest);
    Assoc(Le16(VERSION), [buf[6], buf[7]] + f3, rest);
    Assoc(FRAME_MAGIC, Le16(VERSION) + ([buf[6], buf[7]] + f3), rest);
  }

  lemma HeaderTail(buf: Bytes)
    requires |buf| >= HEADER_LEN
    ensures buf[8..] == Le32(U32At(buf, 8)) + (Le32(U32At(buf, 12)) + (Le32(U32At(buf, 16)) + (Le32(U32At(buf, 20))
                        + (Le64(U64At(buf, 24)) + buf[32..64])))) + buf[HEADER_LEN..]
  {
    hide Le32, Le64, U32At, U64At;
    var rest := buf[HEADER_LEN..];
    CutAt(buf, 8, 4);
    CutAt(buf, 12, 4);
    CutAt(buf, 16, 4);
    CutAt(buf, 20, 4);
    CutAt(buf, 24, 8);
    CutAt(buf, 32, 32);
    var f7 := Le64(U64At(buf, 24)) + buf[32..64];
    var f6 := Le32(U32At(buf, 20)) + f7;
    var f5 := Le32(U32At(buf, 16)) + f6;
    var f4 := Le32(U32At(buf, 12)) + f5;
    Assoc(Le64(U64At(buf, 24)), buf[32..64], rest);
    Assoc(Le32(U32At(buf, 20)), f7, rest);
    Assoc(Le32(U32At(buf, 16)), f6, rest);
    Assoc(Le32(U32At(buf, 12)), f5, rest);
    Assoc(Le32(U32At(buf, 8)), f4, rest);
  }

  lemma HeaderFields(buf: Bytes, kind: byte, flags: byte, wireLen: U32, rawLen: U32, sid: U32, sequence: U64,
                     digest: Digest, rest: Bytes)
    requires buf == Header(kind, flags, wireLen, rawLen, sid, sequence, digest) + rest
    ensures |buf| >= HEADER_LEN && buf[0..4] == FRAME_MAGIC && U16At(buf, 4) == VERSION && buf[6] == kind
            && buf[7] == flags
    ensures U32At(buf, 8) == HEADER_LEN && U32At(buf, 12) == wireLen && U32At(buf, 16) == rawLen
            && U32At(buf, 20) == sid
    ensures U64At(buf, 24) == sequence && buf[32..64] == digest && buf[HEADER_LEN..] == rest
  {
    hide Le16, Le32, Le64, U16At, U32At, U64At;
    var f7 := Le64(sequence) + digest;
    var f6 := Le32(sid) + f7;
    var f5 := Le32(rawLen) + f6;
    var f4 := Le32(wireLen) + f5;
    var f3 := Le32(HEADER_LEN) + f4;
    var f2 := [kind, flags] + f3;
    assert buf[0..] == buf;
    Assoc(FRAME_MAGIC, Le16(VERSION) + f2, rest);
    Assoc(Le16(VERSION), f2, rest);
    Assoc([kind, flags], f3, rest);
    FieldAt(buf, 0, FRAME_MAGIC, Le16(VERSION) + (f2 + rest));
    FieldU16(buf, 4, VERSION, f2 + rest);
    FieldAt(buf, 6, [kind, flags], f3 + rest);
    assert buf[6] == buf[6..8][0] && buf[7] == buf[6..8][1];
    HeaderTailFields(buf, wireLen, rawLen, sid, sequence, digest, rest);
  }

  lemma HeaderTailFields(buf: Bytes, wireLen: U32, rawLen: U32, sid: U32, sequence: U64, digest: Digest, rest: Bytes)
    requires |buf| >= 8
    requires buf[8..] == (Le32(HEADER_LEN) + (Le32(wireLen) + (Le32(rawLen) + (Le32(sid) + (Le64(sequence) + digest)))))
             + rest
    ensures |buf| >= HEADER_LEN
    ensures U32At(buf, 8) == HEADER_LEN && U32At(buf, 12) == wireLen && U32At(buf, 16) == rawLen
            && U32At(buf, 20) == sid
    ensures U64At(buf, 24) == sequence && buf[32..64] == digest && buf[HEADER_LEN..] == rest
  {
    hide Le32, Le64, U32At, U64At;
    var f7 := Le64(sequence) + digest;
    var f6 := Le32(sid) + f7;
    var f5 := Le32(rawLen) + f6;
    var f4 := Le32(wireLen) + f5;
    Assoc(Le32(HEADER_LEN), f4, rest);
    Assoc(Le32(wireLen), f5, rest);
    Assoc(Le32(rawLen), f6, rest);
    Assoc(Le32(sid), f7, rest);
    Assoc(Le64(sequence), digest, rest);
    FieldU32(buf, 8, HEADER_LEN, f4 + rest);
    FieldU32(buf, 12, wireLen, f5 + rest);
    FieldU32(buf, 16, rawLen, f6 + rest);
    FieldU32(buf, 20, sid, f7 + rest);
    FieldU64(buf, 24, sequence, digest + rest);
    FieldAt(buf, 32, digest, rest);
  }

  // ----- payloads -----

  /** Texts are UTF-8, as Rust strings are. */
  predicate HasText(f: Frame) {
    f.Error? ==> Utf8.Valid(f.failure.code) && Utf8.Valid(f.failure.requestId)
  }

  /** The frames an encoder accepts and a receiver takes: ids are distinct and META pages at most 16 KiB. */
  predicate Receivable(sha: Hash, f: Frame) {
    && EncodePayload(sha, f).Ok?
    && match f
       case Meta(pages) => SmallPages(pages) && DistinctIds(pages)
       case Object(objects) => DistinctIds(objects)
       case _ => true
  }

  lemma PayloadFits(sha: Hash, f: Frame)
    requires EncodePayload(sha, f).Ok?
    ensures RawLimit(KindOf(f)).Ok? && |EncodePayload(sha, f).value| <= RawLimit(KindOf(f)).value
  {
    hide EncodeTable, PageItems, Data, Print, PagesHashed, Le16, Le32, Le64;
  }

  /** A decoded payload other than ERROR is the payload of the frame; ERROR bodies may be written in many ways. */
  lemma PayloadWritesBack(sha: Hash, kind: byte, payload: Bytes)
    requires DecodePayload(sha, kind, payload, |payload|).Ok?
    ensures var f := DecodePayload(sha, kind, payload, |payload|).value;
            && KindOf(f) == kind
            && (!f.Error? ==> Receivable(sha, f) && EncodePayload(sha, f) == Ok(payload))
  {
    hide DecodeMeta, DecodeObject, DecodeChunk, DecodeEnd, DecodeError, EncodeMeta, EncodeObject, EncodeChunk,
         EncodeEnd;
    hide SmallPages, DistinctIds;
    match DecodePayload(sha, kind, payload, |payload|).value
    case Meta(pages) => MetaCodec(sha, payload, pages);
    case Object(objects) => ObjectCodec(sha, payload, objects);
    case Chunk(c) => ChunkCodec(payload, c);
    case End(e) => EndCodec(payload, e);
    case Error(e) =>
  }

  lemma PayloadReadsBack(sha: Hash, f: Frame)
    requires Receivable(sha, f) && HasText(f)
    ensures var payload := EncodePayload(sha, f).value;
            DecodePayload(sha, KindOf(f), payload, |payload|) == Ok(f)
  {
    hide DecodeMeta, DecodeObject, DecodeChunk, DecodeEnd, DecodeError, EncodeMeta, EncodeObject, EncodeChunk,
         EncodeEnd, Print;
    hide SmallPages, DistinctIds, Utf8.Valid;
    var payload := EncodePayload(sha, f).value;
    match f
    case Meta(pages) => MetaCodec(sha, payload, pages);
    case Object(objects) => ObjectCodec(sha, payload, objects);
    case Chunk(c) => ChunkCodec(payload, c);
    case End(e) => EndCodec(payload, e);
    case Error(e) => DecodeErrorOfPrint(e);
  }

  // ----- whole frames -----

  /** Identity frame bytes followed by anything are parsed by their payload alone. */
  lemma ParseOfBytes(sha: Hash, kind: byte, payload: Bytes, sid: U32, sequence: U64, rest: Bytes)
    requires sid != 0 && RawLimit(kind).Ok? && |payload| <= RawLimit(kind).value
    ensures var f := DecodePayload(sha, kind, payload, |payload|);
            ParseFrame(sha, FrameBytes(sha, kind, payload, sid, sequence) + rest) ==
            if f.Err? then Err(f.error) else Ok((f.value, HEADER_LEN + |payload|))
    ensures var buf := FrameBytes(sha, kind, payload, sid, sequence) + rest;
            U32At(buf, 20) == sid && U64At(buf, 24) == sequence && buf[HEADER_LEN + |payload|..] == rest
  {
    hide Header, DecodePayload, U16At, U32At, U64At;
    var buf := FrameBytes(sha, kind, payload, sid, sequence) + rest;
    var h := Header(kind, 0, |payload|, |payload|, sid, sequence, sha(payload));
    Assoc(h, payload, rest);
    HeaderFields(buf, kind, 0, |payload|, |payload|, sid, sequence, sha(payload), payload + rest);
    FieldAt(buf, HEADER_LEN, payload, rest);
  }

  /** Accepted bytes are an identity frame around their payload. */
  lemma BytesOfParse(sha: Hash, buf: Bytes)
    requires ParseFrame(sha, buf).Ok?
    ensures var (f, used) := ParseFrame(sha, buf).value;
            var payload := buf[HEADER_LEN..used];
            && DecodePayload(sha, buf[6], payload, |payload|) == Ok(f)
            && RawLimit(buf[6]).Ok? && |payload| <= RawLimit(buf[6]).value
            && U32At(buf, 20) != 0 && buf[..used] == FrameBytes(sha, buf[6], payload, U32At(buf, 20), U64At(buf, 24))
  {
    hide Header, DecodePayload, U16At, U32At, U64At;
    var used := ParseFrame(sha, buf).value.1;
    var payload := buf[HEADER_LEN..used];
    HeaderInPlace(buf);
    var h := Header(buf[6], 0, |payload|, |payload|, U32At(buf, 20), U64At(buf, 24), sha(payload));
    CutAt(buf, HEADER_LEN, |payload|);
    Assoc(h, payload, buf[used..]);
    assert buf[..used] == h + payload;
  }

  /** Parsing looks at no byte after the length it reports. */
  lemma ParseIgnoresRest(sha: Hash, buf: Bytes, rest: Bytes)
    requires ParseFrame(sha, buf).Ok?
    ensures ParseFrame(sha, buf[..ParseFrame(sha, buf).value.1] + rest) == ParseFrame(sha, buf)
  {
    hide ParseFrame, FrameBytes, DecodePayload, U32At, U64At;
    BytesOfParse(sha, buf);
    var used := ParseFrame(sha, buf).value.1;
    ParseOfBytes(sha, buf[6], buf[HEADER_LEN..used], U32At(buf, 20), U64At(buf, 24), rest);
  }

  /** An accepted frame that is not an ERROR re-encodes, under its stream id and sequence, to the bytes it came from. */
  lemma AcceptedFrameIsCanonical(sha: Hash, buf: Bytes)
    requires ParseFrame(sha, buf).Ok?
    ensures var (f, used) := ParseFrame(sha, buf).value;
            && U32At(buf, 20) != 0
            && (!f.Error? ==>
                  Receivable(sha, f) && EncodeFrame(sha, f, U32At(buf, 20), U64At(buf, 24)) == Ok(buf[..used]))
  {
    hide ParseFrame, FrameBytes, DecodePayload, EncodePayload, Receivable, U32At, U64At;
    BytesOfParse(sha, buf);
    var used := ParseFrame(sha, buf).value.1;
    PayloadWritesBack(sha, buf[6], buf[HEADER_LEN..used]);
  }

  /** Encoding then parsing returns the frame exactly when the stream id is non-zero and the frame is receivable. */
  lemma ParseOfEncode(sha: Hash, f: Frame, sid: U32, sequence: U64, rest: Bytes)
    requires HasText(f) && EncodeFrame(sha, f, sid, sequence).Ok?
    ensures var bytes := EncodeFrame(sha, f, sid, sequence).value;
            ParseFrame(sha, bytes + rest) == Ok((f, |bytes|)) <==> sid != 0 && Receivable(sha, f)
  {
    hide ParseFrame, FrameBytes, DecodePayload, EncodePayload, U32At, U64At, HasText;
    var payload := EncodePayload(sha, f).value;
    var bytes := FrameBytes(sha, KindOf(f), payload, sid, sequence);
    PayloadFits(sha, f);
    if sid != 0 && Receivable(sha, f) {
      PayloadReadsBack(sha, f);
      ParseOfBytes(sha, KindOf(f), payload, sid, sequence, rest);
    }
    if ParseFrame(sha, bytes + rest) == Ok((f, |bytes|)) {
      AcceptedFrameIsCanonical(sha, bytes + rest);
      StreamIdOf(sha, KindOf(f), payload, sid, sequence, rest);
    }
  }

  lemma StreamIdOf(sha: Hash, kind: byte, payload: Bytes, sid: U32, sequence: U64, rest: Bytes)
    requires |payload| < U32_LIMIT
    ensures U32At(FrameBytes(sha, kind, payload, sid, sequence) + rest, 20) == sid
  {
    hide Header, U32At, U64At, U16At;
    var h := Header(kind, 0, |payload|, |payload|, sid, sequence, sha(payload));
    Assoc(h, payload, rest);
    HeaderFields(h + payload + rest, kind, 0, |payload|, |payload|, sid, sequence, sha(payload), payload + rest);
  }

  /** The encoder does not look for repeated ids: one page sent twice is encoded, and the receiver refuses it. */
  lemma RepeatedPageIsRefused(sha: Hash)
    ensures var p := Item(MetaPage.PageId(sha, []), []);
            var f := Meta([p, p]);
            && EncodeFrame(sha, f, 1, 0).Ok?
            && ParseFrame(sha, EncodeFrame(sha, f, 1, 0).value) != Ok((f, |EncodeFrame(sha, f, 1, 0).value|))
  {
    hide ParseFrame, FrameBytes, MetaPage.PageId, Le16, Le32;
    var p := Item(MetaPage.PageId(sha, []), []);
    var f := Meta([p, p]);
    assert [p, p][1..] == [p] && [p][1..] == [];
    assert |PageItems([p])| == 36 && |PageItems([p, p])| == 72;
    var bytes := EncodeFrame(sha, f, 1, 0).value;
    assert bytes + [] == bytes;
    ParseOfEncode(sha, f, 1, 0, []);
    assert f.pages[0].id == f.pages[1].id && !DistinctIds(f.pages);
  }
}
