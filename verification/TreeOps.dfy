/** The frame operations as the crate runs them: loops over cursors, running offsets and lists of seen ids. */
module TreeOps {
  import opened Base
  import opened ErrorJson
  import opened TreePayload
  import opened TreeFrame
  import opened TreeStream
  import ErrorScan
  import MetaPage
  import Utf8

  // ----- encoding -----

  method EncodeMetaPayload(sha: Hash, pages: seq<Item>) returns (r: CodecResult<Bytes>)
    ensures r == EncodeMeta(sha, pages)
  {
    hide MetaPage.PageId, PageItem, Le16;
    if pages == [] || |pages| > META_MAX_PAGES {
      return Err(BadLength);
    }
    var payload := Le16(|pages|) + Le16(0);
    assert pages[0..] == pages;
    Assoc(Le16(|pages|), Le16(0), PageItems(pages));
    for i := 0 to |pages|
      invariant payload + PageItems(pages[i..]) == MetaBytes(pages)
      invariant forall k :: 0 <= k < i ==> MetaPage.PageId(sha, pages[k].bytes) == pages[k].id
    {
      var p := pages[i];
      if MetaPage.PageId(sha, p.bytes) != p.id {
        return Err(DigestMismatch);
      }
      assert pages[i..][0] == p && pages[i..][1..] == pages[i + 1..];
      Assoc(payload, PageItem(p), PageItems(pages[i + 1..]));
      payload := payload + PageItem(p);
    }
    assert payload + [] == payload;
    if |payload| > META_MAX_RAW {
      return Err(BadLength);
    }
    return Ok(payload);
  }

  /** The digest, length and offset loop; `off` is a checked 32-bit sum. */
  method EncodeObjectTable(sha: Hash, objects: seq<Item>) returns (r: CodecResult<Bytes>)
    ensures r == EncodeTable(sha, objects, 0)
  {
    hide TableEntry;
    var table: Bytes, off: nat := [], 0;
    assert objects[0..] == objects;
    assert EncodeTable(sha, objects, 0).Ok?
           ==> [] + EncodeTable(sha, objects, 0).value == EncodeTable(sha, objects, 0).value;
    for i := 0 to |objects|
      invariant EncodeTable(sha, objects, 0) ==
                match EncodeTable(sha, objects[i..], off) { case Err(e) => Err(e) case Ok(rest) => Ok(table + rest) }
    {
      var o := objects[i];
      assert objects[i..][0] == o && objects[i..][1..] == objects[i + 1..];
      if sha(o.bytes) != o.id {
        return Err(DigestMismatch);
      }
      if |o.bytes| > OBJECT_MAX_LEN {
        return Err(BadLength);
      }
      if off + |o.bytes| >= U32_LIMIT {
        return Err(Overflow);
      }
      ghost var rest := EncodeTable(sha, objects[i + 1..], off + |o.bytes|);
      if rest.Ok? {
        Assoc(table, TableEntry(o, off), rest.value);
      }
      table, off := table + TableEntry(o, off), off + |o.bytes|;
    }
    assert table + [] == table;
    return Ok(table);
  }

  method EncodeObjectPayload(sha: Hash, objects: seq<Item>) returns (r: CodecResult<Bytes>)
    ensures r == EncodeObject(sha, objects)
  {
    hide EncodeTable, Le16;
    if objects == [] || |objects| > OBJECT_MAX_COUNT {
      return Err(BadLength);
    }
    var encoded := EncodeObjectTable(sha, objects);
    var table :- encoded;
    var payload := Le16(|objects|) + (Le16(0) + table);
    ghost var whole := Le16(|objects|) + (Le16(0) + (table + Data(objects)));
    assert objects[0..] == objects;
    Assoc(Le16(0), table, Data(objects));
    Assoc(Le16(|objects|), Le16(0) + table, Data(objects));
    for i := 0 to |objects|
      invariant payload + Data(objects[i..]) == whole
    {
      assert objects[i..][0] == objects[i] && objects[i..][1..] == objects[i + 1..];
      Assoc(payload, objects[i].bytes, Data(objects[i + 1..]));
      payload := payload + objects[i].bytes;
    }
    assert payload + [] == payload;
    if |payload| > OBJECT_MAX_RAW {
      return Err(BadLength);
    }
    return Ok(payload);
  }

  method Encode(sha: Hash, f: Frame, sid: U32, sequence: U64) returns (r: CodecResult<Bytes>)
    ensures r == EncodeFrame(sha, f, sid, sequence)
  {
    hide EncodeMeta, EncodeObject, EncodeChunk, EncodeEnd, Print, FrameBytes;
    var encoded: CodecResult<Bytes>;
    match f {
      case Meta(pages) => encoded := EncodeMetaPayload(sha, pages);
      case Object(objects) => encoded := EncodeObjectPayload(sha, objects);
      case Chunk(c) => encoded := EncodeChunk(c);
      case End(e) => encoded := Ok(EncodeEnd(e));
      case Error(e) => encoded := if |Print(e)| > ERROR_MAX_BYTES then Err(BadLength) else Ok(Print(e));
    }
    var payload :- encoded;
    return Ok(FrameBytes(sha, KindOf(f), payload, sid, sequence));
  }

  // ----- decoding -----

  method DecodePageItems(sha: Hash, b: Bytes, count: nat) returns (r: CodecResult<(seq<Item>, nat)>)
    ensures r == DecodePages(sha, b, 4, count, [])
  {
    hide DecodePageAt;
    var off: nat, pages: seq<Item>, seen: seq<Digest> := 4, [], [];
    assert DecodePages(sha, b, 4, count, []).Ok? ==>
             [] + DecodePages(sha, b, 4, count, []).value.0 == DecodePages(sha, b, 4, count, []).value.0;
    for i := 0 to count
      invariant DecodePages(sha, b, 4, count, []) ==
                match DecodePages(sha, b, off, count - i, seen) {
                  case Err(e) => Err(e)
                  case Ok((rest, end)) => Ok((pages + rest, end))
                }
    {
      var decoded :- DecodePageAt(sha, b, off, seen);
      var (p, next) := decoded;
      ghost var rest := DecodePages(sha, b, next, count - i - 1, seen + [p.id]);
      if rest.Ok? {
        Assoc(pages, [p], rest.value.0);
      }
      off, seen, pages := next, seen + [p.id], pages + [p];
    }
    assert pages + [] == pages;
    return Ok((pages, off));
  }

  method DecodeMetaPayload(sha: Hash, payload: Bytes) returns (r: CodecResult<seq<Item>>)
    ensures r == DecodeMeta(sha, payload)
  {
    hide DecodePages, U16At;
    if |payload| > META_MAX_RAW {
      return Err(BadLength);
    }
    if |payload| < 4 {
      return Err(Truncated);
    }
    var count := U16At(payload, 0);
    if !(1 <= count <= META_MAX_PAGES) {
      return Err(BadLength);
    }
    if U16At(payload, 2) != 0 {
      return Err(BadConstant);
    }
    var decoded := DecodePageItems(sha, payload, count);
    var pages :- decoded;
    if pages.1 != |payload| {
      return Err(BadLength);
    }
    return Ok(pages.0);
  }

  method DecodeObjectTable(sha: Hash, payload: Bytes, data: Bytes, count: nat)
    returns (r: CodecResult<(seq<Item>, nat)>)
    requires 4 + 40 * count <= |payload|
    ensures r == DecodeTable(sha, payload, 4, data, count, 0, [])
  {
    hide DecodeObjectAt;
    var wanted: nat, objects: seq<Item>, seen: seq<Digest> := 0, [], [];
    ghost var whole := DecodeTable(sha, payload, 4, data, count, 0, []);
    assert whole.Ok? ==> [] + whole.value.0 == whole.value.0;
    for i := 0 to count
      invariant whole ==
                match DecodeTable(sha, payload, 4 + 40 * i, data, count - i, wanted, seen) {
                  case Err(e) => Err(e)
                  case Ok((rest, end)) => Ok((objects + rest, end))
                }
    {
      var o :- DecodeObjectAt(sha, payload, 4 + i * 40, data, wanted, seen);
      ghost var rest := DecodeTable(sha, payload, 4 + (i + 1) * 40, data, count - i - 1, wanted + |o.bytes|,
                                    seen + [o.id]);
      if rest.Ok? {
        Assoc(objects, [o], rest.value.0);
      }
      wanted, seen, objects := wanted + |o.bytes|, seen + [o.id], objects + [o];
    }
    assert objects + [] == objects;
    return Ok((objects, wanted));
  }

  method DecodeObjectPayload(sha: Hash, payload: Bytes) returns (r: CodecResult<seq<Item>>)
    ensures r == DecodeObject(sha, payload)
  {
    hide DecodeTable, U16At;
    if |payload| > OBJECT_MAX_RAW {
      return Err(BadLength);
    }
    if |payload| < 4 {
      return Err(Truncated);
    }
    var count := U16At(payload, 0);
    if !(1 <= count <= OBJECT_MAX_COUNT) {
      return Err(BadLength);
    }
    if U16At(payload, 2) != 0 {
      return Err(BadConstant);
    }
    if 4 + 40 * count > |payload| {
      return Err(Truncated);
    }
    var data := payload[4 + 40 * count..];
    var decoded := DecodeObjectTable(sha, payload, data, count);
    var objects :- decoded;
    if objects.1 != |data| {
      return Err(BadLength);
    }
    return Ok(objects.0);
  }

  method DecodeErrorPayload(payload: Bytes) returns (r: CodecResult<ErrorPayload>)
    ensures r == DecodeError(payload)
  {
    hide ErrorJson.Parse, Utf8.Valid;
    if |payload| > ERROR_MAX_BYTES {
      return Err(BadLength);
    }
    if !Utf8.Valid(payload) {
      return Err(BadConstant);
    }
    r := ErrorScan.ParseErrorJson(payload);
  }

  method DecodeByKind(sha: Hash, kind: byte, payload: Bytes, rawLen: nat) returns (r: CodecResult<Frame>)
    ensures r == DecodePayload(sha, kind, payload, rawLen)
  {
    hide DecodeMeta, DecodeObject, DecodeChunk, DecodeEnd, DecodeError;
    if kind == KIND_META {
      var decoded := DecodeMetaPayload(sha, payload);
      var pages :- decoded;
      return Ok(Meta(pages));
    } else if kind == KIND_OBJECT {
      var decoded := DecodeObjectPayload(sha, payload);
      var objects :- decoded;
      return Ok(Object(objects));
    } else if kind == KIND_CHUNK {
      var c :- DecodeChunk(payload, rawLen);
      return Ok(Chunk(c));
    } else if kind == KIND_END {
      var e :- DecodeEnd(payload);
      return Ok(End(e));
    } else if kind == KIND_ERROR {
      var decoded := DecodeErrorPayload(payload);
      var e :- decoded;
      return Ok(Error(e));
    }
    return Err(BadConstant);
  }

  method Parse(sha: Hash, buf: Bytes) returns (r: CodecResult<(Frame, nat)>)
    ensures r == ParseFrame(sha, buf)
  {
    hide DecodePayload, U16At, U32At;
    if |buf| < HEADER_LEN {
      return Err(Truncated);
    }
    if buf[0..4] != FRAME_MAGIC || U16At(buf, 4) != VERSION {
      return Err(BadConstant);
    }
    var kind, flags := buf[6], buf[7];
    if U32At(buf, 8) != HEADER_LEN || flags > 1 {
      return Err(BadConstant);
    }
    var wireLen, rawLen, sid := U32At(buf, 12), U32At(buf, 16), U32At(buf, 20);
    if sid == 0 {
      return Err(BadConstant);
    }
    if (kind == KIND_END || kind == KIND_ERROR) && flags == 1 {
      return Err(BadConstant);
    }
    if flags == 0 && wireLen != rawLen {
      return Err(BadLength);
    }
    var limit :- RawLimit(kind);
    if rawLen > limit || wireLen > DATA_MAX_WIRE {
      return Err(BadLength);
    }
    var total := HEADER_LEN + wireLen;
    if |buf| < total {
      return Err(Truncated);
    }
    var payload := buf[HEADER_LEN..total];
    if flags == 1 {
      return Err(Unsupported);
    }
    if sha(payload) != buf[32..64] {
      return Err(DigestMismatch);
    }
    var decoded := DecodeByKind(sha, kind, payload, rawLen);
    var f :- decoded;
    return Ok((f, total));
  }

  /** `parse_stream`: the loop over `off`. */
  method ParseStream(sha: Hash, buf: Bytes) returns (r: CodecResult<seq<Frame>>)
    ensures r == ParseStreamSpec(sha, buf)
  {
    hide ParseFrame, U32At, U64At, Terminator;
    var frames: seq<Frame>, off: nat, streamId: Option<U32>, wanted: nat, terminated := [], 0, None, 0, false;
    assert buf[0..] == buf;
    assert ParseStreamSpec(sha, buf).Ok? ==> [] + ParseStreamSpec(sha, buf).value == ParseStreamSpec(sha, buf).value;
    while off < |buf|
      invariant off <= |buf|
      invariant ParseStreamSpec(sha, buf) ==
                match ParseFrom(sha, buf[off..], streamId, wanted, terminated) {
                  case Err(e) => Err(e)
                  case Ok(rest) => Ok(frames + rest)
                }
    {
      if terminated {
        return Err(BadOrdering);
      }
      var parsed := Parse(sha, buf[off..]);
      var taken :- parsed;
      var (f, used) := taken;
      assert buf[off..][used..] == buf[off + used..];
      off := off + used;
      var sid := U32At(buf[off - used..], 20);
      var sequence := U64At(buf[off - used..], 24);
      match streamId {
        case None => streamId := Some(sid);
        case Some(s) =>
          if s != sid {
            return Err(BadOrdering);
          }
      }
      if sequence != wanted {
        return Err(BadOrdering);
      }
      wanted := wanted + 1;
      if Terminator(f) {
        terminated := true;
      }
      ghost var rest := ParseFrom(sha, buf[off..], streamId, wanted, terminated);
      if rest.Ok? {
        Assoc(frames, [f], rest.value);
      }
      frames := frames + [f];
    }
    if !terminated {
      return Err(BadOrdering);
    }
    assert frames + [] == frames;
    return Ok(frames);
  }
}
