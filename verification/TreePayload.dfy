/** Raw frame payloads: META, OBJECT, CHUNK and END bodies, and exactly which bytes each decoder accepts. */
module TreePayload {
  import opened Base
  import MetaPage

  const META_MAX_PAGES: nat := 64
  const META_MAX_RAW: nat := 1_048_576
  const OBJECT_MAX_COUNT: nat := 128
  const OBJECT_MAX_LEN: nat := 262_144
  const OBJECT_MAX_RAW: nat := 1_048_576
  const CHUNK_MAX_LEN: nat := 1_048_576
  const CHUNK_HEADER_LEN: nat := 76
  const END_LEN: nat := 48

  /** An identified byte string: a page with its page id, or an object with its content id. */
  datatype Item = Item(id: Digest, bytes: Bytes)

  /** No id occurs in `seen` or twice. */
  predicate Fresh(items: seq<Item>, seen: seq<Digest>) {
    items == [] || (items[0].id !in seen && Fresh(items[1..], seen + [items[0].id]))
  }

  predicate DistinctIds(items: seq<Item>) {
    forall i, j :: 0 <= i < j < |items| ==> items[i].id != items[j].id
  }

  lemma {:induction false} FreshMeans(items: seq<Item>, seen: seq<Digest>)
    ensures Fresh(items, seen) <==> DistinctIds(items) && forall i :: 0 <= i < |items| ==> items[i].id !in seen
  {
    if items != [] {
      var rest, seen' := items[1..], seen + [items[0].id];
      FreshMeans(rest, seen');
      assert forall i :: 0 <= i < |rest| ==> rest[i] == items[i + 1];
      assert items[0].id in seen';
      if DistinctIds(items) && (forall i :: 0 <= i < |items| ==> items[i].id !in seen) {
        assert forall i :: 0 <= i < |rest| ==> rest[i].id !in seen';
      }
      if Fresh(items, seen) {
        forall i, j | 0 <= i < j < |items| ensures items[i].id != items[j].id {
          assert items[j] == rest[j - 1];
          assert rest[j - 1].id !in seen';
          if i > 0 {
            assert items[i] == rest[i - 1];
          }
        }
        forall i | 0 <= i < |items| ensures items[i].id !in seen {
          if i > 0 {
            assert items[i] == rest[i - 1] && rest[i - 1].id !in seen';
          }
        }
      }
    }
  }

  // ----- META -----

  function PageItem(p: Item): Bytes {
    p.id + (Le32(|p.bytes|) + p.bytes)
  }

  function PageItems(pages: seq<Item>): Bytes {
    if pages == [] then [] else PageItem(pages[0]) + PageItems(pages[1..])
  }

  function MetaBytes(pages: seq<Item>): Bytes {
    Le16(|pages|) + (Le16(0) + PageItems(pages))
  }

  predicate PagesHashed(sha: Hash, pages: seq<Item>) {
    forall i :: 0 <= i < |pages| ==> MetaPage.PageId(sha, pages[i].bytes) == pages[i].id
  }

  predicate SmallPages(pages: seq<Item>) {
    forall i :: 0 <= i < |pages| ==> |pages[i].bytes| <= MetaPage.PAGE_MAX_BYTES
  }

  /** `MetaPayload::encode`, up to framing. */
  function EncodeMeta(sha: Hash, pages: seq<Item>): CodecResult<Bytes> {
    if pages == [] || |pages| > META_MAX_PAGES then Err(BadLength)
    else if !PagesHashed(sha, pages) then Err(DigestMismatch)
    else if |MetaBytes(pages)| > META_MAX_RAW then Err(BadLength)
    else Ok(MetaBytes(pages))
  }

  /** One page at `off`, not seen before, and where the next one starts. */
  function DecodePageAt(sha: Hash, b: Bytes, off: nat, seen: seq<Digest>): CodecResult<(Item, nat)> {
    var id :- Slice(b, off, 32);
    var len :- ReadU32(b, off + 32);
    if len > MetaPage.PAGE_MAX_BYTES then Err(BadLength)
    else
      var page :- Slice(b, off + 36, len);
      if MetaPage.PageId(sha, page) != id then Err(DigestMismatch)
      else if id in seen then Err(Duplicate)
      else Ok((Item(id, page), off + 36 + len))
  }

  function DecodePages(sha: Hash, b: Bytes, off: nat, count: nat, seen: seq<Digest>): (r: CodecResult<(seq<Item>, nat)>)
    decreases count
  {
    if count == 0 then Ok(([], off))
    else
      var (p, next) :- DecodePageAt(sha, b, off, seen);
      var (rest, end) :- DecodePages(sha, b, next, count - 1, seen + [p.id]);
      Ok(([p] + rest, end))
  }

  function DecodeMeta(sha: Hash, payload: Bytes): CodecResult<seq<Item>> {
    if |payload| > META_MAX_RAW then Err(BadLength)
    else if |payload| < 4 then Err(Truncated)
    else
      var count := U16At(payload, 0);
      if !(1 <= count <= META_MAX_PAGES) then Err(BadLength)
      else if U16At(payload, 2) != 0 then Err(BadConstant)
      else
        var (pages, end) :- DecodePages(sha, payload, 4, count, []);
        if end != |payload| then Err(BadLength) else Ok(pages)
  }

  /** What a receiver demands of a META payload beyond what the encoder checks. */
  predicate MetaOk(sha: Hash, pages: seq<Item>) {
    && EncodeMeta(sha, pages).Ok? && SmallPages(pages) && DistinctIds(pages)
  }

  lemma PageWritesBack(sha: Hash, b: Bytes, off: nat, seen: seq<Digest>)
    requires DecodePageAt(sha, b, off, seen).Ok?
    ensures var (p, next) := DecodePageAt(sha, b, off, seen).value;
            && MetaPage.PageId(sha, p.bytes) == p.id && |p.bytes| <= MetaPage.PAGE_MAX_BYTES && p.id !in seen
            && off <= next <= |b| && b[off..] == PageItem(p) + b[next..]
  {
    hide MetaPage.PageId, Le32, U32At;
    var len := U32At(b, off + 32);
    var rest := b[off + 36 + len..];
    CutAt(b, off, 32);
    CutAt(b, off + 32, 4);
    CutAt(b, off + 36, len);
    Assoc(b[off..off + 32], Le32(len) + b[off + 36..off + 36 + len], rest);
    Assoc(Le32(len), b[off + 36..off + 36 + len], rest);
  }

  lemma {:induction false} PagesWriteBack(sha: Hash, b: Bytes, off: nat, count: nat, seen: seq<Digest>)
    requires off <= |b| && DecodePages(sha, b, off, count, seen).Ok?
    ensures var (pages, end) := DecodePages(sha, b, off, count, seen).value;
            && |pages| == count && PagesHashed(sha, pages) && SmallPages(pages) && Fresh(pages, seen)
            && end <= |b| && b[off..] == PageItems(pages) + b[end..]
    decreases count
  {
    hide MetaPage.PageId, DecodePageAt, PageItem;
    if count == 0 {
      assert b[off..] == [] + b[off..];
    } else {
      var (p, next) := DecodePageAt(sha, b, off, seen).value;
      PageWritesBack(sha, b, off, seen);
      PagesWriteBack(sha, b, next, count - 1, seen + [p.id]);
      var (rest, end) := DecodePages(sha, b, next, count - 1, seen + [p.id]).value;
      assert ([p] + rest)[1..] == rest;
      Assoc(PageItem(p), PageItems(rest), b[end..]);
    }
  }

  lemma PageReadsBack(sha: Hash, b: Bytes, off: nat, p: Item, seen: seq<Digest>, rest: Bytes)
    requires off <= |b| && b[off..] == PageItem(p) + rest
    requires MetaPage.PageId(sha, p.bytes) == p.id && |p.bytes| <= MetaPage.PAGE_MAX_BYTES && p.id !in seen
    ensures var next := off + 36 + |p.bytes|;
            DecodePageAt(sha, b, off, seen) == Ok((p, next)) && next <= |b| && b[next..] == rest
  {
    hide MetaPage.PageId, Le32, U32At;
    Assoc(p.id, Le32(|p.bytes|) + p.bytes, rest);
    Assoc(Le32(|p.bytes|), p.bytes, rest);
    FieldAt(b, off, p.id, Le32(|p.bytes|) + (p.bytes + rest));
    FieldU32(b, off + 32, |p.bytes|, p.bytes + rest);
    FieldAt(b, off + 36, p.bytes, rest);
  }

  lemma {:induction false} PagesReadBack(sha: Hash, b: Bytes, off: nat, pages: seq<Item>, seen: seq<Digest>,
                                         rest: Bytes)
    requires off <= |b| && b[off..] == PageItems(pages) + rest
    requires PagesHashed(sha, pages) && SmallPages(pages) && Fresh(pages, seen)
    ensures DecodePages(sha, b, off, |pages|, seen) == Ok((pages, |b| - |rest|))
    decreases |pages|
  {
    hide MetaPage.PageId, DecodePageAt, PageItem;
    if pages == [] {
      assert b[off..] == rest;
    } else {
      var p := pages[0];
      Assoc(PageItem(p), PageItems(pages[1..]), rest);
      PageReadsBack(sha, b, off, p, seen, PageItems(pages[1..]) + rest);
      PagesReadBack(sha, b, off + 36 + |p.bytes|, pages[1..], seen + [p.id], rest);
      assert [p] + pages[1..] == pages;
    }
  }

  /** Exactly the encodings of acceptable page lists are decoded, each to the list it encodes. */
  lemma MetaCodec(sha: Hash, payload: Bytes, pages: seq<Item>)
    ensures DecodeMeta(sha, payload) == Ok(pages) <==> MetaOk(sha, pages) && EncodeMeta(sha, pages) == Ok(payload)
  {
    hide DecodePages, Le16, U16At, PageItems, PagesHashed, SmallPages, DistinctIds, Fresh;
    FreshMeans(pages, []);
    if DecodeMeta(sha, payload) == Ok(pages) {
      PagesWriteBack(sha, payload, 4, U16At(payload, 0), []);
      CutAt(payload, 0, 2);
      CutAt(payload, 2, 2);
      assert payload[0..] == payload && payload[|payload|..] == [];
      assert PageItems(pages) + [] == PageItems(pages);
    }
    if MetaOk(sha, pages) && EncodeMeta(sha, pages) == Ok(payload) {
      assert payload[0..] == payload;
      FieldU16(payload, 0, |pages|, Le16(0) + PageItems(pages));
      FieldU16(payload, 2, 0, PageItems(pages));
      assert PageItems(pages) + [] == PageItems(pages);
      PagesReadBack(sha, payload, 4, pages, [], []);
    }
  }

  // ----- OBJECT -----

  function TableEntry(item: Item, off: nat): Bytes {
    item.id + (Le32(|item.bytes|) + Le32(off))
  }

  /** The length table of objects whose data starts at `off`. */
  function Table(objects: seq<Item>, off: nat): (t: Bytes)
    ensures |t| == 40 * |objects|
  {
    if objects == [] then [] else TableEntry(objects[0], off) + Table(objects[1..], off + |objects[0].bytes|)
  }

  function Data(objects: seq<Item>): Bytes {
    if objects == [] then [] else objects[0].bytes + Data(objects[1..])
  }

  predicate ObjectsHashed(sha: Hash, objects: seq<Item>) {
    forall i :: 0 <= i < |objects| ==> sha(objects[i].bytes) == objects[i].id
  }

  predicate SmallObjects(objects: seq<Item>) {
    forall i :: 0 <= i < |objects| ==> |objects[i].bytes| <= OBJECT_MAX_LEN
  }

  /** The table, object by object: digest, length, then the checked running offset. */
  function EncodeTable(sha: Hash, objects: seq<Item>, off: nat): CodecResult<Bytes> {
    if objects == [] then Ok([])
    else
      var o := objects[0];
      if sha(o.bytes) != o.id then Err(DigestMismatch)
      else if |o.bytes| > OBJECT_MAX_LEN then Err(BadLength)
      else if off + |o.bytes| >= U32_LIMIT then Err(Overflow)
      else
        var rest :- EncodeTable(sha, objects[1..], off + |o.bytes|);
        Ok(TableEntry(o, off) + rest)
  }

  /** `ObjectPayload::encode`, up to framing. */
  function EncodeObject(sha: Hash, objects: seq<Item>): CodecResult<Bytes> {
    if objects == [] || |objects| > OBJECT_MAX_COUNT then Err(BadLength)
    else
      var table :- EncodeTable(sha, objects, 0);
      var payload := Le16(|objects|) + (Le16(0) + (table + Data(objects)));
      if |payload| > OBJECT_MAX_RAW then Err(BadLength) else Ok(payload)
  }

  /** The object whose table entry is at `p`, not seen before, with data at the wanted offset. */
  function DecodeObjectAt(sha: Hash, payload: Bytes, p: nat, data: Bytes, want: nat,
                          seen: seq<Digest>): CodecResult<Item>
    requires p + 40 <= |payload|
  {
    var id, len, off := payload[p..p + 32], U32At(payload, p + 32), U32At(payload, p + 36);
    if len > OBJECT_MAX_LEN then Err(BadLength)
    else if off != want then Err(BadOrdering)
    else if want + len >= U32_LIMIT then Err(Overflow)
    else if id in seen then Err(Duplicate)
    else
      var bytes :- Slice(data, off, len);
      if sha(bytes) != id then Err(DigestMismatch) else Ok(Item(id, bytes))
  }

  /** Table entries from position `p` on, with the data they name. */
  function DecodeTable(sha: Hash, payload: Bytes, p: nat, data: Bytes, count: nat, want: nat, seen: seq<Digest>)
    : (r: CodecResult<(seq<Item>, nat)>)
    requires p + 40 * count <= |payload|
    decreases count
  {
    if count == 0 then Ok(([], want))
    else
      var o :- DecodeObjectAt(sha, payload, p, data, want, seen);
      var (rest, end) :- DecodeTable(sha, payload, p + 40, data, count - 1, want + |o.bytes|, seen + [o.id]);
      Ok(([o] + rest, end))
  }

  function DecodeObject(sha: Hash, payload: Bytes): CodecResult<seq<Item>> {
    if |payload| > OBJECT_MAX_RAW then Err(BadLength)
    else if |payload| < 4 then Err(Truncated)
    else
      var count := U16At(payload, 0);
      if !(1 <= count <= OBJECT_MAX_COUNT) then Err(BadLength)
      else if U16At(payload, 2) != 0 then Err(BadConstant)
      else if 4 + 40 * count > |payload| then Err(Truncated)
      else
        var data := payload[4 + 40 * count..];
        var (objects, end) :- DecodeTable(sha, payload, 4, data, count, 0, []);
        if end != |data| then Err(BadLength) else Ok(objects)
  }

  /** What a receiver demands of an OBJECT payload beyond what the encoder checks. */
  predicate ObjectOk(sha: Hash, objects: seq<Item>) {
    EncodeObject(sha, objects).Ok? && DistinctIds(objects)
  }

  lemma {:induction false} EncodeTableMeans(sha: Hash, objects: seq<Item>, off: nat)
    ensures EncodeTable(sha, objects, off).Ok? ==> EncodeTable(sha, objects, off).value == Table(objects, off)
    ensures ObjectsHashed(sha, objects) && SmallObjects(objects) && off + |Data(objects)| < U32_LIMIT
            ==> EncodeTable(sha, objects, off).Ok?
    ensures EncodeTable(sha, objects, off).Ok? ==> ObjectsHashed(sha, objects) && SmallObjects(objects)
    ensures EncodeTable(sha, objects, off).Ok? && off < U32_LIMIT ==> off + |Data(objects)| < U32_LIMIT
  {
    hide TableEntry;
    if objects != [] {
      var rest := objects[1..];
      EncodeTableMeans(sha, rest, off + |objects[0].bytes|);
      assert objects == [objects[0]] + rest;
    }
  }

  lemma ObjectEntryWritesBack(sha: Hash, payload: Bytes, p: nat, data: Bytes, want: nat, seen: seq<Digest>)
    requires p + 40 <= |payload| && DecodeObjectAt(sha, payload, p, data, want, seen).Ok?
    ensures var o := DecodeObjectAt(sha, payload, p, data, want, seen).value;
            && sha(o.bytes) == o.id && |o.bytes| <= OBJECT_MAX_LEN && o.id !in seen
            && payload[p..] == TableEntry(o, want) + payload[p + 40..]
            && want + |o.bytes| < U32_LIMIT && want + |o.bytes| <= |data|
            && data[want..] == o.bytes + data[want + |o.bytes|..]
  {
    hide Le32, U32At;
    var o := DecodeObjectAt(sha, payload, p, data, want, seen).value;
    var rest := payload[p + 40..];
    CutAt(payload, p, 32);
    CutAt(payload, p + 32, 4);
    CutAt(payload, p + 36, 4);
    CutAt(data, want, |o.bytes|);
    Assoc(o.id, Le32(|o.bytes|) + Le32(want), rest);
    Assoc(Le32(|o.bytes|), Le32(want), rest);
  }

  lemma {:induction false} TableWritesBack(sha: Hash, payload: Bytes, p: nat, data: Bytes, count: nat, want: nat,
                                           seen: seq<Digest>)
    requires p + 40 * count <= |payload| && want <= |data| && want < U32_LIMIT
    requires DecodeTable(sha, payload, p, data, count, want, seen).Ok?
    ensures var (objects, end) := DecodeTable(sha, payload, p, data, count, want, seen).value;
            && |objects| == count && ObjectsHashed(sha, objects) && SmallObjects(objects) && Fresh(objects, seen)
            && payload[p..] == Table(objects, want) + payload[p + 40 * count..]
            && end == want + |Data(objects)| < U32_LIMIT && end <= |data| && data[want..] == Data(objects) + data[end..]
    decreases count
  {
    hide DecodeObjectAt, TableEntry;
    if count == 0 {
      assert payload[p..] == [] + payload[p..] && data[want..] == [] + data[want..];
    } else {
      var o := DecodeObjectAt(sha, payload, p, data, want, seen).value;
      ObjectEntryWritesBack(sha, payload, p, data, want, seen);
      TableWritesBack(sha, payload, p + 40, data, count - 1, want + |o.bytes|, seen + [o.id]);
      var (rest, end) := DecodeTable(sha, payload, p + 40, data, count - 1, want + |o.bytes|, seen + [o.id]).value;
      assert ([o] + rest)[1..] == rest;
      Assoc(TableEntry(o, want), Table(rest, want + |o.bytes|), payload[p + 40 * count..]);
      Assoc(o.bytes, Data(rest), data[end..]);
    }
  }

  lemma ObjectEntryReadsBack(sha: Hash, payload: Bytes, p: nat, data: Bytes, o: Item, want: nat, seen: seq<Digest>,
                             restT: Bytes, restD: Bytes)
    requires p <= |payload| && payload[p..] == TableEntry(o, want) + restT
    requires want <= |data| && data[want..] == o.bytes + restD && want + |o.bytes| < U32_LIMIT
    requires sha(o.bytes) == o.id && |o.bytes| <= OBJECT_MAX_LEN && o.id !in seen
    ensures p + 40 <= |payload| && payload[p + 40..] == restT
    ensures want + |o.bytes| <= |data| && data[want + |o.bytes|..] == restD
    ensures DecodeObjectAt(sha, payload, p, data, want, seen) == Ok(o)
  {
    hide Le32, U32At;
    Assoc(o.id, Le32(|o.bytes|) + Le32(want), restT);
    Assoc(Le32(|o.bytes|), Le32(want), restT);
    FieldAt(payload, p, o.id, Le32(|o.bytes|) + (Le32(want) + restT));
    FieldU32(payload, p + 32, |o.bytes|, Le32(want) + restT);
    FieldU32(payload, p + 36, want, restT);
    FieldAt(data, want, o.bytes, restD);
  }

  lemma {:induction false} TableReadsBack(sha: Hash, payload: Bytes, p: nat, data: Bytes, objects: seq<Item>, want: nat,
                                          seen: seq<Digest>, restT: Bytes, restD: Bytes)
    requires p <= |payload| && payload[p..] == Table(objects, want) + restT
    requires want <= |data| && data[want..] == Data(objects) + restD && want + |Data(objects)| < U32_LIMIT
    requires ObjectsHashed(sha, objects) && SmallObjects(objects) && Fresh(objects, seen)
    ensures p + 40 * |objects| <= |payload|
    ensures DecodeTable(sha, payload, p, data, |objects|, want, seen) == Ok((objects, want + |Data(objects)|))
    decreases |objects|
  {
    hide DecodeTable, DecodeObjectAt, TableEntry, ObjectsHashed, SmallObjects;
    assert |payload| - p == 40 * |objects| + |restT|;
    if objects == [] {
      DecodeNoTable(sha, payload, p, data, want, seen);
    } else {
      var o, rest := objects[0], objects[1..];
      FirstObject(sha, objects);
      Assoc(TableEntry(o, want), Table(rest, want + |o.bytes|), restT);
      Assoc(o.bytes, Data(rest), restD);
      ObjectEntryReadsBack(sha, payload, p, data, o, want, seen, Table(rest, want + |o.bytes|) + restT,
                           Data(rest) + restD);
      TableReadsBack(sha, payload, p + 40, data, rest, want + |o.bytes|, seen + [o.id], restT, restD);
      DecodeTableStep(sha, payload, p, data, |objects|, want, seen, o, rest, want + |Data(objects)|);
      assert [o] + rest == objects;
    }
  }

  lemma DecodeNoTable(sha: Hash, payload: Bytes, p: nat, data: Bytes, want: nat, seen: seq<Digest>)
    requires p <= |payload|
    ensures DecodeTable(sha, payload, p, data, 0, want, seen) == Ok(([], want))
  {
  }

  lemma FirstObject(sha: Hash, objects: seq<Item>)
    requires objects != [] && ObjectsHashed(sha, objects) && SmallObjects(objects)
    ensures sha(objects[0].bytes) == objects[0].id && |objects[0].bytes| <= OBJECT_MAX_LEN
    ensures ObjectsHashed(sha, objects[1..]) && SmallObjects(objects[1..])
  {
  }

  /** One round of the loop over the table. */
  lemma DecodeTableStep(sha: Hash, payload: Bytes, p: nat, data: Bytes, count: nat, want: nat, seen: seq<Digest>,
                        o: Item, rest: seq<Item>, end: nat)
    requires 0 < count && p + 40 * count <= |payload|
    requires DecodeObjectAt(sha, payload, p, data, want, seen) == Ok(o)
    requires DecodeTable(sha, payload, p + 40, data, count - 1, want + |o.bytes|, seen + [o.id]) == Ok((rest, end))
    ensures DecodeTable(sha, payload, p, data, count, want, seen) == Ok(([o] + rest, end))
  {
    hide DecodeObjectAt;
  }

  /** Exactly the encodings of acceptable object lists are decoded, each to the list it encodes. */
  lemma ObjectCodec(sha: Hash, payload: Bytes, objects: seq<Item>)
    ensures DecodeObject(sha, payload) == Ok(objects)
            <==> ObjectOk(sha, objects) && EncodeObject(sha, objects) == Ok(payload)
  {
    if DecodeObject(sha, payload) == Ok(objects) {
      ObjectWritesBack(sha, payload);
    }
    if ObjectOk(sha, objects) && EncodeObject(sha, objects) == Ok(payload) {
      ObjectReadsBack(sha, payload, objects);
    }
  }

  lemma ObjectWritesBack(sha: Hash, payload: Bytes)
    requires DecodeObject(sha, payload).Ok?
    ensures var objects := DecodeObject(sha, payload).value;
            ObjectOk(sha, objects) && EncodeObject(sha, objects) == Ok(payload)
  {
    hide DecodeTable, EncodeTable, Table, Data, Le16, U16At, ObjectsHashed, SmallObjects, DistinctIds, Fresh;
    var objects, count := DecodeObject(sha, payload).value, U16At(payload, 0);
    var data := payload[4 + 40 * count..];
    TableWritesBack(sha, payload, 4, data, count, 0, []);
    FreshMeans(objects, []);
    EncodeTableMeans(sha, objects, 0);
    CutAt(payload, 0, 2);
    CutAt(payload, 2, 2);
    assert payload[0..] == payload && data[0..] == data && data[|data|..] == [];
    assert Data(objects) + [] == Data(objects);
  }

  lemma ObjectReadsBack(sha: Hash, payload: Bytes, objects: seq<Item>)
    requires ObjectOk(sha, objects) && EncodeObject(sha, objects) == Ok(payload)
    ensures DecodeObject(sha, payload) == Ok(objects)
  {
    hide DecodeTable, EncodeTable, Table, Data, Le16, U16At, ObjectsHashed, SmallObjects, DistinctIds, Fresh;
    var table, data := Table(objects, 0), Data(objects);
    EncodeTableMeans(sha, objects, 0);
    FreshMeans(objects, []);
    ObjectFields(payload, |objects|, table, data);
    assert data[0..] == data && data + [] == data;
    TableReadsBack(sha, payload, 4, data, objects, 0, [], data, []);
  }

  lemma ObjectFields(payload: Bytes, count: U16, table: Bytes, data: Bytes)
    requires payload == Le16(count) + (Le16(0) + (table + data))
    ensures 4 + |table| <= |payload| && U16At(payload, 0) == count && U16At(payload, 2) == 0
    ensures payload[4..] == table + data && payload[4 + |table|..] == data
  {
    hide Le16, U16At;
    assert payload[0..] == payload;
    FieldU16(payload, 0, count, Le16(0) + (table + data));
    FieldU16(payload, 2, 0, table + data);
    FieldAt(payload, 4, table, data);
  }

  // ----- CHUNK -----

  function ChunkBytes(mapId: Digest, fileContentId: Digest, chunkIndex: nat, chunk: Bytes): Bytes {
    mapId + (fileContentId + (Le64(chunkIndex) + (Le32(|chunk|) + chunk)))
  }

  datatype ChunkPayload = ChunkPayload(mapId: Digest, fileContentId: Digest, chunkIndex: U64, chunkBytes: Bytes)

  function EncodeChunk(c: ChunkPayload): CodecResult<Bytes> {
    if |c.chunkBytes| > CHUNK_MAX_LEN then Err(BadLength)
    else Ok(ChunkBytes(c.mapId, c.fileContentId, c.chunkIndex, c.chunkBytes))
  }

  function DecodeChunk(payload: Bytes, rawLen: nat): CodecResult<ChunkPayload> {
    if |payload| < CHUNK_HEADER_LEN then Err(Truncated)
    else if rawLen != |payload| then Err(BadLength)
    else
      var len := U32At(payload, 72);
      if len != |payload| - CHUNK_HEADER_LEN then Err(BadLength)
      else if len > CHUNK_MAX_LEN then Err(BadLength)
      else Ok(ChunkPayload(payload[0..32], payload[32..64], U64At(payload, 64), payload[76..]))
  }

  lemma ChunkCodec(payload: Bytes, c: ChunkPayload)
    ensures DecodeChunk(payload, |payload|) == Ok(c) <==> EncodeChunk(c) == Ok(payload)
  {
    hide Le32, Le64, U32At, U64At;
    if DecodeChunk(payload, |payload|) == Ok(c) {
      CutAt(payload, 0, 32);
      CutAt(payload, 32, 32);
      CutAt(payload, 64, 8);
      CutAt(payload, 72, 4);
      assert payload[0..] == payload;
    }
    if EncodeChunk(c) == Ok(payload) {
      var f3 := Le32(|c.chunkBytes|) + c.chunkBytes;
      var f2 := Le64(c.chunkIndex) + f3;
      assert payload[0..] == payload;
      FieldAt(payload, 0, c.mapId, c.fileContentId + f2);
      FieldAt(payload, 32, c.fileContentId, f2);
      FieldU64(payload, 64, c.chunkIndex, f3);
      FieldU32(payload, 72, |c.chunkBytes|, c.chunkBytes);
    }
  }

  // ----- END -----

  datatype EndPayload = EndPayload(requestItemCount: U32, uniqueUnitCount: U32, logicalBytes: U64,
                                   requestBodySha: Digest)

  function EncodeEnd(e: EndPayload): (b: Bytes) {
    Le32(e.requestItemCount) + (Le32(e.uniqueUnitCount) + (Le64(e.logicalBytes) + e.requestBodySha))
  }

  function DecodeEnd(payload: Bytes): CodecResult<EndPayload> {
    if |payload| != END_LEN then Err(BadLength)
    else Ok(EndPayload(U32At(payload, 0), U32At(payload, 4), U64At(payload, 8), payload[16..48]))
  }

  lemma EndCodec(payload: Bytes, e: EndPayload)
    ensures DecodeEnd(payload) == Ok(e) <==> EncodeEnd(e) == payload
  {
    hide Le32, Le64, U32At, U64At;
    if DecodeEnd(payload) == Ok(e) {
      CutAt(payload, 0, 4);
      CutAt(payload, 4, 4);
      CutAt(payload, 8, 8);
      assert payload[0..] == payload && payload[16..] == payload[16..48];
    }
    if EncodeEnd(e) == payload {
      var f2 := Le64(e.logicalBytes) + e.requestBodySha;
      assert payload[0..] == payload;
      FieldU32(payload, 0, e.requestItemCount, Le32(e.uniqueUnitCount) + f2);
      FieldU32(payload, 4, e.uniqueUnitCount, f2);
      FieldU64(payload, 8, e.logicalBytes, e.requestBodySha);
      assert payload[16..48] == payload[16..];
    }
  }
}
