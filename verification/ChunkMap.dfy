/** Chunk maps and chunk leaves: descriptors, chunk arithmetic and byte ranges. */
module ChunkMap {
  import opened Base

  const CHUNK_SIZE: nat := 1_048_576
  const CHUNKS_PER_PAGE: nat := 256
  const MAP_LEN: nat := 100
  const MAP_MAGIC: Bytes := Ascii("MCM2")
  const LEAF_MAGIC: Bytes := Ascii("MCL2")

  datatype Map = Map(fileContentId: Digest, fileSize: U64, chunkCount: U64, pageCount: U64, pagesRoot: Digest)

  datatype Leaf = Leaf(pageIndex: U64, chunks: seq<Digest>)

  /** `u64::div_ceil`. */
  function DivCeil(n: nat, d: nat): (q: nat)
    requires d > 0
    ensures (q - 1) * d < n <= q * d
  {
    if n % d == 0 then n / d else n / d + 1
  }

  function New(fileContentId: Digest, fileSize: U64, pagesRoot: Digest): CodecResult<Map> {
    if fileSize == 0 then Err(BadLength)
    else
      var chunkCount := DivCeil(fileSize, CHUNK_SIZE);
      Ok(Map(fileContentId, fileSize, chunkCount, DivCeil(chunkCount, CHUNKS_PER_PAGE), pagesRoot))
  }

  /**
   * The constructor refuses empty files, and counts chunks of 1 MiB and pages of 256 chunks, the last ones
   * maybe short.
   */
  lemma NewMeans(fileContentId: Digest, fileSize: U64, pagesRoot: Digest)
    ensures New(fileContentId, fileSize, pagesRoot).Ok? <==> fileSize > 0
    ensures fileSize > 0 ==>
              var m := New(fileContentId, fileSize, pagesRoot).value;
              && m.fileContentId == fileContentId && m.fileSize == fileSize && m.pagesRoot == pagesRoot
              && m.chunkCount > 0 && (m.chunkCount - 1) * 1_048_576 < fileSize <= m.chunkCount * 1_048_576
              && m.pageCount > 0 && (m.pageCount - 1) * 256 < m.chunkCount <= m.pageCount * 256
  {
  }

  /** The maps that the constructor makes. */
  predicate Valid(m: Map) {
    New(m.fileContentId, m.fileSize, m.pagesRoot) == Ok(m)
  }

  // ----- the descriptor bytes -----

  function EncodeMap(m: Map): (b: Bytes)
    ensures |b| == MAP_LEN
  {
    MAP_MAGIC + (Le16(2) + (Le16(0) + (m.fileContentId + (Le64(m.fileSize) + (Le32(CHUNK_SIZE)
    + (Le64(m.chunkCount) + (Le64(m.pageCount) + m.pagesRoot)))))))
  }

  function DecodeMap(buf: Bytes): CodecResult<Map> {
    if |buf| != MAP_LEN then Err(BadLength)
    else if buf[0..4] != MAP_MAGIC then Err(BadConstant)
    else if U16At(buf, 4) != 2 then Err(BadConstant)
    else if U16At(buf, 6) != 0 then Err(BadConstant)
    else
      var fileSize := U64At(buf, 40);
      if U32At(buf, 48) != CHUNK_SIZE then Err(BadConstant)
      else
        var chunkCount, pageCount := U64At(buf, 52), U64At(buf, 60);
        if fileSize == 0 then Err(BadLength)
        else if chunkCount != DivCeil(fileSize, CHUNK_SIZE) then Err(BadLength)
        else if chunkCount == 0 then Err(BadLength)
        else if pageCount != DivCeil(chunkCount, CHUNKS_PER_PAGE) then Err(BadLength)
        else Ok(Map(buf[8..40], fileSize, chunkCount, pageCount, buf[68..100]))
  }

  /** Exactly the encodings of constructed maps are accepted, each as the map it encodes. */
  lemma MapCodec(buf: Bytes, m: Map)
    ensures DecodeMap(buf) == Ok(m) <==> Valid(m) && buf == EncodeMap(m)
  {
    if DecodeMap(buf) == Ok(m) {
      MapBytes(buf);
    }
    if buf == EncodeMap(m) {
      MapFields(buf, m);
    }
  }

  /** Any buffer of the right length is the concatenation of its fields. */
  lemma MapBytes(buf: Bytes)
    requires |buf| == MAP_LEN
    ensures buf == buf[0..4] + (Le16(U16At(buf, 4)) + (Le16(U16At(buf, 6)) + (buf[8..40] + (Le64(U64At(buf, 40))
                   + (Le32(U32At(buf, 48)) + (Le64(U64At(buf, 52)) + (Le64(U64At(buf, 60)) + buf[68..100])))))))
  {
    hide Le16, Le32, Le64, U16At, U32At, U64At;
    CutAt(buf, 0, 4);
    CutAt(buf, 4, 2);
    CutAt(buf, 6, 2);
    CutAt(buf, 8, 32);
    CutAt(buf, 40, 8);
    CutAt(buf, 48, 4);
    CutAt(buf, 52, 8);
    CutAt(buf, 60, 8);
    assert buf[0..] == buf && buf[68..] == buf[68..100];
  }

  lemma MapFields(buf: Bytes, m: Map)
    requires buf == EncodeMap(m)
    ensures buf[0..4] == MAP_MAGIC && U16At(buf, 4) == 2 && U16At(buf, 6) == 0 && buf[8..40] == m.fileContentId
    ensures U64At(buf, 40) == m.fileSize && U32At(buf, 48) == CHUNK_SIZE && U64At(buf, 52) == m.chunkCount
    ensures U64At(buf, 60) == m.pageCount && buf[68..100] == m.pagesRoot
  {
    hide Le16, Le32, Le64, U16At, U32At, U64At;
    var f8 := m.pagesRoot;
    var f7 := Le64(m.pageCount) + f8;
    var f6 := Le64(m.chunkCount) + f7;
    var f5 := Le32(CHUNK_SIZE) + f6;
    var f4 := Le64(m.fileSize) + f5;
    var f3 := m.fileContentId + f4;
    var f2 := Le16(0) + f3;
    assert buf[0..] == MAP_MAGIC + (Le16(2) + f2);
    FieldAt(buf, 0, MAP_MAGIC, Le16(2) + f2);
    FieldU16(buf, 4, 2, f2);
    FieldU16(buf, 6, 0, f3);
    FieldAt(buf, 8, m.fileContentId, f4);
    FieldU64(buf, 40, m.fileSize, f5);
    FieldU32(buf, 48, CHUNK_SIZE, f6);
    FieldU64(buf, 52, m.chunkCount, f7);
    FieldU64(buf, 60, m.pageCount, f8);
  }

  // ----- chunks partition the file -----

  function ChunkLen(m: Map, index: U64): CodecResult<int> {
    if index >= m.chunkCount then Err(BadLength)
    else if index < m.chunkCount - 1 then Ok(CHUNK_SIZE)
    else Ok(m.fileSize - index * CHUNK_SIZE)
  }

  /** Total length of the first `n` chunks. */
  function ChunkLenSum(m: Map, n: nat): int
    requires n <= m.chunkCount
  {
    if n == 0 then 0 else ChunkLenSum(m, n - 1) + ChunkLen(m, n - 1).value
  }

  /** Every chunk has 1 to `CHUNK_SIZE` bytes, no subtraction wraps, and the chunks are the whole file. */
  lemma ChunksPartitionFile(m: Map)
    requires Valid(m)
    ensures m.chunkCount > 0
    ensures forall i: U64 :: i < m.chunkCount ==> ChunkLen(m, i).Ok? && 0 < ChunkLen(m, i).value <= CHUNK_SIZE
    ensures forall i: U64 :: i >= m.chunkCount ==> ChunkLen(m, i) == Err(BadLength)
    ensures ChunkLenSum(m, m.chunkCount) == m.fileSize
  {
    ChunkLenSumBelow(m, m.chunkCount - 1);
  }

  lemma {:induction false} ChunkLenSumBelow(m: Map, n: nat)
    requires n < m.chunkCount
    ensures ChunkLenSum(m, n) == n * CHUNK_SIZE
  {
    if n > 0 {
      ChunkLenSumBelow(m, n - 1);
    }
  }

  function ExpectedCount(chunkCount: U64, pageIndex: U64): nat {
    var full := chunkCount / CHUNKS_PER_PAGE;
    var rem := chunkCount % CHUNKS_PER_PAGE;
    if pageIndex < full then CHUNKS_PER_PAGE else if rem > 1 then rem else 1
  }

  function ExpectedCountSum(chunkCount: U64, n: U64): nat {
    if n == 0 then 0 else ExpectedCountSum(chunkCount, n - 1) + ExpectedCount(chunkCount, n - 1)
  }

  /** The expected page counts cover every chunk exactly once. */
  lemma PagesPartitionChunks(m: Map)
    requires Valid(m)
    ensures ExpectedCountSum(m.chunkCount, m.pageCount) == m.chunkCount
    ensures forall p: U64 :: p < m.pageCount ==> 1 <= ExpectedCount(m.chunkCount, p) <= CHUNKS_PER_PAGE
  {
    FullPagesSum(m.chunkCount, m.chunkCount / CHUNKS_PER_PAGE);
  }

  lemma {:induction false} FullPagesSum(chunkCount: U64, n: U64)
    requires n <= chunkCount / CHUNKS_PER_PAGE
    ensures ExpectedCountSum(chunkCount, n) == n * CHUNKS_PER_PAGE
  {
    if n > 0 {
      FullPagesSum(chunkCount, n - 1);
    }
  }

  // ----- byte ranges -----

  function RangeChunks(offset: U64, length: U64, fileSize: U64): CodecResult<(U64, U64)> {
    if length == 0 then Err(BadLength)
    else if offset >= fileSize then Err(BadLength)
    else
      var end: U64 := if length >= fileSize - offset then fileSize else offset + length;
      Ok((offset / CHUNK_SIZE, (end - 1) / CHUNK_SIZE))
  }

  /** Chunk `c` of the map holds some byte of the clamped range. */
  predicate Touches(m: Map, c: nat, offset: nat, length: nat) {
    && c < m.chunkCount
    && var from, to := c * CHUNK_SIZE, c * CHUNK_SIZE + ChunkLen(m, c).value;
       from < Min(offset + length, m.fileSize) && offset < to
  }

  function Min(a: nat, b: nat): nat {
    if a < b then a else b
  }

  /**
   * The returned interval holds exactly the chunks that the clamped range touches; it fails exactly on empty
   * ranges.
   */
  lemma RangeIsExact(m: Map, offset: U64, length: U64)
    requires Valid(m)
    ensures RangeChunks(offset, length, m.fileSize).Ok? <==> length > 0 && offset < m.fileSize
    ensures RangeChunks(offset, length, m.fileSize).Ok? ==>
              var (first, last) := RangeChunks(offset, length, m.fileSize).value;
              && first <= last < m.chunkCount
              && forall c: U64 :: first <= c <= last <==> Touches(m, c, offset, length)
  {
    if length > 0 && offset < m.fileSize {
      var (first, last) := RangeChunks(offset, length, m.fileSize).value;
      forall c: U64 ensures first <= c <= last <==> Touches(m, c, offset, length) {
        ChunkOfByte(m, offset, c);
        ChunkOfByte(m, Min(offset + length, m.fileSize) - 1, c);
      }
      ChunkOfByte(m, Min(offset + length, m.fileSize) - 1, 0);
    }
  }

  /** Dividing by the chunk size finds the chunk of a byte. */
  lemma ChunkOfByte(m: Map, x: nat, c: nat)
    requires Valid(m) && x < m.fileSize
    ensures x / CHUNK_SIZE < m.chunkCount
    ensures c <= x / CHUNK_SIZE <==> c * CHUNK_SIZE <= x
    ensures c < m.chunkCount ==> (x / CHUNK_SIZE <= c <==> x < c * CHUNK_SIZE + ChunkLen(m, c).value)
  {
  }

  // ----- leaf pages -----

  function DigestBytes(ds: seq<Digest>): (b: Bytes)
    ensures |b| == 32 * |ds|
  {
    if ds == [] then [] else ds[0] + DigestBytes(ds[1..])
  }

  function EncodeLeaf(l: Leaf): CodecResult<Bytes> {
    if l.chunks == [] || |l.chunks| > CHUNKS_PER_PAGE then Err(BadLength)
    else Ok(LEAF_MAGIC + (Le64(l.pageIndex) + (Le16(|l.chunks|) + (Le16(0) + DigestBytes(l.chunks)))))
  }

  /** `count` digests starting at `off`. */
  function ReadDigests(buf: Bytes, off: nat, count: nat): (ds: seq<Digest>)
    requires off + 32 * count <= |buf|
    ensures |ds| == count
    ensures DigestBytes(ds) == buf[off..off + 32 * count]
    decreases count
  {
    if count == 0 then []
    else
      var rest := ReadDigests(buf, off + 32, count - 1);
      assert buf[off..off + 32 * count] == buf[off..off + 32] + buf[off + 32..off + 32 * count];
      [buf[off..off + 32]] + rest
  }

  function DecodeLeaf(buf: Bytes): CodecResult<Leaf> {
    if |buf| < 16 then Err(Truncated)
    else if buf[0..4] != LEAF_MAGIC then Err(BadConstant)
    else
      var pageIndex, count := U64At(buf, 4), U16At(buf, 12);
      if !(1 <= count <= CHUNKS_PER_PAGE) then Err(BadLength)
      else if U16At(buf, 14) != 0 then Err(BadConstant)
      else if |buf| != 16 + 32 * count then Err(BadLength)
      else Ok(Leaf(pageIndex, ReadDigests(buf, 16, count)))
  }

  method ComputeLeafBytes(l: Leaf) returns (r: CodecResult<Bytes>)
    ensures r == EncodeLeaf(l)
  {
    if l.chunks == [] || |l.chunks| > CHUNKS_PER_PAGE {
      return Err(BadLength);
    }
    var out := LEAF_MAGIC + (Le64(l.pageIndex) + (Le16(|l.chunks|) + Le16(0)));
    assert out + DigestBytes(l.chunks)
           == LEAF_MAGIC + (Le64(l.pageIndex) + (Le16(|l.chunks|) + (Le16(0) + DigestBytes(l.chunks))));
    assert l.chunks[0..] == l.chunks;
    for i := 0 to |l.chunks|
      invariant Ok(out + DigestBytes(l.chunks[i..])) == EncodeLeaf(l)
    {
      assert l.chunks[i..][1..] == l.chunks[i + 1..];
      Assoc(out, l.chunks[i], DigestBytes(l.chunks[i + 1..]));
      out := out + l.chunks[i];
    }
    assert out + [] == out;
    return Ok(out);
  }

  lemma ReadDigestsStep(buf: Bytes, off: nat, count: nat)
    requires off + 32 * count <= |buf| && count > 0
    ensures ReadDigests(buf, off, count) == [buf[off..off + 32]] + ReadDigests(buf, off + 32, count - 1)
  {
    hide DigestBytes;
  }

  method ReadChunkDigests(buf: Bytes, count: nat) returns (chunks: seq<Digest>)
    requires 16 + 32 * count <= |buf|
    ensures chunks == ReadDigests(buf, 16, count)
  {
    hide DigestBytes, ReadDigests;
    chunks := [];
    for i := 0 to count
      invariant chunks + ReadDigests(buf, 16 + 32 * i, count - i) == ReadDigests(buf, 16, count)
    {
      var off := 16 + 32 * i;
      ReadDigestsStep(buf, off, count - i);
      Assoc(chunks, [buf[off..off + 32]], ReadDigests(buf, off + 32, count - i - 1));
      chunks := chunks + [buf[off..off + 32]];
    }
  }

  method ReadLeaf(buf: Bytes) returns (r: CodecResult<Leaf>)
    ensures r == DecodeLeaf(buf)
  {
    hide U16At, U64At, ReadDigests;
    if |buf| < 16 {
      return Err(Truncated);
    }
    if buf[0..4] != LEAF_MAGIC {
      return Err(BadConstant);
    }
    var pageIndex, count := U64At(buf, 4), U16At(buf, 12);
    if !(1 <= count <= CHUNKS_PER_PAGE) {
      return Err(BadLength);
    }
    if U16At(buf, 14) != 0 {
      return Err(BadConstant);
    }
    if |buf| != 16 + 32 * count {
      return Err(BadLength);
    }
    var chunks := ReadChunkDigests(buf, count);
    return Ok(Leaf(pageIndex, chunks));
  }

  lemma {:induction false} DigestBytesInjective(a: seq<Digest>, b: seq<Digest>)
    requires |a| == |b| && DigestBytes(a) == DigestBytes(b)
    ensures a == b
  {
    if a != [] {
      var x, y := DigestBytes(a), DigestBytes(b);
      assert x[..32] == a[0] && y[..32] == b[0] && x[32..] == DigestBytes(a[1..]) && y[32..] == DigestBytes(b[1..]);
      DigestBytesInjective(a[1..], b[1..]);
      assert a == [a[0]] + a[1..] && b == [b[0]] + b[1..];
    }
  }

  /** The leaf codec is a bijection between accepted buffers and encodable leaves. */
  lemma LeafCodec(buf: Bytes, l: Leaf)
    ensures DecodeLeaf(buf) == Ok(l) <==> EncodeLeaf(l) == Ok(buf)
  {
    hide Le16, Le64, U16At, U64At;
    if DecodeLeaf(buf) == Ok(l) {
      CutAt(buf, 0, 4);
      CutAt(buf, 4, 8);
      CutAt(buf, 12, 2);
      CutAt(buf, 14, 2);
      assert buf[0..] == buf && buf[16..] == buf[16..16 + 32 * |l.chunks|];
    }
    if EncodeLeaf(l) == Ok(buf) {
      var f3 := Le16(0) + DigestBytes(l.chunks);
      var f2 := Le16(|l.chunks|) + f3;
      assert buf[0..] == LEAF_MAGIC + (Le64(l.pageIndex) + f2);
      FieldAt(buf, 0, LEAF_MAGIC, Le64(l.pageIndex) + f2);
      FieldU64(buf, 4, l.pageIndex, f2);
      FieldU16(buf, 12, |l.chunks|, f3);
      FieldU16(buf, 14, 0, DigestBytes(l.chunks));
      assert buf[16..16 + 32 * |l.chunks|] == DigestBytes(l.chunks);
      DigestBytesInjective(ReadDigests(buf, 16, |l.chunks|), l.chunks);
    }
  }
}
