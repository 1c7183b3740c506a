/** One directory entry and its byte form. */
module MetaEntry {
  import opened Base
  import opened Names

  datatype Kind = Regular | Executable | Symlink | Directory

  function KindByte(k: Kind): byte {
    match k
    case Regular => 1
    case Executable => 2
    case Symlink => 3
    case Directory => 4
  }

  function KindOf(b: byte): CodecResult<Kind> {
    if b == 1 then Ok(Regular)
    else if b == 2 then Ok(Executable)
    else if b == 3 then Ok(Symlink)
    else if b == 4 then Ok(Directory)
    else Err(BadConstant)
  }

  /** Files carry `size` and `contentId`, directories carry `childRoot`; the other fields are not encoded. */
  datatype Entry = Entry(kind: Kind, name: Bytes, size: U64, contentId: Digest, childRoot: Digest)

  function Validate(e: Entry): CodecResult<()> {
    var _ :- ValidateName(e.name);
    if e.kind == Directory then
      if e.childRoot == ZERO_DIGEST then Err(DigestMismatch) else Ok(())
    else if e.name == [DOT] || e.name == [DOT, DOT] then Err(BadName)
    else Ok(())
  }

  predicate ValidEntry(e: Entry) {
    Validate(e).Ok?
  }

  /** What is demanded of an entry: a plain name, and for a directory a child root that is not all zero. */
  lemma ValidEntryMeans(e: Entry)
    ensures ValidEntry(e) <==>
            PlainName(e.name) && (e.kind.Directory? ==> exists i :: 0 <= i < 32 && e.childRoot[i] != 0)
  {
    hide PlainName, ValidateName;
    NameMeans(e.name);
    if ValidateName(e.name).Ok? {
      NotDots(e.name);
    }
    if forall i :: 0 <= i < 32 ==> e.childRoot[i] == 0 {
      assert e.childRoot == ZERO_DIGEST;
    }
  }

  lemma NotDots(name: Bytes)
    requires ValidateName(name).Ok?
    ensures name != [DOT] && name != [DOT, DOT]
  {
  }

  /** The unencoded fields are zero, as decoding leaves them. */
  predicate Normal(e: Entry) {
    if e.kind == Directory then e.size == 0 && e.contentId == ZERO_DIGEST else e.childRoot == ZERO_DIGEST
  }

  function Normalise(e: Entry): (n: Entry)
    ensures Normal(n)
    ensures Normal(e) ==> n == e
  {
    if e.kind == Directory then Entry(e.kind, e.name, 0, ZERO_DIGEST, e.childRoot)
    else Entry(e.kind, e.name, e.size, e.contentId, ZERO_DIGEST)
  }

  function EncodedLen(e: Entry): nat {
    var base := 1 + 2 + |e.name|;
    if e.kind == Directory then base + 32 else base + 8 + 32
  }

  /** What follows the name. */
  function TailBytes(e: Entry): Bytes {
    if e.kind == Directory then e.childRoot else Le64(e.size) + e.contentId
  }

  function EntryBytes(e: Entry): (b: Bytes)
    ensures |b| == EncodedLen(e)
  {
    [KindByte(e.kind)] + (Le16(|e.name|) + (e.name + TailBytes(e)))
  }

  /** The kind-specific fields at `off`, and the offset behind them. */
  function DecodeTail(kind: Kind, name: Bytes, buf: Bytes, off: nat): CodecResult<(Entry, nat)> {
    if kind == Directory then
      var childRoot :- Slice(buf, off, 32);
      Ok((Entry(kind, name, 0, ZERO_DIGEST, childRoot), off + 32))
    else
      var size :- ReadU64(buf, off);
      var contentId :- Slice(buf, off + 8, 32);
      Ok((Entry(kind, name, size, contentId, ZERO_DIGEST), off + 40))
  }

  /** The entry at `off`, and the offset behind it. */
  function DecodeEntry(buf: Bytes, off: nat): CodecResult<(Entry, nat)> {
    if off >= |buf| then Err(Truncated)
    else
      var kind :- KindOf(buf[off]);
      var nameLen :- ReadU16(buf, off + 1);
      var name :- Slice(buf, off + 3, nameLen);
      var _ :- ValidateName(name);
      var (e, next) :- DecodeTail(kind, name, buf, off + 3 + nameLen);
      var _ :- Validate(e);
      Ok((e, next))
  }

  lemma KindOfByte(k: Kind)
    ensures KindOf(KindByte(k)) == Ok(k)
  {
  }

  /** The bytes of a valid normal entry decode to that entry. */
  lemma EntryReadsBack(buf: Bytes, off: nat, e: Entry, rest: Bytes)
    requires off <= |buf| && buf[off..] == EntryBytes(e) + rest
    requires ValidEntry(e) && Normal(e)
    ensures DecodeEntry(buf, off) == Ok((e, off + EncodedLen(e)))
    ensures off + EncodedLen(e) <= |buf| && buf[off + EncodedLen(e)..] == rest
  {
    hide Le16, Le64, U64At, ValidateName;
    ValidNameBound(e.name);
    var f2 := TailBytes(e) + rest;
    var f1 := e.name + f2;
    var f0 := Le16(|e.name|) + f1;
    EntryConcat(e, rest);
    FieldAt(buf, off, [KindByte(e.kind)], f0);
    assert buf[off..off + 1][0] == buf[off];
    KindOfByte(e.kind);
    FieldU16(buf, off + 1, |e.name|, f1);
    FieldAt(buf, off + 3, e.name, f2);
    TailReadsBack(buf, off + 3 + |e.name|, e, rest);
  }

  lemma ValidNameBound(name: Bytes)
    requires ValidateName(name).Ok?
    ensures 1 <= |name| <= NAME_MAX_BYTES
  {
  }

  lemma TailReadsBack(buf: Bytes, off: nat, e: Entry, rest: Bytes)
    requires off <= |buf| && buf[off..] == TailBytes(e) + rest && Normal(e)
    ensures DecodeTail(e.kind, e.name, buf, off) == Ok((e, off + |TailBytes(e)|))
    ensures off + |TailBytes(e)| <= |buf| && buf[off + |TailBytes(e)|..] == rest
  {
    FieldAt(buf, off, TailBytes(e), rest);
    if e.kind != Directory {
      Assoc(Le64(e.size), e.contentId, rest);
      FieldU64(buf, off, e.size, e.contentId + rest);
      FieldAt(buf, off + 8, e.contentId, rest);
    }
  }

  /** A decoded entry is valid, normal, and written exactly as it was read. */
  lemma EntryWritesBack(buf: Bytes, off: nat)
    requires DecodeEntry(buf, off).Ok?
    ensures var (e, next) := DecodeEntry(buf, off).value;
            && ValidEntry(e) && Normal(e)
            && next == off + EncodedLen(e) <= |buf|
            && buf[off..] == EntryBytes(e) + buf[next..]
  {
    hide Le16, Le64, U64At, ValidateName, DecodeTail, TailBytes, EntryBytes;
    var (e, next) := DecodeEntry(buf, off).value;
    var n := U16At(buf, off + 1);
    var name := buf[off + 3..off + 3 + n];
    TailWritesBack(KindOf(buf[off]).value, name, buf, off + 3 + n);
    CutAt(buf, off, 1);
    CutAt(buf, off + 1, 2);
    CutAt(buf, off + 3, n);
    assert buf[off..off + 1] == [KindByte(e.kind)];
    EntryConcat(e, buf[next..]);
  }

  lemma EntryConcat(e: Entry, rest: Bytes)
    ensures EntryBytes(e) + rest == [KindByte(e.kind)] + (Le16(|e.name|) + (e.name + (TailBytes(e) + rest)))
    ensures EncodedLen(e) == 3 + |e.name| + |TailBytes(e)|
  {
    hide Le16;
    Assoc([KindByte(e.kind)], Le16(|e.name|) + (e.name + TailBytes(e)), rest);
    Assoc(Le16(|e.name|), e.name + TailBytes(e), rest);
    Assoc(e.name, TailBytes(e), rest);
  }

  lemma TailWritesBack(kind: Kind, name: Bytes, buf: Bytes, off: nat)
    requires DecodeTail(kind, name, buf, off).Ok?
    ensures var (e, next) := DecodeTail(kind, name, buf, off).value;
            && e.kind == kind && e.name == name && Normal(e)
            && next == off + |TailBytes(e)| <= |buf|
            && buf[off..] == TailBytes(e) + buf[next..]
  {
    if kind == Directory {
      CutAt(buf, off, 32);
    } else {
      CutAt(buf, off, 8);
      CutAt(buf, off + 8, 32);
      Assoc(buf[off..off + 8], buf[off + 8..off + 40], buf[off + 40..]);
    }
  }

  /** Encoding ignores the fields that do not belong to the kind. */
  lemma EncodeNormalised(e: Entry)
    ensures Validate(Normalise(e)) == Validate(e) && EntryBytes(Normalise(e)) == EntryBytes(e)
  {
  }

  /** Two valid entries with the same bytes agree on every encoded field. */
  lemma EntryBytesInjective(d: Entry, e: Entry)
    requires ValidEntry(d) && ValidEntry(e) && EntryBytes(d) == EntryBytes(e)
    ensures Normalise(d) == Normalise(e)
  {
    hide ValidateName, Le16;
    EncodeNormalised(d);
    EncodeNormalised(e);
    var b := EntryBytes(d);
    assert b[0..] == EntryBytes(d) + [] && EntryBytes(d) + [] == EntryBytes(e) + [];
    EntryReadsBack(b, 0, Normalise(d), []);
    EntryReadsBack(b, 0, Normalise(e), []);
  }
}
