/** Whole streams: one non-zero stream id, sequences from 0, one terminator, at the end. */
module TreeStream {
  import opened Base
  import opened ErrorJson
  import opened TreePayload
  import opened TreeFrame
  import Utf8

  /** Specification of `parse_stream`, from any state of its loop. */
  function ParseFrom(sha: Hash, b: Bytes, sid: Option<U32>, seen: nat, terminated: bool): CodecResult<seq<Frame>>
    decreases |b|
  {
    if b == [] then
      if terminated then Ok([]) else Err(BadOrdering)
    else if terminated then Err(BadOrdering)
    else
      var (f, used) :- ParseFrame(sha, b);
      var s, q := U32At(b, 20), U64At(b, 24);
      if sid.Some? && sid.value != s then Err(BadOrdering)
      else if q != seen then Err(BadOrdering)
      else
        var rest :- ParseFrom(sha, b[used..], Some(s), seen + 1, Terminator(f));
        Ok([f] + rest)
  }

  function ParseStreamSpec(sha: Hash, b: Bytes): CodecResult<seq<Frame>> {
    ParseFrom(sha, b, None, 0, false)
  }

  // ----- streams as they are sent -----

  /** Consecutive frames of one stream, from sequence number `from` on. */
  function EncodeFrom(sha: Hash, fs: seq<Frame>, sid: U32, from: nat): CodecResult<Bytes> {
    if fs == [] then Ok([])
    else if from >= U64_LIMIT then Err(Overflow)
    else
      var head :- EncodeFrame(sha, fs[0], sid, from);
      var rest :- EncodeFrom(sha, fs[1..], sid, from + 1);
      Ok(head + rest)
  }

  predicate NoError(fs: seq<Frame>) {
    forall i :: 0 <= i < |fs| ==> !fs[i].Error?
  }

  predicate AllReceivable(sha: Hash, fs: seq<Frame>) {
    forall i :: 0 <= i < |fs| ==> Receivable(sha, fs[i])
  }

  predicate AllText(fs: seq<Frame>) {
    forall i :: 0 <= i < |fs| ==> HasText(fs[i])
  }

  /** The last frame is a terminator and no other is. */
  predicate EndsOnce(fs: seq<Frame>) {
    fs != [] && forall i :: 0 <= i < |fs| ==> (Terminator(fs[i]) <==> i == |fs| - 1)
  }

  /** Every accepted stream has exactly one terminator, in last position. */
  lemma {:induction false} AcceptedEndsOnce(sha: Hash, b: Bytes, sid: Option<U32>, seen: nat)
    requires ParseFrom(sha, b, sid, seen, false).Ok?
    ensures EndsOnce(ParseFrom(sha, b, sid, seen, false).value)
    decreases |b|
  {
    hide ParseFrame, U32At, U64At, Terminator;
    var (f, used) := ParseFrame(sha, b).value;
    var rest := ParseFrom(sha, b[used..], Some(U32At(b, 20)), seen + 1, Terminator(f)).value;
    if !Terminator(f) {
      AcceptedEndsOnce(sha, b[used..], Some(U32At(b, 20)), seen + 1);
      assert forall i :: 0 < i < |rest| + 1 ==> ([f] + rest)[i] == rest[i - 1];
    }
  }

  /** Every frame of an accepted stream carries the stream id of the first, which is not zero, and its own position. */
  lemma {:induction false} AcceptedIsEncoded(sha: Hash, b: Bytes, sid: Option<U32>, seen: nat, terminated: bool)
    requires b != [] && ParseFrom(sha, b, sid, seen, terminated).Ok?
    requires NoError(ParseFrom(sha, b, sid, seen, terminated).value)
    ensures var fs := ParseFrom(sha, b, sid, seen, terminated).value;
            && |b| >= HEADER_LEN && U32At(b, 20) != 0 && (sid.Some? ==> sid.value == U32At(b, 20))
            && AllReceivable(sha, fs) && EncodeFrom(sha, fs, U32At(b, 20), seen) == Ok(b)
    decreases |b|
  {
    hide ParseFrame, EncodeFrame, Receivable, U32At, U64At, Terminator;
    var (f, used) := ParseFrame(sha, b).value;
    var s := U32At(b, 20);
    var tail := b[used..];
    var rest := ParseFrom(sha, tail, Some(s), seen + 1, Terminator(f)).value;
    var fs := [f] + rest;
    AcceptedFrameIsCanonical(sha, b);
    assert fs[0] == f && fs[1..] == rest;
    assert forall i :: 0 < i < |fs| ==> fs[i] == rest[i - 1];
    assert NoError(rest) by { assert forall i :: 0 <= i < |rest| ==> rest[i] == fs[i + 1]; }
    if tail != [] {
      AcceptedIsEncoded(sha, tail, Some(s), seen + 1, Terminator(f));
    }
    assert b[..used] + tail == b;
  }

  // ----- streams cut into their frames -----

  function Joined(parts: seq<Bytes>): Bytes {
    if parts == [] then [] else parts[0] + Joined(parts[1..])
  }

  /** A part that is one whole frame, under its stream id and at its position. */
  predicate FramePart(sha: Hash, part: Bytes, f: Frame, sid: U32, position: nat) {
    ParseFrame(sha, part) == Ok((f, |part|)) && U32At(part, 20) == sid && U64At(part, 24) == position
  }

  predicate Parts(sha: Hash, parts: seq<Bytes>, fs: seq<Frame>, sid: U32, from: nat) {
    |parts| == |fs| && forall i :: 0 <= i < |parts| ==> FramePart(sha, parts[i], fs[i], sid, from + i)
  }

  /**
   * Every stream, whether END or ERROR ends it: it is accepted exactly when it is cut into whole frames that carry
   * one stream id and the positions from 0 on, and only the last of them is a terminator.
   */
  lemma StreamIsItsParts(sha: Hash, b: Bytes, fs: seq<Frame>)
    ensures ParseStreamSpec(sha, b) == Ok(fs) <==>
            EndsOnce(fs) && exists parts, sid :: Parts(sha, parts, fs, sid, 0) && Joined(parts) == b
  {
    hide ParseFrom, Parts, EndsOnce, Joined;
    if ParseStreamSpec(sha, b) == Ok(fs) {
      EmptyIsRefused(sha);
      AcceptedEndsOnce(sha, b, None, 0);
      var parts := CutIntoParts(sha, b, None, 0, false);
      FirstIdInRange(sha, b, None, 0, false);
      assert Parts(sha, parts, fs, U32At(b, 20), 0);
    }
    if EndsOnce(fs) {
      forall parts, sid | Parts(sha, parts, fs, sid, 0) && Joined(parts) == b
        ensures ParseStreamSpec(sha, b) == Ok(fs)
      {
        PartsParse(sha, parts, fs, sid, 0, None);
      }
    }
  }

  lemma FirstIdInRange(sha: Hash, b: Bytes, state: Option<U32>, seen: nat, terminated: bool)
    requires b != [] && ParseFrom(sha, b, state, seen, terminated).Ok?
    ensures |b| >= HEADER_LEN
  {
    hide ParseFrame, U32At, U64At, Terminator;
  }

  lemma {:induction false} CutIntoParts(sha: Hash, b: Bytes, state: Option<U32>, seen: nat, terminated: bool)
    returns (parts: seq<Bytes>)
    requires b != [] && ParseFrom(sha, b, state, seen, terminated).Ok?
    ensures |b| >= HEADER_LEN && Joined(parts) == b
    ensures Parts(sha, parts, ParseFrom(sha, b, state, seen, terminated).value, U32At(b, 20), seen)
    ensures state.Some? ==> state.value == U32At(b, 20)
    decreases |b|
  {
    hide ParseFrame, U32At, U64At, Terminator, FramePart;
    var (f, used) := ParseFrame(sha, b).value;
    var sid, head, tail := U32At(b, 20), b[..used], b[used..];
    var rest := ParseFrom(sha, tail, Some(sid), seen + 1, Terminator(f)).value;
    HeadIsPart(sha, b, f, used, sid, seen);
    if tail == [] {
      parts := [head];
      JoinedCons(head, []);
    } else {
      var more := CutIntoParts(sha, tail, Some(sid), seen + 1, Terminator(f));
      parts := [head] + more;
      JoinedCons(head, more);
      forall i | 0 <= i < |parts| ensures FramePart(sha, parts[i], ([f] + rest)[i], sid, seen + i) {
        assert i > 0 ==> FramePart(sha, more[i - 1], rest[i - 1], sid, seen + 1 + (i - 1));
      }
    }
    assert head + tail == b;
  }

  lemma JoinedCons(head: Bytes, more: seq<Bytes>)
    ensures Joined([head] + more) == head + Joined(more)
  {
  }

  /** The bytes a frame takes are a frame by themselves. */
  lemma HeadIsPart(sha: Hash, b: Bytes, f: Frame, used: nat, sid: U32, position: nat)
    requires ParseFrame(sha, b) == Ok((f, used)) && U32At(b, 20) == sid && U64At(b, 24) == position
    ensures FramePart(sha, b[..used], f, sid, position)
  {
    hide ParseFrame, U32At, U64At;
    assert b[..used] + [] == b[..used];
    assert b[..used][20..24] == b[20..24] && b[..used][24..32] == b[24..32];
    SameFields(b[..used], b);
    ParseIgnoresRest(sha, b, []);
  }

  /** The two fields are read from the first 64 bytes. */
  lemma SameFields(a: Bytes, b: Bytes)
    requires |a| >= HEADER_LEN && |b| >= HEADER_LEN && a[20..24] == b[20..24] && a[24..32] == b[24..32]
    ensures U32At(a, 20) == U32At(b, 20) && U64At(a, 24) == U64At(b, 24)
  {
  }

  lemma {:induction false} PartsParse(sha: Hash, parts: seq<Bytes>, fs: seq<Frame>, sid: U32, from: nat,
                                      state: Option<U32>)
    requires Parts(sha, parts, fs, sid, from) && EndsOnce(fs) && (state.Some? ==> state.value == sid)
    ensures ParseFrom(sha, Joined(parts), state, from, false) == Ok(fs)
    decreases |parts|
  {
    hide ParseFrame, ParseFrom, U32At, U64At, Terminator;
    var part, more, tail := parts[0], parts[1..], fs[1..];
    assert FramePart(sha, part, fs[0], sid, from + 0);
    PartIsHead(sha, part, fs[0], sid, from, Joined(more));
    ParseFromStep(sha, part + Joined(more), sid, state, from, fs[0], |part|);
    assert (part + Joined(more))[|part|..] == Joined(more);
    forall i | 0 <= i < |more| ensures FramePart(sha, more[i], tail[i], sid, from + 1 + i) {
      assert FramePart(sha, parts[i + 1], fs[i + 1], sid, from + (i + 1));
    }
    if tail == [] {
      NothingLeft(sha, Some(sid), from + 1);
    } else {
      assert forall i :: 0 <= i < |tail| ==> tail[i] == fs[i + 1];
      PartsParse(sha, more, tail, sid, from + 1, Some(sid));
    }
    assert [fs[0]] + tail == fs;
  }

  lemma PartIsHead(sha: Hash, part: Bytes, f: Frame, sid: U32, position: nat, rest: Bytes)
    requires FramePart(sha, part, f, sid, position)
    ensures ParseFrame(sha, part + rest) == Ok((f, |part|))
    ensures U32At(part + rest, 20) == sid && U64At(part + rest, 24) == position
  {
    hide ParseFrame, U32At, U64At;
    ParseIgnoresRest(sha, part, rest);
    assert part[..|part|] == part;
    assert (part + rest)[20..24] == part[20..24] && (part + rest)[24..32] == part[24..32];
    SameFields(part + rest, part);
  }

  /** One round of the loop on a frame in its place. */
  lemma ParseFromStep(sha: Hash, b: Bytes, sid: U32, state: Option<U32>, seen: nat, f: Frame, used: nat)
    requires ParseFrame(sha, b) == Ok((f, used)) && U32At(b, 20) == sid && U64At(b, 24) == seen
    requires state.Some? ==> state.value == sid
    ensures var rest := ParseFrom(sha, b[used..], Some(sid), seen + 1, Terminator(f));
            ParseFrom(sha, b, state, seen, false) == if rest.Err? then rest else Ok([f] + rest.value)
  {
    hide ParseFrame, U32At, U64At, Terminator;
  }

  /** Frames sent in order are received as sent. */
  lemma {:induction false} EncodedIsAccepted(sha: Hash, fs: seq<Frame>, sid: U32, from: nat, state: Option<U32>)
    requires sid != 0 && (state.Some? ==> state.value == sid)
    requires AllReceivable(sha, fs) && AllText(fs) && EndsOnce(fs)
    requires EncodeFrom(sha, fs, sid, from).Ok?
    ensures ParseFrom(sha, EncodeFrom(sha, fs, sid, from).value, state, from, false) == Ok(fs)
    decreases |fs|
  {
    hide ParseFrom, EncodeFrom, AllReceivable, AllText, EndsOnce, Receivable, HasText, Terminator;
    FirstFrame(sha, fs);
    var f, tail := fs[0], fs[1..];
    EncodedHead(sha, fs, sid, from, state);
    if tail == [] {
      NothingLeft(sha, Some(sid), from + 1);
      EncodedNothing(sha, sid, from + 1);
    } else {
      EncodedIsAccepted(sha, tail, sid, from + 1, Some(sid));
    }
    assert [f] + tail == fs;
  }

  lemma EncodedNothing(sha: Hash, sid: U32, from: nat)
    ensures EncodeFrom(sha, [], sid, from) == Ok([])
  {
  }

  /** The first frame of a sendable list, and the rest. */
  lemma FirstFrame(sha: Hash, fs: seq<Frame>)
    requires AllReceivable(sha, fs) && AllText(fs) && EndsOnce(fs)
    ensures fs != [] && Receivable(sha, fs[0]) && HasText(fs[0]) && (Terminator(fs[0]) <==> fs[1..] == [])
    ensures AllReceivable(sha, fs[1..]) && AllText(fs[1..]) && (fs[1..] != [] ==> EndsOnce(fs[1..]))
  {
    hide Receivable, HasText, Terminator;
    assert forall i :: 0 <= i < |fs[1..]| ==> fs[1..][i] == fs[i + 1];
  }

  /** The first frame of encoded frames is parsed, leaving the rest. */
  lemma EncodedHead(sha: Hash, fs: seq<Frame>, sid: U32, from: nat, state: Option<U32>)
    requires sid != 0 && (state.Some? ==> state.value == sid)
    requires fs != [] && Receivable(sha, fs[0]) && HasText(fs[0]) && EncodeFrom(sha, fs, sid, from).Ok?
    ensures from < U64_LIMIT && EncodeFrom(sha, fs[1..], sid, from + 1).Ok?
    ensures var rest := ParseFrom(sha, EncodeFrom(sha, fs[1..], sid, from + 1).value, Some(sid), from + 1,
                                  Terminator(fs[0]));
            ParseFrom(sha, EncodeFrom(sha, fs, sid, from).value, state, from, false)
            == if rest.Err? then rest else Ok([fs[0]] + rest.value)
  {
    hide ParseFrame, ParseFrom, FrameBytes, EncodePayload, Receivable, HasText, U32At, U64At, Terminator;
    var f, rest := fs[0], EncodeFrom(sha, fs[1..], sid, from + 1).value;
    ReceivableEncodes(sha, f);
    var payload := EncodePayload(sha, f).value;
    var head := FrameBytes(sha, KindOf(f), payload, sid, from);
    PayloadFits(sha, f);
    ParseOfEncode(sha, f, sid, from, rest);
    ParseOfBytes(sha, KindOf(f), payload, sid, from, rest);
    ParseFromStep(sha, head + rest, sid, state, from, f, |head|);
  }

  lemma ReceivableEncodes(sha: Hash, f: Frame)
    requires Receivable(sha, f)
    ensures EncodePayload(sha, f).Ok?
  {
    hide EncodePayload;
  }

  /** Fewer than 2^64 receivable frames can always be sent. */
  lemma {:induction false} SendableEncodes(sha: Hash, fs: seq<Frame>, sid: U32, from: nat)
    requires AllReceivable(sha, fs) && from + |fs| <= U64_LIMIT
    ensures EncodeFrom(sha, fs, sid, from).Ok?
  {
    hide EncodePayload, Receivable, FrameBytes;
    if fs != [] {
      ReceivableEncodes(sha, fs[0]);
      assert forall i :: 0 <= i < |fs[1..]| ==> fs[1..][i] == fs[i + 1];
      SendableEncodes(sha, fs[1..], sid, from + 1);
    }
  }

  /** A list of receivable frames with one final terminator, sent under a non-zero stream id, parses back to itself. */
  lemma ParseOfPrintedStream(sha: Hash, fs: seq<Frame>, sid: U32)
    requires sid != 0 && AllReceivable(sha, fs) && AllText(fs) && EndsOnce(fs) && |fs| < U64_LIMIT
    ensures EncodeFrom(sha, fs, sid, 0).Ok?
    ensures ParseStreamSpec(sha, EncodeFrom(sha, fs, sid, 0).value) == Ok(fs)
  {
    hide ParseFrom, EncodeFrom, AllReceivable, AllText, EndsOnce;
    SendableEncodes(sha, fs, sid, 0);
    EncodedIsAccepted(sha, fs, sid, 0, None);
  }

  /** Without ERROR frames the accepted streams are exactly the printed ones, each the printing of what it parses to. */
  lemma StreamIsCanonical(sha: Hash, b: Bytes, fs: seq<Frame>)
    requires NoError(fs)
    ensures ParseStreamSpec(sha, b) == Ok(fs) <==>
            && AllReceivable(sha, fs) && EndsOnce(fs)
            && exists sid: U32 :: sid != 0 && EncodeFrom(sha, fs, sid, 0) == Ok(b)
  {
    hide ParseFrom, EncodeFrom, AllReceivable, Terminator, HasText;
    if ParseStreamSpec(sha, b) == Ok(fs) {
      EmptyIsRefused(sha);
      AcceptedEndsOnce(sha, b, None, 0);
      AcceptedIsEncoded(sha, b, None, 0, false);
    }
    if AllReceivable(sha, fs) && EndsOnce(fs) && exists sid: U32 :: sid != 0 && EncodeFrom(sha, fs, sid, 0) == Ok(b) {
      var sid: U32 :| sid != 0 && EncodeFrom(sha, fs, sid, 0) == Ok(b);
      NoErrorIsText(fs);
      EncodedIsAccepted(sha, fs, sid, 0, None);
    }
  }

  lemma EmptyIsRefused(sha: Hash)
    ensures ParseStreamSpec(sha, []) == Err(BadOrdering)
  {
  }

  lemma NothingLeft(sha: Hash, state: Option<U32>, seen: nat)
    ensures ParseFrom(sha, [], state, seen, true) == Ok([])
  {
  }

  lemma NoErrorIsText(fs: seq<Frame>)
    requires NoError(fs)
    ensures AllText(fs)
  {
  }

  // ----- streams that end in ERROR -----

  /** Bodies of ERROR frames are not canonical; printed again they may be longer than the limit. */
  predicate ErrorsFit(fs: seq<Frame>) {
    forall i :: 0 <= i < |fs| ==> (fs[i].Error? ==> |Print(fs[i].failure)| <= ERROR_MAX_BYTES)
  }

  lemma AcceptedFrameIsText(sha: Hash, b: Bytes)
    requires ParseFrame(sha, b).Ok?
    ensures HasText(ParseFrame(sha, b).value.0)
  {
    hide DecodeMeta, DecodeObject, DecodeChunk, DecodeEnd, DecodeError, Utf8.Valid;
    var (f, used) := ParseFrame(sha, b).value;
    if f.Error? {
      DecodedIsText(b[HEADER_LEN..used]);
    }
  }

  lemma ErrorIsReceivable(sha: Hash, f: Frame)
    requires f.Error?
    ensures Receivable(sha, f) <==> |Print(f.failure)| <= ERROR_MAX_BYTES
  {
    hide Print;
  }

  lemma ConsReceivable(sha: Hash, f: Frame, rest: seq<Frame>)
    ensures AllText([f] + rest) <==> HasText(f) && AllText(rest)
    ensures AllReceivable(sha, [f] + rest) <==> Receivable(sha, f) && AllReceivable(sha, rest)
    ensures ErrorsFit([f] + rest) <==> ErrorsFit([f]) && ErrorsFit(rest)
  {
    hide HasText, Receivable, Print;
    var fs := [f] + rest;
    assert fs[0] == f && [f][0] == f && forall i :: 0 <= i < |rest| ==> rest[i] == fs[i + 1];
    assert forall i :: 0 < i < |fs| ==> fs[i] == rest[i - 1];
  }

  lemma FrameReceivable(sha: Hash, b: Bytes)
    requires ParseFrame(sha, b).Ok?
    ensures var f := ParseFrame(sha, b).value.0;
            HasText(f) && (Receivable(sha, f) <==> ErrorsFit([f]))
  {
    hide ParseFrame, Receivable, HasText, Print;
    var f := ParseFrame(sha, b).value.0;
    AcceptedFrameIsText(sha, b);
    AcceptedFrameIsCanonical(sha, b);
    assert [f][0] == f;
    if f.Error? {
      ErrorIsReceivable(sha, f);
    }
  }

  lemma {:induction false} AcceptedIsReceivable(sha: Hash, b: Bytes, sid: Option<U32>, seen: nat, terminated: bool)
    requires ParseFrom(sha, b, sid, seen, terminated).Ok?
    ensures var fs := ParseFrom(sha, b, sid, seen, terminated).value;
            && AllText(fs) && (AllReceivable(sha, fs) <==> ErrorsFit(fs))
            && (fs != [] ==> seen + |fs| <= U64_LIMIT)
    decreases |b|
  {
    hide ParseFrame, Receivable, HasText, AllText, AllReceivable, ErrorsFit, U32At, U64At, Terminator;
    if b == [] {
      NoneReceivable(sha);
    } else {
      var (f, used) := ParseFrame(sha, b).value;
      var rest := ParseFrom(sha, b[used..], Some(U32At(b, 20)), seen + 1, Terminator(f)).value;
      AcceptedIsReceivable(sha, b[used..], Some(U32At(b, 20)), seen + 1, Terminator(f));
      FrameReceivable(sha, b);
      ConsReceivable(sha, f, rest);
    }
  }

  lemma NoneReceivable(sha: Hash)
    ensures AllText([]) && AllReceivable(sha, []) && ErrorsFit([])
  {
  }

  /**
   * Any accepted stream can be sent on exactly when its ERROR body, printed again, fits; and then it is
   * received unchanged.
   */
  lemma AcceptedIsResent(sha: Hash, b: Bytes, sid: U32)
    requires ParseStreamSpec(sha, b).Ok? && sid != 0
    ensures var fs := ParseStreamSpec(sha, b).value;
            && (EncodeFrom(sha, fs, sid, 0).Ok? <==> ErrorsFit(fs))
            && (ErrorsFit(fs) ==> ParseStreamSpec(sha, EncodeFrom(sha, fs, sid, 0).value) == Ok(fs))
  {
    hide ParseFrom, EncodeFrom, AllReceivable, AllText, EndsOnce, ErrorsFit;
    var fs := ParseStreamSpec(sha, b).value;
    AcceptedIsReceivable(sha, b, None, 0, false);
    AcceptedEndsOnce(sha, b, None, 0);
    if ErrorsFit(fs) {
      SendableEncodes(sha, fs, sid, 0);
      EncodedIsAccepted(sha, fs, sid, 0, None);
    }
    if EncodeFrom(sha, fs, sid, 0).Ok? {
      EncodedErrorsFit(sha, fs, sid, 0);
    }
  }

  lemma {:induction false} EncodedErrorsFit(sha: Hash, fs: seq<Frame>, sid: U32, from: nat)
    requires EncodeFrom(sha, fs, sid, from).Ok?
    ensures ErrorsFit(fs)
  {
    hide EncodeMeta, EncodeObject, EncodeChunk, Print, FrameBytes;
    if fs != [] {
      EncodedErrorsFit(sha, fs[1..], sid, from + 1);
      assert forall i :: 0 < i < |fs| ==> fs[i] == fs[1..][i - 1];
    }
  }

  /** Such a body exists: this one-frame stream is received, and cannot be sent on under any stream id. */
  lemma ReceivedButUnsendable(sha: Hash, sid: U32)
    ensures var e := ErrorPayload(Backspaces(1000), true, []);
            var body := Body(BackspaceText(1000), true, JsonString([]));
            && ParseStreamSpec(sha, FrameBytes(sha, KIND_ERROR, body, 1, 0)) == Ok([Error(e)])
            && EncodeFrom(sha, [Error(e)], sid, 0) == Err(BadLength)
  {
    hide ParseFrame, ParseFrom, FrameBytes, DecodeError, Body, Print, JsonString, Backspaces, BackspaceText, U32At,
         U64At;
    var e := ErrorPayload(Backspaces(1000), true, []);
    var body := Body(BackspaceText(1000), true, JsonString([]));
    AcceptedButTooLong(e, body);
    AcceptedFits(body);
    var bytes := FrameBytes(sha, KIND_ERROR, body, 1, 0);
    assert bytes + [] == bytes;
    ParseOfBytes(sha, KIND_ERROR, body, 1, 0, []);
    ParseFromStep(sha, bytes, 1, None, 0, Error(e), |bytes|);
    NothingLeft(sha, Some(1), 1);
    assert [Error(e)] + [] == [Error(e)];
  }

  lemma AcceptedFits(body: Bytes)
    requires DecodeError(body).Ok?
    ensures |body| <= ERROR_MAX_BYTES
  {
  }
}
