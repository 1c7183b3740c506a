/** The JSON scanner as the crate runs it: an object whose field `i` advances over the text. */
module ErrorScan {
  import opened Base
  import opened ErrorJson
  import Utf8

  class JsonScan {
    const b: Bytes
    var i: nat

    ghost predicate Valid()
      reads this
    {
      i <= |b|
    }

    constructor (b: Bytes)
      ensures this.b == b && i == 0 && Valid()
    {
      this.b, i := b, 0;
    }

    method SkipSpace()
      requires Valid()
      modifies this
      ensures Valid() && i == SkipWs(b, old(i))
    {
      while i < |b| && IsWs(b[i])
        invariant Valid() && SkipWs(b, i) == SkipWs(b, old(i))
      {
        i := i + 1;
      }
    }

    method Take(c: byte) returns (taken: bool)
      requires Valid()
      modifies this
      ensures Valid() && taken == At(b, old(i), c)
      ensures i == if taken then old(i) + 1 else old(i)
    {
      taken := i < |b| && b[i] == c;
      if taken {
        i := i + 1;
      }
    }

    /** One escape, after its backslash. */
    method Escaped() returns (r: CodecResult<Bytes>)
      requires Valid()
      modifies this
      ensures Valid() && i >= old(i)
      ensures match ScanEscape(b, old(i)) {
                case Err(e) => r == Err(e)
                case Ok((bytes, next)) => r == Ok(bytes) && i == next
              }
    {
      hide HexEscape, Utf8.Encode;
      if i >= |b| {
        return Err(Truncated);
      }
      var e := b[i];
      i := i + 1;
      if e == QUOTE || e == BACKSLASH || e == 0x2F {
        return Ok([e]);
      } else if e == 0x62 {
        return Ok([0x08]);
      } else if e == 0x66 {
        return Ok([0x0C]);
      } else if e == 0x6E {
        return Ok([0x0A]);
      } else if e == 0x72 {
        return Ok([0x0D]);
      } else if e == 0x74 {
        return Ok([0x09]);
      } else if e == 0x75 {
        if i + 4 > |b| {
          return Err(Truncated);
        }
        var cp :- HexEscape(b[i..i + 4]);
        i := i + 4;
        return Ok(Utf8.Encode(cp));
      } else {
        return Err(BadConstant);
      }
    }

    method String() returns (r: CodecResult<Bytes>)
      requires Valid()
      modifies this
      ensures Valid() && i >= old(i)
      ensures match ScanString(b, old(i)) { case Err(e) => r == Err(e) case Ok((v, next)) => r == Ok(v) && i == next }
    {
      hide ScanEscape, Utf8.Valid;
      var quoted := Take(QUOTE);
      if !quoted {
        return Err(BadConstant);
      }
      var out: Bytes := [];
      while true
        invariant Valid() && i > old(i) && At(b, old(i), QUOTE)
        invariant ScanChars(b, old(i) + 1, []) == ScanChars(b, i, out)
        decreases |b| - i
      {
        if i >= |b| {
          return Err(Truncated);
        }
        var c := b[i];
        i := i + 1;
        if c == QUOTE {
          break;
        } else if c == BACKSLASH {
          var escaped := Escaped();
          var bytes :- escaped;
          out := out + bytes;
        } else if c < 0x20 {
          return Err(BadConstant);
        } else {
          out := out + [c];
        }
      }
      if Utf8.Valid(out) {
        return Ok(out);
      }
      return Err(BadConstant);
    }

    method Boolean() returns (r: CodecResult<bool>)
      requires Valid()
      modifies this
      ensures Valid() && i >= old(i)
      ensures match ScanBoolean(b, old(i)) { case Err(e) => r == Err(e) case Ok((v, next)) => r == Ok(v) && i == next }
    {
      hide Utf8.Valid, TrueText, FalseText;
      var text := if Utf8.Valid(b[i..]) then b[i..] else [];
      if TrueText() <= text {
        i := i + 4;
        return Ok(true);
      } else if FalseText() <= text {
        i := i + 5;
        return Ok(false);
      }
      return Err(BadConstant);
    }

    /** The value of one key, stored into its slot. */
    method Value(key: Bytes, fields: Fields) returns (r: CodecResult<Fields>)
      requires Valid()
      modifies this
      ensures Valid() && i >= old(i)
      ensures match ScanValue(b, old(i), key, fields) {
                case Err(e) => r == Err(e)
                case Ok((f, next)) => r == Ok(f) && i == next
              }
    {
      hide ScanString, ScanBoolean, KeyCode, KeyRetryable, KeyRequestId;
      if key == KeyCode() {
        if fields.code.Some? {
          return Err(Duplicate);
        }
        var scanned := String();
        var v :- scanned;
        return Ok(fields.(code := Some(v)));
      } else if key == KeyRetryable() {
        if fields.retryable.Some? {
          return Err(Duplicate);
        }
        var scanned := Boolean();
        var v :- scanned;
        return Ok(fields.(retryable := Some(v)));
      } else if key == KeyRequestId() {
        if fields.requestId.Some? {
          return Err(Duplicate);
        }
        var scanned := String();
        var v :- scanned;
        return Ok(fields.(requestId := Some(v)));
      }
      return Err(BadConstant);
    }

    /** One member of the object, with the white space around it. */
    method Member(fields: Fields) returns (r: CodecResult<Fields>)
      requires Valid()
      modifies this
      ensures Valid()
      ensures match ScanMember(b, old(i), fields) {
                case Err(e) => r == Err(e)
                case Ok((f, next)) => r == Ok(f) && i == next
              }
    {
      hide ScanString, ScanValue, SkipWs;
      SkipSpace();
      var scanned := String();
      var key :- scanned;
      SkipSpace();
      var colon := Take(COLON);
      if !colon {
        return Err(BadConstant);
      }
      SkipSpace();
      var stored := Value(key, fields);
      var fields' :- stored;
      SkipSpace();
      return Ok(fields');
    }
  }

  method ParseErrorJson(b: Bytes) returns (r: CodecResult<ErrorPayload>)
    ensures r == Parse(b)
  {
    hide ScanMember, SkipWs;
    var fields := NO_FIELDS;
    var it := new JsonScan(b);
    it.SkipSpace();
    var open := it.Take(OPEN);
    if !open {
      return Err(BadConstant);
    }
    it.SkipSpace();
    var empty := it.Take(CLOSE);
    if empty {
      return Err(BadConstant);
    }
    while true
      invariant it.b == b && it.Valid()
      invariant Parse(b) == Conclude(b, ScanMembers(b, it.i, fields))
      decreases |b| - it.i
    {
      ghost var before := it.i;
      var stored := it.Member(fields);
      if stored.Err? {
        return Err(stored.error);
      }
      fields := stored.value;
      var close := it.Take(CLOSE);
      if close {
        break;
      }
      var comma := it.Take(COMMA);
      if !comma {
        return Err(BadConstant);
      }
    }
    it.SkipSpace();
    if it.i < |b| {
      return Err(BadConstant);
    }
    return Finish(fields);
  }
}
