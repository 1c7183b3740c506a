/** Component keys of the radix index: `encode_key` and `decode_key`. */
module RadixKey {
  import opened Base
  import opened Names
  import Utf8

  /** Every `/` becomes NUL. */
  function SlashToNul(s: Bytes): (r: Bytes)
    ensures |r| == |s|
    ensures forall i :: 0 <= i < |s| ==> r[i] == if s[i] == SLASH then NUL else s[i]
  {
    seq(|s|, i requires 0 <= i < |s| => if s[i] == SLASH then NUL else s[i])
  }

  /** Every NUL becomes `/`. */
  function NulToSlash(s: Bytes): (r: Bytes)
    ensures |r| == |s|
    ensures forall i :: 0 <= i < |s| ==> r[i] == if s[i] == NUL then SLASH else s[i]
  {
    seq(|s|, i requires 0 <= i < |s| => if s[i] == NUL then SLASH else s[i])
  }

  /** Specification of `encode_key`; the method below rewrites the bytes in place. */
  function EncodeKey(path: Bytes): CodecResult<Bytes> {
    var _ :- ValidateAbsolutePath(path);
    if path == [SLASH] then Ok([]) else Ok(SlashToNul(path[1..]) + [NUL])
  }

  method ComputeKey(path: Bytes) returns (r: CodecResult<Bytes>)
    ensures r == EncodeKey(path)
  {
    var _ :- ValidateAbsolutePath(path);
    if path == [SLASH] {
      return Ok([]);
    }
    var key := new byte[|path| - 1](i requires 0 <= i < |path| - 1 => path[i + 1]);
    assert key[..] == path[1..];
    for k := 0 to key.Length
      invariant forall i :: 0 <= i < k ==> key[i] == SlashToNul(path[1..])[i]
      invariant forall i :: k <= i < key.Length ==> key[i] == path[1..][i]
    {
      if key[k] == SLASH {
        key[k] := NUL;
      }
    }
    assert key[..] == SlashToNul(path[1..]);
    return Ok(key[..] + [NUL]);
  }

  function DecodeKey(key: Bytes): CodecResult<Bytes> {
    if |key| > PATH_MAX_BYTES then Err(BadLength)
    else if key == [] then Ok([SLASH])
    else if key[|key| - 1] != NUL || SLASH in key then Err(BadName)
    else
      var path := [SLASH] + NulToSlash(key[..|key| - 1]);
      var _ :- Check(Utf8.Valid(path), BadName);
      var _ :- ValidateAbsolutePath(path);
      var again :- EncodeKey(path);
      if again != key then Err(BadName) else Ok(path)
  }

  // ----- the key as a list of components -----

  /** Each component followed by NUL. */
  function KeyOf(names: seq<Bytes>): Bytes {
    if names == [] then [] else names[0] + ([NUL] + KeyOf(names[1..]))
  }

  lemma {:induction false} KeyOfSplit(s: Bytes)
    ensures SlashToNul(s) + [NUL] == KeyOf(Split(s))
  {
    if s == [] {
      assert SlashToNul(s) == [] && Split(s)[1..] == [];
    } else {
      var rest := Split(s[1..]);
      KeyOfSplit(s[1..]);
      var head := if s[0] == SLASH then NUL else s[0];
      assert SlashToNul(s) == [head] + SlashToNul(s[1..]);
      Assoc([head], SlashToNul(s[1..]), [NUL]);
      if s[0] == SLASH {
        assert Split(s)[1..] == rest;
      } else {
        assert Split(s)[1..] == rest[1..];
        Assoc([s[0]], rest[0], [NUL] + KeyOf(rest[1..]));
      }
    }
  }

  lemma EncodeKeyIsKeyOf(path: Bytes)
    requires EncodeKey(path).Ok?
    ensures path != [] && EncodeKey(path).value == KeyOf(Components(path))
    ensures ValidNames(Components(path))
  {
    if |path| > 1 {
      KeyOfSplit(path[1..]);
      ValidateNamesMeans(Split(path[1..]));
    }
  }

  /**
   * `encode_key` accepts exactly the paths of plain names within 4096 bytes, and writes each name with a NUL
   * behind it.
   */
  lemma EncodeKeyMeans(path: Bytes, key: Bytes)
    ensures EncodeKey(path) == Ok(key) <==>
            |path| <= 4096 && exists names :: PlainNames(names) && path == PathOf(names) && key == KeyOf(names)
  {
    PathMeans(path);
    if EncodeKey(path).Ok? {
      EncodeKeyIsKeyOf(path);
    }
    forall names | PlainNames(names) && path == PathOf(names) && |path| <= 4096 ensures names == Components(path) {
      ComponentsOfPath(names);
    }
  }

  lemma ComponentsOfPath(names: seq<Bytes>)
    requires PlainNames(names)
    ensures Components(PathOf(names)) == names
  {
    hide PlainName;
    PlainHasNoSlash(names);
    if names != [] {
      SplitOfSlashed(names[0], names[1..]);
      assert PathOf(names)[1..] == names[0] + Slashed(names[1..]) && [names[0]] + names[1..] == names;
      NameNotEmpty(names);
    }
  }

  lemma NameNotEmpty(names: seq<Bytes>)
    requires PlainNames(names) && names != []
    ensures |PathOf(names)| > 1
  {
    hide Utf8.Valid;
    assert PlainName(names[0]);
  }

  /** Component lists of valid names: byte prefixes of keys are exactly the component-wise ancestors. */
  lemma {:induction false} KeyPrefixIsComponentPrefix(a: seq<Bytes>, b: seq<Bytes>)
    requires ValidNames(a) && ValidNames(b)
    ensures KeyOf(a) <= KeyOf(b) <==> a <= b
  {
    if a == [] {
    } else if b == [] {
      assert |KeyOf(a)| > 0;
    } else {
      KeyPrefixIsComponentPrefix(a[1..], b[1..]);
      var ka, kb := KeyOf(a), KeyOf(b);
      KeyOfHead(a);
      KeyOfHead(b);
      if ka <= kb {
        FirstNul(a[0], b[0], ka, kb);
        assert ka[|a[0]| + 1..] <= kb[|b[0]| + 1..];
      } else if a[0] == b[0] {
        PrefixOfConcat(a[0] + [NUL], KeyOf(a[1..]), kb);
        Assoc(a[0], [NUL], KeyOf(a[1..]));
      }
      assert a <= b <==> a[0] == b[0] && a[1..] <= b[1..] by { SeqPrefixHead(a, b); }
    }
  }

  lemma KeyOfHead(a: seq<Bytes>)
    requires a != []
    ensures var k := KeyOf(a);
            a[0] <= k && |a[0]| < |k| && k[|a[0]|] == NUL && k[|a[0]| + 1..] == KeyOf(a[1..])
  {
  }

  lemma SeqPrefixHead<T>(a: seq<T>, b: seq<T>)
    requires a != [] && b != []
    ensures a <= b <==> a[0] == b[0] && a[1..] <= b[1..]
  {
    assert a == [a[0]] + a[1..] && b == [b[0]] + b[1..];
    if a[0] == b[0] && a[1..] <= b[1..] {
      assert b[..|a|] == a;
    }
  }

  /** Two NUL-free names, each followed by NUL, at the head of a string and of its extension are equal. */
  lemma FirstNul(a: Bytes, b: Bytes, ka: Bytes, kb: Bytes)
    requires NUL !in a && NUL !in b && ka <= kb
    requires a <= ka && |a| < |ka| && ka[|a|] == NUL
    requires b <= kb && |b| < |kb| && kb[|b|] == NUL
    ensures a == b
  {
    assert forall i :: 0 <= i < |a| ==> kb[i] == a[i] != NUL;
    assert forall i :: 0 <= i < |b| ==> kb[i] == b[i] != NUL;
    assert kb[|a|] == NUL;
  }

  /** On accepted paths, key prefix and component-wise ancestor-or-self are the same relation. */
  lemma KeyPrefixIsAncestor(q: Bytes, p: Bytes)
    requires EncodeKey(q).Ok? && EncodeKey(p).Ok?
    ensures q != [] && p != []
    ensures EncodeKey(q).value <= EncodeKey(p).value <==> Components(q) <= Components(p)
  {
    EncodeKeyIsKeyOf(q);
    EncodeKeyIsKeyOf(p);
    KeyPrefixIsComponentPrefix(Components(q), Components(p));
  }

  /** A longer key among the ancestors of one path has more components. */
  lemma {:induction false} KeyLengthGrows(a: seq<Bytes>, b: seq<Bytes>)
    requires a <= b
    ensures |KeyOf(a)| <= |KeyOf(b)|
    ensures |KeyOf(a)| == |KeyOf(b)| ==> a == b
  {
    if a != [] {
      KeyLengthGrows(a[1..], b[1..]);
      assert a == [a[0]] + a[1..] && b == [b[0]] + b[1..];
    } else if b != [] {
      assert |KeyOf(b)| > 0;
    }
  }

  // ----- the two directions are inverse -----

  /** A path of valid components is valid text. */
  lemma {:induction false} SplitValid(s: Bytes)
    requires ValidNames(Split(s))
    ensures Utf8.Valid(s) && NUL !in s
    decreases |s|
  {
    hide Utf8.Valid;
    var first := Split(s)[0];
    SplitHead(s);
    assert ValidName(first);
    if |first| == |s| {
      assert s == first;
    } else {
      var tail := s[|first| + 1..];
      assert ValidNames(Split(tail)) by { assert Split(tail) == Split(s)[1..]; }
      SplitValid(tail);
      assert s == first + ([SLASH] + tail);
      Utf8.ValidAppend(first, [SLASH] + tail);
      Utf8.ValidAsciiHead(SLASH, tail);
    }
  }

  lemma {:induction false} SplitHead(s: Bytes)
    ensures var first := Split(s)[0];
            && first <= s
            && (|first| < |s| ==> s[|first|] == SLASH && Split(s[|first| + 1..]) == Split(s)[1..])
  {
    if s != [] && s[0] != SLASH {
      SplitHead(s[1..]);
      var inner := Split(s[1..])[0];
      assert Split(s)[0] == [s[0]] + inner;
      assert s == [s[0]] + s[1..];
      if |inner| < |s[1..]| {
        assert s[1..][|inner| + 1..] == s[|inner| + 2..];
        assert Split(s)[1..] == Split(s[1..])[1..];
      }
    } else if s != [] {
      assert Split(s)[1..] == Split(s[1..]);
    }
  }

  lemma KeyOfPathShape(path: Bytes)
    requires EncodeKey(path).Ok?
    ensures path != [] && path[0] == SLASH && |path| <= PATH_MAX_BYTES && Utf8.Valid(path) && NUL !in path
  {
    EncodeKeyIsKeyOf(path);
    assert path == [SLASH] + path[1..];
    if |path| > 1 {
      SplitValid(path[1..]);
    }
  }

  /** `decode_key` accepts exactly the keys of accepted paths, and returns that path. */
  lemma KeyCodecInverse(path: Bytes, key: Bytes)
    ensures DecodeKey(key) == Ok(path) <==> EncodeKey(path) == Ok(key)
  {
    if EncodeKey(path) == Ok(key) {
      KeyOfPathShape(path);
      if |path| > 1 {
        var body := path[1..];
        assert key[..|key| - 1] == SlashToNul(body);
        assert NulToSlash(SlashToNul(body)) == body by {
          forall i | 0 <= i < |body|
            ensures NulToSlash(SlashToNul(body))[i] == body[i]
          {
            assert body[i] == path[i + 1];
          }
        }
        assert path == [SLASH] + body;
        assert SLASH !in key;
      }
    }
  }

  lemma KeyBounds(path: Bytes)
    requires EncodeKey(path).Ok?
    ensures |EncodeKey(path).value| <= PATH_MAX_BYTES
    ensures DecodeKey(EncodeKey(path).value) == Ok(path)
  {
    KeyCodecInverse(path, EncodeKey(path).value);
  }

  lemma EncodeKeyInjective(p: Bytes, q: Bytes)
    ensures EncodeKey(p).Ok? && EncodeKey(p) == EncodeKey(q) ==> p == q
  {
    if EncodeKey(p).Ok? {
      KeyCodecInverse(p, EncodeKey(p).value);
      KeyCodecInverse(q, EncodeKey(p).value);
    }
  }
}
