/** Name and path rules: `validate_name`, `validate_relative_path`, `validate_absolute_path`. */
module Names {
  import opened Base
  import Utf8

  const NUL: byte := 0
  const DOT: byte := 0x2E
  const SLASH: byte := 0x2F
  const NAME_MAX_BYTES: nat := 255
  const PATH_MAX_BYTES: nat := 4096

  function ValidateName(name: Bytes): CodecResult<()> {
    if name == [] then Err(BadName)
    else if |name| > NAME_MAX_BYTES then Err(BadName)
    else if !Utf8.Valid(name) then Err(BadName)
    else if NUL in name then Err(BadName)
    else if SLASH in name then Err(BadName)
    else if name == [DOT] || name == [DOT, DOT] then Err(BadName)
    else Ok(())
  }

  predicate ValidName(name: Bytes) {
    ValidateName(name).Ok?
  }

  /** `str::split('/')`: always at least one piece. */
  function Split(s: Bytes): (parts: seq<Bytes>)
    ensures |parts| >= 1
  {
    if s == [] then [[]]
    else if s[0] == SLASH then [[]] + Split(s[1..])
    else
      var rest := Split(s[1..]);
      [[s[0]] + rest[0]] + rest[1..]
  }

  function ValidateNames(names: seq<Bytes>): CodecResult<()> {
    if names == [] then Ok(())
    else
      var _ :- ValidateName(names[0]);
      ValidateNames(names[1..])
  }

  function ValidateRelativePath(path: Bytes): CodecResult<()> {
    if |path| > PATH_MAX_BYTES then Err(BadLength)
    else if path == [] then Ok(())
    else ValidateNames(Split(path))
  }

  function ValidateAbsolutePath(path: Bytes): CodecResult<()> {
    if |path| > PATH_MAX_BYTES then Err(BadLength)
    else if path == [] || path[0] != SLASH then Err(BadName)
    else ValidateRelativePath(path[1..])
  }

  predicate ValidNames(names: seq<Bytes>) {
    forall i :: 0 <= i < |names| ==> ValidName(names[i])
  }

  lemma {:induction false} ValidateNamesMeans(names: seq<Bytes>)
    ensures ValidateNames(names).Ok? <==> ValidNames(names)
  {
    if names != [] {
      ValidateNamesMeans(names[1..]);
      assert names == [names[0]] + names[1..];
    }
  }

  /** The path components of an accepted absolute path; the root has none. */
  function Components(path: Bytes): seq<Bytes> {
    if |path| <= 1 then [] else Split(path[1..])
  }

  lemma LetterIsName(name: Bytes)
    requires name == Ascii("a")
    ensures ValidName(name)
  {
    assert name == [0x61] && name[1..] == [];
    Utf8.AsciiValid(name);
    hide Utf8.Valid;
  }

  // ----- which names and paths are accepted -----

  /** 1 to 255 bytes of valid UTF-8 without NUL and `/`, and neither `.` nor `..`. */
  predicate PlainName(name: Bytes) {
    && 1 <= |name| <= 255 && Utf8.Valid(name)
    && (forall i :: 0 <= i < |name| ==> name[i] != 0 && name[i] != 0x2F)
    && name != [0x2E] && name != [0x2E, 0x2E]
  }

  predicate PlainNames(names: seq<Bytes>) {
    forall i :: 0 <= i < |names| ==> PlainName(names[i])
  }

  lemma NameMeans(name: Bytes)
    ensures ValidateName(name).Ok? <==> PlainName(name)
  {
    hide Utf8.Valid;
  }

  /** Each name behind a slash. */
  function Slashed(names: seq<Bytes>): Bytes {
    if names == [] then [] else [SLASH] + (names[0] + Slashed(names[1..]))
  }

  /** The absolute path of a list of names; of none, the root. */
  function PathOf(names: seq<Bytes>): Bytes {
    if names == [] then [SLASH] else Slashed(names)
  }

  /** Splitting undoes joining. */
  lemma {:induction false} SplitOfSlashed(name: Bytes, rest: seq<Bytes>)
    requires SLASH !in name && forall i :: 0 <= i < |rest| ==> SLASH !in rest[i]
    ensures Split(name + Slashed(rest)) == [name] + rest
    decreases |rest|, |name|
  {
    var s := name + Slashed(rest);
    if name != [] {
      assert name[0] in name && s[1..] == name[1..] + Slashed(rest);
      SplitOfSlashed(name[1..], rest);
      assert [name[0]] + name[1..] == name;
      assert ([name[1..]] + rest)[1..] == rest;
    } else if rest != [] {
      assert rest[0] in rest;
      assert s[1..] == rest[0] + Slashed(rest[1..]);
      SplitOfSlashed(rest[0], rest[1..]);
      assert [rest[0]] + rest[1..] == rest;
    } else {
      assert s == [];
    }
  }

  /** Joining undoes splitting. */
  lemma {:induction false} SlashedOfSplit(s: Bytes)
    ensures Slashed(Split(s)) == [SLASH] + s
  {
    if s != [] {
      SlashedOfSplit(s[1..]);
      var rest := Split(s[1..]);
      assert s == [s[0]] + s[1..];
      if s[0] == SLASH {
        assert Split(s)[1..] == rest && [] + Slashed(rest) == Slashed(rest);
      } else {
        assert Split(s)[1..] == rest[1..];
        assert Slashed(rest)[1..] == rest[0] + Slashed(rest[1..]) && ([SLASH] + s[1..])[1..] == s[1..];
        Assoc([s[0]], rest[0], Slashed(rest[1..]));
      }
    } else {
      assert Slashed([[]]) == [SLASH] + ([] + Slashed([[]][1..]));
    }
  }

  /** The accepted absolute paths are exactly those of plain names within 4096 bytes. */
  lemma PathMeans(path: Bytes)
    ensures ValidateAbsolutePath(path).Ok? <==>
            |path| <= 4096 && exists names :: PlainNames(names) && path == PathOf(names)
    ensures ValidateAbsolutePath(path).Ok? ==> PlainNames(Components(path)) && path == PathOf(Components(path))
  {
    hide ValidateName, PlainName;
    if path != [] && path[0] == SLASH {
      var names := Split(path[1..]);
      ValidateNamesMeans(names);
      PlainMeans(names);
      SlashedOfSplit(path[1..]);
      assert path == [SLASH] + path[1..];
      if |path| == 1 {
        assert PathOf([]) == path;
      }
    }
    forall names | PlainNames(names) && path == PathOf(names) && |path| <= 4096 ensures ValidateAbsolutePath(path).Ok? {
      if names != [] {
        PlainHasNoSlash(names);
        SplitOfSlashed(names[0], names[1..]);
        assert path[1..] == names[0] + Slashed(names[1..]) && [names[0]] + names[1..] == names;
        PlainMeans(names);
        ValidateNamesMeans(names);
      }
    }
  }

  lemma PlainMeans(names: seq<Bytes>)
    ensures PlainNames(names) <==> ValidNames(names)
  {
    hide ValidateName, PlainName;
    forall i | 0 <= i < |names| ensures PlainName(names[i]) <==> ValidName(names[i]) {
      NameMeans(names[i]);
    }
  }

  lemma PlainHasNoSlash(names: seq<Bytes>)
    requires PlainNames(names)
    ensures forall i :: 0 <= i < |names| ==> SLASH !in names[i]
  {
    hide Utf8.Valid;
    forall i | 0 <= i < |names| ensures SLASH !in names[i] {
      assert PlainName(names[i]);
    }
  }
}
