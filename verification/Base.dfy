/** Bytes, digests, results and the fixed-width integer codecs shared by every format of the crate. */
module Base {

  newtype byte = x: int | 0 <= x < 256

  type Bytes = seq<byte>

  /** A 32-byte SHA-256 value. */
  type Digest = d: Bytes | |d| == 32 witness seq(32, _ => 0)

  function Zeros(n: nat): (b: Bytes)
    ensures |b| == n
  {
    seq(n, _ => 0)
  }

  const ZERO_DIGEST: Digest := Zeros(32)

  /** SHA-256 itself stays abstract: every statement holds for every total function of this type. */
  type Hash = Bytes -> Digest

  datatype Option<+T> = None | Some(value: T)

  /** The crate's `CodecError`, without the diagnostic text. */
  datatype CodecError =
    | Truncated
    | BadConstant
    | BadLength
    | Overflow
    | BadName
    | BadOrdering
    | DigestMismatch
    | Duplicate
    | Unsupported

  datatype Result<+T, +E> = Ok(value: T) | Err(error: E) {

    predicate IsFailure() {
      Err?
    }

    function PropagateFailure<U>(): Result<U, E>
      requires Err?
    {
      Err(error)
    }

    function Extract(): T
      requires Ok?
    {
      value
    }
  }

  type CodecResult<+T> = Result<T, CodecError>

  /** `Ok(())` when the condition holds; lets a function check and continue with `:-`. */
  function Check(condition: bool, error: CodecError): CodecResult<()> {
    if condition then Ok(()) else Err(error)
  }

  /** No two different byte strings of `inputs` have the same hash. */
  ghost predicate CollisionFree(sha: Hash, inputs: set<Bytes>) {
    forall x, y :: x in inputs && y in inputs && sha(x) == sha(y) ==> x == y
  }

  lemma Assoc<T>(a: seq<T>, b: seq<T>, c: seq<T>)
    ensures (a + b) + c == a + (b + c)
  {
  }

  lemma DropConcat<T>(a: seq<T>, b: seq<T>, n: nat)
    requires n <= |a|
    ensures (a + b)[n..] == a[n..] + b
  {
  }

  /** A concatenation is a prefix exactly when its parts are found one after the other. */
  lemma PrefixOfConcat(a: Bytes, b: Bytes, k: Bytes)
    ensures a + b <= k <==> a <= k && b <= k[|a|..]
    ensures a + b <= k ==> k[|a + b|..] == k[|a|..][|b|..]
  {
    if a <= k {
      assert k == a + k[|a|..];
      if |b| <= |k[|a|..]| {
        assert k[..|a + b|] == a + k[|a|..][..|b|];
      }
    }
    if a + b <= k {
      assert k[..|a|] == (a + b)[..|a|] == a;
    }
  }

  /** The bytes of an ASCII literal. */
  function Ascii(s: string): (b: Bytes)
    requires forall i :: 0 <= i < |s| ==> s[i] < 128 as char
    ensures |b| == |s|
    ensures forall i :: 0 <= i < |s| ==> b[i] < 128
  {
    seq(|s|, i requires 0 <= i < |s| => s[i] as int as byte)
  }

  // ----- little-endian integers -----

  function Pow256(n: nat): (p: nat)
    ensures p > 0
  {
    if n == 0 then 1 else 256 * Pow256(n - 1)
  }

  const U16_LIMIT: nat := 0x1_0000
  const U32_LIMIT: nat := 0x1_0000_0000
  const U64_LIMIT: nat := 0x1_0000_0000_0000_0000

  type U16 = n: nat | n < 0x1_0000
  type U32 = n: nat | n < 0x1_0000_0000
  type U64 = n: nat | n < 0x1_0000_0000_0000_0000

  lemma Pow256Values()
    ensures Pow256(2) == U16_LIMIT && Pow256(4) == U32_LIMIT && Pow256(8) == U64_LIMIT
  {
    assert Pow256(3) == 0x100_0000;
    assert Pow256(5) == 0x100_0000_0000;
    assert Pow256(6) == 0x1_0000_0000_0000;
    assert Pow256(7) == 0x100_0000_0000_0000;
  }

  /** The low `width` bytes of `n`, least significant first: a cast to that width, then `to_le_bytes`. */
  function Le(n: nat, width: nat): (b: Bytes)
    ensures |b| == width
  {
    if width == 0 then [] else [(n % 256) as byte] + Le(n / 256, width - 1)
  }

  function LeValue(b: Bytes): nat {
    if b == [] then 0 else b[0] as nat + 256 * LeValue(b[1..])
  }

  lemma {:induction false} LeValueOfLe(n: nat, width: nat)
    requires n < Pow256(width)
    ensures LeValue(Le(n, width)) == n
  {
    if width > 0 {
      LeValueOfLe(n / 256, width - 1);
      assert Le(n, width)[1..] == Le(n / 256, width - 1);
    }
  }

  lemma {:induction false} LeOfLeValue(b: Bytes)
    ensures LeValue(b) < Pow256(|b|)
    ensures Le(LeValue(b), |b|) == b
  {
    if b != [] {
      LeOfLeValue(b[1..]);
      var low, high := b[0] as nat, LeValue(b[1..]);
      assert LeValue(b) == low + 256 * high;
      assert LeValue(b) % 256 == low && LeValue(b) / 256 == high;
      assert [low as byte] + b[1..] == b;
    }
  }

  /** The value of a byte string in base 256: byte `i` is its digit of weight 256^i. */
  lemma {:induction false} LeByte(b: Bytes, i: nat)
    requires i < |b|
    ensures b[i] as nat == LeValue(b) / Pow256(i) % 256
  {
    var low, high := b[0] as nat, LeValue(b[1..]);
    if i == 0 {
      assert LeValue(b) == low + 256 * high && Pow256(0) == 1;
    } else {
      LeByte(b[1..], i - 1);
      DropDigit(low, high, Pow256(i - 1));
    }
  }

  /** Dividing by 256 and more drops the lowest digit. */
  lemma DropDigit(low: nat, high: nat, p: nat)
    requires low < 256 && p > 0
    ensures (low + 256 * high) / (256 * p) == high / p
  {
    var q, r := high / p, high % p;
    assert high == p * q + r && r <= p - 1;
    assert 256 * high == 256 * (p * q) + 256 * r;
    var n, d, rest := low + 256 * high, 256 * p, low + 256 * r;
    assert 256 * (p * q) == d * q by { Regroup(p, q); }
    assert n == d * q + rest && rest < d;
    DivisionIs(n, d, q, rest);
  }

  lemma Regroup(p: nat, q: nat)
    ensures 256 * (p * q) == 256 * p * q
  {
  }

  lemma DivisionIs(n: nat, d: nat, q: nat, r: nat)
    requires d > 0 && n == d * q + r && r < d
    ensures n / d == q
  {
    var q' := n / d;
    assert n == d * q' + n % d;
    if q' > q {
      TimesMonotone(d, q + 1, q');
    } else if q' < q {
      TimesMonotone(d, q' + 1, q);
    }
  }

  lemma TimesMonotone(d: nat, m: nat, n: nat)
    requires m <= n
    ensures d * m <= d * n
  {
  }

  function Le16(n: nat): (b: Bytes) ensures |b| == 2 { Le(n, 2) }
  function Le32(n: nat): (b: Bytes) ensures |b| == 4 { Le(n, 4) }
  function Le64(n: nat): (b: Bytes) ensures |b| == 8 { Le(n, 8) }

  /** `buf[off..off + n]`, or the error the callers raise when it is out of range. */
  function Slice(buf: Bytes, off: nat, n: nat): (r: CodecResult<Bytes>)
    ensures r.Ok? <==> off + n <= |buf|
    ensures r.Ok? ==> r.value == buf[off..off + n]
    ensures r.Err? ==> r.error == Truncated
  {
    if off + n <= |buf| then Ok(buf[off..off + n]) else Err(Truncated)
  }

  /** The integers stored at an offset that is known to be in range. */
  function U16At(buf: Bytes, off: nat): (n: U16)
    requires off + 2 <= |buf|
    ensures Le16(n) == buf[off..off + 2]
  {
    Pow256Values();
    LeOfLeValue(buf[off..off + 2]);
    LeValue(buf[off..off + 2])
  }

  function U32At(buf: Bytes, off: nat): (n: U32)
    requires off + 4 <= |buf|
    ensures Le32(n) == buf[off..off + 4]
  {
    Pow256Values();
    LeOfLeValue(buf[off..off + 4]);
    LeValue(buf[off..off + 4])
  }

  function U64At(buf: Bytes, off: nat): (n: U64)
    requires off + 8 <= |buf|
    ensures Le64(n) == buf[off..off + 8]
  {
    Pow256Values();
    LeOfLeValue(buf[off..off + 8]);
    LeValue(buf[off..off + 8])
  }

  function ReadU16(buf: Bytes, off: nat): CodecResult<U16> {
    if off + 2 <= |buf| then Ok(U16At(buf, off)) else Err(Truncated)
  }

  function ReadU32(buf: Bytes, off: nat): CodecResult<U32> {
    if off + 4 <= |buf| then Ok(U32At(buf, off)) else Err(Truncated)
  }

  function ReadU64(buf: Bytes, off: nat): CodecResult<U64> {
    if off + 8 <= |buf| then Ok(U64At(buf, off)) else Err(Truncated)
  }

  // ----- fields one after the other -----

  /** A field found at an offset, and where the next one starts. */
  lemma FieldAt(buf: Bytes, off: nat, field: Bytes, rest: Bytes)
    requires off <= |buf| && buf[off..] == field + rest
    ensures off + |field| <= |buf| && buf[off..off + |field|] == field && buf[off + |field|..] == rest
  {
    assert |buf| - off == |field| + |rest|;
    assert buf[off..][..|field|] == field && buf[off..][|field|..] == rest;
  }

  lemma FieldU16(buf: Bytes, off: nat, n: U16, rest: Bytes)
    requires off <= |buf| && buf[off..] == Le16(n) + rest
    ensures off + 2 <= |buf| && U16At(buf, off) == n && buf[off + 2..] == rest
  {
    FieldAt(buf, off, Le16(n), rest);
    Pow256Values();
    LeValueOfLe(n, 2);
  }

  lemma FieldU32(buf: Bytes, off: nat, n: U32, rest: Bytes)
    requires off <= |buf| && buf[off..] == Le32(n) + rest
    ensures off + 4 <= |buf| && U32At(buf, off) == n && buf[off + 4..] == rest
  {
    FieldAt(buf, off, Le32(n), rest);
    Pow256Values();
    LeValueOfLe(n, 4);
  }

  lemma FieldU64(buf: Bytes, off: nat, n: U64, rest: Bytes)
    requires off <= |buf| && buf[off..] == Le64(n) + rest
    ensures off + 8 <= |buf| && U64At(buf, off) == n && buf[off + 8..] == rest
  {
    FieldAt(buf, off, Le64(n), rest);
    Pow256Values();
    LeValueOfLe(n, 8);
  }

  /** Cutting the next `n` bytes off. */
  lemma CutAt(buf: Bytes, off: nat, n: nat)
    requires off + n <= |buf|
    ensures buf[off..] == buf[off..off + n] + buf[off + n..]
  {
  }

  // ----- byte-string order -----

  /** Length of the longest common prefix. */
  function Common(a: Bytes, b: Bytes): (n: nat)
    ensures n <= |a| && n <= |b| && a[..n] == b[..n]
    ensures n < |a| && n < |b| ==> a[n] != b[n]
  {
    if a == [] || b == [] || a[0] != b[0] then 0 else 1 + Common(a[1..], b[1..])
  }

  /** Lexicographic strict order on byte strings (`<` on Rust slices). */
  predicate Less(a: Bytes, b: Bytes) {
    b != [] && (a == [] || a[0] < b[0] || (a[0] == b[0] && Less(a[1..], b[1..])))
  }

  /** The first byte in which two strings differ decides; a proper prefix comes first. */
  lemma {:induction false} LessMeans(a: Bytes, b: Bytes)
    ensures var n := Common(a, b); Less(a, b) <==> n < |b| && (n == |a| || a[n] < b[n])
  {
    if a != [] && b != [] && a[0] == b[0] {
      LessMeans(a[1..], b[1..]);
    }
  }

  lemma {:induction false} LessTransitive(a: Bytes, b: Bytes, c: Bytes)
    requires Less(a, b) && Less(b, c)
    ensures Less(a, c)
  {
    if a != [] && a[0] == b[0] == c[0] {
      LessTransitive(a[1..], b[1..], c[1..]);
    }
  }

  lemma {:induction false} LessIrreflexive(a: Bytes)
    ensures !Less(a, a)
  {
    if a != [] {
      LessIrreflexive(a[1..]);
    }
  }

  /** Below a shared prefix the order is the order of the next byte. */
  lemma {:induction false} LessPastPrefix(p: Bytes, a: Bytes, b: Bytes)
    requires p <= a && p <= b
    ensures Less(a, b) == Less(a[|p|..], b[|p|..])
  {
    if p != [] {
      LessPastPrefix(p[1..], a[1..], b[1..]);
      assert a[1..][|p| - 1..] == a[|p|..] && b[1..][|p| - 1..] == b[|p|..];
    } else {
      assert a[0..] == a && b[0..] == b;
    }
  }
}
