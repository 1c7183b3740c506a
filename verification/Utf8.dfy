/** Well-formed UTF-8 (Unicode Standard, Table 3-7), the validity test of Rust's `str::from_utf8`. */
module Utf8 {
  import opened Base

  predicate Continuation(b: byte) {
    0x80 <= b <= 0xBF
  }

  /** Length of the well-formed encoded scalar at the head of `b`, or 0 when there is none. */
  function ScalarLen(b: Bytes): (n: nat)
    ensures n <= |b|
    ensures n == 1 <==> b != [] && b[0] < 0x80
    ensures forall i :: 1 <= i < n ==> Continuation(b[i])
  {
    if b == [] then 0
    else if b[0] < 0x80 then 1
    else if |b| < 2 || !Continuation(b[1]) then 0
    else if 0xC2 <= b[0] <= 0xDF then 2
    else if |b| < 3 || !Continuation(b[2]) then 0
    else if b[0] == 0xE0 then if b[1] >= 0xA0 then 3 else 0
    else if b[0] == 0xED then if b[1] <= 0x9F then 3 else 0
    else if 0xE1 <= b[0] <= 0xEF then 3
    else if |b| < 4 || !Continuation(b[3]) then 0
    else if b[0] == 0xF0 then if b[1] >= 0x90 then 4 else 0
    else if b[0] == 0xF4 then if b[1] <= 0x8F then 4 else 0
    else if 0xF1 <= b[0] <= 0xF3 then 4
    else 0
  }

  predicate Valid(b: Bytes) {
    b == [] || (ScalarLen(b) > 0 && Valid(b[ScalarLen(b)..]))
  }

  /** The head scalar is determined by its own bytes. */
  lemma ScalarLenPrefix(a: Bytes, b: Bytes)
    requires ScalarLen(a) > 0
    ensures ScalarLen(a + b) == ScalarLen(a)
  {
  }

  lemma {:induction false} ValidAppend(a: Bytes, b: Bytes)
    requires Valid(a)
    ensures Valid(a + b) <==> Valid(b)
  {
    hide ScalarLen;
    if a == [] {
      assert a + b == b;
    } else {
      var n := ScalarLen(a);
      ScalarLenPrefix(a, b);
      DropConcat(a, b, n);
      ValidAppend(a[n..], b);
    }
  }

  lemma ValidAsciiHead(c: byte, b: Bytes)
    requires c < 0x80
    ensures Valid([c] + b) <==> Valid(b)
  {
    assert ([c] + b)[1..] == b;
  }

  /** An ASCII byte is always a scalar of its own, so valid text may be cut on both sides of it. */
  lemma {:induction false} ValidSplitAscii(a: Bytes, c: byte, b: Bytes)
    requires c < 0x80 && Valid(a + [c] + b)
    ensures Valid(a) && Valid(b)
    decreases |a|
  {
    var s := a + [c] + b;
    if a == [] {
      assert s[0] == c && s[1..] == b;
    } else {
      var n := ScalarLen(s);
      assert s[|a|] == c;
      assert n <= |a|;
      assert ScalarLen(a) == n by { assert s[..|a|] == a; ScalarLenOfPrefix(s, a); }
      assert s[n..] == a[n..] + [c] + b;
      ValidSplitAscii(a[n..], c, b);
    }
  }

  lemma ScalarLenOfPrefix(s: Bytes, a: Bytes)
    requires a <= s && 0 < ScalarLen(s) <= |a|
    ensures ScalarLen(a) == ScalarLen(s)
  {
  }

  lemma {:induction false} AsciiValid(a: Bytes)
    requires forall i :: 0 <= i < |a| ==> a[i] < 0x80
    ensures Valid(a)
  {
    if a != [] {
      AsciiValid(a[1..]);
    }
  }

  // ----- as encoded code points -----

  /** A Unicode scalar value. */
  predicate ScalarValue(cp: nat) {
    cp <= 0x10_FFFF && !(0xD800 <= cp <= 0xDFFF)
  }

  /** The shortest encoding of a code point: 7, 11, 16 or 21 bits over one to four bytes. */
  function Encode(cp: nat): Bytes
    requires cp <= 0x10_FFFF
  {
    if cp < 0x80 then [cp as byte]
    else if cp < 0x800 then [(0xC0 + cp / 64) as byte, (0x80 + cp % 64) as byte]
    else if cp < 0x1_0000 then [(0xE0 + cp / 4096) as byte, (0x80 + cp / 64 % 64) as byte, (0x80 + cp % 64) as byte]
    else
      [(0xF0 + cp / 262144) as byte, (0x80 + cp / 4096 % 64) as byte, (0x80 + cp / 64 % 64) as byte,
       (0x80 + cp % 64) as byte]
  }

  lemma EncodeIsScalar(cp: nat)
    requires ScalarValue(cp)
    ensures ScalarLen(Encode(cp)) == |Encode(cp)| > 0
  {
    if cp >= 0x1_0000 {
      FourBytesScalar(cp);
    } else if cp >= 0x800 {
      assert cp / 64 % 64 == cp / 64 - 64 * (cp / 4096);
    }
  }

  lemma FourBytesScalar(cp: nat)
    requires 0x1_0000 <= cp <= 0x10_FFFF
    ensures ScalarLen(Encode(cp)) == |Encode(cp)| == 4
  {
    var b := Encode(cp);
    var top := cp / 4096;
    assert cp / 262144 == top / 64 && 0x10 <= top <= 0x10F;
    assert b[0] as nat == 0xF0 + top / 64 && b[1] as nat == 0x80 + top % 64;
    assert top == 64 * (top / 64) + top % 64;
    assert Continuation(b[1]) && Continuation(b[2]) && Continuation(b[3]);
  }

  /** Every scalar at the head of a string is the encoding of one scalar value. */
  lemma ScalarIsEncoded(b: Bytes) returns (cp: nat)
    requires ScalarLen(b) > 0
    ensures ScalarValue(cp) && b[..ScalarLen(b)] == Encode(cp)
  {
    var n := ScalarLen(b);
    if n == 1 {
      cp := b[0] as nat;
    } else if n == 2 {
      cp := TwoBytes(b[0] as nat, b[1] as nat);
    } else if n == 3 {
      cp := ThreeBytes(b[0] as nat, b[1] as nat, b[2] as nat);
    } else {
      cp := FourBytes(b[0] as nat, b[1] as nat, b[2] as nat, b[3] as nat);
    }
  }

  lemma TwoBytes(x: nat, y: nat) returns (cp: nat)
    requires 0xC2 <= x <= 0xDF && 0x80 <= y <= 0xBF
    ensures ScalarValue(cp) && Encode(cp) == [x as byte, y as byte]
  {
    cp := 64 * (x - 0xC0) + (y - 0x80);
    assert cp / 64 == x - 0xC0 && cp % 64 == y - 0x80;
  }

  lemma ThreeBytes(x: nat, y: nat, z: nat) returns (cp: nat)
    requires 0xE0 <= x <= 0xEF && 0x80 <= y <= 0xBF && 0x80 <= z <= 0xBF
    requires (x == 0xE0 ==> y >= 0xA0) && (x == 0xED ==> y <= 0x9F)
    ensures ScalarValue(cp) && Encode(cp) == [x as byte, y as byte, z as byte]
  {
    var high := 64 * (x - 0xE0) + (y - 0x80);
    cp := 64 * high + (z - 0x80);
    assert cp / 64 == high && cp % 64 == z - 0x80;
    assert cp / 4096 == x - 0xE0 && high % 64 == y - 0x80;
  }

  lemma FourBytes(x: nat, y: nat, z: nat, w: nat) returns (cp: nat)
    requires 0xF0 <= x <= 0xF4 && 0x80 <= y <= 0xBF && 0x80 <= z <= 0xBF && 0x80 <= w <= 0xBF
    requires (x == 0xF0 ==> y >= 0x90) && (x == 0xF4 ==> y <= 0x8F)
    ensures ScalarValue(cp) && Encode(cp) == [x as byte, y as byte, z as byte, w as byte]
  {
    var top := 64 * (x - 0xF0) + (y - 0x80);
    var high := 64 * top + (z - 0x80);
    cp := 64 * high + (w - 0x80);
    assert cp / 64 == high && cp % 64 == w - 0x80;
    assert cp / 4096 == top && high % 64 == z - 0x80;
    assert cp / 262144 == x - 0xF0 && top % 64 == y - 0x80;
  }

  predicate ScalarValues(cps: seq<nat>) {
    forall i :: 0 <= i < |cps| ==> ScalarValue(cps[i])
  }

  function EncodeAll(cps: seq<nat>): Bytes
    requires ScalarValues(cps)
  {
    if cps == [] then [] else Encode(cps[0]) + EncodeAll(cps[1..])
  }

  lemma {:induction false} EncodedIsValid(cps: seq<nat>)
    requires ScalarValues(cps)
    ensures Valid(EncodeAll(cps))
  {
    hide ScalarLen, Encode;
    if cps != [] {
      EncodedIsValid(cps[1..]);
      EncodeIsScalar(cps[0]);
      ScalarLenPrefix(Encode(cps[0]), EncodeAll(cps[1..]));
      assert EncodeAll(cps)[|Encode(cps[0])|..] == EncodeAll(cps[1..]);
    }
  }

  lemma {:induction false} ValidIsEncoded(b: Bytes) returns (cps: seq<nat>)
    requires Valid(b)
    ensures ScalarValues(cps) && b == EncodeAll(cps)
    decreases |b|
  {
    hide ScalarLen, Encode;
    if b == [] {
      cps := [];
    } else {
      var n := ScalarLen(b);
      var cp := ScalarIsEncoded(b);
      var rest := ValidIsEncoded(b[n..]);
      cps := [cp] + rest;
      assert cps[1..] == rest && b == b[..n] + b[n..];
    }
  }

  /** Valid text is exactly the encodings of Unicode scalar values, one after the other. */
  lemma ValidMeans(b: Bytes)
    ensures Valid(b) <==> exists cps :: ScalarValues(cps) && b == EncodeAll(cps)
  {
    hide Valid, EncodeAll, ScalarValue;
    if Valid(b) {
      var cps := ValidIsEncoded(b);
    }
    forall cps | ScalarValues(cps) && b == EncodeAll(cps) ensures Valid(b) {
      EncodedIsValid(cps);
    }
  }
}
