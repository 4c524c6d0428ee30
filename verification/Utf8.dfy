/** UTF-8 checking (mrbgems/json-with-casing/src/parson.c, lines 189-256) against RFC 3629. */
module Utf8 {
  import opened Bytes

  // Unicode scalar values: code points other than surrogates.
  type Scalar = c: int | 0 <= c <= 0x10FFFF && !(0xD800 <= c <= 0xDFFF)

  // The encoding of section 3 of RFC 3629.
  function Encode(c: Scalar): (t: Text)
    ensures 1 <= |t| <= 4
  {
    if c < 0x80 then [c]
    else if c < 0x800 then [0xC0 + c / 64, 0x80 + c % 64]
    else if c < 0x10000 then [0xE0 + c / 64 / 64, 0x80 + c / 64 % 64, 0x80 + c % 64]
    else [0xF0 + c / 64 / 64 / 64, 0x80 + c / 64 / 64 % 64, 0x80 + c / 64 % 64, 0x80 + c % 64]
  }

  function EncodeAll(cs: seq<Scalar>): Text {
    if cs == [] then [] else Encode(cs[0]) + EncodeAll(cs[1..])
  }

  predicate IsTail(b: byte) {
    0x80 <= b < 0xC0
  }

  // The productions UTF8-1 to UTF8-4 in section 4 of RFC 3629.
  predicate IsUtf8Char(t: Text) {
    || (|t| == 1 && t[0] < 0x80)
    || (|t| == 2 && 0xC2 <= t[0] <= 0xDF && IsTail(t[1]))
    || (|t| == 3 && IsTail(t[2]) &&
        (|| (t[0] == 0xE0 && 0xA0 <= t[1] <= 0xBF)
         || (0xE1 <= t[0] <= 0xEC && IsTail(t[1]))
         || (t[0] == 0xED && 0x80 <= t[1] <= 0x9F)
         || (0xEE <= t[0] <= 0xEF && IsTail(t[1]))))
    || (|t| == 4 && IsTail(t[2]) && IsTail(t[3]) &&
        (|| (t[0] == 0xF0 && 0x90 <= t[1] <= 0xBF)
         || (0xF1 <= t[0] <= 0xF3 && IsTail(t[1]))
         || (t[0] == 0xF4 && 0x80 <= t[1] <= 0x8F)))
  }

  // num_bytes_in_utf8_sequence; each mask test is written as the range of bytes it selects.
  function SequenceLength(c: byte): (n: nat)
    ensures n <= 4
  {
    if c == 0xC0 || c == 0xC1 || c > 0xF4 || IsTail(c) then 0
    else if c < 0x80 then 1
    else if 0xC0 <= c < 0xE0 then 2
    else if 0xE0 <= c < 0xF0 then 3
    else if 0xF0 <= c < 0xF8 then 4
    else 0
  }

  // verify_utf8_sequence at offset i: the code point it computes, or None where it returns 0
  // before having one.
  function CodePointAt(s: Text, i: nat): (cp: int) {
    var len := SequenceLength(At(s, i));
    if len == 1 then At(s, i)
    else if len == 2 && IsTail(At(s, i + 1)) then
      At(s, i) % 32 * 64 + At(s, i + 1) % 64
    else if len == 3 && IsTail(At(s, i + 1)) && IsTail(At(s, i + 2)) then
      (At(s, i) % 16 * 64 + At(s, i + 1) % 64) * 64 + At(s, i + 2) % 64
    else if len == 4 && IsTail(At(s, i + 1)) && IsTail(At(s, i + 2)) && IsTail(At(s, i + 3)) then
      ((At(s, i) % 8 * 64 + At(s, i + 1) % 64) * 64 + At(s, i + 2) % 64) * 64 + At(s, i + 3) % 64
    else -1
  }

  predicate VerifySequence(s: Text, i: nat) {
    var len := SequenceLength(At(s, i));
    var cp := CodePointAt(s, i);
    && cp >= 0
    && !((cp < 0x80 && len > 1) || (cp < 0x800 && len > 2) || (cp < 0x10000 && len > 3))
    && !(cp > 0x10FFFF)
    && !(0xD800 <= cp <= 0xDFFF)
  }

  // The bit-level test accepts only the byte ranges of the grammar, and never looks past the
  // terminator to do so.
  lemma VerifiedIsChar(s: Text, i: nat)
    requires VerifySequence(s, i) && i < |s|
    ensures 0 < SequenceLength(s[i]) && i + SequenceLength(s[i]) <= |s|
    ensures IsUtf8Char(s[i..i + SequenceLength(s[i])])
  {
  }

  lemma CharIsVerified(s: Text, i: nat, t: Text)
    requires IsUtf8Char(t) && HasAt(s, i, t)
    ensures VerifySequence(s, i) && SequenceLength(At(s, i)) == |t|
  {
    forall k: nat | k < |t|
      ensures At(s, i + k) == t[k]
    {
      HasAtIndex(s, i, t, k);
    }
    assert At(s, i + 0) == t[0];
  }

  // Shifting in six bits and reading them back.
  lemma SixBits(high: int, low: int)
    requires 0 <= low < 64
    ensures (high * 64 + low) / 64 == high && (high * 64 + low) % 64 == low
  {
  }

  lemma ThreeByteChar(t: Text) returns (c: Scalar)
    requires |t| == 3 && IsUtf8Char(t)
    ensures Encode(c) == t
  {
    var a: int, b: int, d: int := t[0] - 0xE0, t[1] - 0x80, t[2] - 0x80;
    SixBits(a, b);
    SixBits(a * 64 + b, d);
    c := (a * 64 + b) * 64 + d;
  }

  lemma FourByteChar(t: Text) returns (c: Scalar)
    requires |t| == 4 && IsUtf8Char(t)
    ensures Encode(c) == t
  {
    var a: int, b: int, d: int, e: int := t[0] - 0xF0, t[1] - 0x80, t[2] - 0x80, t[3] - 0x80;
    SixBits(a, b);
    SixBits(a * 64 + b, d);
    SixBits((a * 64 + b) * 64 + d, e);
    var high := a * 64 + b;
    assert 16 <= high <= 0x10F;
    c := (high * 64 + d) * 64 + e;
  }

  lemma {:induction false} CharIsEncoded(t: Text) returns (c: Scalar)
    requires IsUtf8Char(t)
    ensures Encode(c) == t
  {
    if |t| == 1 {
      c := t[0];
    } else if |t| == 2 {
      var a: int, b: int := t[0] - 0xC0, t[1] - 0x80;
      SixBits(a, b);
      c := a * 64 + b;
    } else if |t| == 3 {
      c := ThreeByteChar(t);
    } else {
      c := FourByteChar(t);
    }
  }

  // The grammar describes exactly the encodings of scalar values.
  lemma EncodeIsChar(c: Scalar)
    ensures IsUtf8Char(Encode(c))
  {
    if c >= 0x10000 {
      var high := c / 64 / 64;
      assert 16 <= high <= 0x10F;
    }
  }

  lemma TailBits(x: int)
    requires 0 <= x
    ensures IsTail(0x80 + x % 64) && (0x80 + x % 64) % 64 == x % 64 && x / 64 * 64 + x % 64 == x
  {
  }

  lemma LeadBits(c: Scalar)
    ensures 0x80 <= c < 0x800 ==> (0xC0 + c / 64) % 32 == c / 64
    ensures 0x800 <= c < 0x10000 ==> (0xE0 + c / 64 / 64) % 16 == c / 64 / 64
    ensures 0x10000 <= c ==> (0xF0 + c / 64 / 64 / 64) % 8 == c / 64 / 64 / 64
  {
  }

  /** The code point that the checker computes from an encoding is the one that is encoded. */
  lemma {:induction false} EncodedIsComputed(s: Text, i: nat, c: Scalar)
    requires HasAt(s, i, Encode(c))
    ensures CodePointAt(s, i) == c
  {
    EncodeIsChar(c);
    CharIsVerified(s, i, Encode(c));
    forall k: nat | k < |Encode(c)|
      ensures At(s, i + k) == Encode(c)[k]
    {
      HasAtIndex(s, i, Encode(c), k);
    }
    assert At(s, i + 0) == Encode(c)[0];
    hide SequenceLength, IsUtf8Char, IsTail, VerifySequence, HasAt, At;
    LeadBits(c);
    TailBits(c);
    TailBits(c / 64);
    TailBits(c / 64 / 64);
  }

  ghost predicate WellFormed(s: Text) {
    exists cs: seq<Scalar> :: EncodeAll(cs) == s
  }

  // The loop of is_valid_utf8 from offset i on, as a recursive test.
  predicate ValidFrom(s: Text, i: nat)
    requires i <= |s|
    decreases |s| - i
  {
    i == |s| ||
    (VerifySequence(s, i) &&
     var n := SequenceLength(s[i]);
     0 < n && i + n <= |s| && ValidFrom(s, i + n))
  }

  lemma {:induction false} ValidFromDecodes(s: Text, i: nat) returns (cs: seq<Scalar>)
    requires i <= |s| && ValidFrom(s, i)
    ensures EncodeAll(cs) == s[i..]
    decreases |s| - i
  {
    hide Encode;
    if i == |s| {
      cs := [];
    } else {
      VerifiedIsChar(s, i);
      var n := SequenceLength(s[i]);
      var rest := ValidFromDecodes(s, i + n);
      var c := CharIsEncoded(s[i..i + n]);
      cs := [c] + rest;
      assert s[i..] == s[i..i + n] + s[i + n..];
    }
  }

  lemma {:induction false} EncodedIsValidFrom(s: Text, i: nat, cs: seq<Scalar>)
    requires i <= |s| && s[i..] == EncodeAll(cs)
    ensures ValidFrom(s, i)
    decreases |cs|
  {
    hide Encode, IsUtf8Char, VerifySequence, SequenceLength;
    if cs != [] {
      var t := Encode(cs[0]);
      EncodeIsChar(cs[0]);
      assert s[i..] == t + EncodeAll(cs[1..]);
      assert s[i..i + |t|] == s[i..][..|t|] == t;
      CharIsVerified(s, i, t);
      assert s[i + |t|..] == s[i..][|t|..] == EncodeAll(cs[1..]);
      EncodedIsValidFrom(s, i + |t|, cs[1..]);
    }
  }

  lemma {:induction false} ValidFromIffWellFormed(s: Text, i: nat)
    requires i <= |s|
    ensures ValidFrom(s, i) <==> WellFormed(s[i..])
  {
    if ValidFrom(s, i) {
      var cs := ValidFromDecodes(s, i);
    }
    if WellFormed(s[i..]) {
      var cs: seq<Scalar> :| EncodeAll(cs) == s[i..];
      EncodedIsValidFrom(s, i, cs);
    }
  }

  /** is_valid_utf8 accepts exactly the UTF-8 encodings of sequences of scalar values. */
  method IsValidUtf8(s: Text) returns (ok: bool)
    ensures ok <==> WellFormed(s)
  {
    var i := 0;
    assert s[0..] == s;
    ValidFromIffWellFormed(s, 0);
    while i < |s|
      invariant 0 <= i <= |s|
      invariant ValidFrom(s, i) <==> WellFormed(s)
    {
      if !VerifySequence(s, i) {
        return false;
      }
      VerifiedIsChar(s, i);
      i := i + SequenceLength(s[i]);
    }
    return true;
  }
}
