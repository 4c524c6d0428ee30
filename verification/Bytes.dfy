/** Bytes, C strings, and the small character classes the C code tests with comparisons and masks. */
module Bytes {
  type byte = b: int | 0 <= b < 256

  type Text = seq<byte>

  // Contents of a C string: what stands before its terminator.
  type CString = s: Text | 0 !in s witness []

  const NUL: byte := 0
  const BACKSPACE: byte := 8
  const TAB: byte := 9
  const LINE_FEED: byte := 10
  const FORM_FEED: byte := 12
  const CARRIAGE_RETURN: byte := 13
  const SPACE: byte := 32
  const QUOTE: byte := 34
  const STAR: byte := 42
  const COMMA: byte := 44
  const MINUS: byte := 45
  const DOT: byte := 46
  const SLASH: byte := 47
  const DIGIT_0: byte := 48
  const DIGIT_9: byte := 57
  const COLON: byte := 58
  const UPPER_A: byte := 65
  const UPPER_E: byte := 69
  const UPPER_F: byte := 70
  const UPPER_Z: byte := 90
  const LBRACKET: byte := 91
  const BACKSLASH: byte := 92
  const RBRACKET: byte := 93
  const UNDERSCORE: byte := 95
  const LOWER_A: byte := 97
  const LOWER_B: byte := 98
  const LOWER_E: byte := 101
  const LOWER_F: byte := 102
  const LOWER_N: byte := 110
  const LOWER_R: byte := 114
  const LOWER_T: byte := 116
  const LOWER_U: byte := 117
  const LOWER_Z: byte := 122
  const LBRACE: byte := 123
  const RBRACE: byte := 125

  // The byte a C pointer at offset i of the string sees; the terminator stands at the end.
  function At(s: Text, i: nat): byte {
    if i < |s| then s[i] else NUL
  }

  // isspace in the C locale.
  predicate IsSpace(c: byte) {
    c == SPACE || 9 <= c <= 13
  }

  predicate IsDigit(c: byte) {
    DIGIT_0 <= c <= DIGIT_9
  }

  predicate IsLower(c: byte) {
    LOWER_A <= c <= LOWER_Z
  }

  predicate IsUpper(c: byte) {
    UPPER_A <= c <= UPPER_Z
  }

  // The bytes of a literal.
  function Ascii(t: string): Text
    requires forall i | 0 <= i < |t| :: t[i] as int < 128
  {
    seq(|t|, i requires 0 <= i < |t| => t[i] as int)
  }

  /** The names above stand for the characters they are called after. */
  lemma BytesAreAscii()
    ensures BACKSPACE == 8 && TAB == 9 && LINE_FEED == 10 && FORM_FEED == 12 && CARRIAGE_RETURN == 13 && NUL == 0
    ensures [SPACE, QUOTE, STAR, COMMA, MINUS, DOT, SLASH] == Ascii(" \"*,-./")
    ensures [DIGIT_0, DIGIT_9, COLON, LBRACKET, BACKSLASH, RBRACKET, UNDERSCORE] == Ascii("09:[\\]_")
    ensures [UPPER_A, UPPER_E, UPPER_F, UPPER_Z, LBRACE, RBRACE] == Ascii("AEFZ{}")
    ensures [LOWER_A, LOWER_B, LOWER_E, LOWER_F, LOWER_N] == Ascii("abefn")
    ensures [LOWER_R, LOWER_T, LOWER_U, LOWER_Z] == Ascii("rtuz")
  {
  }

  /** The character classes are those of the C locale. */
  lemma ClassesAreAscii(c: byte)
    ensures IsSpace(c) <==> c in {9, 10, 11, 12, 13, 32}
    ensures IsDigit(c) <==> '0' as int <= c <= '9' as int
    ensures IsLower(c) <==> 'a' as int <= c <= 'z' as int
    ensures IsUpper(c) <==> 'A' as int <= c <= 'Z' as int
  {
  }

  // What C-string functions see of a buffer: the bytes before its first zero.
  function UpToNul(s: Text): (r: CString)
    ensures r <= s
    ensures 0 !in s ==> r == s
    ensures |r| < |s| ==> s[|r|] == NUL
  {
    if s == [] || s[0] == NUL then [] else [s[0]] + UpToNul(s[1..])
  }

  // t stands in s at offset i.
  predicate HasAt(s: Text, i: nat, t: Text) {
    i + |t| <= |s| && s[i..i + |t|] == t
  }

  lemma HasAtFits(s: Text, i: nat, t: Text)
    requires HasAt(s, i, t)
    ensures i + |t| <= |s|
  {
  }

  lemma HasAtConcat(s: Text, i: nat, a: Text, b: Text)
    ensures HasAt(s, i, a + b) <==> HasAt(s, i, a) && HasAt(s, i + |a|, b)
  {
    if i + |a| + |b| <= |s| {
      assert s[i..i + |a + b|] == s[i..i + |a|] + s[i + |a|..i + |a| + |b|];
      if s[i..i + |a + b|] == a + b {
        assert s[i..i + |a|] == (a + b)[..|a|];
        assert s[i + |a|..i + |a| + |b|] == (a + b)[|a|..];
      }
    }
  }

  // The three parts of a text, each at its place.
  lemma PartsAt(a: Text, b: Text, c: Text)
    ensures HasAt(a + (b + c), 0, a) && HasAt(a + (b + c), |a|, b) && HasAt(a + (b + c), |a| + |b|, c)
  {
    var s := a + (b + c);
    assert s[0..|s|] == s;
    HasAtConcat(s, 0, a, b + c);
    HasAtConcat(s, |a|, b, c);
  }

  // A text at the end of s shows its first byte, or the terminator.
  lemma AtTail(s: Text, i: nat, t: Text)
    requires HasAt(s, i, t) && i + |t| == |s|
    ensures At(s, i) == At(t, 0)
  {
    if t != [] {
      HasAtIndex(s, i, t, 0);
    }
  }

  lemma HasAtHead(s: Text, i: nat, c: byte, t: Text)
    ensures HasAt(s, i, [c] + t) <==> i < |s| && s[i] == c && HasAt(s, i + 1, t)
  {
    HasAtConcat(s, i, [c], t);
  }

  lemma HasAtIndex(s: Text, i: nat, t: Text, k: nat)
    requires HasAt(s, i, t) && k < |t|
    ensures At(s, i + k) == s[i + k] == t[k]
  {
    assert s[i..i + |t|][k] == t[k];
  }
}
