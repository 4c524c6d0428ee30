/** All the ways section 7 of RFC 8259 lets a string be written, and what the decoder of
    mrbgems/json-with-casing/src/parson.c makes of them. */
module JsonSpelling {
  import opened Bytes
  import opened Options
  import opened Utf8
  import opened JsonStrings

  // One piece of the inside of a string literal.
  datatype Unit =
    | Raw(b: byte)
    | Short(letter: byte)
    | Hex(h: Text)
    | Pair(lead: Text, trail: Text)

  type Spelling = seq<Unit>

  predicate LegalUnit(u: Unit) {
    match u
    case Raw(b) => b >= 0x20 && b != QUOTE && b != BACKSLASH
    case Short(letter) => ShortEscape(letter) != NUL
    case Hex(h) => IsHex(h) && !(0xD800 <= HexValue(h) <= 0xDFFF)
    case Pair(lead, trail) => IsHex(lead) && IsHex(trail) && IsLead(HexValue(lead)) && IsTrail(HexValue(trail))
  }

  function UnitText(u: Unit): (t: Text)
    ensures |t| >= 1
  {
    match u
    case Raw(b) => [b]
    case Short(letter) => [BACKSLASH, letter]
    case Hex(h) => [BACKSLASH, LOWER_U] + h
    case Pair(lead, trail) => [BACKSLASH, LOWER_U] + lead + [BACKSLASH, LOWER_U] + trail
  }

  function UnitBytes(u: Unit): Text
    requires LegalUnit(u)
  {
    match u
    case Raw(b) => [b]
    case Short(letter) => [ShortEscape(letter)]
    case Hex(h) => Encode(HexValue(h))
    case Pair(lead, trail) => Encode(FromSurrogates(HexValue(lead), HexValue(trail)))
  }

  predicate LegalSpelling(us: Spelling) {
    forall u | u in us :: LegalUnit(u)
  }

  function SpelledText(us: Spelling): Text {
    if us == [] then [] else UnitText(us[0]) + SpelledText(us[1..])
  }

  function SpelledBytes(us: Spelling): Text
    requires LegalSpelling(us)
  {
    if us == [] then [] else UnitBytes(us[0]) + SpelledBytes(us[1..])
  }

  // Four hex digits in the text are read as their value.
  lemma ParseHexAt(s: Text, i: nat, h: Text)
    requires IsHex(h) && HasAt(s, i, h)
    ensures ParseHex(s, i) == HexValue(h)
  {
    assert s[i..i + 4] == h;
    forall k: nat | k < 4
      ensures At(s, i + k) == h[k] != NUL
    {
      HasAtIndex(s, i, h, k);
    }
    assert At(s, i + 0) != NUL;
  }

  // The escape backslash, u, four hex digits in the text.
  lemma EscapeAt(s: Text, i: nat, h: Text)
    requires IsHex(h) && HasAt(s, i, [BACKSLASH, LOWER_U] + h)
    ensures At(s, i) == BACKSLASH && At(s, i + 1) == LOWER_U && ParseHex(s, i + 2) == HexValue(h)
  {
    var escape := [BACKSLASH, LOWER_U];
    HasAtConcat(s, i, escape, h);
    HasAtIndex(s, i, escape, 0);
    HasAtIndex(s, i, escape, 1);
    ParseHexAt(s, i + 2, h);
  }

  lemma PairIsOneStep(s: Text, i: nat, u: Unit)
    requires u.Pair? && LegalUnit(u) && HasAt(s, i, UnitText(u))
    ensures At(s, i) == BACKSLASH
    ensures Step(s, i) == Some((UnitBytes(u), i + |UnitText(u)|))
  {
    hide Encode, HexValue, ParseHex, IsHex, HasAt, ParseUtf16, FromSurrogates;
    var escape := [BACKSLASH, LOWER_U];
    HexIsFour(u.lead);
    HexIsFour(u.trail);
    assert UnitText(u) == (escape + u.lead) + (escape + u.trail);
    HasAtConcat(s, i, escape + u.lead, escape + u.trail);
    EscapeAt(s, i, u.lead);
    EscapeAt(s, i + 6, u.trail);
    SurrogatesAreRead(s, i + 1);
  }

  lemma SurrogatesAreRead(s: Text, i: nat)
    requires IsLead(ParseHex(s, i + 1)) && IsTrail(ParseHex(s, i + 7))
    requires At(s, i + 5) == BACKSLASH && At(s, i + 6) == LOWER_U
    ensures ParseUtf16(s, i) == Some((FromSurrogates(ParseHex(s, i + 1), ParseHex(s, i + 7)), i + 11))
  {
    hide ParseHex;
  }

  lemma UnitIsOneStep(s: Text, i: nat, u: Unit)
    requires LegalUnit(u) && HasAt(s, i, UnitText(u))
    ensures At(s, i) != NUL && At(s, i) != QUOTE
    ensures Step(s, i) == Some((UnitBytes(u), i + |UnitText(u)|))
  {
    hide Encode, HexValue, ParseHex;
    match u
    case Raw(b) =>
      HasAtIndex(s, i, UnitText(u), 0);
    case Short(letter) =>
      HasAtIndex(s, i, UnitText(u), 0);
      HasAtIndex(s, i, UnitText(u), 1);
    case Hex(h) =>
      EscapeAt(s, i, h);
      HexIsFour(h);
    case Pair(_, _) =>
      PairIsOneStep(s, i, u);
  }

  lemma HexIsFour(h: Text)
    requires IsHex(h)
    ensures |h| == 4
  {
  }

  /** A legally spelled string followed by a quote is scanned to exactly that quote and decoded to
      the bytes its pieces stand for. */
  lemma {:induction false} SpellingDecodes(s: Text, i: nat, us: Spelling)
    requires LegalSpelling(us) && HasAt(s, i, SpelledText(us) + [QUOTE])
    ensures Scan(s, i) == Some(i + |SpelledText(us)|)
    ensures DecodeTo(s, i, i + |SpelledText(us)|) == Good(SpelledBytes(us), i + |SpelledText(us)|)
    decreases |us|
  {
    hide Step, UnitText, UnitBytes, LegalUnit, HasAt;
    if us == [] {
      assert SpelledText(us) + [QUOTE] == [QUOTE];
      HasAtIndex(s, i, [QUOTE], 0);
    } else {
      var u, rest := us[0], us[1..];
      assert SpelledText(us) + [QUOTE] == UnitText(u) + (SpelledText(rest) + [QUOTE]);
      HasAtConcat(s, i, UnitText(u), SpelledText(rest) + [QUOTE]);
      UnitIsOneStep(s, i, u);
      StepIsScanned(s, i);
      SpellingDecodes(s, i + |UnitText(u)|, rest);
    }
  }

  function Quoted(us: Spelling): Text {
    [QUOTE] + SpelledText(us) + [QUOTE]
  }

  lemma QuotedSpellingDecodes(s: Text, i: nat, us: Spelling)
    requires LegalSpelling(us) && HasAt(s, i, Quoted(us))
    ensures QuotedString(s, i) == Some((SpelledBytes(us), i + |Quoted(us)|))
  {
    hide Scan, DecodeTo, SpelledText, SpelledBytes, LegalUnit;
    assert Quoted(us) == [QUOTE] + (SpelledText(us) + [QUOTE]);
    HasAtHead(s, i, QUOTE, SpelledText(us) + [QUOTE]);
    SpellingDecodes(s, i + 1, us);
  }

  // ---- Nothing else is decoded ----------------------------------------------------------------

  // Four bytes read as a hex number, where they stand.
  lemma HexStands(s: Text, i: nat)
    requires ParseHex(s, i) != -1
    ensures i + 4 <= |s| && IsHex(s[i..i + 4]) && HexValue(s[i..i + 4]) == ParseHex(s, i)
    ensures HasAt(s, i, s[i..i + 4])
  {
  }

  lemma HexUnit(s: Text, i: nat) returns (u: Unit)
    requires At(s, i) == BACKSLASH && At(s, i + 1) == LOWER_U && ParseHex(s, i + 2) != -1
    requires !(0xD800 <= ParseHex(s, i + 2) <= 0xDFFF)
    ensures LegalUnit(u) && HasAt(s, i, UnitText(u)) && UnitBytes(u) == Encode(ParseHex(s, i + 2)) && |UnitText(u)| == 6
  {
    hide IsHex, HexValue, ParseHex, Encode;
    HexStands(s, i + 2);
    u := Hex(s[i + 2..i + 6]);
    assert s[i..i + 6] == [BACKSLASH, LOWER_U] + s[i + 2..i + 6];
  }

  lemma PairUnit(s: Text, i: nat) returns (u: Unit)
    requires At(s, i) == BACKSLASH && At(s, i + 1) == LOWER_U && IsLead(ParseHex(s, i + 2))
    requires At(s, i + 6) == BACKSLASH && At(s, i + 7) == LOWER_U && IsTrail(ParseHex(s, i + 8))
    ensures LegalUnit(u) && HasAt(s, i, UnitText(u)) && |UnitText(u)| == 12
    ensures UnitBytes(u) == Encode(FromSurrogates(ParseHex(s, i + 2), ParseHex(s, i + 8)))
  {
    hide IsHex, HexValue, ParseHex, Encode, FromSurrogates;
    HexStands(s, i + 2);
    HexStands(s, i + 8);
    u := Pair(s[i + 2..i + 6], s[i + 8..i + 12]);
    assert s[i..i + 12] == [BACKSLASH, LOWER_U] + s[i + 2..i + 6] + [BACKSLASH, LOWER_U] + s[i + 8..i + 12];
  }

  // One step of the decoder is one legal piece.
  lemma StepIsUnit(s: Text, i: nat) returns (u: Unit)
    requires At(s, i) != NUL && At(s, i) != QUOTE && Step(s, i).Some?
    ensures LegalUnit(u) && HasAt(s, i, UnitText(u))
    ensures Step(s, i) == Some((UnitBytes(u), i + |UnitText(u)|))
  {
    hide ParseHex, IsHex, HexValue, FromSurrogates, Encode;
    if At(s, i) != BACKSLASH {
      u := Raw(s[i]);
    } else if At(s, i + 1) != LOWER_U {
      u := Short(s[i + 1]);
    } else if IsLead(ParseHex(s, i + 2)) {
      u := PairUnit(s, i);
    } else {
      u := HexUnit(s, i);
    }
  }

  lemma {:induction false} DecodedIsSpelled(s: Text, i: nat, q: nat) returns (us: Spelling)
    requires Scan(s, i) == Some(q) && DecodeTo(s, i, q).Good?
    ensures LegalSpelling(us) && HasAt(s, i, SpelledText(us)) && q == i + |SpelledText(us)|
    ensures DecodeTo(s, i, q).out == SpelledBytes(us)
    decreases |s| - i
  {
    hide Step, HasAt, LegalUnit, UnitText, UnitBytes;
    if i == q {
      us := [];
      NothingStands(s, i);
    } else {
      var u := StepIsUnit(s, i);
      StepIsScanned(s, i);
      var rest := DecodedIsSpelled(s, i + |UnitText(u)|, q);
      us := [u] + rest;
      assert us[1..] == rest;
      HasAtConcat(s, i, UnitText(u), SpelledText(rest));
    }
  }

  lemma NothingStands(s: Text, i: nat)
    requires i <= |s|
    ensures HasAt(s, i, [])
  {
  }

  /** A string literal is decoded exactly if it is legally spelled, to the bytes it stands for. */
  lemma {:induction false} DecodedIffSpelled(s: Text, i: nat, bytes: Text, next: nat)
    ensures QuotedString(s, i) == Some((bytes, next)) <==>
            exists us :: LegalSpelling(us) && HasAt(s, i, Quoted(us)) && bytes == SpelledBytes(us)
                         && next == i + |Quoted(us)|
  {
    hide DecodeTo, SpelledText, SpelledBytes, LegalUnit, HasAt;
    if QuotedString(s, i) == Some((bytes, next)) {
      var q := Scan(s, i + 1).value;
      var us := DecodedIsSpelled(s, i + 1, q);
      ByteStands(s, q);
      HasAtConcat(s, i + 1, SpelledText(us), [QUOTE]);
      HasAtHead(s, i, QUOTE, SpelledText(us) + [QUOTE]);
      assert Quoted(us) == [QUOTE] + (SpelledText(us) + [QUOTE]);
    }
    if us :| LegalSpelling(us) && HasAt(s, i, Quoted(us)) && bytes == SpelledBytes(us) && next == i + |Quoted(us)| {
      QuotedSpellingDecodes(s, i, us);
    }
  }

  lemma ByteStands(s: Text, i: nat)
    requires i < |s|
    ensures HasAt(s, i, [s[i]])
  {
  }

  // ---- Every spelling of a sequence of scalar values decodes to its UTF-8 encoding --------------

  // The byte is the hex digit with value d, in lower or upper case.
  predicate WritesDigit(b: byte, d: int)
    requires 0 <= d < 16
  {
    b == "0123456789abcdef"[d] as int || b == "0123456789ABCDEF"[d] as int
  }

  // Four hex digits, the most significant one first.
  predicate WritesHex(h: Text, v: int)
    requires 0 <= v < 0x10000
  {
    && |h| == 4
    && WritesDigit(h[0], v / 0x1000) && WritesDigit(h[1], v / 0x100 % 0x10)
    && WritesDigit(h[2], v / 0x10 % 0x10) && WritesDigit(h[3], v % 0x10)
  }

  // The letter behind a backslash, and the control or punctuation byte it stands for.
  predicate WritesShort(letter: byte, c: int) {
    || (letter in {34, 47, 92} && c == letter)
    || (letter == 'b' as int && c == 8) || (letter == 't' as int && c == 9) || (letter == 'n' as int && c == 10)
    || (letter == 'f' as int && c == 12) || (letter == 'r' as int && c == 13)
  }

  // us is one of the ways to write c: raw, as a one-letter escape, as a unicode escape or as a
  // surrogate pair (section 7 of RFC 8259).
  ghost predicate Writes(us: Spelling, c: Scalar) {
    || (c >= 0x20 && c != 34 && c != 92 &&
        |us| == |Encode(c)| && forall k | 0 <= k < |us| :: us[k] == Raw(Encode(c)[k]))
    || (|us| == 1 && us[0].Short? && WritesShort(us[0].letter, c))
    || (|us| == 1 && us[0].Hex? && c < 0x10000 && WritesHex(us[0].h, c))
    || (|us| == 1 && us[0].Pair? && c >= 0x10000 &&
        WritesHex(us[0].lead, 0xD800 + (c - 0x10000) / 0x400) &&
        WritesHex(us[0].trail, 0xDC00 + (c - 0x10000) % 0x400))
  }

  lemma DigitIsRead(b: byte, d: int)
    requires 0 <= d < 16
    ensures HexDigit(b) == d <==> WritesDigit(b, d)
  {
  }

  /** The decoder reads four bytes as v exactly when they are the hex digits of v. */
  lemma {:induction false} HexIsRead(h: Text, v: int)
    requires 0 <= v < 0x10000
    ensures IsHex(h) && HexValue(h) == v <==> WritesHex(h, v)
  {
    hide HexDigit, WritesDigit;
    if |h| == 4 {
      DigitIsRead(h[0], v / 0x1000);
      DigitIsRead(h[1], v / 0x100 % 0x10);
      DigitIsRead(h[2], v / 0x10 % 0x10);
      DigitIsRead(h[3], v % 0x10);
      if IsHex(h) && HexValue(h) == v {
        DigitsOfValue(HexDigit(h[0]), HexDigit(h[1]), HexDigit(h[2]), HexDigit(h[3]), v);
      } else if WritesHex(h, v) {
        ValueOfDigits(v);
      }
    }
  }

  lemma DigitsOfValue(a: int, b: int, c: int, d: int, v: int)
    requires 0 <= a < 16 && 0 <= b < 16 && 0 <= c < 16 && 0 <= d < 16
    requires v == ((a * 16 + b) * 16 + c) * 16 + d
    ensures v / 0x1000 == a && v / 0x100 % 0x10 == b && v / 0x10 % 0x10 == c && v % 0x10 == d
  {
  }

  lemma ValueOfDigits(v: int)
    requires 0 <= v < 0x10000
    ensures ((v / 0x1000 * 16 + v / 0x100 % 0x10) * 16 + v / 0x10 % 0x10) * 16 + v % 0x10 == v
  {
  }

  /** A backslash and a letter stand for c exactly when the letter is that of c. */
  lemma {:induction false} ShortIsRead(letter: byte, c: int)
    ensures ShortEscape(letter) == c && c != NUL <==> WritesShort(letter, c)
    ensures WritesShort(letter, c) ==> 0 < c < 0x80
  {
  }

  lemma PairIsRead(lead: Text, trail: Text, c: Scalar)
    requires c >= 0x10000
    requires WritesHex(lead, 0xD800 + (c - 0x10000) / 0x400) && WritesHex(trail, 0xDC00 + (c - 0x10000) % 0x400)
    ensures LegalUnit(Pair(lead, trail)) && FromSurrogates(HexValue(lead), HexValue(trail)) == c
  {
    hide IsHex, HexValue, WritesHex;
    HexIsRead(lead, 0xD800 + (c - 0x10000) / 0x400);
    HexIsRead(trail, 0xDC00 + (c - 0x10000) % 0x400);
  }

  ghost predicate WritesAll(ws: seq<Spelling>, cs: seq<Scalar>) {
    |ws| == |cs| && forall k | 0 <= k < |ws| :: Writes(ws[k], cs[k])
  }

  function Joined(ws: seq<Spelling>): Spelling {
    if ws == [] then [] else ws[0] + Joined(ws[1..])
  }

  lemma {:induction false} SpelledBytesOfRaw(us: Spelling, t: Text)
    requires LegalSpelling(us) && |us| == |t| && forall k | 0 <= k < |us| :: us[k] == Raw(t[k])
    ensures SpelledBytes(us) == t
  {
    if us != [] {
      SpelledBytesOfRaw(us[1..], t[1..]);
    }
  }

  lemma HighBytes(c: Scalar, k: nat)
    requires c >= 0x80 && k < |Encode(c)|
    ensures Encode(c)[k] >= 0x80
  {
  }

  lemma RawWrites(us: Spelling, c: Scalar)
    requires c >= 0x20 && c != 34 && c != 92 && |us| == |Encode(c)|
    requires forall k | 0 <= k < |us| :: us[k] == Raw(Encode(c)[k])
    ensures LegalSpelling(us) && SpelledBytes(us) == Encode(c)
  {
    if c >= 0x80 {
      forall k: nat | k < |us|
        ensures LegalUnit(us[k])
      {
        HighBytes(c, k);
      }
    }
    if LegalSpelling(us) {
      SpelledBytesOfRaw(us, Encode(c));
    }
  }

  lemma OneUnitWrites(us: Spelling, c: Scalar)
    requires |us| == 1 && LegalUnit(us[0]) && UnitBytes(us[0]) == Encode(c)
    ensures LegalSpelling(us) && SpelledBytes(us) == Encode(c)
  {
    hide LegalUnit, UnitBytes;
    assert us == [us[0]];
    assert SpelledBytes(us) == UnitBytes(us[0]) + [] by { assert us[1..] == []; }
  }

  lemma WritesMeans(us: Spelling, c: Scalar)
    requires Writes(us, c)
    ensures LegalSpelling(us) && SpelledBytes(us) == Encode(c)
  {
    hide IsHex, HexValue, WritesHex, ShortEscape, WritesShort, LegalSpelling, SpelledBytes;
    if |us| == 1 && us[0].Short? {
      ShortIsRead(us[0].letter, c);
      OneUnitWrites(us, c);
    } else if |us| == 1 && us[0].Hex? {
      HexIsRead(us[0].h, c);
      OneUnitWrites(us, c);
    } else if |us| == 1 && us[0].Pair? {
      PairIsRead(us[0].lead, us[0].trail, c);
      OneUnitWrites(us, c);
    } else {
      RawWrites(us, c);
    }
  }

  lemma {:induction false} SpelledBytesConcat(a: Spelling, b: Spelling)
    requires LegalSpelling(a) && LegalSpelling(b)
    ensures LegalSpelling(a + b) && SpelledBytes(a + b) == SpelledBytes(a) + SpelledBytes(b)
  {
    hide LegalUnit, UnitBytes;
    if a == [] {
      assert a + b == b;
    } else {
      SpelledBytesConcat(a[1..], b);
      assert (a + b)[1..] == a[1..] + b;
    }
  }

  lemma {:induction false} JoinedMeans(ws: seq<Spelling>, cs: seq<Scalar>)
    requires WritesAll(ws, cs)
    ensures LegalSpelling(Joined(ws)) && SpelledBytes(Joined(ws)) == EncodeAll(cs)
    decreases |ws|
  {
    hide Writes, Encode;
    if ws != [] {
      WritesMeans(ws[0], cs[0]);
      JoinedMeans(ws[1..], cs[1..]);
      SpelledBytesConcat(ws[0], Joined(ws[1..]));
    }
  }

  /** However each scalar value is written, the string literal decodes to the UTF-8 encoding of the
      sequence, and that encoding is also all a C-string reader sees when no value is zero. */
  lemma {:induction false} AnySpellingDecodesTheSame(s: Text, i: nat, ws: seq<Spelling>, cs: seq<Scalar>)
    requires WritesAll(ws, cs) && HasAt(s, i, Quoted(Joined(ws)))
    ensures QuotedString(s, i) == Some((EncodeAll(cs), i + |Quoted(Joined(ws))|))
    ensures 0 !in cs ==> UpToNul(EncodeAll(cs)) == EncodeAll(cs)
  {
    hide Writes, LegalSpelling, SpelledBytes, HasAt, QuotedString, EncodeAll;
    JoinedMeans(ws, cs);
    QuotedSpellingDecodes(s, i, Joined(ws));
    if 0 !in cs {
      EncodingHasNoNul(cs);
    }
  }

  lemma {:induction false} EncodingHasNoNul(cs: seq<Scalar>)
    requires 0 !in cs
    ensures 0 !in EncodeAll(cs)
  {
    if cs != [] {
      EncodingHasNoNul(cs[1..]);
      if cs[0] >= 0x80 {
        forall k: nat | k < |Encode(cs[0])|
          ensures Encode(cs[0])[k] != 0
        {
          HighBytes(cs[0], k);
        }
      }
    }
  }

  // ---- Valid UTF-8 in, valid UTF-8 out ---------------------------------------------------------

  // Dropping ASCII bytes from the front of an encoding leaves an encoding.
  lemma {:induction false} DropAscii(s: Text, i: nat, j: nat, q: nat, cs: seq<Scalar>) returns (rest: seq<Scalar>)
    requires i <= j <= q <= |s| && s[i..q] == EncodeAll(cs)
    requires forall k | i <= k < j :: s[k] < 0x80
    ensures s[j..q] == EncodeAll(rest) && |rest| == |cs| - (j - i)
    decreases j - i
  {
    if i == j {
      rest := cs;
    } else {
      assert s[i..q][0] == s[i];
      assert EncodeAll(cs)[0] == Encode(cs[0])[0];
      assert s[i..q] == Encode(cs[0]) + EncodeAll(cs[1..]);
      assert |Encode(cs[0])| == 1 by {
        if cs[0] >= 0x80 {
          HighBytes(cs[0], 0);
        }
      }
      assert s[i + 1..q] == s[i..q][1..] == EncodeAll(cs[1..]);
      rest := DropAscii(s, i + 1, j, q, cs[1..]);
    }
  }

  // Bytes above ASCII are copied unchanged.
  lemma {:induction false} HighRunIsCopied(s: Text, i: nat, j: nat, q: nat)
    requires i <= j <= q <= |s| && forall k | i <= k < j :: s[k] >= 0x80
    ensures DecodeTo(s, i, q) == DecodeTo(s, j, q).After(s[i..j])
    decreases j - i
  {
    if i < j {
      HighRunIsCopied(s, i + 1, j, q);
      assert s[i..j] == [s[i]] + s[i + 1..j];
      AfterAfter(DecodeTo(s, j, q), [s[i]], s[i + 1..j]);
    } else if DecodeTo(s, j, q).Good? {
      assert s[i..j] + DecodeTo(s, j, q).out == DecodeTo(s, j, q).out;
    }
  }

  // An escape is written in ASCII and decodes to one scalar value.
  lemma EscapeIsAscii(s: Text, i: nat) returns (c: Scalar)
    requires At(s, i) == BACKSLASH && Step(s, i).Some?
    ensures Step(s, i).value.0 == Encode(c)
    ensures forall k | i <= k < Step(s, i).value.1 :: s[k] < 0x80
  {
    hide Encode, HexValue;
    if At(s, i + 1) == LOWER_U {
      c := ParseUtf16(s, i + 1).value.0;
      HexIsAscii(s, i + 2);
      if IsLead(ParseHex(s, i + 2)) {
        HexIsAscii(s, i + 8);
      }
    } else {
      c := ShortEscape(At(s, i + 1));
      AsciiEncoding(c);
    }
  }

  lemma AsciiEncoding(c: Scalar)
    requires c < 0x80
    ensures Encode(c) == [c]
  {
  }

  lemma HexIsAscii(s: Text, i: nat)
    requires ParseHex(s, i) != -1
    ensures forall k | i <= k < i + 4 :: s[k] < 0x80
  {
    forall k | i <= k < i + 4
      ensures s[k] < 0x80
    {
      assert s[i..i + 4][k - i] == s[k];
    }
  }

  lemma {:induction false} DecodedScalars(s: Text, i: nat, q: nat, cs: seq<Scalar>) returns (ds: seq<Scalar>)
    requires Scan(s, i) == Some(q) && DecodeTo(s, i, q).Good? && s[i..q] == EncodeAll(cs)
    ensures DecodeTo(s, i, q).out == EncodeAll(ds)
    decreases q - i
  {
    hide Encode, Step;
    if i == q {
      ds := [];
    } else {
      StepIsScanned(s, i);
      if s[i] < 0x80 {
        var (bytes, next) := Step(s, i).value;
        ScannerAndDecoderAgree(s, next, q);
        var c: Scalar;
        if s[i] == BACKSLASH {
          c := EscapeIsAscii(s, i);
        } else {
          c := PlainAsciiStep(s, i);
        }
        var rest := DropAscii(s, i, next, q, cs);
        var tail := DecodedScalars(s, next, q, rest);
        ds := [c] + tail;
      } else {
        var c, n := cs[0], |Encode(cs[0])|;
        HighScalarIsCopied(s, i, q, cs);
        hide DecodeTo, Scan;
        var tail := DecodedScalars(s, i + n, q, cs[1..]);
        ds := [c] + tail;
      }
    }
  }

  // A scalar value beyond ASCII stands in a literal as its encoding and is copied.
  lemma HighScalarIsCopied(s: Text, i: nat, q: nat, cs: seq<Scalar>)
    requires i < q < |s| && s[i] >= 0x80 && s[i..q] == EncodeAll(cs)
    ensures cs != []
    ensures var n := |Encode(cs[0])|;
            && i + n <= q && s[i..i + n] == Encode(cs[0]) && s[i + n..q] == EncodeAll(cs[1..])
            && Scan(s, i) == Scan(s, i + n)
            && DecodeTo(s, i, q) == DecodeTo(s, i + n, q).After(s[i..i + n])
  {
    hide Encode, Step, Scan, DecodeTo;
    var c := cs[0];
    var n := |Encode(c)|;
    assert EncodeAll(cs) == Encode(c) + EncodeAll(cs[1..]);
    SplitSlice(s, i, q, Encode(c), EncodeAll(cs[1..]));
    FirstByteHigh(c);
    forall k | i <= k < i + n
      ensures s[k] >= 0x80
    {
      assert s[k] == s[i..i + n][k - i];
      HighBytes(c, k - i);
    }
    HighRunIsCopied(s, i, i + n, q);
    ScanPlain(s, i, i + n);
  }

  lemma SplitSlice(s: Text, i: nat, q: nat, a: Text, b: Text)
    requires i <= q <= |s| && s[i..q] == a + b
    ensures i + |a| <= q && s[i..i + |a|] == a && s[i + |a|..q] == b
  {
    HasAtConcat(s, i, a, b);
  }

  lemma FirstByteHigh(c: Scalar)
    ensures Encode(c)[0] >= 0x80 <==> c >= 0x80
  {
  }

  lemma PlainAsciiStep(s: Text, i: nat) returns (c: Scalar)
    requires i < |s| && 0 < s[i] < 0x80 && s[i] != BACKSLASH && Step(s, i).Some?
    ensures Step(s, i) == Some((Encode(c), i + 1))
  {
    c := s[i];
  }

  /** A string literal whose inside is valid UTF-8 decodes, if at all, to valid UTF-8. */
  lemma {:induction false} Utf8IsPreserved(s: Text, i: nat)
    requires QuotedString(s, i).Some?
    requires var (_, next) := QuotedString(s, i).value; WellFormed(s[i + 1..next - 1])
    ensures WellFormed(QuotedString(s, i).value.0)
  {
    var q := Scan(s, i + 1).value;
    var cs: seq<Scalar> :| EncodeAll(cs) == s[i + 1..q];
    var ds := DecodedScalars(s, i + 1, q, cs);
  }
}
