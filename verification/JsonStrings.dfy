/** String literals: the scanner skip_quotes and the decoder process_string
    (mrbgems/json-with-casing/src/parson.c, lines 162-187 and 503-637). */
module JsonStrings {
  import opened Bytes
  import opened Options
  import opened Utf8

  // hex_char_to_int
  function HexDigit(c: byte): (v: int)
    ensures -1 <= v < 16
  {
    if DIGIT_0 <= c <= DIGIT_9 then c - DIGIT_0
    else if LOWER_A <= c <= LOWER_F then c - LOWER_A + 10
    else if UPPER_A <= c <= UPPER_F then c - UPPER_A + 10
    else -1
  }

  predicate IsHex(h: Text) {
    |h| == 4 && forall k | 0 <= k < 4 :: HexDigit(h[k]) != -1
  }

  function HexValue(h: Text): (v: int)
    requires IsHex(h)
    ensures 0 <= v < 0x10000
  {
    ((HexDigit(h[0]) * 16 + HexDigit(h[1])) * 16 + HexDigit(h[2])) * 16 + HexDigit(h[3])
  }

  // parse_utf16_hex
  function ParseHex(s: Text, i: nat): (v: int)
    ensures v == -1 || (i + 4 <= |s| && IsHex(s[i..i + 4]) && v == HexValue(s[i..i + 4]))
  {
    if At(s, i) == NUL || At(s, i + 1) == NUL || At(s, i + 2) == NUL || At(s, i + 3) == NUL then -1
    else if IsHex(s[i..i + 4]) then HexValue(s[i..i + 4])
    else -1
  }

  predicate IsLead(v: int) {
    0xD800 <= v <= 0xDBFF
  }

  predicate IsTrail(v: int) {
    0xDC00 <= v <= 0xDFFF
  }

  // Decoding a surrogate pair: section 2.2 of RFC 2781.
  function FromSurrogates(lead: int, trail: int): Scalar
    requires IsLead(lead) && IsTrail(trail)
  {
    (lead - 0xD800) * 0x400 + (trail - 0xDC00) + 0x10000
  }

  // parse_utf16 with the cursor on the 'u': the scalar value written there and the offset after it.
  function ParseUtf16(s: Text, i: nat): (r: Option<(Scalar, nat)>)
    ensures r.Some? ==> i < r.value.1 <= |s|
  {
    var cp := ParseHex(s, i + 1);
    if cp == -1 then None
    else if cp < 0xD800 || cp > 0xDFFF then Some((cp, i + 5))
    else if IsLead(cp) then
      if At(s, i + 5) != BACKSLASH || At(s, i + 6) != LOWER_U then None
      else
        var trail := ParseHex(s, i + 7);
        if IsTrail(trail) then Some((FromSurrogates(cp, trail), i + 11)) else None
    else None
  }

  // The one-letter escapes of process_string.
  function ShortEscape(letter: byte): (c: byte)
    ensures c != NUL ==> letter in {QUOTE, BACKSLASH, SLASH, LOWER_B, LOWER_F, LOWER_N, LOWER_R, LOWER_T}
  {
    if letter == QUOTE then QUOTE
    else if letter == BACKSLASH then BACKSLASH
    else if letter == SLASH then SLASH
    else if letter == LOWER_B then BACKSPACE
    else if letter == LOWER_F then FORM_FEED
    else if letter == LOWER_N then LINE_FEED
    else if letter == LOWER_R then CARRIAGE_RETURN
    else if letter == LOWER_T then TAB
    else NUL
  }

  // skip_quotes past the opening quote: the offset of the closing one.
  function Scan(s: Text, i: nat): (q: Option<nat>)
    ensures q.Some? ==> i <= q.value < |s| && s[q.value] == QUOTE
    decreases |s| - i
  {
    if At(s, i) == QUOTE then Some(i)
    else if At(s, i) == NUL then None
    else if At(s, i) == BACKSLASH then
      if At(s, i + 1) == NUL then None else Scan(s, i + 2)
    else Scan(s, i + 1)
  }

  // Bytes written by process_string and the offset it stopped at.
  datatype Decoded = Bad | Good(out: Text, stop: nat) {
    function After(prefix: Text): Decoded {
      match this
      case Bad => Bad
      case Good(out, stop) => Good(prefix + out, stop)
    }
  }

  // One turn of the loop of process_string at offset i: the bytes written and the next offset.
  function Step(s: Text, i: nat): (r: Option<(Text, nat)>)
    requires At(s, i) != NUL
    ensures r.Some? ==> i < r.value.1 <= |s|
  {
    if At(s, i) == BACKSLASH then
      if At(s, i + 1) == LOWER_U then
        match ParseUtf16(s, i + 1)
        case None => None
        case Some((c, next)) => Some((Encode(c), next))
      else if ShortEscape(At(s, i + 1)) != NUL then Some(([ShortEscape(At(s, i + 1))], i + 2))
      else None
    else if At(s, i) < 0x20 then None
    else Some(([At(s, i)], i + 1))
  }

  // The loop of process_string from offset i to offset end.
  function DecodeTo(s: Text, i: nat, end: nat): Decoded
    decreases |s| - i
  {
    if At(s, i) == NUL || i >= end then Good([], i)
    else
      match Step(s, i)
      case None => Bad
      case Some((bytes, next)) => DecodeTo(s, next, end).After(bytes)
  }

  // get_quoted_string with the cursor at offset i.
  function QuotedString(s: Text, i: nat): (r: Option<(Text, nat)>)
    ensures r.Some? ==> i < r.value.1 <= |s|
  {
    if At(s, i) != QUOTE then None
    else
      match Scan(s, i + 1)
      case None => None
      case Some(q) =>
        match DecodeTo(s, i + 1, q)
        case Bad => None
        case Good(out, _) => Some((out, q + 1))
  }

  // ---- The scanner and the decoder agree -------------------------------------------------------

  predicate Plain(c: byte) {
    c != NUL && c != QUOTE && c != BACKSLASH
  }

  lemma {:induction false} ScanPlain(s: Text, i: nat, j: nat)
    requires i <= j <= |s| && forall k | i <= k < j :: Plain(s[k])
    ensures Scan(s, i) == Scan(s, j)
    decreases j - i
  {
    if i < j {
      ScanPlain(s, i + 1, j);
    }
  }

  lemma HexIsPlain(s: Text, i: nat)
    requires ParseHex(s, i) != -1
    ensures forall k | i <= k < i + 4 :: Plain(s[k])
  {
    var h := s[i..i + 4];
    forall k | i <= k < i + 4
      ensures Plain(s[k])
    {
      assert h[k - i] == s[k];
    }
  }

  // The scanner moves over one step of the decoder without stopping inside it, and the step writes
  // no more bytes than it reads.
  lemma {:induction false} StepIsScanned(s: Text, i: nat)
    requires At(s, i) != NUL && At(s, i) != QUOTE && Step(s, i).Some?
    ensures var (bytes, next) := Step(s, i).value;
            Scan(s, i) == Scan(s, next) && 1 <= |bytes| <= next - i
  {
    if At(s, i) == BACKSLASH && At(s, i + 1) == LOWER_U {
      HexIsPlain(s, i + 2);
      ScanPlain(s, i + 2, i + 6);
      if IsLead(ParseHex(s, i + 2)) {
        HexIsPlain(s, i + 8);
        ScanPlain(s, i + 8, i + 12);
        assert Scan(s, i + 6) == Scan(s, i + 8);
      }
    }
  }

  /** Whenever the scanner finds the closing quote and decoding succeeds, the decoder has consumed
      exactly the bytes up to that quote and has written no more bytes than it read. */
  lemma {:induction false} ScannerAndDecoderAgree(s: Text, i: nat, q: nat)
    requires Scan(s, i) == Some(q) && DecodeTo(s, i, q).Good?
    ensures DecodeTo(s, i, q).stop == q
    ensures |DecodeTo(s, i, q).out| <= q - i
    decreases |s| - i
  {
    hide Step;
    if i < q {
      StepIsScanned(s, i);
      ScannerAndDecoderAgree(s, Step(s, i).value.1, q);
    }
  }

  // ---- The imperative decoder ------------------------------------------------------------------

  // The bytes parse_utf16 writes under its masks are those of the encoding: each mask only drops
  // bits that are zero in its case.
  lemma MaskedBytes(c: Scalar)
    ensures Encode(c) ==
            if c < 0x80 then [c]
            else if c < 0x800 then [c / 64 % 32 + 0xC0, c % 64 + 0x80]
            else if c < 0x10000 then [c / 64 / 64 % 16 + 0xE0, c / 64 % 64 + 0x80, c % 64 + 0x80]
            else [c / 64 / 64 / 64 % 8 + 0xF0, c / 64 / 64 % 64 + 0x80, c / 64 % 64 + 0x80, c % 64 + 0x80]
  {
  }

  // Writes the bytes of one code point and returns the offset of the last of them.
  method WriteCodePoint(c: Scalar, output: array<byte>, processed: nat) returns (last: nat)
    requires processed + |Encode(c)| <= output.Length
    modifies output
    ensures last + 1 == processed + |Encode(c)|
    ensures output[..last + 1] == old(output[..processed]) + Encode(c)
  {
    MaskedBytes(c);
    hide Encode;
    ghost var before := output[..processed];
    if c < 0x80 {
      output[processed] := c;
      last := processed;
    } else if c < 0x800 {
      output[processed] := c / 64 % 32 + 0xC0;
      output[processed + 1] := c % 64 + 0x80;
      last := processed + 1;
    } else if c < 0x10000 {
      output[processed] := c / 64 / 64 % 16 + 0xE0;
      output[processed + 1] := c / 64 % 64 + 0x80;
      output[processed + 2] := c % 64 + 0x80;
      last := processed + 2;
    } else {
      output[processed] := c / 64 / 64 / 64 % 8 + 0xF0;
      output[processed + 1] := c / 64 / 64 % 64 + 0x80;
      output[processed + 2] := c / 64 % 64 + 0x80;
      output[processed + 3] := c % 64 + 0x80;
      last := processed + 3;
    }
  }

  /** parse_utf16: writes the bytes of the escape at the end of output; on success both offsets are
      left on the last byte read and the last byte written, as the C pointers are. */
  method ParseUtf16Into(s: Text, unprocessed: nat, output: array<byte>, processed: nat)
    returns (ok: bool, lastRead: nat, lastWritten: nat)
    requires processed <= output.Length
    requires ParseUtf16(s, unprocessed).Some? ==>
               processed + |Encode(ParseUtf16(s, unprocessed).value.0)| <= output.Length
    modifies output
    ensures ok <==> ParseUtf16(s, unprocessed).Some?
    ensures ok ==>
              var (c, next) := ParseUtf16(s, unprocessed).value;
              && lastRead + 1 == next
              && lastWritten + 1 == processed + |Encode(c)|
              && output[..lastWritten + 1] == old(output[..processed]) + Encode(c)
  {
    hide Encode, ParseHex, HexValue, IsHex;
    lastRead, lastWritten := unprocessed + 1, processed;
    var cp := ParseHex(s, lastRead);
    if cp == -1 {
      return false, lastRead, lastWritten;
    }
    if IsLead(cp) {
      lastRead := lastRead + 4;
      if At(s, lastRead) != BACKSLASH || At(s, lastRead + 1) != LOWER_U {
        return false, lastRead, lastWritten;
      }
      lastRead := lastRead + 2;
      var trail := ParseHex(s, lastRead);
      if trail == -1 || trail < 0xDC00 || trail > 0xDFFF {
        return false, lastRead, lastWritten;
      }
      cp := (cp - 0xD800) % 0x400 * 0x400 + (trail - 0xDC00) % 0x400 + 0x10000;
    } else if 0xD800 <= cp <= 0xDFFF {
      return false, lastRead, lastWritten;
    }
    lastWritten := WriteCodePoint(cp, output, processed);
    lastRead := lastRead + 3;
    ok := true;
  }

  lemma AfterAfter(d: Decoded, a: Text, b: Text)
    ensures d.After(b).After(a) == d.After(a + b)
  {
    if d.Good? {
      assert a + (b + d.out) == (a + b) + d.out;
    }
  }

  /** process_string on the len bytes the scanner put between the quotes. The output buffer of
      len + 1 bytes is never overrun. */
  method ProcessString(s: Text, start: nat, len: nat) returns (r: Option<Text>)
    requires Scan(s, start) == Some(start + len)
    ensures r == match DecodeTo(s, start, start + len)
                 case Bad => None
                 case Good(out, _) => Some(out)
  {
    hide Encode, ParseUtf16, Scan;
    ghost var whole := DecodeTo(s, start, start + len);
    var output := new byte[len + 1];
    var input: nat, out: nat := start, 0;
    while At(s, input) != NUL && input - start < len
      invariant start <= input && out <= input - start <= len
      invariant Scan(s, input) == Some(start + len)
      invariant whole == DecodeTo(s, input, start + len).After(output[..out])
      decreases |s| - input
    {
      ghost var done, step := output[..out], Step(s, input);
      assert At(s, input) != QUOTE by { ScanStopsAtQuote(s, input); }
      if step.Some? {
        StepIsScanned(s, input);
        AfterAfter(DecodeTo(s, step.value.1, start + len), done, step.value.0);
      }
      if At(s, input) == BACKSLASH {
        var letter := At(s, input + 1);
        if letter == LOWER_U {
          var ok, lastRead, lastWritten := ParseUtf16Into(s, input + 1, output, out);
          if !ok {
            return None;
          }
          input, out := lastRead, lastWritten;
        } else if ShortEscape(letter) != NUL {
          output[out] := ShortEscape(letter);
          input := input + 1;
        } else {
          return None;
        }
      } else if At(s, input) < 0x20 {
        return None;
      } else {
        output[out] := At(s, input);
      }
      out := out + 1;
      input := input + 1;
      assert step.Some? && output[..out] == done + step.value.0;
    }
    assert output[..out] + [] == output[..out];
    r := Some(output[..out]);
    output[out] := NUL;
  }

  lemma ScanStopsAtQuote(s: Text, i: nat)
    ensures At(s, i) == QUOTE ==> Scan(s, i) == Some(i)
  {
  }
}
