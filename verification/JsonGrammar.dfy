/** What mrbgems/json-with-casing/src/parson.c accepts: exactly the texts of a grammar. */
module JsonGrammar {
  import opened Bytes
  import opened JsonStrings
  import opened JsonSpelling
  import opened Entries
  import opened JsonTree
  import opened JsonParser
  import JsonCursor
  import JsonSyntax

  // The grammar is that of RFC 8259 for strings, arrays, objects and the three names. White space is
  // that of the C locale, numbers are integers with any number of leading zeros, and a lone minus
  // sign is read as zero without being passed over.

  // ---- The grammar -----------------------------------------------------------------------------

  ghost predicate Gap(s: Text, i: nat, j: nat) {
    i <= j <= |s| && forall k | i <= k < j :: s[k] in {9, 10, 11, 12, 13, 32}
  }

  ghost predicate Word(s: Text, i: nat, j: nat, word: string)
    requires forall k | 0 <= k < |word| :: word[k] as int < 128
  {
    j == i + |word| <= |s| && s[i..j] == Ascii(word)
  }

  predicate Digit(c: byte) {
    '0' as int <= c <= '9' as int
  }

  function Decimal(t: Text): nat
    requires forall k | 0 <= k < |t| :: Digit(t[k])
  {
    if t == [] then 0
    else
      assert Digit(t[|t| - 1]);
      Decimal(t[..|t| - 1]) * 10 + (t[|t| - 1] - '0' as int)
  }

  // As many digits as there are, from i to j.
  ghost predicate Digits(s: Text, i: nat, j: nat) {
    i < j <= |s| && (forall k | i <= k < j :: Digit(s[k])) && (j < |s| ==> !Digit(s[j]))
  }

  // No fraction and no exponent.
  ghost predicate WholeAt(s: Text, j: nat) {
    j < |s| ==> s[j] != '.' as int && s[j] != 'e' as int && s[j] != 'E' as int
  }

  ghost predicate Number(s: Text, i: nat, j: nat, n: int) {
    && i < |s| && WholeAt(s, j)
    && if s[i] == '-' as int then
         (Digits(s, i + 1, j) && n == -(Decimal(s[i + 1..j]) as int))
         || (j == i && n == 0 && (i + 1 < |s| ==> !Digit(s[i + 1])))
       else Digits(s, i, j) && n == Decimal(s[i..j])
  }

  ghost predicate Quotes(s: Text, i: nat, j: nat, b: CString) {
    exists us :: LegalSpelling(us) && HasAt(s, i, Quoted(us)) && j == i + |Quoted(us)| && b == UpToNul(SpelledBytes(us))
  }

  ghost predicate Byte(s: Text, i: nat, c: char) {
    i < |s| && s[i] == c as int
  }

  // s[i..j] is a text of v.
  ghost predicate Spells(s: Text, i: nat, j: nat, v: Json)
    decreases v, 0
  {
    match v
    case Null => Word(s, i, j, "null")
    case Boolean(b) => if b then Word(s, i, j, "true") else Word(s, i, j, "false")
    case Fixed(n) => Number(s, i, j, n)
    case String(b) => Quotes(s, i, j, b)
    case Array(items) =>
      && Byte(s, i, '[')
      && if items == [] then j > 0 && Gap(s, i + 1, j - 1) && Byte(s, j - 1, ']') else Items(s, i + 1, j, items)
    case Object(members) =>
      && Byte(s, i, '{')
      && if members == [] then j > 0 && Gap(s, i + 1, j - 1) && Byte(s, j - 1, '}') else Members(s, i + 1, j, members)
  }

  // The items with commas between them, up to and including the closing bracket.
  ghost predicate Items(s: Text, i: nat, j: nat, items: seq<Json>)
    decreases items, 1
  {
    items != [] &&
    exists p: nat, q: nat, r: nat ::
      && Gap(s, i, p) && Spells(s, p, q, items[0]) && Gap(s, q, r)
      && if |items| == 1 then j == r + 1 && Byte(s, r, ']')
         else Byte(s, r, ',') && Items(s, r + 1, j, items[1..])
  }

  // A name, a colon and a value.
  ghost predicate Pair(s: Text, i: nat, j: nat, e: Entry<Json>)
    decreases e, 0
  {
    exists a: nat, b: nat, p: nat ::
      Quotes(s, i, a, e.name) && Gap(s, a, b) && Byte(s, b, ':') && Gap(s, b + 1, p) && Spells(s, p, j, e.value)
  }

  ghost predicate Members(s: Text, i: nat, j: nat, members: seq<Entry<Json>>)
    decreases members, 1
  {
    members != [] &&
    exists p: nat, q: nat, r: nat ::
      && Gap(s, i, p) && Pair(s, p, q, members[0]) && Gap(s, q, r)
      && if |members| == 1 then j == r + 1 && Byte(s, r, '}')
         else Byte(s, r, ',') && Members(s, r + 1, j, members[1..])
  }

  // ---- The parser's scans ----------------------------------------------------------------------

  lemma SkippedIsGap(s: Text, i: nat)
    requires i <= |s|
    ensures Gap(s, i, SkipSpace(s, i))
  {
    forall k | i <= k < SkipSpace(s, i)
      ensures s[k] in {9, 10, 11, 12, 13, 32}
    {
      assert IsSpace(At(s, k));
    }
  }

  lemma GapIsSkipped(s: Text, i: nat, p: nat)
    requires Gap(s, i, p) && !IsSpace(At(s, p))
    ensures SkipSpace(s, i) == p
  {
  }

  lemma {:induction false} DigitsAreDecimal(s: Text, i: nat, j: nat)
    requires i <= j <= |s| && forall k | i <= k < j :: Digit(s[k])
    ensures forall k | i <= k < j :: IsDigit(At(s, k))
    ensures DigitsValue(s, i, j) == Decimal(s[i..j])
    decreases j - i
  {
    if i < j {
      DigitsAreDecimal(s, i, j - 1);
      assert s[i..j][..j - i - 1] == s[i..j - 1] && s[i..j][j - i - 1] == s[j - 1];
    }
  }

  lemma DigitsEndAt(s: Text, i: nat)
    requires i <= |s|
    ensures var j := DigitsEnd(s, i);
            if i < |s| && Digit(s[i]) then Digits(s, i, j) else j == i
    ensures forall j | Digits(s, i, j) :: DigitsEnd(s, i) == j
  {
    var end := DigitsEnd(s, i);
    forall k | i <= k < end
      ensures Digit(s[k])
    {
      assert IsDigit(At(s, k));
    }
  }

  lemma WordsAreTokens(s: Text, i: nat)
    ensures HasAt(s, i, NULL_TOKEN) <==> Word(s, i, i + 4, "null")
    ensures HasAt(s, i, TRUE_TOKEN) <==> Word(s, i, i + 4, "true")
    ensures HasAt(s, i, FALSE_TOKEN) <==> Word(s, i, i + 5, "false")
  {
    assert NULL_TOKEN == Ascii("null") && TRUE_TOKEN == Ascii("true") && FALSE_TOKEN == Ascii("false");
  }

  lemma NumberIsRead(s: Text, i: nat, j: nat, n: int)
    requires i < |s| && (s[i] == MINUS || IsDigit(s[i]))
    ensures ReadInteger(s, i) == (n, j) && WholeAt(s, j) <==> Number(s, i, j, n)
  {
    hide DigitsEnd, DigitsValue, Decimal;
    var from := if s[i] == MINUS then i + 1 else i;
    var end := DigitsEnd(s, from);
    DigitsEndAt(s, from);
    if end > from {
      DigitsAreDecimal(s, from, end);
    }
  }

  lemma NumberIff(s: Text, i: nat, j: nat, n: int64)
    requires i < |s| && (s[i] == MINUS || IsDigit(s[i]))
    ensures ParseNumber(s, i) == Parsed(Fixed(n), j) <==> Number(s, i, j, n)
  {
    hide ReadInteger, Number;
    var (m, end) := ReadInteger(s, i);
    NumberIsRead(s, i, end, m);
    NumberIsRead(s, i, j, n);
  }

  /** strtod is called exactly where no integer of 64 bits stands without a fraction or an exponent. */
  lemma NeedsDoubleIff(s: Text, i: nat)
    requires i < |s| && (s[i] == '-' as int || '0' as int <= s[i] <= '9' as int)
    ensures ParseNumber(s, i) == NeedsDouble <==>
            forall n: int, j: nat | Number(s, i, j, n) :: !(-0x8000_0000_0000_0000 <= n <= 0x7FFF_FFFF_FFFF_FFFF)
  {
    hide ReadInteger, Number;
    var (m, end) := ReadInteger(s, i);
    NumberIsRead(s, i, end, m);
    forall n: int, j: nat | Number(s, i, j, n)
      ensures (n, j) == (m, end)
    {
      NumberIsRead(s, i, j, n);
    }
  }

  lemma QuotesIff(s: Text, i: nat, j: nat, b: CString)
    ensures ParseString(s, i) == Parsed(String(b), j) <==> Quotes(s, i, j, b)
  {
    hide QuotedString, LegalSpelling, SpelledBytes, Quoted;
    if ParseString(s, i) == Parsed(String(b), j) {
      var bytes := QuotedString(s, i).value.0;
      DecodedIffSpelled(s, i, bytes, j);
    }
    if Quotes(s, i, j, b) {
      var us :| LegalSpelling(us) && HasAt(s, i, Quoted(us)) && j == i + |Quoted(us)| && b == UpToNul(SpelledBytes(us));
      QuotedSpellingDecodes(s, i, us);
    }
  }

  lemma QuotesFit(s: Text, i: nat, j: nat, b: CString)
    requires Quotes(s, i, j, b)
    ensures i < j <= |s| && s[i] == QUOTE
  {
    hide LegalSpelling, SpelledBytes, SpelledText;
    var us :| LegalSpelling(us) && HasAt(s, i, Quoted(us)) && j == i + |Quoted(us)| && b == UpToNul(SpelledBytes(us));
    HasAtIndex(s, i, Quoted(us), 0);
  }

  // ---- What is accepted is a text of its value -------------------------------------------------

  lemma {:induction false} ParsedSpells(s: Text, i: nat, nesting: nat)
    requires i <= |s| && ParseValue(s, i, nesting).Parsed?
    ensures var r := ParseValue(s, i, nesting); Spells(s, SkipSpace(s, i), r.pos, r.value)
    decreases |s| - i, 1
  {
    hide SkipSpace, ParseObject, ParseArray, ParseString, ParseNumber, Number, Quotes, Items, Members, HasAt, Word;
    var p, r := SkipSpace(s, i), ParseValue(s, i, nesting);
    var c := At(s, p);
    if c == LBRACE {
      ParsedObject(s, p, nesting + 1);
    } else if c == LBRACKET {
      ParsedArray(s, p, nesting + 1);
    } else if c == QUOTE {
      StringParsed(s, p);
    } else if c == MINUS || IsDigit(c) {
      NumberParsed(s, p);
    } else {
      WordsAreTokens(s, p);
    }
  }

  lemma {:induction false} ParsedArray(s: Text, i: nat, nesting: nat)
    requires i < |s| && s[i] == LBRACKET && ParseArray(s, i, nesting).Parsed?
    ensures var r := ParseArray(s, i, nesting); Spells(s, i, r.pos, r.value)
    decreases |s| - i, 0
  {
    hide SkipSpace, ParseItems, Items, Gap;
    SkippedIsGap(s, i + 1);
    if At(s, SkipSpace(s, i + 1)) != RBRACKET {
      var items := ParsedItems(s, i + 1, nesting, []);
      assert [] + items == items;
      ItemsNotEmpty(s, i + 1, ParseArray(s, i, nesting).pos, items);
    }
  }

  lemma {:induction false} ParsedObject(s: Text, i: nat, nesting: nat)
    requires i < |s| && s[i] == LBRACE && ParseObject(s, i, nesting).Parsed?
    ensures var r := ParseObject(s, i, nesting); Spells(s, i, r.pos, r.value)
    decreases |s| - i, 0
  {
    hide SkipSpace, ParseMembers, Members, Gap;
    SkippedIsGap(s, i + 1);
    if At(s, SkipSpace(s, i + 1)) != RBRACE {
      var members := ParsedMembers(s, i + 1, nesting, []);
      assert [] + members == members;
      MembersNotEmpty(s, i + 1, ParseObject(s, i, nesting).pos, members);
    }
  }

  lemma ItemsNotEmpty(s: Text, i: nat, j: nat, items: seq<Json>)
    requires Items(s, i, j, items)
    ensures items != []
  {
  }

  lemma MembersNotEmpty(s: Text, i: nat, j: nat, members: seq<Entry<Json>>)
    requires Members(s, i, j, members)
    ensures members != []
  {
  }

  lemma StringParsed(s: Text, p: nat)
    requires ParseString(s, p).Parsed?
    ensures var r := ParseString(s, p); r.value.String? && Quotes(s, p, r.pos, r.value.s)
  {
    hide QuotedString, Quotes;
    var r := ParseString(s, p);
    QuotesIff(s, p, r.pos, r.value.s);
  }

  lemma NumberParsed(s: Text, p: nat)
    requires p < |s| && (s[p] == MINUS || IsDigit(s[p])) && ParseNumber(s, p).Parsed?
    ensures var r := ParseNumber(s, p); r.value.Fixed? && Number(s, p, r.pos, r.value.n)
  {
    hide ReadInteger, Number;
    var r := ParseNumber(s, p);
    NumberIff(s, p, r.pos, r.value.n);
  }

  lemma OneMoreItem(s: Text, i: nat, p: nat, q: nat, r: nat, j: nat, v: Json, rest: seq<Json>)
    requires Gap(s, i, p) && Spells(s, p, q, v) && Gap(s, q, r)
    requires if rest == [] then j == r + 1 && Byte(s, r, ']') else Byte(s, r, ',') && Items(s, r + 1, j, rest)
    ensures Items(s, i, j, [v] + rest)
  {
    hide Gap, Spells, Byte;
    var items := [v] + rest;
    assert items[0] == v && items[1..] == rest;
  }

  lemma {:induction false} ParsedItems(s: Text, i: nat, nesting: nat, done: seq<Json>) returns (items: seq<Json>)
    requires i <= |s| && ParseItems(s, SkipSpace(s, i), nesting, done).Parsed?
    ensures var r := ParseItems(s, SkipSpace(s, i), nesting, done);
            r.value == Array(done + items) && Items(s, i, r.pos, items)
    decreases |s| - i, 2
  {
    hide SkipSpace, ParseValue, ParseItems, Spells, Items, Gap;
    var p := SkipSpace(s, i);
    JsonCursor.ItemsTurn(s, p, nesting, done);
    SkippedIsGap(s, i);
    SkippedAgain(s, i);
    var v := ParseValue(s, p, nesting);
    ParsedSpells(s, p, nesting);
    var q := v.pos;
    var r := SkipSpace(s, q);
    SkippedIsGap(s, q);
    SkippedAgain(s, q);
    var rest: seq<Json> := [];
    if At(s, r) == COMMA {
      rest := ParsedItems(s, r + 1, nesting, done + [v.value]);
      ItemsNotEmpty(s, r + 1, ParseItems(s, p, nesting, done).pos, rest);
    }
    items := [v.value] + rest;
    assert done + [v.value] + rest == done + items;
    OneMoreItem(s, i, p, q, r, ParseItems(s, p, nesting, done).pos, v.value, rest);
  }

  lemma SkippedAgain(s: Text, i: nat)
    ensures SkipSpace(s, SkipSpace(s, i)) == SkipSpace(s, i)
  {
  }

  lemma {:induction false} ParsedPair(s: Text, i: nat, nesting: nat)
    requires i <= |s| && ParsePair(s, i, nesting).1.Parsed?
    ensures var (name, r) := ParsePair(s, i, nesting); Pair(s, i, r.pos, Entry(name, r.value))
    decreases |s| - i, 1
  {
    hide SkipSpace, ParseValue, Spells, Quotes, QuotedString;
    var (key, afterKey) := QuotedString(s, i).value;
    var colon := SkipSpace(s, afterKey);
    QuotesIff(s, i, afterKey, UpToNul(key));
    SkippedIsGap(s, afterKey);
    SkippedIsGap(s, colon + 1);
    ParsedSpells(s, colon + 1, nesting);
  }

  lemma OneMoreMember(s: Text, i: nat, p: nat, q: nat, r: nat, j: nat, e: Entry<Json>, rest: seq<Entry<Json>>)
    requires Gap(s, i, p) && Pair(s, p, q, e) && Gap(s, q, r)
    requires if rest == [] then j == r + 1 && Byte(s, r, '}') else Byte(s, r, ',') && Members(s, r + 1, j, rest)
    ensures Members(s, i, j, [e] + rest)
  {
    hide Gap, Pair, Byte;
    var members := [e] + rest;
    assert members[0] == e && members[1..] == rest;
  }

  lemma {:induction false} ParsedMembers(s: Text, i: nat, nesting: nat, done: seq<Entry<Json>>)
    returns (members: seq<Entry<Json>>)
    requires i <= |s| && ParseMembers(s, SkipSpace(s, i), nesting, done).Parsed?
    ensures var r := ParseMembers(s, SkipSpace(s, i), nesting, done);
            r.value == Object(done + members) && Members(s, i, r.pos, members)
    decreases |s| - i, 2
  {
    hide SkipSpace, ParsePair, ParseMembers, Pair, Members, Gap, Find;
    var p := SkipSpace(s, i);
    JsonCursor.MembersTurn(s, p, nesting, done);
    SkippedIsGap(s, i);
    SkippedAgain(s, i);
    var (name, v) := ParsePair(s, p, nesting);
    ParsedPair(s, p, nesting);
    var e := Entry(name, v.value);
    var q := v.pos;
    var r := SkipSpace(s, q);
    SkippedIsGap(s, q);
    SkippedAgain(s, q);
    var rest: seq<Entry<Json>> := [];
    if At(s, r) == COMMA {
      rest := ParsedMembers(s, r + 1, nesting, done + [e]);
      MembersNotEmpty(s, r + 1, ParseMembers(s, p, nesting, done).pos, rest);
    }
    members := [e] + rest;
    assert done + [e] + rest == done + members;
    OneMoreMember(s, i, p, q, r, ParseMembers(s, p, nesting, done).pos, e, rest);
  }

  // ---- Every text of a value is accepted -------------------------------------------------------

  lemma FirstOfWord(s: Text, i: nat, j: nat, word: string)
    requires word != "" && (forall k | 0 <= k < |word| :: word[k] as int < 128) && Word(s, i, j, word)
    ensures i < |s| && s[i] == word[0] as int
  {
    assert s[i..j][0] == Ascii(word)[0];
  }

  lemma SpellsStarts(s: Text, i: nat, j: nat, v: Json)
    requires Spells(s, i, j, v)
    ensures i < |s| && !IsSpace(s[i]) && s[i] != RBRACKET && s[i] != RBRACE && s[i] != NUL
    ensures v.Null? ==> s[i] == LOWER_N
    ensures v.Boolean? ==> s[i] == if v.b then LOWER_T else LOWER_F
    ensures v.Fixed? ==> s[i] == MINUS || IsDigit(s[i])
    ensures v.String? ==> s[i] == QUOTE
    ensures v.Array? ==> s[i] == LBRACKET
    ensures v.Object? ==> s[i] == LBRACE
  {
    hide Quotes, Decimal, Items, Members, Word;
    match v
    case Null => FirstOfWord(s, i, j, "null");
    case Boolean(b) => FirstOfWord(s, i, j, if b then "true" else "false");
    case String(b) => QuotesFit(s, i, j, b);
    case _ =>
  }

  lemma {:induction false} SpellsFits(s: Text, i: nat, j: nat, v: Json)
    requires Spells(s, i, j, v)
    ensures i <= j <= |s|
    decreases v, 0
  {
    hide Quotes, Decimal, Items, Members, Word;
    match v
    case Null => WordFits(s, i, j, "null");
    case Boolean(b) => WordFits(s, i, j, if b then "true" else "false");
    case String(b) => QuotesFit(s, i, j, b);
    case Array(items) => if items != [] { ItemsFit(s, i + 1, j, items); }
    case Object(members) => if members != [] { MembersFit(s, i + 1, j, members); }
    case _ =>
  }

  lemma WordFits(s: Text, i: nat, j: nat, word: string)
    requires (forall k | 0 <= k < |word| :: word[k] as int < 128) && Word(s, i, j, word)
    ensures i <= j <= |s|
  {
  }

  lemma {:induction false} ItemsFit(s: Text, i: nat, j: nat, items: seq<Json>)
    requires Items(s, i, j, items)
    ensures i <= j <= |s|
    decreases items, 1
  {
    hide Spells;
    var p: nat, q: nat, r: nat :|
      Gap(s, i, p) && Spells(s, p, q, items[0]) && Gap(s, q, r)
      && if |items| == 1 then j == r + 1 && Byte(s, r, ']')
         else Byte(s, r, ',') && Items(s, r + 1, j, items[1..]);
    SpellsFits(s, p, q, items[0]);
    if |items| > 1 {
      ItemsFit(s, r + 1, j, items[1..]);
    }
  }

  lemma {:induction false} PairFits(s: Text, i: nat, j: nat, e: Entry<Json>)
    requires Pair(s, i, j, e)
    ensures i < j <= |s| && s[i] == QUOTE
    decreases e, 0
  {
    hide Spells, Quotes;
    var a: nat, b: nat, p: nat :|
      Quotes(s, i, a, e.name) && Gap(s, a, b) && Byte(s, b, ':') && Gap(s, b + 1, p) && Spells(s, p, j, e.value);
    QuotesFit(s, i, a, e.name);
    SpellsFits(s, p, j, e.value);
  }

  lemma {:induction false} MembersFit(s: Text, i: nat, j: nat, members: seq<Entry<Json>>)
    requires Members(s, i, j, members)
    ensures i <= j <= |s|
    decreases members, 1
  {
    hide Pair;
    var p: nat, q: nat, r: nat :|
      Gap(s, i, p) && Pair(s, p, q, members[0]) && Gap(s, q, r)
      && if |members| == 1 then j == r + 1 && Byte(s, r, '}')
         else Byte(s, r, ',') && Members(s, r + 1, j, members[1..]);
    PairFits(s, p, q, members[0]);
    if |members| > 1 {
      MembersFit(s, r + 1, j, members[1..]);
    }
  }

  ghost predicate Fine(v: Json, nesting: nat) {
    DistinctNames(v) && DepthAtMost(v, MAX_NESTING - nesting)
  }

  lemma FineLevel(v: Json, nesting: nat)
    requires Fine(v, nesting)
    ensures nesting <= MAX_NESTING
  {
  }

  lemma {:induction false} SpelledIsParsed(s: Text, i: nat, j: nat, v: Json, nesting: nat)
    requires Spells(s, i, j, v) && Fine(v, nesting)
    ensures i <= |s| && ParseValue(s, i, nesting) == Parsed(v, j)
    decreases v, 0
  {
    SpellsStarts(s, i, j, v);
    FineLevel(v, nesting);
    GapIsSkipped(s, i, i);
    hide SkipSpace, ParseObject, ParseArray, ParseString, ParseNumber, Number, Quotes, Items, Members, HasAt, Word;
    match v
    case String(b) => QuotesIff(s, i, j, b);
    case Fixed(n) => NumberIff(s, i, j, n);
    case Array(items) => SpelledArrayIsParsed(s, i, j, items, nesting + 1);
    case Object(members) => SpelledObjectIsParsed(s, i, j, members, nesting + 1);
    case Boolean(b) =>
      WordsAreTokens(s, i);
      if !b {
        NotTrue(s, i);
        WordEnds(s, i, j, "false");
      } else {
        WordEnds(s, i, j, "true");
      }
    case Null =>
      WordsAreTokens(s, i);
      WordEnds(s, i, j, "null");
  }

  lemma WordEnds(s: Text, i: nat, j: nat, word: string)
    requires (forall k | 0 <= k < |word| :: word[k] as int < 128) && Word(s, i, j, word)
    ensures j == i + |word|
  {
  }

  lemma NotTrue(s: Text, i: nat)
    requires i < |s| && s[i] == LOWER_F
    ensures !HasAt(s, i, TRUE_TOKEN)
  {
    if HasAt(s, i, TRUE_TOKEN) {
      HasAtIndex(s, i, TRUE_TOKEN, 0);
    }
  }

  lemma {:induction false} SpelledArrayIsParsed(s: Text, i: nat, j: nat, items: seq<Json>, nesting: nat)
    requires Spells(s, i, j, Array(items)) && nesting > 0 && Fine(Array(items), nesting - 1)
    ensures i < |s| && ParseArray(s, i, nesting) == Parsed(Array(items), j)
    decreases items, 2
  {
    if items == [] {
      GapIsSkipped(s, i + 1, j - 1);
    } else {
      forall k | 0 <= k < |items|
        ensures Fine(items[k], nesting)
      {
        assert DistinctNames(Array(items).items[k]);
      }
      hide SkipSpace, ParseItems, Items, Gap;
      ItemsAreParsed(s, i + 1, j, items, nesting, []);
      assert [] + items == items;
    }
  }

  lemma {:induction false} ItemsAreParsed(s: Text, i: nat, j: nat, items: seq<Json>, nesting: nat, done: seq<Json>)
    requires Items(s, i, j, items) && forall k | 0 <= k < |items| :: Fine(items[k], nesting)
    ensures i <= |s|
    ensures var p := SkipSpace(s, i);
            At(s, p) != RBRACKET && ParseItems(s, p, nesting, done) == Parsed(Array(done + items), j)
    decreases items, 1
  {
    hide SkipSpace, ParseItems, ParseValue, Spells, Fine, Gap;
    var p: nat, q: nat, r: nat :|
      Gap(s, i, p) && Spells(s, p, q, items[0]) && Gap(s, q, r)
      && if |items| == 1 then j == r + 1 && Byte(s, r, ']')
         else Byte(s, r, ',') && Items(s, r + 1, j, items[1..]);
    SpellsStarts(s, p, q, items[0]);
    GapFits(s, i, p);
    GapIsSkipped(s, i, p);
    SpelledIsParsed(s, p, q, items[0], nesting);
    GapIsSkipped(s, q, r);
    JsonCursor.ItemsTurn(s, p, nesting, done);
    var rest := items[1..];
    if |items| == 1 {
      JsonSyntax.ArrayCloses(s, r, done + [items[0]]);
      assert items == [items[0]];
    } else {
      ItemsAreParsed(s, r + 1, j, rest, nesting, done + [items[0]]);
      assert (done + [items[0]]) + rest == done + items;
    }
  }

  lemma GapFits(s: Text, i: nat, j: nat)
    requires Gap(s, i, j)
    ensures i <= j <= |s|
  {
  }

  lemma MembersAreFine(members: seq<Entry<Json>>, nesting: nat)
    requires nesting > 0 && Fine(Object(members), nesting - 1)
    ensures Distinct(members) && forall k | 0 <= k < |members| :: Fine(members[k].value, nesting)
  {
    hide Distinct;
    forall k | 0 <= k < |members|
      ensures Fine(members[k].value, nesting)
    {
      assert DistinctNames(Object(members).members[k].value);
    }
  }

  lemma {:induction false} SpelledObjectIsParsed(s: Text, i: nat, j: nat, members: seq<Entry<Json>>, nesting: nat)
    requires Spells(s, i, j, Object(members)) && nesting > 0 && Fine(Object(members), nesting - 1)
    ensures i < |s| && ParseObject(s, i, nesting) == Parsed(Object(members), j)
    decreases members, 2
  {
    hide SkipSpace, ParseMembers, Members, Fine, Distinct;
    if members == [] {
      GapIsSkipped(s, i + 1, j - 1);
    } else {
      MembersAreFine(members, nesting);
      assert [] + members == members;
      MembersAreParsed(s, i + 1, j, members, nesting, []);
    }
  }

  lemma {:induction false} PairIsParsed(s: Text, i: nat, j: nat, e: Entry<Json>, nesting: nat)
    requires Pair(s, i, j, e) && Fine(e.value, nesting)
    ensures i <= |s| && ParsePair(s, i, nesting) == (e.name, Parsed(e.value, j))
    decreases e, 0
  {
    hide SkipSpace, ParseValue, Spells, Fine, Gap, Quotes, QuotedString;
    var a: nat, b: nat, p: nat :|
      Quotes(s, i, a, e.name) && Gap(s, a, b) && Byte(s, b, ':') && Gap(s, b + 1, p) && Spells(s, p, j, e.value);
    QuotesFit(s, i, a, e.name);
    QuotesIff(s, i, a, e.name);
    GapIsSkipped(s, a, b);
    SpellsStarts(s, p, j, e.value);
    GapIsSkipped(s, b + 1, p);
    SpelledIsParsed(s, p, j, e.value, nesting);
    SpaceFirst(s, b + 1, nesting);
  }

  lemma SpaceFirst(s: Text, i: nat, nesting: nat)
    requires i <= |s|
    ensures ParseValue(s, i, nesting) == ParseValue(s, SkipSpace(s, i), nesting)
  {
    hide ParseObject, ParseArray, ParseString, ParseNumber, ParseBoolean, ParseToken;
  }

  lemma {:induction false} MembersAreParsed(s: Text, i: nat, j: nat, members: seq<Entry<Json>>, nesting: nat,
                                            done: seq<Entry<Json>>)
    requires Members(s, i, j, members) && Distinct(done + members)
    requires forall k | 0 <= k < |members| :: Fine(members[k].value, nesting)
    ensures i <= |s|
    ensures var p := SkipSpace(s, i);
            At(s, p) != RBRACE && ParseMembers(s, p, nesting, done) == Parsed(Object(done + members), j)
    decreases members, 1
  {
    hide SkipSpace, ParseMembers, ParsePair, Pair, Fine, Gap, Distinct, Has;
    var p: nat, q: nat, r: nat :|
      Gap(s, i, p) && Pair(s, p, q, members[0]) && Gap(s, q, r)
      && if |members| == 1 then j == r + 1 && Byte(s, r, '}')
         else Byte(s, r, ',') && Members(s, r + 1, j, members[1..]);
    var e, rest := members[0], members[1..];
    PairFits(s, p, q, e);
    GapFits(s, i, p);
    GapIsSkipped(s, i, p);
    PairIsParsed(s, p, q, e, nesting);
    GapIsSkipped(s, q, r);
    JsonCursor.MembersTurn(s, p, nesting, done);
    assert (done + [e]) + rest == done + members;
    JsonSyntax.NewNameIsAbsent(done, e, rest);
    if |members| == 1 {
      JsonSyntax.ObjectCloses(s, r, done + [e]);
      assert members == [e];
    } else {
      MembersAreParsed(s, r + 1, j, rest, nesting, done + [e]);
    }
  }

  /** The parser accepts v at an offset exactly when, behind white space, a text of v stands there, no
      object in v repeats a name, and v is no deeper than 2048 levels allow; and it stops behind
      that text. */
  lemma {:induction false} AcceptedIffSpelled(s: Text, i: nat, nesting: nat, v: Json, j: nat)
    requires i <= |s|
    ensures ParseValue(s, i, nesting) == Parsed(v, j) <==>
            DistinctNames(v) && DepthAtMost(v, 2048 - nesting) && exists p: nat :: Gap(s, i, p) && Spells(s, p, j, v)
  {
    hide ParseValue, Spells, DistinctNames, DepthAtMost, SkipSpace, Gap;
    if ParseValue(s, i, nesting) == Parsed(v, j) {
      ParsedValueIsNormal(s, i, nesting);
      ParsedSpells(s, i, nesting);
      SkippedIsGap(s, i);
    }
    if DistinctNames(v) && DepthAtMost(v, 2048 - nesting) && exists p: nat :: Gap(s, i, p) && Spells(s, p, j, v) {
      var p: nat :| Gap(s, i, p) && Spells(s, p, j, v);
      SpelledIsParsed(s, p, j, v, nesting);
      SpellsStarts(s, p, j, v);
      GapIsSkipped(s, i, p);
      SpaceFirst(s, i, nesting);
    }
  }

  /** json_parse_string accepts v exactly when a text of v in that grammar, behind an optional UTF-8 byte
      order mark and white space, starts the string; what follows the text does not matter. */
  lemma {:induction false} WholeTextAcceptedIffSpelled(s: Text, v: Json, j: nat)
    ensures var start := if |s| >= 3 && s[..3] == [0xEF, 0xBB, 0xBF] then 3 else 0;
            ParseText(s) == Parsed(v, j) <==>
            DistinctNames(v) && DepthAtMost(v, 2048) && exists p: nat :: Gap(s, start, p) && Spells(s, p, j, v)
  {
    hide ParseValue, Spells, DistinctNames, DepthAtMost, Gap;
    assert s[0..] == s;
    AcceptedIffSpelled(s, if HasAt(s, 0, BYTE_ORDER_MARK) then 3 else 0, 0, v, j);
  }
}
