/** Texts of a JSON value, and how mrbgems/json-with-casing/src/parson.c reads them. */
module JsonSyntax {
  import opened Bytes
  import opened JsonStrings
  import opened JsonSpelling
  import opened Entries
  import opened JsonTree
  import opened JsonParser

  // Every choice of layout and spelling is a text of the value, and the parser reads each of them as
  // that value. The printers and the comment remover are related to this grammar, so the parser is
  // reasoned about once.

  // ---- Numbers ---------------------------------------------------------------------------------

  function DecimalText(n: nat): (t: Text)
    ensures |t| >= 1
  {
    if n < 10 then [DIGIT_0 + n] else DecimalText(n / 10) + [DIGIT_0 + n % 10]
  }

  // sprintf with FIXED_FORMAT, and to_s on a Ruby integer.
  function NumberText(n: int): (t: Text)
    ensures |t| >= 1
  {
    if n < 0 then [MINUS] + DecimalText(-n) else DecimalText(n)
  }

  lemma {:induction false} DecimalIsDigits(n: nat)
    ensures forall k | 0 <= k < |DecimalText(n)| :: IsDigit(DecimalText(n)[k])
  {
    if n >= 10 {
      DecimalIsDigits(n / 10);
    }
  }

  lemma DigitsEndAt(s: Text, i: nat, j: nat)
    requires i <= j && (forall k | i <= k < j :: IsDigit(At(s, k))) && !IsDigit(At(s, j))
    ensures DigitsEnd(s, i) == j
  {
  }

  lemma {:induction false} DecimalIsRead(s: Text, i: nat, n: nat)
    requires HasAt(s, i, DecimalText(n))
    ensures forall k | i <= k < i + |DecimalText(n)| :: IsDigit(At(s, k))
    ensures DigitsValue(s, i, i + |DecimalText(n)|) == n
  {
    var t := DecimalText(n);
    DecimalIsDigits(n);
    forall k | i <= k < i + |t|
      ensures IsDigit(At(s, k))
    {
      HasAtIndex(s, i, t, k - i);
    }
    if n < 10 {
      HasAtIndex(s, i, t, 0);
      assert DigitsValue(s, i, i) == 0;
    } else {
      HasAtConcat(s, i, DecimalText(n / 10), [DIGIT_0 + n % 10]);
      HasAtIndex(s, i, t, |t| - 1);
      DecimalIsRead(s, i, n / 10);
    }
  }

  // Bytes that cannot continue a number.
  predicate Delimits(c: byte) {
    !IsDigit(c) && c != DOT && c != LOWER_E && c != UPPER_E
  }

  lemma {:induction false} NumberIsParsed(s: Text, i: nat, n: int64)
    requires HasAt(s, i, NumberText(n)) && Delimits(At(s, i + |NumberText(n)|))
    ensures ParseNumber(s, i) == Parsed(Fixed(n), i + |NumberText(n)|)
    ensures At(s, i) == MINUS || IsDigit(At(s, i))
  {
    if n < 0 {
      var magnitude: int := -(n as int);
      HasAtHead(s, i, MINUS, DecimalText(magnitude));
      DecimalIsRead(s, i + 1, magnitude);
      DigitsEndAt(s, i + 1, i + |NumberText(n)|);
    } else {
      DecimalIsRead(s, i, n);
      assert IsDigit(At(s, i));
      DigitsEndAt(s, i, i + |NumberText(n)|);
    }
  }

  // ---- Concrete syntax -------------------------------------------------------------------------

  // What may stand between two tokens: white space, and block and line comments for the parser variant
  // that removes them.
  datatype Trivia = Space(b: byte) | Comment(body: Text) | LineComment(body: Text)

  type Gap = seq<Trivia>

  datatype Doc =
    | Leaf(v: Json)
    | Quote(us: Spelling)
    | ArrayOf(inner: Gap, items: seq<Piece>)
    | ObjectOf(inner: Gap, fields: seq<Field>)

  datatype Piece = Piece(before: Gap, doc: Doc, after: Gap)

  datatype Field = Field(before: Gap, key: Spelling, beforeColon: Gap, value: Piece)

  function TriviaText(t: Trivia): Text {
    match t
    case Space(b) => [b]
    case Comment(body) => [47, 42] + body + [42, 47]
    case LineComment(body) => [47, 47] + body + [10]
  }

  function GapText(g: Gap): Text {
    if g == [] then [] else TriviaText(g[0]) + GapText(g[1..])
  }

  function LeafText(v: Json): Text {
    match v
    case Null => NULL_TOKEN
    case Boolean(b) => if b then TRUE_TOKEN else FALSE_TOKEN
    case Fixed(n) => NumberText(n)
    case _ => []
  }

  function DocText(d: Doc): Text
    decreases d
  {
    match d
    case Leaf(v) => LeafText(v)
    case Quote(us) => Quoted(us)
    case ArrayOf(inner, items) =>
      [LBRACKET] + (if items == [] then GapText(inner) else ItemsText(items)) + [RBRACKET]
    case ObjectOf(inner, fields) =>
      [LBRACE] + (if fields == [] then GapText(inner) else FieldsText(fields)) + [RBRACE]
  }

  function PieceText(p: Piece): Text
    decreases p
  {
    GapText(p.before) + DocText(p.doc) + GapText(p.after)
  }

  function ItemsText(items: seq<Piece>): Text
    decreases items
  {
    if items == [] then []
    else PieceText(items[0]) + (if |items| == 1 then [] else [COMMA] + ItemsText(items[1..]))
  }

  function FieldText(f: Field): Text
    decreases f
  {
    GapText(f.before) + Quoted(f.key) + GapText(f.beforeColon) + [COLON] + PieceText(f.value)
  }

  function FieldsText(fields: seq<Field>): Text
    decreases fields
  {
    if fields == [] then []
    else FieldText(fields[0]) + (if |fields| == 1 then [] else [COMMA] + FieldsText(fields[1..]))
  }

  // A gap of white space only.
  predicate Blank(g: Gap) {
    forall k | 0 <= k < |g| :: g[k].Space? && g[k].b in {9, 10, 11, 12, 13, 32}
  }

  predicate LegalLeaf(v: Json) {
    v.Null? || v.Boolean? || v.Fixed?
  }

  predicate Legal(d: Doc)
    decreases d
  {
    match d
    case Leaf(v) => LegalLeaf(v)
    case Quote(us) => LegalSpelling(us)
    case ArrayOf(inner, items) => Blank(inner) && LegalItems(items)
    case ObjectOf(inner, fields) => Blank(inner) && LegalFields(fields)
  }

  predicate LegalPiece(p: Piece)
    decreases p
  {
    Blank(p.before) && Legal(p.doc) && Blank(p.after)
  }

  predicate LegalItems(items: seq<Piece>)
    decreases items
  {
    items == [] || (LegalPiece(items[0]) && LegalItems(items[1..]))
  }

  predicate LegalKey(f: Field) {
    Blank(f.before) && LegalSpelling(f.key) && Blank(f.beforeColon)
  }

  predicate LegalField(f: Field)
    decreases f
  {
    LegalKey(f) && LegalPiece(f.value)
  }

  predicate LegalFields(fields: seq<Field>)
    decreases fields
  {
    fields == [] || (LegalField(fields[0]) && LegalFields(fields[1..]))
  }

  // The value a text stands for.
  function Value(d: Doc): Json
    requires Legal(d)
    decreases d
  {
    match d
    case Leaf(v) => v
    case Quote(us) => String(UpToNul(SpelledBytes(us)))
    case ArrayOf(_, items) => Array(ItemValues(items))
    case ObjectOf(_, fields) => Object(FieldEntries(fields))
  }

  function ItemValues(items: seq<Piece>): (vs: seq<Json>)
    requires LegalItems(items)
    ensures |vs| == |items|
    decreases items
  {
    if items == [] then []
    else
      assert LegalPiece(items[0]);
      [Value(items[0].doc)] + ItemValues(items[1..])
  }

  function NameOf(f: Field): CString
    requires LegalKey(f)
  {
    UpToNul(SpelledBytes(f.key))
  }

  function FieldEntry(f: Field): Entry<Json>
    requires LegalField(f)
    decreases f
  {
    assert LegalPiece(f.value);
    Entry(NameOf(f), Value(f.value.doc))
  }

  function FieldEntries(fields: seq<Field>): (es: seq<Entry<Json>>)
    requires LegalFields(fields)
    ensures |es| == |fields|
    decreases fields
  {
    if fields == [] then [] else [FieldEntry(fields[0])] + FieldEntries(fields[1..])
  }

  lemma ItemsCons(p: Piece, rest: seq<Piece>)
    requires LegalPiece(p) && LegalItems(rest)
    ensures LegalItems([p] + rest) && Legal(p.doc)
    ensures ItemValues([p] + rest) == [Value(p.doc)] + ItemValues(rest)
    ensures ItemsText([p] + rest) == PieceText(p) + (if rest == [] then [] else [COMMA] + ItemsText(rest))
  {
    hide Value, PieceText, DocText, GapText, Blank;
    assert ([p] + rest)[1..] == rest;
  }

  lemma FieldsCons(f: Field, rest: seq<Field>)
    requires LegalField(f) && LegalFields(rest)
    ensures LegalFields([f] + rest)
    ensures FieldEntries([f] + rest) == [FieldEntry(f)] + FieldEntries(rest)
    ensures FieldsText([f] + rest) == FieldText(f) + (if rest == [] then [] else [COMMA] + FieldsText(rest))
  {
    hide Value, FieldText, DocText, GapText, Blank, FieldEntry, LegalPiece, LegalSpelling;
    assert ([f] + rest)[1..] == rest;
  }

  // ---- The parser reads every text as its value ------------------------------------------------

  lemma {:induction false} BlankText(g: Gap)
    requires Blank(g)
    ensures |GapText(g)| == |g|
    ensures forall k | 0 <= k < |g| :: IsSpace(GapText(g)[k])
  {
    if g != [] {
      BlankText(g[1..]);
    }
  }

  lemma SkipRun(s: Text, i: nat, j: nat)
    requires i <= j && (forall k | i <= k < j :: IsSpace(At(s, k))) && !IsSpace(At(s, j))
    ensures SkipSpace(s, i) == j
  {
  }

  lemma SkipGap(s: Text, i: nat, g: Gap)
    requires Blank(g) && HasAt(s, i, GapText(g)) && !IsSpace(At(s, i + |GapText(g)|))
    ensures SkipSpace(s, i) == i + |GapText(g)|
  {
    BlankText(g);
    forall k | i <= k < i + |g|
      ensures IsSpace(At(s, k))
    {
      HasAtIndex(s, i, GapText(g), k - i);
    }
    SkipRun(s, i, i + |g|);
  }

  // The byte after a gap's first byte, or after nothing, cannot continue a number.
  lemma GapDelimits(s: Text, i: nat, g: Gap)
    requires Blank(g) && HasAt(s, i, GapText(g)) && Delimits(At(s, i + |GapText(g)|))
    ensures Delimits(At(s, i))
  {
    BlankText(g);
    if g != [] {
      HasAtIndex(s, i, GapText(g), 0);
    }
  }

  // A text starts with the byte that tells the parser what it is.
  predicate StartsLike(d: Doc, c: byte) {
    match d
    case Leaf(Null) => c == LOWER_N
    case Leaf(Boolean(b)) => c == if b then LOWER_T else LOWER_F
    case Leaf(_) => c == MINUS || IsDigit(c)
    case Quote(_) => c == QUOTE
    case ArrayOf(_, _) => c == LBRACKET
    case ObjectOf(_, _) => c == LBRACE
  }

  lemma StartOfText(s: Text, i: nat, d: Doc)
    requires (d.Leaf? ==> LegalLeaf(d.v)) && HasAt(s, i, DocText(d))
    ensures i < |s| && StartsLike(d, s[i]) && SkipSpace(s, i) == i
  {
    var t := DocText(d);
    if d.Leaf? && d.v.Fixed? && d.v.n >= 0 {
      DecimalIsDigits(d.v.n);
    }
    assert |t| > 0;
    HasAtIndex(s, i, t, 0);
  }

  // What follows a text can only belong to it if it ends in digits.
  predicate Ends(d: Doc, c: byte) {
    d.Leaf? && d.v.Fixed? ==> Delimits(c)
  }

  // Everything a layout-independent parse of d at offset i promises.
  ghost predicate Reads(s: Text, i: nat, d: Doc, nesting: nat)
    requires Legal(d) && i <= |s|
  {
    ParseValue(s, i, nesting) == Parsed(Value(d), i + |DocText(d)|)
  }

  ghost predicate Parseable(v: Json, nesting: nat) {
    DistinctNames(v) && DepthAtMost(v, MAX_NESTING - nesting)
  }

  lemma LevelLeft(v: Json, nesting: nat)
    requires Parseable(v, nesting)
    ensures nesting <= MAX_NESTING
  {
  }

  lemma LeafIsRead(s: Text, i: nat, d: Doc, nesting: nat)
    requires Legal(d) && (d.Leaf? || d.Quote?) && nesting <= MAX_NESTING
    requires HasAt(s, i, DocText(d)) && Ends(d, At(s, i + |DocText(d)|))
    ensures i <= |s| && Reads(s, i, d, nesting)
  {
    hide QuotedString, SpelledBytes, NumberText, ParseNumber, Quoted;
    StartOfText(s, i, d);
    match d
    case Quote(us) => QuotedSpellingDecodes(s, i, us);
    case Leaf(v) =>
      if v.Fixed? {
        NumberIsParsed(s, i, v.n);
      } else if v == Boolean(false) {
        assert !HasAt(s, i, TRUE_TOKEN) by {
          if HasAt(s, i, TRUE_TOKEN) {
            HasAtIndex(s, i, TRUE_TOKEN, 0);
          }
        }
      }
  }

  /** Wherever a legal text of a value with distinct names and bounded depth stands, and whatever
      follows that does not continue a number, the parser returns that value and stops right after
      the text. */
  lemma {:induction false} TextIsRead(s: Text, i: nat, d: Doc, nesting: nat)
    requires Legal(d) && Parseable(Value(d), nesting)
    requires HasAt(s, i, DocText(d)) && Ends(d, At(s, i + |DocText(d)|))
    ensures i <= |s| && Reads(s, i, d, nesting)
    decreases d
  {
    hide Value, Parseable, HasAt, DocText, Ends, ParseValue;
    LevelLeft(Value(d), nesting);
    match d {
      case Leaf(v) => LeafIsRead(s, i, d, nesting);
      case Quote(us) => LeafIsRead(s, i, d, nesting);
      case ArrayOf(inner, items) => ArrayIsRead(s, i, d, nesting);
      case ObjectOf(inner, fields) => ObjectIsRead(s, i, d, nesting);
    }
  }

  // A value with its surrounding gaps, read from either end of the gap before it.
  ghost predicate PieceRead(s: Text, i: nat, p: Piece, nesting: nat)
    requires LegalPiece(p) && i <= |s|
  {
    var start, r := SkipSpace(s, i), ParseValue(s, i, nesting);
    && StartsLike(p.doc, At(s, start))
    && ParseValue(s, start, nesting) == r
    && r.Parsed? && r.value == Value(p.doc)
    && SkipSpace(s, r.pos) == i + |PieceText(p)|
  }

  lemma SpaceIsSkippedFirst(s: Text, i: nat, nesting: nat)
    requires i <= |s|
    ensures ParseValue(s, i, nesting) == ParseValue(s, SkipSpace(s, i), nesting)
  {
    hide ParseObject, ParseArray, ParseString, ParseNumber, ParseBoolean, ParseToken;
  }

  lemma {:induction false} PieceIsRead(s: Text, i: nat, p: Piece, nesting: nat)
    requires LegalPiece(p) && Parseable(Value(p.doc), nesting)
    requires HasAt(s, i, PieceText(p))
    requires var c := At(s, i + |PieceText(p)|); Delimits(c) && !IsSpace(c)
    ensures i <= |s| && PieceRead(s, i, p, nesting)
    decreases p
  {
    hide ParseValue, HasAt, DocText, GapText, Value, Parseable, SkipSpace, Blank;
    HasAtFits(s, i, PieceText(p));
    HasAtConcat(s, i, GapText(p.before) + DocText(p.doc), GapText(p.after));
    HasAtConcat(s, i, GapText(p.before), DocText(p.doc));
    var start := i + |GapText(p.before)|;
    var end := start + |DocText(p.doc)|;
    StartOfText(s, start, p.doc);
    StartIsNotSpace(p.doc, At(s, start));
    SkipGap(s, i, p.before);
    SpaceIsSkippedFirst(s, i, nesting);
    GapDelimits(s, end, p.after);
    TextIsRead(s, start, p.doc, nesting);
    SkipGap(s, end, p.after);
  }

  lemma StartIsNotSpace(d: Doc, c: byte)
    requires StartsLike(d, c)
    ensures !IsSpace(c)
  {
  }

  function InsideArray(d: Doc): Text
    requires d.ArrayOf?
  {
    if d.items == [] then GapText(d.inner) else ItemsText(d.items)
  }

  lemma ArrayIsEntered(s: Text, i: nat, d: Doc, nesting: nat)
    requires d.ArrayOf? && HasAt(s, i, DocText(d)) && nesting <= MAX_NESTING
    ensures i < |s| && ParseValue(s, i, nesting) == ParseArray(s, i, nesting + 1)
    ensures |DocText(d)| == |InsideArray(d)| + 2 && HasAt(s, i + 1, InsideArray(d) + [RBRACKET])
  {
    hide ParseArray, ParseObject, GapText, ItemsText;
    var tail := InsideArray(d) + [RBRACKET];
    StartOfText(s, i, d);
    assert DocText(d) == [LBRACKET] + tail;
    HasAtHead(s, i, LBRACKET, tail);
  }

  lemma ArrayParts(d: Doc, nesting: nat)
    requires d.ArrayOf? && Legal(d) && Parseable(Value(d), nesting)
    ensures Blank(d.inner) && LegalItems(d.items) && Value(d) == Array(ItemValues(d.items))
    ensures nesting <= MAX_NESTING
    ensures d.items == [] ==> ItemValues(d.items) == []
  {
  }

  lemma EmptyArrayIsParsed(s: Text, i: nat, g: Gap, nesting: nat)
    requires i < |s| && Blank(g) && HasAt(s, i + 1, GapText(g) + [RBRACKET])
    ensures ParseArray(s, i, nesting) == Parsed(Array([]), i + 1 + |GapText(g)| + 1)
  {
    hide ParseItems, GapText, HasAt, SkipSpace;
    HasAtConcat(s, i + 1, GapText(g), [RBRACKET]);
    HasAtIndex(s, i + 1 + |GapText(g)|, [RBRACKET], 0);
    SkipGap(s, i + 1, g);
  }

  lemma ArrayIsLoop(s: Text, i: nat, nesting: nat)
    requires i < |s| && At(s, SkipSpace(s, i + 1)) != RBRACKET
    ensures ParseArray(s, i, nesting) == ParseItems(s, SkipSpace(s, i + 1), nesting, [])
  {
    hide ParseItems, SkipSpace, At;
  }

  lemma {:induction false} ItemsInBrackets(s: Text, i: nat, items: seq<Piece>, nesting: nat)
    requires i < |s| && items != [] && LegalItems(items)
    requires forall k | 0 <= k < |items| :: Parseable(ItemValues(items)[k], nesting)
    requires HasAt(s, i + 1, ItemsText(items) + [RBRACKET])
    ensures ParseArray(s, i, nesting) == Parsed(Array(ItemValues(items)), i + 1 + |ItemsText(items)| + 1)
    decreases items, 1
  {
    hide ParseArray, ParseItems, ItemsText, HasAt, At, SkipSpace, Parseable, ItemValues, LegalItems;
    var none: seq<Json> := [];
    assert none + ItemValues(items) == ItemValues(items);
    ItemsAreRead(s, i + 1, items, nesting, none);
    ArrayIsLoop(s, i, nesting);
  }

  lemma {:induction false} ArrayIsRead(s: Text, i: nat, d: Doc, nesting: nat)
    requires d.ArrayOf? && Legal(d) && Parseable(Value(d), nesting)
    requires HasAt(s, i, DocText(d))
    ensures i <= |s| && Reads(s, i, d, nesting)
    decreases d, 0
  {
    ArrayParts(d, nesting);
    hide ParseValue, ParseArray, ParseItems, DocText, ItemsText, GapText, HasAt, At, SkipSpace, Value, Legal,
      Parseable, ItemValues, LegalItems;
    ArrayIsEntered(s, i, d, nesting);
    if d.items == [] {
      EmptyArrayIsParsed(s, i, d.inner, nesting + 1);
    } else {
      ItemsParseable(d.items, nesting);
      ItemsInBrackets(s, i, d.items, nesting + 1);
    }
  }

  lemma ItemsParseable(items: seq<Piece>, nesting: nat)
    requires LegalItems(items) && Parseable(Array(ItemValues(items)), nesting)
    ensures forall k | 0 <= k < |items| :: Parseable(ItemValues(items)[k], nesting + 1)
  {
    hide ItemValues, LegalItems;
    var v := Array(ItemValues(items));
    forall k | 0 <= k < |items|
      ensures Parseable(ItemValues(items)[k], nesting + 1)
    {
      assert DistinctNames(v.items[k]) && DepthAtMost(v.items[k], MAX_NESTING - nesting - 1);
    }
  }

  // What follows the first item of an array.
  function AfterItem(rest: seq<Piece>): (t: Text)
    ensures |t| >= 1 && t[0] == if rest == [] then RBRACKET else COMMA
  {
    if rest == [] then [RBRACKET] else [COMMA] + (ItemsText(rest) + [RBRACKET])
  }

  lemma ItemsTextSplit(items: seq<Piece>)
    requires items != []
    ensures ItemsText(items) + [RBRACKET] == PieceText(items[0]) + AfterItem(items[1..])
  {
    hide PieceText;
    if |items| == 1 {
      assert ItemsText(items) == PieceText(items[0]);
    } else {
      assert ItemsText(items) == PieceText(items[0]) + ([COMMA] + ItemsText(items[1..]));
    }
  }

  lemma AfterLastItem()
    ensures AfterItem([]) == [RBRACKET]
  {
  }

  lemma CommaThenItems(s: Text, i: nat, rest: seq<Piece>)
    requires rest != [] && HasAt(s, i, AfterItem(rest))
    ensures HasAt(s, i + 1, ItemsText(rest) + [RBRACKET])
    ensures |AfterItem(rest)| == |ItemsText(rest)| + 2
  {
    hide ItemsText, HasAt;
    HasAtHead(s, i, COMMA, ItemsText(rest) + [RBRACKET]);
  }

  lemma ItemsLegalSplit(items: seq<Piece>)
    requires items != [] && LegalItems(items)
    ensures LegalPiece(items[0]) && LegalItems(items[1..])
    ensures LegalPiece(items[0]) ==> Legal(items[0].doc)
    ensures ItemValues(items) == [Value(items[0].doc)] + ItemValues(items[1..])
  {
  }

  // One turn of the loop over the items.
  lemma ItemsStep(s: Text, i: nat, p: Piece, nesting: nat, done: seq<Json>)
    requires LegalPiece(p) && i + |PieceText(p)| <= |s| && PieceRead(s, i, p, nesting)
    ensures var start, end, done' := SkipSpace(s, i), i + |PieceText(p)|, done + [Value(p.doc)];
            && At(s, start) != RBRACKET
            && ParseItems(s, start, nesting, done) ==
               if At(s, end) == COMMA then ParseItems(s, SkipSpace(s, end + 1), nesting, done')
               else CloseArray(s, end, done')
  {
    hide ParseValue, PieceText, Value, LegalPiece;
  }

  lemma ArrayCloses(s: Text, i: nat, done: seq<Json>)
    requires i <= |s| && At(s, i) == RBRACKET && done != []
    ensures CloseArray(s, i, done) == Parsed(Array(done), i + 1)
  {
    SkipRun(s, i, i);
  }

  lemma {:induction false} ItemsAreRead(s: Text, i: nat, items: seq<Piece>, nesting: nat, done: seq<Json>)
    requires items != [] && LegalItems(items)
    requires forall k | 0 <= k < |items| :: Parseable(ItemValues(items)[k], nesting)
    requires HasAt(s, i, ItemsText(items) + [RBRACKET])
    ensures i + |ItemsText(items)| + 1 <= |s|
    ensures var p := SkipSpace(s, i);
            && At(s, p) != RBRACKET
            && ParseItems(s, p, nesting, done) ==
               Parsed(Array(done + ItemValues(items)), i + |ItemsText(items)| + 1)
    decreases items, 0
  {
    hide ParseValue, ParseItems, CloseArray, HasAt, ItemsText, PieceText, PieceRead, Parseable, SkipSpace, Value,
      ItemValues, LegalItems, LegalPiece, AfterItem;
    var piece, rest := items[0], items[1..];
    HasAtFits(s, i, ItemsText(items) + [RBRACKET]);
    ItemsTextSplit(items);
    ItemsLegalSplit(items);
    HasAtConcat(s, i, PieceText(piece), AfterItem(rest));
    var end := i + |PieceText(piece)|;
    HasAtIndex(s, end, AfterItem(rest), 0);
    assert ItemValues(items)[0] == Value(piece.doc);
    PieceIsRead(s, i, piece, nesting);
    ItemsStep(s, i, piece, nesting, done);
    if rest == [] {
      AfterLastItem();
      assert ItemValues(items) == [Value(piece.doc)];
      ArrayCloses(s, end, done + [Value(piece.doc)]);
    } else {
      CommaThenItems(s, end, rest);
      forall k | 0 <= k < |rest|
        ensures Parseable(ItemValues(rest)[k], nesting)
      {
        assert ItemValues(rest)[k] == ItemValues(items)[k + 1];
      }
      ItemsAreRead(s, end + 1, rest, nesting, done + [Value(piece.doc)]);
      assert (done + [Value(piece.doc)]) + ItemValues(rest) == done + ItemValues(items);
    }
  }

  function InsideObject(d: Doc): Text
    requires d.ObjectOf?
  {
    if d.fields == [] then GapText(d.inner) else FieldsText(d.fields)
  }

  lemma ObjectIsEntered(s: Text, i: nat, d: Doc, nesting: nat)
    requires d.ObjectOf? && HasAt(s, i, DocText(d)) && nesting <= MAX_NESTING
    ensures i < |s| && ParseValue(s, i, nesting) == ParseObject(s, i, nesting + 1)
    ensures |DocText(d)| == |InsideObject(d)| + 2 && HasAt(s, i + 1, InsideObject(d) + [RBRACE])
  {
    hide ParseArray, ParseObject, GapText, FieldsText;
    var tail := InsideObject(d) + [RBRACE];
    StartOfText(s, i, d);
    assert DocText(d) == [LBRACE] + tail;
    HasAtHead(s, i, LBRACE, tail);
  }

  lemma FieldsParseable(fields: seq<Field>, nesting: nat)
    requires LegalFields(fields) && Parseable(Object(FieldEntries(fields)), nesting)
    ensures Distinct(FieldEntries(fields))
    ensures forall k | 0 <= k < |fields| :: Parseable(FieldEntries(fields)[k].value, nesting + 1)
  {
    hide FieldEntries, LegalFields;
    var v := Object(FieldEntries(fields));
    forall k | 0 <= k < |fields|
      ensures Parseable(FieldEntries(fields)[k].value, nesting + 1)
    {
      assert DistinctNames(v.members[k].value) && DepthAtMost(v.members[k].value, MAX_NESTING - nesting - 1);
    }
  }

  lemma ObjectParts(d: Doc, nesting: nat)
    requires d.ObjectOf? && Legal(d) && Parseable(Value(d), nesting)
    ensures Blank(d.inner) && LegalFields(d.fields) && Value(d) == Object(FieldEntries(d.fields))
    ensures nesting <= MAX_NESTING
    ensures d.fields == [] ==> FieldEntries(d.fields) == []
  {
  }

  lemma EmptyObjectIsParsed(s: Text, i: nat, g: Gap, nesting: nat)
    requires i < |s| && Blank(g) && HasAt(s, i + 1, GapText(g) + [RBRACE])
    ensures ParseObject(s, i, nesting) == Parsed(Object([]), i + 1 + |GapText(g)| + 1)
  {
    hide ParseMembers, GapText, HasAt, SkipSpace;
    HasAtConcat(s, i + 1, GapText(g), [RBRACE]);
    HasAtIndex(s, i + 1 + |GapText(g)|, [RBRACE], 0);
    SkipGap(s, i + 1, g);
  }

  lemma ObjectIsLoop(s: Text, i: nat, nesting: nat)
    requires i < |s| && At(s, SkipSpace(s, i + 1)) != RBRACE
    ensures ParseObject(s, i, nesting) == ParseMembers(s, SkipSpace(s, i + 1), nesting, [])
  {
    hide ParseMembers, SkipSpace, At;
  }

  lemma {:induction false} FieldsInBrackets(s: Text, i: nat, fields: seq<Field>, nesting: nat)
    requires i < |s| && fields != [] && LegalFields(fields)
    requires Distinct(FieldEntries(fields))
    requires forall k | 0 <= k < |fields| :: Parseable(FieldEntries(fields)[k].value, nesting)
    requires HasAt(s, i + 1, FieldsText(fields) + [RBRACE])
    ensures ParseObject(s, i, nesting) == Parsed(Object(FieldEntries(fields)), i + 1 + |FieldsText(fields)| + 1)
    decreases fields, 1
  {
    hide ParseObject, ParseMembers, FieldsText, HasAt, At, SkipSpace, Parseable, FieldEntries, LegalFields;
    var none: seq<Entry<Json>> := [];
    assert none + FieldEntries(fields) == FieldEntries(fields);
    FieldsAreRead(s, i + 1, fields, nesting, none);
    ObjectIsLoop(s, i, nesting);
  }

  lemma {:induction false} ObjectIsRead(s: Text, i: nat, d: Doc, nesting: nat)
    requires d.ObjectOf? && Legal(d) && Parseable(Value(d), nesting)
    requires HasAt(s, i, DocText(d))
    ensures i <= |s| && Reads(s, i, d, nesting)
    decreases d, 0
  {
    ObjectParts(d, nesting);
    hide ParseValue, ParseObject, ParseMembers, DocText, FieldsText, GapText, HasAt, At, SkipSpace, Value, Legal,
      Parseable, FieldEntries, LegalFields;
    ObjectIsEntered(s, i, d, nesting);
    if d.fields == [] {
      EmptyObjectIsParsed(s, i, d.inner, nesting + 1);
    } else {
      FieldsParseable(d.fields, nesting);
      FieldsInBrackets(s, i, d.fields, nesting + 1);
    }
  }

  // A member up to and including its colon.
  function KeyText(f: Field): Text {
    GapText(f.before) + Quoted(f.key) + GapText(f.beforeColon) + [COLON]
  }

  // What the loop over the members finds before the value of a member.
  ghost predicate KeyRead(s: Text, i: nat, f: Field)
    requires LegalKey(f)
  {
    var p := SkipSpace(s, i);
    && At(s, p) == QUOTE
    && QuotedString(s, p).Some?
    && var (key, next) := QuotedString(s, p).value;
    && UpToNul(key) == NameOf(f)
    && SkipSpace(s, next) + 1 == i + |KeyText(f)|
    && At(s, SkipSpace(s, next)) == COLON
  }

  lemma KeyIsRead(s: Text, i: nat, f: Field)
    requires LegalKey(f) && HasAt(s, i, KeyText(f))
    ensures KeyRead(s, i, f)
  {
    hide QuotedString, SpelledBytes, SpelledText, Value, HasAt, GapText, SkipSpace;
    var start := i + |GapText(f.before)|;
    var next := start + |Quoted(f.key)|;
    HasAtConcat(s, i, GapText(f.before) + Quoted(f.key) + GapText(f.beforeColon), [COLON]);
    HasAtConcat(s, i, GapText(f.before) + Quoted(f.key), GapText(f.beforeColon));
    HasAtConcat(s, i, GapText(f.before), Quoted(f.key));
    HasAtIndex(s, start, Quoted(f.key), 0);
    QuotedSpellingDecodes(s, start, f.key);
    SkipGap(s, i, f.before);
    HasAtIndex(s, next + |GapText(f.beforeColon)|, [COLON], 0);
    SkipGap(s, next, f.beforeColon);
  }

  // What follows the first member of an object.
  function AfterField(rest: seq<Field>): (t: Text)
    ensures |t| >= 1 && t[0] == if rest == [] then RBRACE else COMMA
  {
    if rest == [] then [RBRACE] else [COMMA] + (FieldsText(rest) + [RBRACE])
  }

  lemma FieldTextSplit(f: Field)
    ensures FieldText(f) == KeyText(f) + PieceText(f.value)
  {
    hide PieceText, GapText, Quoted;
  }

  lemma FieldsTextSplit(fields: seq<Field>)
    requires fields != []
    ensures FieldsText(fields) + [RBRACE] ==
            KeyText(fields[0]) + (PieceText(fields[0].value) + AfterField(fields[1..]))
  {
    hide PieceText, FieldText, KeyText;
    FieldTextSplit(fields[0]);
    var tail := if |fields| == 1 then [] else [COMMA] + FieldsText(fields[1..]);
    assert FieldsText(fields) == FieldText(fields[0]) + tail;
    assert AfterField(fields[1..]) == tail + [RBRACE];
    FourParts(KeyText(fields[0]), PieceText(fields[0].value), tail, [RBRACE]);
  }

  lemma FourParts(a: Text, b: Text, c: Text, d: Text)
    ensures ((a + b) + c) + d == a + (b + (c + d))
  {
  }

  lemma AfterLastField()
    ensures AfterField([]) == [RBRACE]
  {
  }

  lemma CommaThenFields(s: Text, i: nat, rest: seq<Field>)
    requires rest != [] && HasAt(s, i, AfterField(rest))
    ensures HasAt(s, i + 1, FieldsText(rest) + [RBRACE])
    ensures |AfterField(rest)| == |FieldsText(rest)| + 2
  {
    hide FieldsText, HasAt;
    HasAtHead(s, i, COMMA, FieldsText(rest) + [RBRACE]);
  }

  lemma FieldsLegalSplit(fields: seq<Field>)
    requires fields != [] && LegalFields(fields)
    ensures LegalKey(fields[0]) && LegalField(fields[0]) && LegalPiece(fields[0].value) && LegalFields(fields[1..])
    ensures LegalPiece(fields[0].value) ==>
              Legal(fields[0].value.doc)
              && FieldEntry(fields[0]) == Entry(NameOf(fields[0]), Value(fields[0].value.doc))
    ensures FieldEntries(fields) == [FieldEntry(fields[0])] + FieldEntries(fields[1..])
  {
  }

  // One turn of the loop over the members.
  lemma FieldsStep(s: Text, i: nat, f: Field, nesting: nat, done: seq<Entry<Json>>)
    requires LegalKey(f) && LegalField(f) && LegalPiece(f.value) && KeyRead(s, i, f)
    requires var middle := i + |KeyText(f)|;
             middle + |PieceText(f.value)| <= |s| && PieceRead(s, middle, f.value, nesting)
    requires !Has(done, NameOf(f)) && FieldEntry(f) == Entry(NameOf(f), Value(f.value.doc))
    ensures var start, end := SkipSpace(s, i), i + |KeyText(f)| + |PieceText(f.value)|;
            var done' := done + [FieldEntry(f)];
            && At(s, start) != RBRACE
            && ParseMembers(s, start, nesting, done) ==
               if At(s, end) == COMMA then ParseMembers(s, SkipSpace(s, end + 1), nesting, done')
               else CloseObject(s, end, done')
  {
    hide ParseValue, PieceText, KeyText, Value, LegalPiece, LegalField, LegalKey, QuotedString, Find, CloseObject,
      FieldEntry, NameOf;
    var pair := ParsePair(s, SkipSpace(s, i), nesting);
    assert pair.0 == FieldEntry(f).name && pair.1.Parsed? && pair.1.value == FieldEntry(f).value;
  }

  lemma ObjectCloses(s: Text, i: nat, done: seq<Entry<Json>>)
    requires i <= |s| && At(s, i) == RBRACE && done != []
    ensures CloseObject(s, i, done) == Parsed(Object(done), i + 1)
  {
    SkipRun(s, i, i);
  }

  lemma NewNameIsAbsent<V>(done: seq<Entry<V>>, e: Entry<V>, rest: seq<Entry<V>>)
    requires Distinct((done + [e]) + rest)
    ensures !Has(done, e.name)
  {
    var all := (done + [e]) + rest;
    assert all[|done|] == e;
    assert forall k | 0 <= k < |done| :: all[k] == done[k];
  }

  lemma {:induction false} FieldsAreRead(s: Text, i: nat, fields: seq<Field>, nesting: nat, done: seq<Entry<Json>>)
    requires fields != [] && LegalFields(fields)
    requires Distinct(done + FieldEntries(fields))
    requires forall k | 0 <= k < |fields| :: Parseable(FieldEntries(fields)[k].value, nesting)
    requires HasAt(s, i, FieldsText(fields) + [RBRACE])
    ensures i + |FieldsText(fields)| + 1 <= |s|
    ensures var p := SkipSpace(s, i);
            && At(s, p) != RBRACE
            && ParseMembers(s, p, nesting, done) ==
               Parsed(Object(done + FieldEntries(fields)), i + |FieldsText(fields)| + 1)
    decreases fields, 0
  {
    hide ParseValue, ParseMembers, CloseObject, HasAt, FieldsText, PieceText, PieceRead, KeyRead, KeyText,
      Parseable, SkipSpace, Value, FieldEntry, FieldEntries, LegalFields, LegalField, LegalPiece, LegalKey, NameOf,
      AfterField, Distinct, Find, Has, QuotedString;
    var f, rest := fields[0], fields[1..];
    HasAtFits(s, i, FieldsText(fields) + [RBRACE]);
    FieldsTextSplit(fields);
    FieldsLegalSplit(fields);
    var e := FieldEntry(f);
    HasAtConcat(s, i, KeyText(f), PieceText(f.value) + AfterField(rest));
    KeyIsRead(s, i, f);
    var middle := i + |KeyText(f)|;
    HasAtConcat(s, middle, PieceText(f.value), AfterField(rest));
    var end := middle + |PieceText(f.value)|;
    HasAtIndex(s, end, AfterField(rest), 0);
    assert FieldEntries(fields)[0] == e;
    PieceIsRead(s, middle, f.value, nesting);
    assert done + FieldEntries(fields) == (done + [e]) + FieldEntries(rest);
    NewNameIsAbsent(done, e, FieldEntries(rest));
    FieldsStep(s, i, f, nesting, done);
    if rest == [] {
      AfterLastField();
      assert FieldEntries(fields) == [e];
      ObjectCloses(s, end, done + [e]);
    } else {
      CommaThenFields(s, end, rest);
      forall k | 0 <= k < |rest|
        ensures Parseable(FieldEntries(rest)[k].value, nesting)
      {
        assert FieldEntries(rest)[k] == FieldEntries(fields)[k + 1];
      }
      FieldsAreRead(s, end + 1, rest, nesting, done + [e]);
    }
  }

  /** A whole text: leading white space, any layout, anything after the value that does not continue a
      number. A byte order mark in front changes nothing. */
  lemma {:induction false} WholeTextIsRead(before: Gap, d: Doc, trailing: Text)
    requires Blank(before) && Legal(d) && Parseable(Value(d), 0)
    requires Ends(d, At(trailing, 0))
    ensures var r := ParseText(GapText(before) + DocText(d) + trailing); r.Parsed? && r.value == Value(d)
    ensures var r := ParseText(BYTE_ORDER_MARK + (GapText(before) + DocText(d) + trailing));
            r.Parsed? && r.value == Value(d)
  {
    hide ParseValue, GapText, DocText, Value, Parseable;
    var text := GapText(before) + DocText(d) + trailing;
    OffsetTextIsRead([], before, d, trailing);
    assert [] + text == text;
    if HasAt(text, 0, BYTE_ORDER_MARK) {
      HasAtIndex(text, 0, BYTE_ORDER_MARK, 0);
      FirstByteIsNotMark(before, d, trailing);
    }
    var marked := BYTE_ORDER_MARK + text;
    assert marked[0..3] == BYTE_ORDER_MARK;
    OffsetTextIsRead(BYTE_ORDER_MARK, before, d, trailing);
  }

  lemma FirstByteIsNotMark(before: Gap, d: Doc, trailing: Text)
    requires Blank(before) && (d.Leaf? ==> LegalLeaf(d.v))
    ensures (GapText(before) + DocText(d) + trailing)[0] < 0x80
  {
    var text := GapText(before) + DocText(d) + trailing;
    if before == [] {
      assert text[0..|DocText(d)|] == DocText(d);
      StartOfText(text, 0, d);
    } else {
      BlankText(before);
    }
  }

  lemma GapThenDocIsRead(s: Text, i: nat, before: Gap, d: Doc)
    requires Blank(before) && Legal(d) && Parseable(Value(d), 0)
    requires HasAt(s, i, GapText(before)) && HasAt(s, i + |GapText(before)|, DocText(d))
    requires Ends(d, At(s, i + |GapText(before)| + |DocText(d)|))
    ensures i <= |s| && var r := ParseValue(s, i, 0); r.Parsed? && r.value == Value(d)
  {
    hide ParseValue, GapText, DocText, Value, Parseable, HasAt, SkipSpace, Blank;
    var start := i + |GapText(before)|;
    HasAtFits(s, start, DocText(d));
    StartOfText(s, start, d);
    StartIsNotSpace(d, s[start]);
    SkipGap(s, i, before);
    SpaceIsSkippedFirst(s, i, 0);
    TextIsRead(s, start, d, 0);
  }

  lemma OffsetTextIsRead(mark: Text, before: Gap, d: Doc, trailing: Text)
    requires Blank(before) && Legal(d) && Parseable(Value(d), 0)
    requires Ends(d, At(trailing, 0))
    ensures var s := mark + (GapText(before) + DocText(d) + trailing);
            var r := ParseValue(s, |mark|, 0);
            r.Parsed? && r.value == Value(d)
  {
    hide ParseValue, GapText, DocText, Value, Parseable, HasAt, Blank, Legal, At, Ends;
    var g, t := GapText(before), DocText(d);
    FourPlaces(mark, g, t, trailing);
    GapThenDocIsRead(mark + (g + t + trailing), |mark|, before, d);
  }

  lemma FourPlaces(a: Text, b: Text, c: Text, d: Text)
    ensures var s := a + (b + c + d);
            HasAt(s, |a|, b) && HasAt(s, |a| + |b|, c) && At(s, |a| + |b| + |c|) == At(d, 0)
  {
    hide HasAt, At;
    var s := a + (b + c + d);
    PartsAt(a, b + c, d);
    AtTail(s, |a| + |b + c|, d);
    HasAtConcat(s, |a|, b, c);
  }
}
