/** The texts that mrbgems/json-with-casing/src/parson.c refuses to parse although their shape is right. */
module JsonRefusal {
  import opened Bytes
  import opened Options
  import opened JsonStrings
  import opened JsonSpelling
  import opened Entries
  import opened JsonTree
  import opened JsonParser
  import opened JsonSyntax

  // They are too deep, or have a name twice in an object, or a control byte inside a string.

  // ---- Strings ----

  // Raw bytes include control bytes.
  predicate LooseUnit(u: Unit) {
    LegalUnit(u) || (u.Raw? && Plain(u.b))
  }

  predicate LooseSpelling(us: Spelling) {
    forall u | u in us :: LooseUnit(u)
  }

  lemma ControlByteIsBad(s: Text, i: nat, u: Unit)
    requires LooseUnit(u) && !LegalUnit(u) && HasAt(s, i, UnitText(u))
    ensures At(s, i) != NUL && At(s, i) != QUOTE && Step(s, i).None?
    ensures Scan(s, i) == Scan(s, i + 1)
  {
    HasAtIndex(s, i, UnitText(u), 0);
  }

  lemma {:induction false} ControlBytesAreBad(s: Text, i: nat, us: Spelling, q: nat)
    requires LooseSpelling(us) && !LegalSpelling(us) && HasAt(s, i, SpelledText(us)) && Scan(s, i) == Some(q)
    ensures i < q && DecodeTo(s, i, q) == Bad
    decreases |us|
  {
    hide Step, Scan, UnitText, UnitBytes, LegalUnit, LooseUnit;
    var u, rest := us[0], us[1..];
    HasAtConcat(s, i, UnitText(u), SpelledText(rest));
    if LegalUnit(u) {
      UnitIsOneStep(s, i, u);
      StepIsScanned(s, i);
      ControlBytesAreBad(s, i + |UnitText(u)|, rest, q);
    } else {
      ControlByteIsBad(s, i, u);
    }
  }

  lemma LooseStringIsRefused(s: Text, i: nat, us: Spelling)
    requires LooseSpelling(us) && !LegalSpelling(us) && HasAt(s, i, Quoted(us))
    ensures QuotedString(s, i).None?
  {
    hide Scan, DecodeTo, SpelledText, LegalSpelling, LooseSpelling;
    assert Quoted(us) == [QUOTE] + (SpelledText(us) + [QUOTE]);
    HasAtHead(s, i, QUOTE, SpelledText(us) + [QUOTE]);
    HasAtConcat(s, i + 1, SpelledText(us), [QUOTE]);
    if Scan(s, i + 1).Some? {
      ControlBytesAreBad(s, i + 1, us, Scan(s, i + 1).value);
    }
  }

  // ---- Texts ----

  // Like a legal text, but with control bytes inside strings.
  predicate Loose(d: Doc)
    decreases d
  {
    match d
    case Leaf(v) => LegalLeaf(v)
    case Quote(us) => LooseSpelling(us)
    case ArrayOf(inner, items) => Blank(inner) && LooseItems(items)
    case ObjectOf(inner, fields) => Blank(inner) && LooseFields(fields)
  }

  predicate LoosePiece(p: Piece)
    decreases p
  {
    Blank(p.before) && Loose(p.doc) && Blank(p.after)
  }

  predicate LooseItems(items: seq<Piece>)
    decreases items
  {
    items == [] || (LoosePiece(items[0]) && LooseItems(items[1..]))
  }

  predicate LooseField(f: Field)
    decreases f
  {
    LegalKey(f) && LoosePiece(f.value)
  }

  predicate LooseFields(fields: seq<Field>)
    decreases fields
  {
    fields == [] || (LooseField(fields[0]) && LooseFields(fields[1..]))
  }

  lemma {:induction false} LegalIsLoose(d: Doc)
    requires Legal(d)
    ensures Loose(d)
    decreases d
  {
    match d
    case ArrayOf(_, items) => LegalItemsAreLoose(items);
    case ObjectOf(_, fields) => LegalFieldsAreLoose(fields);
    case _ =>
  }

  lemma {:induction false} LegalItemsAreLoose(items: seq<Piece>)
    requires LegalItems(items)
    ensures LooseItems(items)
    decreases items
  {
    hide Blank;
    if items != [] {
      assert LegalPiece(items[0]);
      LegalIsLoose(items[0].doc);
      LegalItemsAreLoose(items[1..]);
    }
  }

  lemma {:induction false} LegalFieldsAreLoose(fields: seq<Field>)
    requires LegalFields(fields)
    ensures LooseFields(fields)
    decreases fields
  {
    hide Blank, LegalKey;
    if fields != [] {
      assert LegalField(fields[0]) && LegalPiece(fields[0].value);
      LegalIsLoose(fields[0].value.doc);
      LegalFieldsAreLoose(fields[1..]);
      assert LoosePiece(fields[0].value) && LooseField(fields[0]);
    }
  }

  // Strings without control bytes, distinct names, and no deeper than the parser goes.
  ghost predicate Good(d: Doc, nesting: nat) {
    Legal(d) && Parseable(Value(d), nesting)
  }

  ghost predicate GoodItems(items: seq<Piece>, nesting: nat) {
    items == [] || (Good(items[0].doc, nesting) && GoodItems(items[1..], nesting))
  }

  // The members can be added one after the other to those in done.
  ghost predicate GoodFields(fields: seq<Field>, nesting: nat, done: seq<Entry<Json>>)
    requires LooseFields(fields)
  {
    fields == [] ||
    var f := fields[0];
    assert LooseField(f);
    && Good(f.value.doc, nesting) && !Has(done, NameOf(f))
    && GoodFields(fields[1..], nesting, done + [Entry(NameOf(f), Value(f.value.doc))])
  }

  lemma {:induction false} GoodItemsAreLegal(items: seq<Piece>, nesting: nat)
    requires LooseItems(items) && GoodItems(items, nesting)
    ensures LegalItems(items)
    ensures forall k | 0 <= k < |items| :: Parseable(ItemValues(items)[k], nesting)
  {
    hide Parseable, Value, Legal;
    if items != [] {
      GoodItemsAreLegal(items[1..], nesting);
      forall k | 0 <= k < |items|
        ensures Parseable(ItemValues(items)[k], nesting)
      {
        assert k > 0 ==> ItemValues(items)[k] == ItemValues(items[1..])[k - 1];
      }
    }
  }

  lemma GoodPieceIsLegal(p: Piece, nesting: nat)
    requires LoosePiece(p) && Good(p.doc, nesting)
    ensures LegalPiece(p) && Legal(p.doc) && Parseable(Value(p.doc), nesting)
  {
    hide Parseable, Value;
  }

  lemma GoodFieldIsLegal(f: Field, nesting: nat)
    requires LooseField(f) && Good(f.value.doc, nesting)
    ensures LegalKey(f) && LegalPiece(f.value) && LegalField(f) && Legal(f.value.doc)
    ensures FieldEntry(f) == Entry(NameOf(f), Value(f.value.doc)) && Parseable(FieldEntry(f).value, nesting)
  {
    hide Parseable, Value, NameOf;
  }

  lemma {:induction false} GoodFieldsAreLegal(fields: seq<Field>, nesting: nat, done: seq<Entry<Json>>)
    requires LooseFields(fields) && GoodFields(fields, nesting, done) && Distinct(done)
    ensures LegalFields(fields) && Distinct(done + FieldEntries(fields))
    ensures forall k | 0 <= k < |fields| :: Parseable(FieldEntries(fields)[k].value, nesting)
    decreases fields
  {
    hide Parseable, Value, Legal, NameOf, Has, FieldEntry, LegalKey, LegalPiece, LoosePiece, LegalField, Distinct,
      Good, AsMap;
    if fields == [] {
      assert done + [] == done;
    } else {
      GoodFieldIsLegal(fields[0], nesting);
      var e := FieldEntry(fields[0]);
      AddedIsDistinct(done, e);
      GoodFieldsAreLegal(fields[1..], nesting, done + [e]);
      assert (done + [e]) + FieldEntries(fields[1..]) == done + FieldEntries(fields);
      forall k | 0 <= k < |fields|
        ensures Parseable(FieldEntries(fields)[k].value, nesting)
      {
        assert k > 0 ==> FieldEntries(fields)[k] == FieldEntries(fields[1..])[k - 1];
      }
    }
  }

  lemma AddedIsDistinct(done: seq<Entry<Json>>, e: Entry<Json>)
    requires Distinct(done) && !Has(done, e.name)
    ensures Distinct(done + [e])
  {
    MapAt(done, e.name);
    AddIsInsert(done, e.name, e.value);
  }

  lemma GoodArray(d: Doc, nesting: nat)
    requires d.ArrayOf? && Loose(d) && nesting <= MAX_NESTING && GoodItems(d.items, nesting + 1)
    ensures Good(d, nesting)
  {
    hide LegalItems, LooseItems, ItemValues;
    GoodItemsAreLegal(d.items, nesting + 1);
    var v := Array(ItemValues(d.items));
    forall k | 0 <= k < |v.items|
      ensures DistinctNames(v.items[k]) && DepthAtMost(v.items[k], MAX_NESTING - nesting - 1)
    {
      assert Parseable(v.items[k], nesting + 1);
    }
  }

  lemma GoodObject(d: Doc, nesting: nat)
    requires d.ObjectOf? && Loose(d) && nesting <= MAX_NESTING && GoodFields(d.fields, nesting + 1, [])
    ensures Good(d, nesting)
  {
    hide LegalFields, LooseFields, FieldEntries;
    GoodFieldsAreLegal(d.fields, nesting + 1, []);
    assert [] + FieldEntries(d.fields) == FieldEntries(d.fields);
    var v := Object(FieldEntries(d.fields));
    forall k | 0 <= k < |v.members|
      ensures DistinctNames(v.members[k].value) && DepthAtMost(v.members[k].value, MAX_NESTING - nesting - 1)
    {
      assert Parseable(v.members[k].value, nesting + 1);
    }
  }

  // ---- The parser refuses them ----

  lemma {:induction false} TextIsRefused(s: Text, i: nat, d: Doc, nesting: nat)
    requires Loose(d) && !Good(d, nesting) && HasAt(s, i, DocText(d)) && i <= |s|
    ensures ParseValue(s, i, nesting) == Rejected
    decreases d
  {
    if nesting <= MAX_NESTING {
      StartOfText(s, i, d);
      match d
      case Leaf(_) => assert false;
      case Quote(us) => LooseStringIsRefused(s, i, us);
      case ArrayOf(_, items) => ArrayIsRefused(s, i, d, nesting);
      case ObjectOf(_, fields) => ObjectIsRefused(s, i, d, nesting);
    }
  }

  lemma {:induction false} PieceIsRefused(s: Text, i: nat, p: Piece, nesting: nat)
    requires LoosePiece(p) && !Good(p.doc, nesting) && HasAt(s, i, PieceText(p))
    ensures i <= |s| && ParseValue(s, i, nesting) == Rejected
    ensures var start := SkipSpace(s, i);
            start < |s| && StartsLike(p.doc, s[start]) && ParseValue(s, start, nesting) == Rejected
    decreases p
  {
    hide ParseValue, HasAt, DocText, GapText, Good, SkipSpace, Blank;
    HasAtFits(s, i, PieceText(p));
    HasAtConcat(s, i, GapText(p.before) + DocText(p.doc), GapText(p.after));
    HasAtConcat(s, i, GapText(p.before), DocText(p.doc));
    var start := i + |GapText(p.before)|;
    StartOfText(s, start, p.doc);
    StartIsNotSpace(p.doc, At(s, start));
    SkipGap(s, i, p.before);
    SpaceIsSkippedFirst(s, i, nesting);
    TextIsRefused(s, start, p.doc, nesting);
  }

  lemma {:induction false} ArrayIsRefused(s: Text, i: nat, d: Doc, nesting: nat)
    requires d.ArrayOf? && Loose(d) && !Good(d, nesting) && HasAt(s, i, DocText(d)) && nesting <= MAX_NESTING
    ensures i <= |s| && ParseValue(s, i, nesting) == Rejected
    decreases d, 0
  {
    hide ParseValue, ParseItems, DocText, ItemsText, GapText, HasAt, SkipSpace, Good, GoodItems, LooseItems;
    ArrayIsEntered(s, i, d, nesting);
    if GoodItems(d.items, nesting + 1) {
      GoodArray(d, nesting);
    } else {
      NoItemsAreGood(nesting + 1);
      ItemsAreRefused(s, i + 1, d.items, nesting + 1, []);
    }
  }

  lemma NoItemsAreGood(nesting: nat)
    ensures GoodItems([], nesting) && GoodFields([], nesting, [])
  {
  }

  lemma {:induction false} ItemsAreRefused(s: Text, i: nat, items: seq<Piece>, nesting: nat, done: seq<Json>)
    requires items != [] && LooseItems(items) && !GoodItems(items, nesting)
    requires HasAt(s, i, ItemsText(items) + [RBRACKET])
    ensures i <= |s|
    ensures var p := SkipSpace(s, i); At(s, p) != RBRACKET && ParseItems(s, p, nesting, done) == Rejected
    decreases items
  {
    hide ParseValue, CloseArray, HasAt, ItemsText, PieceText, PieceRead, Parseable, SkipSpace, Value, Legal,
      AfterItem, Blank, Good, Loose, LegalPiece;
    var piece, rest := items[0], items[1..];
    HasAtFits(s, i, ItemsText(items) + [RBRACKET]);
    ItemsTextSplit(items);
    HasAtConcat(s, i, PieceText(piece), AfterItem(rest));
    if Good(piece.doc, nesting) {
      GoodPieceIsLegal(piece, nesting);
      var end := i + |PieceText(piece)|;
      HasAtIndex(s, end, AfterItem(rest), 0);
      HasAtFits(s, end, AfterItem(rest));
      PieceIsRead(s, i, piece, nesting);
      ItemsStep(s, i, piece, nesting, done);
      CommaThenItems(s, end, rest);
      ItemsAreRefused(s, end + 1, rest, nesting, done + [Value(piece.doc)]);
    } else {
      PieceIsRefused(s, i, piece, nesting);
    }
  }

  lemma GoodMeans(d: Doc, nesting: nat)
    ensures Good(d, nesting) <==> Legal(d) && Parseable(Value(d), nesting)
  {
  }

  lemma {:induction false} ObjectIsRefused(s: Text, i: nat, d: Doc, nesting: nat)
    requires d.ObjectOf? && Loose(d) && !Good(d, nesting) && HasAt(s, i, DocText(d)) && nesting <= MAX_NESTING
    ensures i <= |s| && ParseValue(s, i, nesting) == Rejected
    decreases d, 0
  {
    hide ParseValue, ParseMembers, DocText, FieldsText, GapText, HasAt, SkipSpace, Good, GoodFields, LooseFields;
    ObjectIsEntered(s, i, d, nesting);
    if GoodFields(d.fields, nesting + 1, []) {
      GoodObject(d, nesting);
    } else {
      NoItemsAreGood(nesting + 1);
      FieldsAreRefused(s, i + 1, d.fields, nesting + 1, []);
    }
  }

  lemma MemberIsRefused(s: Text, i: nat, f: Field, nesting: nat, done: seq<Entry<Json>>)
    requires LegalKey(f) && i <= |s| && KeyRead(s, i, f)
    requires var middle := i + |KeyText(f)|;
             middle <= |s| && (ParseValue(s, middle, nesting) == Rejected ||
                               (ParseValue(s, middle, nesting).Parsed? && Has(done, NameOf(f))))
    ensures var p := SkipSpace(s, i); At(s, p) != RBRACE && ParseMembers(s, p, nesting, done) == Rejected
  {
    hide ParseValue, KeyText, LegalKey, QuotedString, NameOf, Find, CloseObject;
    var pair := ParsePair(s, SkipSpace(s, i), nesting);
    assert pair == (NameOf(f), ParseValue(s, i + |KeyText(f)|, nesting));
  }

  lemma {:induction false} FieldsAreRefused(s: Text, i: nat, fields: seq<Field>, nesting: nat, done: seq<Entry<Json>>)
    requires fields != [] && LooseFields(fields) && !GoodFields(fields, nesting, done)
    requires HasAt(s, i, FieldsText(fields) + [RBRACE])
    ensures i <= |s|
    ensures var p := SkipSpace(s, i); At(s, p) != RBRACE && ParseMembers(s, p, nesting, done) == Rejected
    decreases fields
  {
    hide ParseValue, ParseMembers, CloseObject, HasAt, FieldsText, PieceText, PieceRead, KeyRead, KeyText,
      Parseable, SkipSpace, Value, Legal, LegalKey, NameOf, AfterField, Find, Has, QuotedString, Good, Blank,
      Loose, LegalPiece, LegalField, FieldEntry;
    var f, rest := fields[0], fields[1..];
    assert LooseField(f);
    HasAtFits(s, i, FieldsText(fields) + [RBRACE]);
    FieldsTextSplit(fields);
    HasAtConcat(s, i, KeyText(f), PieceText(f.value) + AfterField(rest));
    KeyIsRead(s, i, f);
    var middle := i + |KeyText(f)|;
    HasAtConcat(s, middle, PieceText(f.value), AfterField(rest));
    if Good(f.value.doc, nesting) {
      GoodFieldIsLegal(f, nesting);
      var end := middle + |PieceText(f.value)|;
      HasAtIndex(s, end, AfterField(rest), 0);
      HasAtFits(s, end, AfterField(rest));
      PieceIsRead(s, middle, f.value, nesting);
      PieceIsParsed(s, middle, f.value, nesting);
      if Has(done, NameOf(f)) {
        MemberIsRefused(s, i, f, nesting, done);
      } else {
        FieldsStep(s, i, f, nesting, done);
        CommaThenFields(s, end, rest);
        FieldsAreRefused(s, end + 1, rest, nesting, done + [FieldEntry(f)]);
      }
    } else {
      PieceIsRefused(s, middle, f.value, nesting);
      MemberIsRefused(s, i, f, nesting, done);
    }
  }

  lemma PieceIsParsed(s: Text, i: nat, p: Piece, nesting: nat)
    requires LegalPiece(p) && i <= |s| && PieceRead(s, i, p, nesting)
    ensures ParseValue(s, i, nesting).Parsed?
  {
  }

  /** A text with the shape of a value is read as that value exactly when its strings are free of
      control bytes, its names distinct and its depth within the limit, and is refused otherwise. */
  lemma {:induction false} ReadOrRefused(s: Text, i: nat, d: Doc, nesting: nat)
    requires Loose(d) && HasAt(s, i, DocText(d)) && Ends(d, At(s, i + |DocText(d)|))
    ensures i <= |s|
    ensures ParseValue(s, i, nesting) ==
            if Legal(d) && Parseable(Value(d), nesting) then Parsed(Value(d), i + |DocText(d)|) else Rejected
  {
    hide Legal, Loose, Value, Parseable, ParseValue, HasAt, Ends, DocText;
    HasAtFits(s, i, DocText(d));
    GoodMeans(d, nesting);
    if Good(d, nesting) {
      TextIsRead(s, i, d, nesting);
    } else {
      TextIsRefused(s, i, d, nesting);
    }
  }

  lemma {:induction false} GapThenDocReadOrRefused(s: Text, i: nat, before: Gap, d: Doc)
    requires Blank(before) && Loose(d) && HasAt(s, i, GapText(before)) && HasAt(s, i + |GapText(before)|, DocText(d))
    requires Ends(d, At(s, i + |GapText(before)| + |DocText(d)|))
    ensures i <= |s|
    ensures ParseValue(s, i, 0) ==
            if Legal(d) && Parseable(Value(d), 0)
            then Parsed(Value(d), i + |GapText(before)| + |DocText(d)|) else Rejected
  {
    hide ParseValue, GapText, DocText, Value, Parseable, HasAt, SkipSpace, Blank, Legal, Loose, Ends, LegalLeaf;
    var start := i + |GapText(before)|;
    HasAtFits(s, start, DocText(d));
    LooseLeaf(d);
    StartOfText(s, start, d);
    StartIsNotSpace(d, s[start]);
    SkipGap(s, i, before);
    SpaceIsSkippedFirst(s, i, 0);
    ReadOrRefused(s, start, d, 0);
  }

  lemma LooseLeaf(d: Doc)
    requires Loose(d)
    ensures d.Leaf? ==> LegalLeaf(d.v)
  {
  }

  /** The same for whole texts, with leading white space and anything behind. */
  lemma {:induction false} WholeTextReadOrRefused(before: Gap, d: Doc, trailing: Text)
    requires Blank(before) && Loose(d) && Ends(d, At(trailing, 0))
    ensures ParseText(GapText(before) + DocText(d) + trailing) ==
            if Legal(d) && Parseable(Value(d), 0)
            then Parsed(Value(d), |GapText(before)| + |DocText(d)|) else Rejected
  {
    hide ParseValue, GapText, DocText, Value, Parseable, HasAt, Blank, Legal, Loose, Ends, At, LegalLeaf;
    var text := GapText(before) + DocText(d) + trailing;
    assert [] + text == text;
    FourPlaces([], GapText(before), DocText(d), trailing);
    GapThenDocReadOrRefused(text, 0, before, d);
    assert !HasAt(text, 0, BYTE_ORDER_MARK) by {
      if HasAt(text, 0, BYTE_ORDER_MARK) {
        LooseLeaf(d);
        FirstByteIsNotMark(before, d, trailing);
        HasAtIndex(text, 0, BYTE_ORDER_MARK, 0);
      }
    }
  }
}
