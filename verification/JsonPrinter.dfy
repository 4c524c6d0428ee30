/** The text json_serialize_to_buffer_r produces (mrbgems/json-with-casing/src/parson.c, lines
    829-1062), compact and pretty, and the proof that the parser undoes it. */
module JsonPrinter {
  import opened Bytes
  import opened JsonStrings
  import opened JsonSpelling
  import opened Entries
  import opened JsonTree
  import opened JsonSyntax
  import opened JsonLayout
  import JsonRefusal
  import Parser = JsonParser

  // The last two digits of the escapes for control characters.
  const LOWER_HEX: Text := [48, 49, 50, 51, 52, 53, 54, 55, 56, 57, 97, 98, 99, 100, 101, 102]

  // The switch of json_serialize_string.
  function Escape(c: byte): Text {
    if c == QUOTE then [BACKSLASH, QUOTE]
    else if c == BACKSLASH then [BACKSLASH, BACKSLASH]
    else if c == SLASH then [BACKSLASH, SLASH]
    else if c == BACKSPACE then [BACKSLASH, LOWER_B]
    else if c == FORM_FEED then [BACKSLASH, LOWER_F]
    else if c == LINE_FEED then [BACKSLASH, LOWER_N]
    else if c == CARRIAGE_RETURN then [BACKSLASH, LOWER_R]
    else if c == TAB then [BACKSLASH, LOWER_T]
    else if c < 0x20 then [BACKSLASH, LOWER_U, DIGIT_0, DIGIT_0, LOWER_HEX[c / 16], LOWER_HEX[c % 16]]
    else [c]
  }

  function EscapeAll(s: Text): Text {
    if s == [] then [] else Escape(s[0]) + EscapeAll(s[1..])
  }

  function StringText(s: Text): Text {
    [QUOTE] + EscapeAll(s) + [QUOTE]
  }

  const INDENT: Text := [SPACE, SPACE, SPACE, SPACE]

  // append_indent; nothing in compact mode.
  function Indent(level: nat, pretty: bool): Text {
    if !pretty || level == 0 then [] else INDENT + Indent(level - 1, pretty)
  }

  function NewLine(pretty: bool): Text {
    if pretty then [LINE_FEED] else []
  }

  function Print(v: Json, level: nat, pretty: bool): (t: Text)
    ensures |t| >= 1
    decreases v
  {
    match v
    case Array(items) =>
      if items == [] then [LBRACKET, RBRACKET]
      else [LBRACKET] + NewLine(pretty) + PrintItems(items, level, pretty) + Indent(level, pretty) + [RBRACKET]
    case Object(members) =>
      if members == [] then [LBRACE, RBRACE]
      else [LBRACE] + NewLine(pretty) + PrintMembers(members, 0, level, pretty) + Indent(level, pretty) + [RBRACE]
    case String(s) => StringText(s)
    case _ => LeafText(v)
  }

  // The loop over the items of an array, from its first item on.
  function PrintItems(items: seq<Json>, level: nat, pretty: bool): Text
    decreases items
  {
    if items == [] then []
    else
      Indent(level + 1, pretty) + Print(items[0], level + 1, pretty) + Separator(|items|, pretty)
      + PrintItems(items[1..], level, pretty)
  }

  // Between two entries, or after the last one.
  function Separator(left: nat, pretty: bool): Text {
    (if left > 1 then [COMMA] else []) + NewLine(pretty)
  }

  // The loop over the members of an object from index i on. The value printed is the one found
  // under the member's name.
  function PrintMembers(members: seq<Entry<Json>>, i: nat, level: nat, pretty: bool): Text
    decreases members, |members| - i
  {
    if i >= |members| then []
    else
      Indent(level + 1, pretty) + StringText(members[i].name) + [COLON] + (if pretty then [SPACE] else [])
      + Print(members[Find(members, members[i].name)].value, level + 1, pretty)
      + Separator(|members| - i, pretty) + PrintMembers(members, i + 1, level, pretty)
  }

  // ---- Strings are printed as one of their spellings -------------------------------------------

  function UnitFor(c: byte): Unit {
    if c < 0x20 && c != BACKSPACE && c != TAB && c != LINE_FEED && c != FORM_FEED && c != CARRIAGE_RETURN then
      Hex([DIGIT_0, DIGIT_0, LOWER_HEX[c / 16], LOWER_HEX[c % 16]])
    else if Escape(c) == [c] then Raw(c)
    else Short(Escape(c)[1])
  }

  function Spell(s: Text): Spelling {
    if s == [] then [] else [UnitFor(s[0])] + Spell(s[1..])
  }

  lemma UnitForIsLegal(c: byte)
    ensures LegalUnit(UnitFor(c)) && UnitText(UnitFor(c)) == Escape(c)
    ensures UnitBytes(UnitFor(c)) == [c]
  {
    hide IsHex, HexValue, LOWER_HEX;
    if c < 0x20 {
      HexOfControl(c);
    }
  }

  lemma HexOfControl(c: byte)
    requires c < 0x20
    ensures var h := [DIGIT_0, DIGIT_0, LOWER_HEX[c / 16], LOWER_HEX[c % 16]]; IsHex(h) && HexValue(h) == c
  {
    LowerHexDigit(c / 16);
    LowerHexDigit(c % 16);
  }

  lemma LowerHexDigit(d: int)
    requires 0 <= d < 16
    ensures HexDigit(LOWER_HEX[d]) == d
  {
  }

  lemma {:induction false} SpellIsEscape(s: Text)
    ensures LegalSpelling(Spell(s)) && SpelledText(Spell(s)) == EscapeAll(s) && SpelledBytes(Spell(s)) == s
  {
    hide UnitFor, Escape, UnitText, UnitBytes, LegalUnit;
    if s != [] {
      UnitForIsLegal(s[0]);
      SpellIsEscape(s[1..]);
      assert Spell(s)[1..] == Spell(s[1..]);
    }
  }

  // ---- Values are printed as one of their texts ------------------------------------------------

  function Spaces(n: nat): Gap {
    if n == 0 then [] else [Space(SPACE)] + Spaces(n - 1)
  }

  // A line break and the indentation of the given level.
  function LineGap(level: nat, pretty: bool): Gap {
    if pretty then [Space(LINE_FEED)] + Spaces(4 * level) else []
  }

  function Render(v: Json, level: nat, pretty: bool): Doc
    decreases v
  {
    match v
    case Array(items) => ArrayOf([], RenderItems(items, level, pretty))
    case Object(members) => ObjectOf([], RenderMembers(members, level, pretty))
    case String(s) => Quote(Spell(s))
    case _ => Leaf(v)
  }

  // Only the last entry has a gap behind it.
  function AfterGap(left: nat, level: nat, pretty: bool): Gap {
    if left > 1 then [] else LineGap(level, pretty)
  }

  function RenderItems(items: seq<Json>, level: nat, pretty: bool): (ps: seq<Piece>)
    ensures |ps| == |items|
    decreases items
  {
    if items == [] then []
    else
      [Piece(LineGap(level + 1, pretty), Render(items[0], level + 1, pretty), AfterGap(|items|, level, pretty))]
      + RenderItems(items[1..], level, pretty)
  }

  function RenderMembers(members: seq<Entry<Json>>, level: nat, pretty: bool): (fs: seq<Field>)
    ensures |fs| == |members|
    decreases members
  {
    if members == [] then []
    else
      [Field(LineGap(level + 1, pretty), Spell(members[0].name), [],
             Piece(if pretty then [Space(SPACE)] else [], Render(members[0].value, level + 1, pretty),
                   AfterGap(|members|, level, pretty)))]
      + RenderMembers(members[1..], level, pretty)
  }

  lemma {:induction false} SpacesText(n: nat)
    ensures Blank(Spaces(n)) && |GapText(Spaces(n))| == n
    ensures forall k | 0 <= k < n :: GapText(Spaces(n))[k] == SPACE
  {
    if n > 0 {
      SpacesText(n - 1);
      assert Spaces(n)[1..] == Spaces(n - 1);
    }
  }

  lemma {:induction false} IndentText(level: nat)
    ensures |Indent(level, true)| == 4 * level
    ensures forall k | 0 <= k < 4 * level :: Indent(level, true)[k] == SPACE
  {
    if level > 0 {
      IndentText(level - 1);
    }
  }

  lemma LineGapText(level: nat, pretty: bool)
    ensures Blank(LineGap(level, pretty))
    ensures GapText(LineGap(level, pretty)) == NewLine(pretty) + Indent(level, pretty)
  {
    if pretty {
      SpacesText(4 * level);
      IndentText(level);
      assert GapText(Spaces(4 * level)) == Indent(level, true);
      assert LineGap(level, pretty)[1..] == Spaces(4 * level);
    }
  }

  lemma AfterGapText(left: nat, level: nat, pretty: bool)
    ensures Blank(AfterGap(left, level, pretty))
    ensures GapText(AfterGap(left, level, pretty)) ==
            if left > 1 then [] else NewLine(pretty) + Indent(level, pretty)
  {
    LineGapText(level, pretty);
  }

  // The printer puts the line break behind an entry and the indentation before it; the text has both
  // in the gap before the entry.
  lemma Regroup(nl: Text, indent: Text, entry: Text, rest: Text, close: Text)
    ensures ((nl + indent) + entry + []) + ([COMMA] + (nl + rest + close)) ==
            nl + (indent + entry + ([COMMA] + nl) + rest) + close
    ensures ((nl + indent) + entry + (nl + close)) + [] == nl + (indent + entry + ([] + nl) + []) + close
  {
  }

  lemma Brackets(open: Text, nl: Text, body: Text, indent: Text, close: Text)
    ensures open + (nl + body + indent) + close == open + nl + body + indent + close
  {
  }

  /** Printing a tree with distinct names gives one of its texts. */
  lemma {:induction false} PrintIsText(v: Json, level: nat, pretty: bool)
    requires DistinctNames(v)
    ensures Legal(Render(v, level, pretty)) && Value(Render(v, level, pretty)) == v
    ensures DocText(Render(v, level, pretty)) == Print(v, level, pretty)
    decreases v
  {
    hide EscapeAll, SpelledText, SpelledBytes, LegalSpelling, Indent, Spell, PrintItems, PrintMembers, RenderItems,
      RenderMembers, ItemsText, FieldsText, LegalItems, LegalFields, FieldEntries, ItemValues, GapText, NewLine,
      NumberText;
    match v
    case Array(items) =>
      PrintItemsIsText(items, level, pretty);
      Brackets([LBRACKET], NewLine(pretty), PrintItems(items, level, pretty), Indent(level, pretty), [RBRACKET]);
      EmptyGap([LBRACKET, RBRACKET], [LBRACKET], [RBRACKET]);
    case Object(members) =>
      PrintMembersIsText(members, 0, level, pretty);
      assert members[0..] == members;
      Brackets([LBRACE], NewLine(pretty), PrintMembers(members, 0, level, pretty), Indent(level, pretty), [RBRACE]);
      EmptyGap([LBRACE, RBRACE], [LBRACE], [RBRACE]);
    case String(s) => SpellIsEscape(s);
    case _ =>
  }

  lemma EmptyGap(both: Text, open: Text, close: Text)
    requires both == open + close
    ensures open + GapText([]) + close == both
  {
  }

  lemma {:induction false} PrintItemsIsText(items: seq<Json>, level: nat, pretty: bool)
    requires forall k | 0 <= k < |items| :: DistinctNames(items[k])
    ensures LegalItems(RenderItems(items, level, pretty))
    ensures ItemValues(RenderItems(items, level, pretty)) == items
    ensures items != [] ==>
              ItemsText(RenderItems(items, level, pretty)) ==
              NewLine(pretty) + PrintItems(items, level, pretty) + Indent(level, pretty)
    decreases items
  {
    hide Print, Render, DocText, GapText, LineGap, AfterGap, Indent, NewLine, Value, Legal, Blank, DistinctNames;
    if items != [] {
      var rest := items[1..];
      var p := Piece(LineGap(level + 1, pretty), Render(items[0], level + 1, pretty), AfterGap(|items|, level, pretty));
      LineGapText(level + 1, pretty);
      AfterGapText(|items|, level, pretty);
      PrintIsText(items[0], level + 1, pretty);
      PrintItemsIsText(rest, level, pretty);
      ItemsCons(p, RenderItems(rest, level, pretty));
      Regroup(NewLine(pretty), Indent(level + 1, pretty), Print(items[0], level + 1, pretty),
              PrintItems(rest, level, pretty), Indent(level, pretty));
      assert items == [items[0]] + rest;
    }
  }

  // The text of a member without the gap in front, as the printer writes it.
  function MemberText(e: Entry<Json>, level: nat, pretty: bool): Text {
    StringText(e.name) + [COLON] + (if pretty then [SPACE] else []) + Print(e.value, level, pretty)
  }

  lemma FieldIsMemberText(e: Entry<Json>, left: nat, level: nat, pretty: bool)
    requires Legal(Render(e.value, level + 1, pretty)) && Value(Render(e.value, level + 1, pretty)) == e.value
    requires DocText(Render(e.value, level + 1, pretty)) == Print(e.value, level + 1, pretty)
    ensures var f := Field(LineGap(level + 1, pretty), Spell(e.name), [],
                           Piece(if pretty then [Space(SPACE)] else [], Render(e.value, level + 1, pretty),
                                 AfterGap(left, level, pretty)));
            && LegalField(f) && FieldEntry(f) == e
            && FieldText(f) == (NewLine(pretty) + Indent(level + 1, pretty)) + MemberText(e, level + 1, pretty) +
                               (if left > 1 then [] else NewLine(pretty) + Indent(level, pretty))
  {
    hide Print, Render, DocText, LineGap, AfterGap, Indent, NewLine, Value, Legal, EscapeAll, Spell, SpelledText,
      SpelledBytes;
    LineGapText(level + 1, pretty);
    AfterGapText(left, level, pretty);
    SpellIsEscape(e.name);
    assert GapText([]) == [];
    assert GapText([Space(SPACE)]) == [SPACE] by { assert [Space(SPACE)][1..] == []; }
    assert Blank([Space(SPACE)]) && Blank([]);
    MemberParts(NewLine(pretty) + Indent(level + 1, pretty), StringText(e.name), if pretty then [SPACE] else [],
                Print(e.value, level + 1, pretty), if left > 1 then [] else NewLine(pretty) + Indent(level, pretty));
  }

  lemma MemberParts(before: Text, key: Text, space: Text, value: Text, after: Text)
    ensures before + key + [] + [COLON] + (space + value + after) == before + (key + [COLON] + space + value) + after
  {
  }

  lemma {:induction false} PrintMembersIsText(members: seq<Entry<Json>>, i: nat, level: nat, pretty: bool)
    requires i <= |members| && Distinct(members)
    requires forall k | 0 <= k < |members| :: DistinctNames(members[k].value)
    ensures LegalFields(RenderMembers(members[i..], level, pretty))
    ensures FieldEntries(RenderMembers(members[i..], level, pretty)) == members[i..]
    ensures i < |members| ==>
              FieldsText(RenderMembers(members[i..], level, pretty)) ==
              NewLine(pretty) + PrintMembers(members, i, level, pretty) + Indent(level, pretty)
    decreases members, |members| - i
  {
    hide Print, Render, DocText, GapText, LineGap, AfterGap, Indent, NewLine, Value, Legal, Blank, DistinctNames,
      LegalField, FieldEntry, FieldText, StringText, Spell, Find, Distinct;
    if i < |members| {
      var e, left := members[i], |members| - i;
      var f := Field(LineGap(level + 1, pretty), Spell(e.name), [],
                     Piece(if pretty then [Space(SPACE)] else [], Render(e.value, level + 1, pretty),
                           AfterGap(left, level, pretty)));
      PrintIsText(e.value, level + 1, pretty);
      FieldIsMemberText(e, left, level, pretty);
      PrintMembersIsText(members, i + 1, level, pretty);
      FindAt(members, i);
      assert members[i..] == [e] + members[i + 1..];
      FieldsCons(f, RenderMembers(members[i + 1..], level, pretty));
      assert RenderMembers(members[i..], level, pretty) == [f] + RenderMembers(members[i + 1..], level, pretty);
      Regroup(NewLine(pretty), Indent(level + 1, pretty), MemberText(e, level + 1, pretty),
              PrintMembers(members, i + 1, level, pretty), Indent(level, pretty));
      MemberFirst(Indent(level + 1, pretty), StringText(e.name), if pretty then [SPACE] else [],
                  Print(e.value, level + 1, pretty), Separator(left, pretty),
                  PrintMembers(members, i + 1, level, pretty));
    }
  }

  lemma MemberFirst(indent: Text, key: Text, space: Text, value: Text, separator: Text, rest: Text)
    ensures indent + key + [COLON] + space + value + separator + rest ==
            indent + (key + [COLON] + space + value) + separator + rest
  {
  }

  lemma PrintedTextIsRead(v: Json, pretty: bool)
    requires DistinctNames(v) && DepthAtMost(v, MAX_NESTING)
    ensures var r := Parser.ParseText(Print(v, 0, pretty)); r.Parsed? && r.value == v
  {
    hide Print, Render, DocText, Value, DistinctNames, DepthAtMost, Legal, Parser.ParseText;
    var d := Render(v, 0, pretty);
    PrintIsText(v, 0, pretty);
    WholeTextIsRead([], d, []);
    assert GapText([]) == [];
    assert [] + DocText(d) + [] == Print(v, 0, pretty);
  }

  /** Parsing undoes printing, compact or pretty, with the members in the same order, for exactly the
      trees with distinct names and at most MAX_NESTING levels below the root. */
  lemma {:induction false} ParseUndoesPrint(v: Json, pretty: bool)
    ensures (var r := Parser.ParseText(Print(v, 0, pretty)); r.Parsed? && r.value == v) <==>
            DistinctNames(v) && DepthAtMost(v, MAX_NESTING)
  {
    hide Print, DistinctNames, DepthAtMost, Parser.ParseText;
    Parser.AcceptedTextIsNormal(Print(v, 0, pretty));
    if DistinctNames(v) && DepthAtMost(v, MAX_NESTING) {
      PrintedTextIsRead(v, pretty);
    }
  }

  /** Whatever text the parser accepts, printing the tree and parsing again gives the same tree. */
  lemma {:induction false} PrintedFormIsStable(text: Text, pretty: bool)
    requires Parser.ParseText(text).Parsed?
    ensures var v := Parser.ParseText(text).value;
            var r := Parser.ParseText(Print(v, 0, pretty));
            r.Parsed? && r.value == v
  {
    Parser.AcceptedTextIsNormal(text);
    ParseUndoesPrint(Parser.ParseText(text).value, pretty);
  }

  // ---- The layout of the printed text ----------------------------------------------------------

  // Four spaces a level and one behind a colon; nothing between empty brackets.
  const PRETTY: Style := Style(4, [32], [])

  lemma RowIsIndent(level: nat)
    ensures Row(level, PRETTY) == [LINE_FEED] + Indent(level, true)
  {
    IndentText(level);
  }

  lemma NoIndent(level: nat)
    ensures Indent(level, false) == []
  {
  }

  lemma PrintStarts(v: Json, level: nat, pretty: bool)
    ensures var c := Print(v, level, pretty)[0]; c != 93 && c != 125
  {
    if v.Fixed? {
      var n: int := v.n;
      DecimalIsDigits(if n < 0 then -n else n);
    }
  }

  lemma StringLays(s: Text, rest: Text, depth: nat)
    ensures Layout(StringText(s) + rest, depth, PRETTY) == StringText(s) + Layout(rest, depth, PRETTY)
    ensures Tight(StringText(s) + rest) <==> Tight(rest)
  {
    hide Layout, Tight, Spell, SpelledText, EscapeAll, LegalSpelling;
    SpellIsEscape(s);
    LegalIsLooseSpelling(Spell(s));
    LiteralLays(Spell(s), rest, depth, PRETTY);
  }

  lemma LegalIsLooseSpelling(us: Spelling)
    requires LegalSpelling(us)
    ensures JsonRefusal.LooseSpelling(us)
  {
    hide LegalUnit;
  }

  /** Pretty printing is compact printing with a layout; and compact texts have no white space outside
      their string literals. */
  lemma {:induction false} PrintLays(v: Json, level: nat, rest: Text)
    ensures Layout(Print(v, level, false) + rest, level, PRETTY) == Print(v, level, true) + Layout(rest, level, PRETTY)
    ensures Tight(Print(v, level, false) + rest) <==> Tight(rest)
    decreases v
  {
    hide Layout, Tight, PrintItems, PrintMembers, Indent, LeafText, StringText, Row;
    match v
    case Array(items) =>
      if items == [] {
        EmptyLays(LBRACKET, RBRACKET, rest, level, PRETTY);
      } else {
        ItemsLay(items, level, rest);
        NoIndent(level);
        RowIsIndent(level + 1);
        var body := PrintItems(items, level, false) + ([RBRACKET] + rest);
        ItemsStart(items, level);
        OpenLays(LBRACKET, body, level, PRETTY);
        Around([LBRACKET], PrintItems(items, level, false), [RBRACKET], rest);
        Shown([LBRACKET], Indent(level + 1, true), Layout(body, level + 1, PRETTY), PrintItems(items, level, true),
              Indent(level, true), [RBRACKET], Layout(rest, level, PRETTY));
      }
    case Object(members) =>
      if members == [] {
        EmptyLays(LBRACE, RBRACE, rest, level, PRETTY);
      } else {
        MembersLay(members, 0, level, rest);
        NoIndent(level);
        RowIsIndent(level + 1);
        var body := PrintMembers(members, 0, level, false) + ([RBRACE] + rest);
        MembersStart(members, level);
        OpenLays(LBRACE, body, level, PRETTY);
        Around([LBRACE], PrintMembers(members, 0, level, false), [RBRACE], rest);
        Shown([LBRACE], Indent(level + 1, true), Layout(body, level + 1, PRETTY), PrintMembers(members, 0, level, true),
              Indent(level, true), [RBRACE], Layout(rest, level, PRETTY));
      }
    case String(s) => StringLays(s, rest, level);
    case _ => LeafLays(v, rest, level, PRETTY);
  }

  lemma Around(open: Text, body: Text, close: Text, rest: Text)
    ensures (open + [] + body + [] + close) + rest == open + (body + (close + rest))
  {
  }

  lemma Shown(open: Text, indent: Text, after: Text, body: Text, outer: Text, close: Text, rest: Text)
    requires indent + after == body + outer + close + rest
    ensures open + ([LINE_FEED] + indent) + after == (open + [LINE_FEED] + body + outer + close) + rest
  {
    assert open + ([LINE_FEED] + indent) + after == open + [LINE_FEED] + (indent + after);
  }

  lemma ItemsStart(items: seq<Json>, level: nat)
    requires items != []
    ensures var t := PrintItems(items, level, false); t != [] && t[0] != 93 && t[0] != 125
  {
    hide Print;
    NoIndent(level + 1);
    PrintStarts(items[0], level + 1, false);
  }

  lemma MembersStart(members: seq<Entry<Json>>, level: nat)
    requires members != []
    ensures var t := PrintMembers(members, 0, level, false); t != [] && t[0] == 34
  {
    hide Print, Find;
    NoIndent(level + 1);
  }

  lemma ItemsUnfold(items: seq<Json>, level: nat, pretty: bool)
    requires items != []
    ensures PrintItems(items, level, pretty) ==
            Indent(level + 1, pretty) + Print(items[0], level + 1, pretty) + Separator(|items|, pretty)
            + PrintItems(items[1..], level, pretty)
    ensures PrintItems([], level, pretty) == []
  {
  }

  // The items, from where the first one is printed to behind the closing bracket.
  lemma {:induction false} ItemsLay(items: seq<Json>, level: nat, rest: Text)
    requires items != []
    ensures Indent(level + 1, true) +
            Layout(PrintItems(items, level, false) + ([RBRACKET] + rest), level + 1, PRETTY) ==
            PrintItems(items, level, true) + Indent(level, true) + [RBRACKET] + Layout(rest, level, PRETTY)
    ensures Tight(PrintItems(items, level, false) + ([RBRACKET] + rest)) <==> Tight(rest)
    decreases items
  {
    hide Layout, Tight, Print, PrintItems, Indent, Row;
    var tail, first, pretty := items[1..], Print(items[0], level + 1, false), Print(items[0], level + 1, true);
    ItemsUnfold(items, level, false);
    ItemsUnfold(items, level, true);
    NoIndent(level + 1);
    if tail == [] {
      PrintLays(items[0], level + 1, [RBRACKET] + rest);
      CloseLays(RBRACKET, rest, level, PRETTY);
      RowIsIndent(level);
      LastLaid(first, [RBRACKET] + rest);
      LastShown(Indent(level + 1, true), pretty, Indent(level, true), [RBRACKET], Layout(rest, level, PRETTY));
    } else {
      var after := PrintItems(tail, level, false) + ([RBRACKET] + rest);
      ItemsLay(tail, level, rest);
      CommaLays(after, level + 1, PRETTY);
      RowIsIndent(level + 1);
      PrintLays(items[0], level + 1, [COMMA] + after);
      NextLaid(first, PrintItems(tail, level, false), [RBRACKET] + rest);
      NextShown(Indent(level + 1, true), pretty, Layout(after, level + 1, PRETTY), PrintItems(tail, level, true),
                Indent(level, true), [RBRACKET], Layout(rest, level, PRETTY));
    }
  }

  lemma LastLaid(first: Text, rest: Text)
    ensures ([] + first + ([] + []) + []) + rest == first + rest
  {
  }

  lemma LastShown(indent: Text, pretty: Text, outer: Text, close: Text, rest: Text)
    ensures indent + (pretty + ([LINE_FEED] + outer + close + rest)) ==
            (indent + pretty + ([] + [LINE_FEED]) + []) + outer + close + rest
  {
  }

  lemma NextLaid(first: Text, tail: Text, rest: Text)
    ensures ([] + first + ([COMMA] + []) + tail) + rest == first + ([COMMA] + (tail + rest))
  {
  }

  lemma NextShown(indent: Text, pretty: Text, after: Text, tail: Text, outer: Text, close: Text, rest: Text)
    requires indent + after == tail + outer + close + rest
    ensures indent + (pretty + ([COMMA] + ([LINE_FEED] + indent) + after)) ==
            (indent + pretty + ([COMMA] + [LINE_FEED]) + tail) + outer + close + rest
  {
    assert indent + (pretty + ([COMMA] + ([LINE_FEED] + indent) + after)) ==
           indent + pretty + [COMMA] + [LINE_FEED] + (indent + after);
  }

  // A member without what separates it from the next one.
  function MemberLine(members: seq<Entry<Json>>, i: nat, level: nat, pretty: bool): Text
    requires i < |members|
  {
    StringText(members[i].name) + ([COLON] + ((if pretty then [SPACE] else [])
    + Print(members[Find(members, members[i].name)].value, level + 1, pretty)))
  }

  lemma MembersUnfold(members: seq<Entry<Json>>, i: nat, level: nat, pretty: bool)
    requires i < |members|
    ensures PrintMembers(members, i, level, pretty) ==
            Indent(level + 1, pretty) + MemberLine(members, i, level, pretty) + Separator(|members| - i, pretty)
            + PrintMembers(members, i + 1, level, pretty)
    ensures PrintMembers(members, |members|, level, pretty) == []
  {
    hide Print, Find, StringText, Indent;
    SixParts(Indent(level + 1, pretty), StringText(members[i].name), [COLON], if pretty then [SPACE] else [],
             Print(members[Find(members, members[i].name)].value, level + 1, pretty),
             Separator(|members| - i, pretty), PrintMembers(members, i + 1, level, pretty));
  }

  lemma SixParts(a: Text, b: Text, c: Text, d: Text, e: Text, f: Text, g: Text)
    ensures a + b + c + d + e + f + g == a + (b + (c + (d + e))) + f + g
  {
  }

  lemma {:induction false} MemberLays(members: seq<Entry<Json>>, i: nat, level: nat, rest: Text)
    requires i < |members|
    ensures Layout(MemberLine(members, i, level, false) + rest, level + 1, PRETTY) ==
            MemberLine(members, i, level, true) + Layout(rest, level + 1, PRETTY)
    ensures Tight(MemberLine(members, i, level, false) + rest) <==> Tight(rest)
    decreases members, 0
  {
    hide Layout, Tight, Print, StringText, Find;
    var key, v := StringText(members[i].name), members[Find(members, members[i].name)].value;
    PrintLays(v, level + 1, rest);
    ColonLays(Print(v, level + 1, false) + rest, level + 1, PRETTY);
    StringLays(members[i].name, [COLON] + (Print(v, level + 1, false) + rest), level + 1);
    LineParts(key, [], Print(v, level + 1, false), rest);
    LineParts(key, [SPACE], Print(v, level + 1, true), Layout(rest, level + 1, PRETTY));
  }

  lemma LineParts(key: Text, space: Text, value: Text, rest: Text)
    ensures (key + ([COLON] + (space + value))) + rest == key + ([COLON] + space + (value + rest))
    ensures space == [] ==> (key + ([COLON] + (space + value))) + rest == key + ([COLON] + (value + rest))
  {
  }

  lemma {:induction false} MembersLay(members: seq<Entry<Json>>, i: nat, level: nat, rest: Text)
    requires i < |members|
    ensures Indent(level + 1, true) +
            Layout(PrintMembers(members, i, level, false) + ([RBRACE] + rest), level + 1, PRETTY) ==
            PrintMembers(members, i, level, true) + Indent(level, true) + [RBRACE] + Layout(rest, level, PRETTY)
    ensures Tight(PrintMembers(members, i, level, false) + ([RBRACE] + rest)) <==> Tight(rest)
    decreases members, |members| - i
  {
    hide Layout, Tight, MemberLine, PrintMembers, Indent, Row;
    var first, pretty := MemberLine(members, i, level, false), MemberLine(members, i, level, true);
    MembersUnfold(members, i, level, false);
    MembersUnfold(members, i, level, true);
    NoIndent(level + 1);
    if i + 1 == |members| {
      MemberLays(members, i, level, [RBRACE] + rest);
      CloseLays(RBRACE, rest, level, PRETTY);
      RowIsIndent(level);
      LastLaid(first, [RBRACE] + rest);
      LastShown(Indent(level + 1, true), pretty, Indent(level, true), [RBRACE], Layout(rest, level, PRETTY));
    } else {
      var tail := PrintMembers(members, i + 1, level, false);
      var after := tail + ([RBRACE] + rest);
      MembersLay(members, i + 1, level, rest);
      CommaLays(after, level + 1, PRETTY);
      RowIsIndent(level + 1);
      MemberLays(members, i, level, [COMMA] + after);
      NextLaid(first, tail, [RBRACE] + rest);
      NextShown(Indent(level + 1, true), pretty, Layout(after, level + 1, PRETTY),
                PrintMembers(members, i + 1, level, true), Indent(level, true), [RBRACE], Layout(rest, level, PRETTY));
    }
  }

  /** The pretty text is the compact text with a new line, indented by four spaces for each open
      bracket, behind brackets that open, in front of those that close and behind commas, and a space
      behind colons. The compact text has no white space outside its string literals. */
  lemma {:induction false} PrettyIsLayout(v: Json)
    ensures Print(v, 0, true) == Layout(Print(v, 0, false), 0, Style(4, [32], []))
    ensures Tight(Print(v, 0, false))
  {
    hide Print;
    PrintLays(v, 0, []);
    assert Print(v, 0, false) + [] == Print(v, 0, false) && Print(v, 0, true) + [] == Print(v, 0, true);
  }

  /** What a byte of a string is printed as: slashes are escaped, so that the text can stand inside
      XML and HTML; the shortest escape is taken, and hex digits are in lower case. */
  lemma {:induction false} EscapeIsExact(c: byte)
    ensures |Escape(c)| == if c in {8, 9, 10, 12, 13, 34, 47, 92} then 2 else if c < 32 then 6 else 1
    ensures |Escape(c)| == 1 ==> Escape(c) == [c]
    ensures |Escape(c)| > 1 ==> Escape(c)[0] == 92
    ensures |Escape(c)| == 2 ==> WritesShort(Escape(c)[1], c)
    ensures |Escape(c)| == 6 ==>
              Escape(c)[1] == 117 && WritesHex(Escape(c)[2..], c)
              && forall k | 2 <= k < 6 :: Escape(c)[k] !in {65, 66, 67, 68, 69, 70}
  {
    if c < 32 {
      HexOfControl(c);
      HexIsRead([DIGIT_0, DIGIT_0, LOWER_HEX[c / 16], LOWER_HEX[c % 16]], c);
    }
  }

  /** Numbers are printed without leading zeros, and with a sign exactly if they are negative. */
  lemma {:induction false} NumberIsCanonical(n: int)
    ensures n < 0 <==> NumberText(n)[0] == 45
    ensures n != 0 ==> NumberText(n)[if n < 0 then 1 else 0] != 48
    ensures n == 0 ==> NumberText(n) == [48]
  {
    if n != 0 {
      NoLeadingZero(if n < 0 then -n else n);
    }
  }

  lemma {:induction false} NoLeadingZero(n: nat)
    requires n > 0
    ensures DecimalText(n)[0] != 48 && IsDigit(DecimalText(n)[0])
  {
    if n >= 10 {
      NoLeadingZero(n / 10);
    }
  }
}
