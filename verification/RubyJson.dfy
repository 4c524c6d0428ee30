/** The Ruby-facing generator and the conversion of parsed values back to Ruby
    (mrbgems/json-with-casing/src/mrb_json.c, lines 57-290 and 317-372). */
module RubyJson {
  import opened Bytes
  import opened Options
  import opened JsonSpelling
  import opened Entries
  import opened JsonTree
  import opened JsonSyntax
  import opened JsonRefusal
  import opened JsonLayout
  import opened KeyCasing
  import Printer = JsonPrinter
  import Parser = JsonParser

  // Ruby values without floats and without objects that bring their own to_json. A hash with symbol
  // keys keeps its insertion order.
  datatype Ruby =
    | Nil
    | Bool(b: bool)
    | Int(n: int64)
    | Str(bytes: Text)
    | Sym(name: CString)
    | Ary(items: seq<Ruby>)
    | Hash(pairs: seq<Entry<Ruby>>)

  // ---- Generating ------------------------------------------------------------------------------

  // The switch over the bytes of a string.
  function EscapeByte(c: byte): Text {
    if c == BACKSLASH then [BACKSLASH, BACKSLASH]
    else if c == QUOTE then [BACKSLASH, QUOTE]
    else if c == BACKSPACE then [BACKSLASH, LOWER_B]
    else if c == FORM_FEED then [BACKSLASH, LOWER_F]
    else if c == LINE_FEED then [BACKSLASH, LOWER_N]
    else if c == CARRIAGE_RETURN then [BACKSLASH, LOWER_R]
    else if c == TAB then [BACKSLASH, LOWER_T]
    else [c]
  }

  // The loop over a string stops at its first zero byte.
  function EscapeBytes(s: Text): Text {
    if s == [] || s[0] == NUL then [] else EscapeByte(s[0]) + EscapeBytes(s[1..])
  }

  function Blanks(n: nat): Text {
    if n == 0 then [] else [SPACE, SPACE] + Blanks(n - 1)
  }

  // pretty_cat; nothing at the negative level that stands for compact output.
  function Break(pretty: int): Text {
    if pretty < 0 then [] else [LINE_FEED] + Blanks(pretty)
  }

  function Deeper(pretty: int): int {
    if pretty < 0 then pretty else pretty + 1
  }

  function KeyText(name: CString): Text {
    [QUOTE] + SymbolToKey(name) + [QUOTE]
  }

  // mrb_value_to_string
  function Generate(v: Ruby, pretty: int): (t: Text)
    decreases v
  {
    match v
    case Nil => Parser.NULL_TOKEN
    case Bool(b) => if b then Parser.TRUE_TOKEN else Parser.FALSE_TOKEN
    case Int(n) => NumberText(n)
    case Sym(name) => KeyText(name)
    case Str(bytes) => [QUOTE] + EscapeBytes(bytes) + [QUOTE]
    case Ary(items) =>
      if items == [] then [LBRACKET] + (if pretty >= 0 then [LINE_FEED] else []) + [RBRACKET]
      else [LBRACKET] + Break(Deeper(pretty)) + GenerateItems(items, Deeper(pretty)) + Break(pretty) + [RBRACKET]
    case Hash(pairs) =>
      if pairs == [] then [LBRACE] + (if pretty >= 0 then [LINE_FEED] else []) + [RBRACE]
      else [LBRACE] + Break(Deeper(pretty)) + GeneratePairs(pairs, 0, Deeper(pretty)) + Break(pretty) + [RBRACE]
  }

  function Comma(left: nat, pretty: int): Text {
    if left > 1 then [COMMA] + Break(pretty) else []
  }

  function GenerateItems(items: seq<Ruby>, pretty: int): Text
    decreases items
  {
    if items == [] then []
    else Generate(items[0], pretty) + Comma(|items|, pretty) + GenerateItems(items[1..], pretty)
  }

  // The value of a pair is fetched from the hash by its key.
  function GeneratePairs(pairs: seq<Entry<Ruby>>, i: nat, pretty: int): Text
    decreases pairs, |pairs| - i
  {
    if i >= |pairs| then []
    else
      KeyText(pairs[i].name) + [COLON] + Generate(pairs[Find(pairs, pairs[i].name)].value, pretty)
      + Comma(|pairs| - i, pretty) + GeneratePairs(pairs, i + 1, pretty)
  }

  // ---- Converting parsed values back -----------------------------------------------------------

  lemma {:induction false} SymbolHasNoNul(key: CString, i: nat)
    requires i <= |key|
    ensures 0 !in SymbolFrom(key, i)
    decreases |key| - i
  {
    hide SymbolFrom, SymbolPart;
    if i < |key| {
      SymbolHasNoNul(key, i + 1);
      SymbolStep(key, i);
      PartHasNoNul(key, i);
    } else {
      NothingLeft(key);
    }
  }

  lemma PartHasNoNul(key: CString, i: nat)
    requires i < |key|
    ensures 0 !in SymbolPart(key, i)
  {
    assert key[i] in key;
  }

  function SymbolName(key: CString): CString {
    SymbolHasNoNul(key, 0);
    KeyToSymbol(key)
  }

  // json_value_to_mrb_value with symbolize_names
  function ToRuby(v: Json): Ruby
    decreases v
  {
    match v
    case Null => Nil
    case Boolean(b) => Bool(b)
    case Fixed(n) => Int(n)
    case String(s) => Str(s)
    case Array(items) => Ary(ToRubyItems(items))
    case Object(members) => Hash(ToRubyPairs(members, |members|))
  }

  function ToRubyItems(items: seq<Json>): seq<Ruby>
    decreases items
  {
    if items == [] then [] else [ToRuby(items[0])] + ToRubyItems(items[1..])
  }

  // The hash after the first n members; a key that is already there is overwritten.
  function ToRubyPairs(members: seq<Entry<Json>>, n: nat): seq<Entry<Ruby>>
    requires n <= |members|
    decreases members, n
  {
    if n == 0 then []
    else
      var name := members[n - 1].name;
      Set(ToRubyPairs(members, n - 1), SymbolName(name), ToRuby(members[Find(members, name)].value))
  }

  lemma NoPairs(members: seq<Entry<Json>>)
    ensures ToRubyPairs(members, 0) == []
  {
  }

  lemma OnePairMore(members: seq<Entry<Json>>, i: nat)
    requires i < |members|
    ensures var name := members[i].name;
            ToRubyPairs(members, i + 1) ==
            Set(ToRubyPairs(members, i), SymbolName(name), ToRuby(members[Find(members, name)].value))
  {
  }

  // Member i is the last one whose name becomes the given symbol.
  ghost predicate LastAs(members: seq<Entry<Json>>, n: nat, symbol: Text, i: nat)
    requires n <= |members|
  {
    && i < n && KeyToSymbol(members[i].name) == symbol
    && forall j | i < j < n :: KeyToSymbol(members[j].name) != symbol
  }

  lemma LastAsBefore(members: seq<Entry<Json>>, n: nat, m: nat, symbol: Text)
    requires n == m + 1 <= |members| && KeyToSymbol(members[m].name) != symbol
    ensures forall i: nat :: LastAs(members, n, symbol, i) <==> LastAs(members, m, symbol, i)
    ensures (exists i: nat :: LastAs(members, n, symbol, i)) <==> exists i: nat :: LastAs(members, m, symbol, i)
  {
    hide KeyToSymbol;
  }

  lemma {:induction false} LastMemberWinsUpTo(members: seq<Entry<Json>>, n: nat, symbol: Text)
    requires Distinct(members) && n <= |members|
    ensures var pairs := ToRubyPairs(members, n);
            && Distinct(pairs)
            && (Has(pairs, symbol) <==> exists i: nat :: LastAs(members, n, symbol, i))
            && forall i: nat | LastAs(members, n, symbol, i) :: Lookup(pairs, symbol) == Some(ToRuby(members[i].value))
    decreases n
  {
    hide KeyToSymbol, Find, Set, ToRuby, Lookup;
    if n > 0 {
      var m := members[n - 1];
      var before := ToRubyPairs(members, n - 1);
      LastMemberWinsUpTo(members, n - 1, symbol);
      FindAt(members, n - 1);
      SetIsUpdate(before, SymbolName(m.name), ToRuby(m.value));
      LookupSet(before, SymbolName(m.name), ToRuby(m.value), symbol);
      HasIsLookup(before, symbol);
      HasIsLookup(ToRubyPairs(members, n), symbol);
      if KeyToSymbol(m.name) == symbol {
        assert LastAs(members, n, symbol, n - 1);
      } else {
        LastAsBefore(members, n, n - 1, symbol);
        assert Has(ToRubyPairs(members, n), symbol) <==> Has(before, symbol);
      }
    }
  }

  lemma HasIsLookup<V>(es: seq<Entry<V>>, name: Text)
    ensures Has(es, name) <==> Lookup(es, name).Some?
  {
  }

  /** Names that become the same symbol: the hash has that key once, with the value of the last of them. */
  lemma {:induction false} LastMemberWins(members: seq<Entry<Json>>, symbol: Text)
    requires Distinct(members)
    ensures var hash := ToRuby(Object(members));
            && hash.Hash? && Distinct(hash.pairs)
            && (Has(hash.pairs, symbol) <==> exists i: nat :: LastAs(members, |members|, symbol, i))
            && forall i: nat | LastAs(members, |members|, symbol, i) ::
                 Lookup(hash.pairs, symbol) == Some(ToRuby(members[i].value))
  {
    LastMemberWinsUpTo(members, |members|, symbol);
  }

  // ---- The values that come back unchanged -----------------------------------------------------

  // The only control bytes are backspace, tab, line feed, form feed and carriage return, which have a
  // one-letter escape.
  predicate PlainString(s: Text) {
    forall i | 0 <= i < |s| :: s[i] >= 0x20 || s[i] in {8, 9, 10, 12, 13}
  }

  predicate SafeByte(c: byte) {
    c >= 0x20 && c != QUOTE && c != BACKSLASH
  }

  // Keys are written without escapes, and these need none.
  predicate SafeName(name: CString) {
    forall i | 0 <= i < |name| :: SafeByte(name[i])
  }

  ghost predicate PlainKey(name: CString) {
    NoUpper(name) && Invertible(name) && SafeName(name)
  }

  // Each hash has a key once, and no name needs an escape.
  ghost predicate Tame(v: Ruby)
    decreases v
  {
    match v
    case Sym(name) => SafeName(name)
    case Ary(items) => forall i | 0 <= i < |items| :: Tame(items[i])
    case Hash(pairs) =>
      && Distinct(pairs)
      && forall i | 0 <= i < |pairs| :: SafeName(pairs[i].name) && Tame(pairs[i].value)
    case _ => true
  }

  // The strings are plain as far as they are written.
  ghost predicate Writable(v: Ruby)
    decreases v
  {
    match v
    case Str(bytes) => PlainString(UpToNul(bytes))
    case Ary(items) => forall i | 0 <= i < |items| :: Writable(items[i])
    case Hash(pairs) => forall i | 0 <= i < |pairs| :: Writable(pairs[i].value)
    case _ => true
  }

  ghost predicate Plain(v: Ruby, levels: int)
    decreases v
  {
    match v
    case Str(bytes) => 0 <= levels && PlainString(bytes)
    case Sym(_) => false
    case Ary(items) => 0 <= levels && forall i | 0 <= i < |items| :: Plain(items[i], levels - 1)
    case Hash(pairs) =>
      && 0 <= levels && Distinct(pairs)
      && forall i | 0 <= i < |pairs| :: PlainKey(pairs[i].name) && Plain(pairs[i].value, levels - 1)
    case _ => 0 <= levels
  }

  // The tree the generated text stands for.
  function ToJson(v: Ruby): Json
    decreases v
  {
    match v
    case Nil => Null
    case Bool(b) => Boolean(b)
    case Int(n) => Fixed(n)
    case Str(bytes) => String(UpToNul(bytes))
    case Sym(name) => String(UpToNul(SymbolToKey(name)))
    case Ary(items) => Array(ToJsonItems(items))
    case Hash(pairs) => Object(ToJsonPairs(pairs))
  }

  function ToJsonItems(items: seq<Ruby>): (vs: seq<Json>)
    ensures |vs| == |items| && forall i | 0 <= i < |vs| :: vs[i] == ToJson(items[i])
    decreases items
  {
    if items == [] then [] else [ToJson(items[0])] + ToJsonItems(items[1..])
  }

  function ToJsonPairs(pairs: seq<Entry<Ruby>>): (es: seq<Entry<Json>>)
    ensures |es| == |pairs|
    ensures forall i | 0 <= i < |es| ::
              es[i] == Entry(UpToNul(SymbolToKey(pairs[i].name)), ToJson(pairs[i].value))
    decreases pairs
  {
    if pairs == [] then []
    else [Entry(UpToNul(SymbolToKey(pairs[0].name)), ToJson(pairs[0].value))] + ToJsonPairs(pairs[1..])
  }

  lemma {:induction false} SafeKey(s: Text, i: nat)
    requires i <= |s| && forall k | 0 <= k < |s| :: SafeByte(s[k])
    ensures forall k | 0 <= k < |KeyFrom(s, i)| :: SafeByte(KeyFrom(s, i)[k])
    decreases |s| - i
  {
    if i < |s| {
      SafeKey(s, i + 1);
    }
  }

  lemma PlainKeyName(name: CString)
    requires PlainKey(name)
    ensures UpToNul(SymbolToKey(name)) == SymbolToKey(name)
    ensures SymbolName(UpToNul(SymbolToKey(name))) == name
  {
    SafeKey(name, 0);
    RoundTripIffInvertible(name);
  }

  lemma {:induction false} JsonOfPlain(v: Ruby, levels: int)
    requires Plain(v, levels)
    ensures DistinctNames(ToJson(v)) && DepthAtMost(ToJson(v), levels)
    decreases v
  {
    match v
    case Ary(items) =>
      forall i | 0 <= i < |items|
        ensures DistinctNames(ToJson(items[i])) && DepthAtMost(ToJson(items[i]), levels - 1)
      {
        JsonOfPlain(items[i], levels - 1);
      }
    case Hash(pairs) =>
      forall i | 0 <= i < |pairs|
        ensures DistinctNames(ToJson(pairs[i].value)) && DepthAtMost(ToJson(pairs[i].value), levels - 1)
      {
        JsonOfPlain(pairs[i].value, levels - 1);
      }
      PlainNamesDistinct(pairs);
    case _ =>
  }

  // Keys that differ as symbols differ in the generated text.
  lemma PlainNamesDistinct(pairs: seq<Entry<Ruby>>)
    requires Distinct(pairs) && forall i | 0 <= i < |pairs| :: PlainKey(pairs[i].name)
    ensures Distinct(ToJsonPairs(pairs))
  {
    hide PlainKey, ToJsonPairs, SymbolToKey;
    forall i, j | 0 <= i < j < |pairs|
      ensures ToJsonPairs(pairs)[i].name != ToJsonPairs(pairs)[j].name
    {
      PlainKeyName(pairs[i].name);
      PlainKeyName(pairs[j].name);
    }
  }

  /** Converting the tree back gives the value it was made from. */
  lemma {:induction false} BackToRuby(v: Ruby, levels: int)
    requires Plain(v, levels)
    ensures ToRuby(ToJson(v)) == v
    decreases v
  {
    match v
    case Str(bytes) =>
      assert 0 !in bytes;
    case Ary(items) => BackToItems(items, levels - 1);
    case Hash(pairs) => BackToPairs(pairs, |pairs|, levels - 1);
    case _ =>
  }

  lemma {:induction false} BackToItems(items: seq<Ruby>, levels: int)
    requires forall i | 0 <= i < |items| :: Plain(items[i], levels)
    ensures ToRubyItems(ToJsonItems(items)) == items
    decreases items
  {
    if items != [] {
      BackToRuby(items[0], levels);
      BackToItems(items[1..], levels);
      assert ToJsonItems(items)[1..] == ToJsonItems(items[1..]);
    }
  }

  lemma {:induction false} BackToPairs(pairs: seq<Entry<Ruby>>, n: nat, levels: int)
    requires n <= |pairs| && Distinct(pairs)
    requires forall i | 0 <= i < |pairs| :: PlainKey(pairs[i].name) && Plain(pairs[i].value, levels)
    ensures ToRubyPairs(ToJsonPairs(pairs), n) == pairs[..n]
    decreases pairs, n
  {
    hide ToJson, ToRuby, ToJsonPairs, ToRubyPairs, Plain, PlainKey, SymbolToKey, Find, Has, Set, Distinct, SymbolName;
    if n == 0 {
      NoPairs(ToJsonPairs(pairs));
    } else {
      var members, e := ToJsonPairs(pairs), pairs[n - 1];
      BackToPairs(pairs, n - 1, levels);
      BackToRuby(e.value, levels);
      PlainKeyName(e.name);
      PlainNamesDistinct(pairs);
      FindAt(members, n - 1);
      OnePairMore(members, n - 1);
      NextKeyIsNew(pairs, n - 1);
      SetOfNew(pairs[..n - 1], e.name, e.value);
      assert pairs[..n] == pairs[..n - 1] + [e];
    }
  }

  lemma NextKeyIsNew(pairs: seq<Entry<Ruby>>, n: nat)
    requires n < |pairs| && Distinct(pairs)
    ensures !Has(pairs[..n], pairs[n].name)
  {
    hide Find;
  }

  lemma SetOfNew<V>(es: seq<Entry<V>>, name: CString, v: V)
    requires !Has(es, name)
    ensures Set(es, name, v) == es + [Entry(name, v)]
  {
  }

  // ---- The generated text is one of the texts of that tree -------------------------------------

  function SpellBytes(s: Text): Spelling {
    if s == [] then [] else [UnitOf(s[0])] + SpellBytes(s[1..])
  }

  function UnitOf(c: byte): Unit {
    if EscapeByte(c) == [c] then Raw(c) else Short(EscapeByte(c)[1])
  }

  lemma UnitOfByte(c: byte)
    requires c != NUL
    ensures LooseUnit(UnitOf(c)) && UnitText(UnitOf(c)) == EscapeByte(c)
    ensures LegalUnit(UnitOf(c)) <==> c >= 0x20 || c in {8, 9, 10, 12, 13}
    ensures LegalUnit(UnitOf(c)) ==> UnitBytes(UnitOf(c)) == [c]
  {
  }

  function SpellKey(s: Text): Spelling {
    if s == [] then [] else [Raw(s[0])] + SpellKey(s[1..])
  }

  lemma LooseCons(u: Unit, us: Spelling)
    ensures LooseSpelling([u] + us) <==> LooseUnit(u) && LooseSpelling(us)
    ensures LegalSpelling([u] + us) <==> LegalUnit(u) && LegalSpelling(us)
  {
    hide LooseUnit, LegalUnit;
    assert u in [u] + us && forall w | w in us :: w in [u] + us;
  }

  lemma PlainCons(s: Text)
    requires s != []
    ensures PlainString(s) <==> (s[0] >= 0x20 || s[0] in {8, 9, 10, 12, 13}) && PlainString(s[1..])
  {
    if PlainString(s[1..]) {
      forall i | 1 <= i < |s|
        ensures s[i] >= 0x20 || s[i] in {8, 9, 10, 12, 13}
      {
        assert s[i] == s[1..][i - 1];
      }
    }
  }

  lemma {:induction false} SpellBytesIsEscape(s: CString)
    ensures LooseSpelling(SpellBytes(s)) && SpelledText(SpellBytes(s)) == EscapeBytes(s)
    ensures LegalSpelling(SpellBytes(s)) <==> PlainString(s)
    ensures LegalSpelling(SpellBytes(s)) ==> SpelledBytes(SpellBytes(s)) == s
    decreases |s|
  {
    hide UnitOf, EscapeByte, LooseUnit, LegalUnit, UnitText, UnitBytes, LooseSpelling, PlainString;
    if s == [] {
      NothingSpelled();
    } else {
      var rest: CString := s[1..];
      UnitOfByte(s[0]);
      SpellBytesIsEscape(rest);
      LooseCons(UnitOf(s[0]), SpellBytes(rest));
      PlainCons(s);
      assert SpellBytes(s)[1..] == SpellBytes(rest);
    }
  }

  lemma NothingSpelled()
    ensures LooseSpelling([]) && LegalSpelling([]) && PlainString([])
  {
  }

  // What is escaped is what a C-string reader sees.
  lemma {:induction false} EscapedUpToNul(s: Text)
    ensures EscapeBytes(UpToNul(s)) == EscapeBytes(s)
  {
    hide EscapeByte;
    if s != [] && s[0] != NUL {
      EscapedUpToNul(s[1..]);
      assert UpToNul(s) == [s[0]] + UpToNul(s[1..]);
    }
  }

  lemma RawIsSafe(c: byte)
    requires SafeByte(c)
    ensures LegalUnit(Raw(c)) && UnitText(Raw(c)) == [c] && UnitBytes(Raw(c)) == [c]
  {
  }

  lemma {:induction false} SpellKeyIsKey(s: Text)
    requires forall i | 0 <= i < |s| :: SafeByte(s[i])
    ensures LegalSpelling(SpellKey(s)) && SpelledText(SpellKey(s)) == s && SpelledBytes(SpellKey(s)) == s
  {
    hide SafeByte, LegalUnit, UnitText, UnitBytes, LooseSpelling;
    if s != [] {
      RawIsSafe(s[0]);
      SpellKeyIsKey(s[1..]);
      LooseCons(Raw(s[0]), SpellKey(s[1..]));
      assert SpellKey(s)[1..] == SpellKey(s[1..]);
    }
  }

  function BreakGap(pretty: int): Gap {
    if pretty < 0 then [] else [Space(LINE_FEED)] + Printer.Spaces(2 * pretty)
  }

  lemma {:induction false} BlanksText(n: nat)
    ensures |Blanks(n)| == 2 * n && forall k | 0 <= k < 2 * n :: Blanks(n)[k] == SPACE
  {
    if n > 0 {
      BlanksText(n - 1);
    }
  }

  lemma BreakGapText(pretty: int)
    ensures Blank(BreakGap(pretty)) && GapText(BreakGap(pretty)) == Break(pretty)
  {
    if pretty >= 0 {
      Printer.SpacesText(2 * pretty);
      BlanksText(pretty);
      assert BreakGap(pretty)[1..] == Printer.Spaces(2 * pretty);
      assert GapText(Printer.Spaces(2 * pretty)) == Blanks(pretty);
    }
  }

  function Render(v: Ruby, pretty: int): Doc
    decreases v
  {
    var inner := if pretty >= 0 then [Space(LINE_FEED)] else [];
    match v
    case Str(bytes) => Quote(SpellBytes(UpToNul(bytes)))
    case Sym(name) => Quote(SpellKey(SymbolToKey(name)))
    case Ary(items) => ArrayOf(inner, RenderItems(items, pretty))
    case Hash(pairs) => ObjectOf(inner, RenderPairs(pairs, pretty))
    case _ => Leaf(ToJson(v))
  }

  function AfterGap(left: nat, pretty: int): Gap {
    if left > 1 then [] else BreakGap(pretty)
  }

  function RenderItems(items: seq<Ruby>, pretty: int): (ps: seq<Piece>)
    ensures |ps| == |items|
    decreases items
  {
    if items == [] then []
    else
      [Piece(BreakGap(Deeper(pretty)), Render(items[0], Deeper(pretty)), AfterGap(|items|, pretty))]
      + RenderItems(items[1..], pretty)
  }

  function RenderPairs(pairs: seq<Entry<Ruby>>, pretty: int): (fs: seq<Field>)
    ensures |fs| == |pairs|
    decreases pairs
  {
    if pairs == [] then []
    else
      [Field(BreakGap(Deeper(pretty)), SpellKey(SymbolToKey(pairs[0].name)), [],
             Piece([], Render(pairs[0].value, Deeper(pretty)), AfterGap(|pairs|, pretty)))]
      + RenderPairs(pairs[1..], pretty)
  }

  lemma Brackets(open: Text, before: Text, body: Text, after: Text, close: Text)
    ensures open + (before + body + after) + close == open + before + body + after + close
  {
  }

  // The generator puts the line break behind the comma; the text has it in the gap before the entry.
  lemma Regroup(before: Text, entry: Text, rest: Text, after: Text)
    ensures (before + entry + []) + ([COMMA] + (before + rest + after)) ==
            before + (entry + ([COMMA] + before) + rest) + after
    ensures (before + entry + after) + [] == before + (entry + [] + []) + after
  {
  }

  /** The generated text has the shape of the tree, and is a legal text of it if the strings are
      plain. */
  lemma {:induction false} GenerateIsText(v: Ruby, pretty: int)
    requires Tame(v)
    ensures Loose(Render(v, pretty)) && DocText(Render(v, pretty)) == Generate(v, pretty)
    ensures Legal(Render(v, pretty)) <==> Writable(v)
    ensures Writable(v) ==> Value(Render(v, pretty)) == ToJson(v)
    decreases v
  {
    hide EscapeBytes, SpellBytes, SpellKey, SpelledText, SpelledBytes, LegalSpelling, LooseSpelling, Break,
      GenerateItems, GeneratePairs, RenderItems, RenderPairs, ItemsText, FieldsText, LegalItems, LegalFields,
      LooseItems, LooseFields, FieldEntries, ItemValues, NumberText, PlainString, ToJsonItems, ToJsonPairs,
      SymbolToKey;
    match v
    case Str(bytes) =>
      SpellBytesIsEscape(UpToNul(bytes));
      EscapedUpToNul(bytes);
    case Sym(name) =>
      SafeKeyOfSymbol(name);
      SpellKeyIsKey(SymbolToKey(name));
      SafeIsLoose(SpellKey(SymbolToKey(name)));
    case Ary(items) =>
      GenerateItemsIsText(items, pretty);
      Brackets([LBRACKET], Break(Deeper(pretty)), GenerateItems(items, Deeper(pretty)), Break(pretty), [RBRACKET]);
      InnerGap(pretty);
    case Hash(pairs) =>
      GeneratePairsIsText(pairs, 0, pretty);
      assert pairs[0..] == pairs;
      Brackets([LBRACE], Break(Deeper(pretty)), GeneratePairs(pairs, 0, Deeper(pretty)), Break(pretty), [RBRACE]);
      InnerGap(pretty);
    case _ =>
  }

  lemma SafeIsLoose(us: Spelling)
    requires LegalSpelling(us)
    ensures LooseSpelling(us)
  {
    hide LegalUnit;
  }

  lemma InnerGap(pretty: int)
    ensures var inner := if pretty >= 0 then [Space(LINE_FEED)] else [];
            Blank(inner) && GapText(inner) == if pretty >= 0 then [LINE_FEED] else []
  {
    assert [Space(LINE_FEED)][1..] == [];
  }

  lemma AfterGapText(left: nat, pretty: int)
    ensures Blank(AfterGap(left, pretty))
    ensures GapText(AfterGap(left, pretty)) == if left > 1 then [] else Break(pretty)
  {
    BreakGapText(pretty);
  }

  lemma {:induction false} GenerateItemsIsText(items: seq<Ruby>, pretty: int)
    requires forall i | 0 <= i < |items| :: Tame(items[i])
    ensures LooseItems(RenderItems(items, pretty))
    ensures LegalItems(RenderItems(items, pretty)) <==> forall i | 0 <= i < |items| :: Writable(items[i])
    ensures LegalItems(RenderItems(items, pretty)) ==> ItemValues(RenderItems(items, pretty)) == ToJsonItems(items)
    ensures items != [] ==>
              ItemsText(RenderItems(items, pretty)) ==
              Break(Deeper(pretty)) + GenerateItems(items, Deeper(pretty)) + Break(pretty)
    decreases items
  {
    hide Generate, Render, DocText, GapText, BreakGap, AfterGap, Break, Deeper, Value, Legal, Loose, Blank, Tame,
      Writable, ToJson;
    if items != [] {
      var rest := items[1..];
      var p := Piece(BreakGap(Deeper(pretty)), Render(items[0], Deeper(pretty)), AfterGap(|items|, pretty));
      BreakGapText(Deeper(pretty));
      AfterGapText(|items|, pretty);
      GenerateIsText(items[0], Deeper(pretty));
      GenerateItemsIsText(rest, pretty);
      PieceCons(p, RenderItems(rest, pretty));
      AllWritable(items);
      Regroup(Break(Deeper(pretty)), Generate(items[0], Deeper(pretty)), GenerateItems(rest, Deeper(pretty)),
              Break(pretty));
    }
  }

  lemma AllWritable(items: seq<Ruby>)
    requires items != []
    ensures (forall i | 0 <= i < |items| :: Writable(items[i])) <==>
            Writable(items[0]) && forall i | 0 <= i < |items[1..]| :: Writable(items[1..][i])
  {
    hide Writable;
    if Writable(items[0]) && forall i | 0 <= i < |items[1..]| :: Writable(items[1..][i]) {
      forall i | 0 <= i < |items|
        ensures Writable(items[i])
      {
        assert i > 0 ==> items[i] == items[1..][i - 1];
      }
    }
  }

  lemma PieceCons(p: Piece, rest: seq<Piece>)
    requires Blank(p.before) && Loose(p.doc) && Blank(p.after) && LooseItems(rest)
    ensures LooseItems([p] + rest)
    ensures LegalItems([p] + rest) <==> Legal(p.doc) && LegalItems(rest)
    ensures LegalItems([p] + rest) ==> ItemValues([p] + rest) == [Value(p.doc)] + ItemValues(rest)
    ensures ItemsText([p] + rest) == PieceText(p) + (if rest == [] then [] else [COMMA] + ItemsText(rest))
  {
    hide Value, PieceText, DocText, GapText, Blank, Loose, Legal;
    assert ([p] + rest)[1..] == rest;
  }

  function PairText(e: Entry<Ruby>, pretty: int): Text {
    KeyText(e.name) + [COLON] + Generate(e.value, pretty)
  }

  lemma FieldIsPairText(e: Entry<Ruby>, left: nat, pretty: int)
    requires SafeName(e.name)
    requires Loose(Render(e.value, Deeper(pretty)))
    requires DocText(Render(e.value, Deeper(pretty))) == Generate(e.value, Deeper(pretty))
    ensures var d := Render(e.value, Deeper(pretty));
            var f := Field(BreakGap(Deeper(pretty)), SpellKey(SymbolToKey(e.name)), [],
                           Piece([], d, AfterGap(left, pretty)));
            && LooseField(f) && (LegalField(f) <==> Legal(d))
            && (Legal(d) ==> FieldEntry(f) == Entry(UpToNul(SymbolToKey(e.name)), Value(d)))
            && FieldText(f) == Break(Deeper(pretty)) + PairText(e, Deeper(pretty)) +
                               (if left > 1 then [] else Break(pretty))
  {
    hide Generate, Render, DocText, BreakGap, AfterGap, Break, Deeper, Value, Legal, Loose, SpellKey, SpelledText,
      SpelledBytes, SymbolToKey, ToJson;
    BreakGapText(Deeper(pretty));
    AfterGapText(left, pretty);
    SafeKeyOfSymbol(e.name);
    SpellKeyIsKey(SymbolToKey(e.name));
    assert GapText([]) == [] && Blank([]);
    PairParts(Break(Deeper(pretty)), KeyText(e.name), Generate(e.value, Deeper(pretty)),
              if left > 1 then [] else Break(pretty));
  }

  lemma FieldCons(f: Field, rest: seq<Field>)
    requires LooseField(f) && LooseFields(rest)
    ensures LooseFields([f] + rest)
    ensures LegalFields([f] + rest) <==> LegalField(f) && LegalFields(rest)
    ensures LegalFields([f] + rest) ==> FieldEntries([f] + rest) == [FieldEntry(f)] + FieldEntries(rest)
    ensures FieldsText([f] + rest) == FieldText(f) + (if rest == [] then [] else [COMMA] + FieldsText(rest))
  {
    hide FieldText, FieldEntry, LegalField, LooseField;
    assert ([f] + rest)[1..] == rest;
  }

  lemma SafeKeyOfSymbol(name: CString)
    requires SafeName(name)
    ensures forall i | 0 <= i < |SymbolToKey(name)| :: SafeByte(SymbolToKey(name)[i])
  {
    SafeKey(name, 0);
  }

  lemma PairParts(before: Text, key: Text, value: Text, after: Text)
    ensures before + key + [] + [COLON] + ([] + value + after) == before + (key + [COLON] + value) + after
  {
  }

  lemma {:induction false} GeneratePairsIsText(pairs: seq<Entry<Ruby>>, i: nat, pretty: int)
    requires i <= |pairs| && Distinct(pairs)
    requires forall k | 0 <= k < |pairs| :: SafeName(pairs[k].name) && Tame(pairs[k].value)
    ensures LooseFields(RenderPairs(pairs[i..], pretty))
    ensures LegalFields(RenderPairs(pairs[i..], pretty)) <==> forall k | i <= k < |pairs| :: Writable(pairs[k].value)
    ensures LegalFields(RenderPairs(pairs[i..], pretty)) ==>
              FieldEntries(RenderPairs(pairs[i..], pretty)) == ToJsonPairs(pairs[i..])
    ensures i < |pairs| ==>
              FieldsText(RenderPairs(pairs[i..], pretty)) ==
              Break(Deeper(pretty)) + GeneratePairs(pairs, i, Deeper(pretty)) + Break(pretty)
    decreases pairs, |pairs| - i
  {
    hide Generate, Render, DocText, GapText, BreakGap, AfterGap, Break, Deeper, Value, Legal, Loose, Blank, Tame,
      Writable, SafeName, ToJson, LegalField, LooseField, FieldEntry, FieldText, KeyText, SpellKey, Find, Distinct,
      SymbolToKey;
    if i < |pairs| {
      var e, left := pairs[i], |pairs| - i;
      var f := Field(BreakGap(Deeper(pretty)), SpellKey(SymbolToKey(e.name)), [],
                     Piece([], Render(e.value, Deeper(pretty)), AfterGap(left, pretty)));
      GenerateIsText(e.value, Deeper(pretty));
      FieldIsPairText(e, left, pretty);
      GeneratePairsIsText(pairs, i + 1, pretty);
      FindAt(pairs, i);
      assert pairs[i..] == [e] + pairs[i + 1..];
      FieldCons(f, RenderPairs(pairs[i + 1..], pretty));
      assert RenderPairs(pairs[i..], pretty) == [f] + RenderPairs(pairs[i + 1..], pretty);
      Regroup(Break(Deeper(pretty)), PairText(e, Deeper(pretty)), GeneratePairs(pairs, i + 1, Deeper(pretty)),
              Break(pretty));
    }
  }

  /** What the parser makes of a generated text: the tree of the value if its strings are plain as far
      as they are written, its keys distinct and its depth within the limit; otherwise it refuses. */
  lemma {:induction false} GeneratedIsReadOrRefused(v: Ruby, pretty: int)
    requires Tame(v)
    ensures Parser.ParseText(Generate(v, pretty)) ==
            if Writable(v) && DistinctNames(ToJson(v)) && DepthAtMost(ToJson(v), MAX_NESTING)
            then Parser.Parsed(ToJson(v), |Generate(v, pretty)|) else Parser.Rejected
  {
    hide Generate, Render, DocText, Value, Legal, Loose, Tame, Writable, ToJson, DistinctNames, DepthAtMost,
      Parser.ParseText;
    var d := Render(v, pretty);
    GenerateIsText(v, pretty);
    WholeTextReadOrRefused([], d, []);
    assert GapText([]) + DocText(d) + [] == Generate(v, pretty);
  }

  // ---- Only plain values come back -------------------------------------------------------------

  lemma {:induction false} PlainIsTame(v: Ruby, levels: int)
    requires Plain(v, levels)
    ensures Tame(v) && Writable(v)
    decreases v
  {
    match v
    case Str(bytes) =>
      assert 0 !in bytes;
    case Ary(items) =>
      forall i | 0 <= i < |items|
        ensures Tame(items[i]) && Writable(items[i])
      {
        PlainIsTame(items[i], levels - 1);
      }
    case Hash(pairs) =>
      forall i | 0 <= i < |pairs|
        ensures SafeName(pairs[i].name) && Tame(pairs[i].value) && Writable(pairs[i].value)
      {
        PlainIsTame(pairs[i].value, levels - 1);
      }
    case _ =>
  }

  lemma {:induction false} ItemsBack(items: seq<Json>)
    ensures |ToRubyItems(items)| == |items|
    ensures forall i | 0 <= i < |items| :: ToRubyItems(items)[i] == ToRuby(items[i])
  {
    hide ToRuby;
    if items != [] {
      ItemsBack(items[1..]);
    }
  }

  // A hash with as many pairs as the object has members has them in that order.
  lemma {:induction false} PairsBack(members: seq<Entry<Json>>, n: nat)
    requires n <= |members| && Distinct(members)
    ensures |ToRubyPairs(members, n)| <= n
    ensures |ToRubyPairs(members, n)| == n ==>
              forall i | 0 <= i < n ::
                ToRubyPairs(members, n)[i] == Entry(SymbolName(members[i].name), ToRuby(members[i].value))
    decreases n
  {
    hide ToRuby, SymbolName, Find, Set, Distinct;
    if n > 0 {
      PairsBack(members, n - 1);
      FindAt(members, n - 1);
      var before, e := ToRubyPairs(members, n - 1), members[n - 1];
      SetLength(before, SymbolName(e.name), ToRuby(e.value));
      assert ToRubyPairs(members, n) == Set(before, SymbolName(e.name), ToRuby(e.value));
      if |before| == n - 1 && |ToRubyPairs(members, n)| == n {
        forall i | 0 <= i < n
          ensures ToRubyPairs(members, n)[i] == Entry(SymbolName(members[i].name), ToRuby(members[i].value))
        {
          SetAt(before, SymbolName(e.name), ToRuby(e.value), i);
          AddedLast(before, SymbolName(e.name), ToRuby(e.value));
        }
      }
    }
  }

  lemma AddedLast<V>(es: seq<Entry<V>>, name: CString, v: V)
    ensures |Set(es, name, v)| > |es| ==> Set(es, name, v) == es + [Entry(name, v)]
  {
  }

  lemma KeyComesBack(name: CString)
    requires SafeName(name) && SymbolName(UpToNul(SymbolToKey(name))) == name
    ensures PlainKey(name)
  {
    SafeKey(name, 0);
    RoundTripIffInvertible(name);
  }

  lemma {:induction false} OnlyPlainComesBack(v: Ruby, levels: int)
    requires Tame(v) && Writable(v) && DistinctNames(ToJson(v)) && DepthAtMost(ToJson(v), levels)
    requires ToRuby(ToJson(v)) == v
    ensures Plain(v, levels)
    decreases v
  {
    hide PlainString, ToRubyItems, ToRubyPairs, ToJsonItems, ToJsonPairs, SymbolToKey, SymbolName, SafeName, PlainKey;
    match v
    case Str(bytes) =>
    case Sym(name) =>
    case Ary(items) =>
      ItemsBack(ToJsonItems(items));
      forall i | 0 <= i < |items|
        ensures Plain(items[i], levels - 1)
      {
        assert ToJsonItems(items)[i] == ToJson(items[i]);
        OnlyPlainComesBack(items[i], levels - 1);
      }
    case Hash(pairs) =>
      var members := ToJsonPairs(pairs);
      PairsBack(members, |members|);
      forall i | 0 <= i < |pairs|
        ensures PlainKey(pairs[i].name) && Plain(pairs[i].value, levels - 1)
      {
        assert members[i] == Entry(UpToNul(SymbolToKey(pairs[i].name)), ToJson(pairs[i].value));
        assert pairs[i] == Entry(SymbolName(members[i].name), ToRuby(members[i].value));
        KeyComesBack(pairs[i].name);
        OnlyPlainComesBack(pairs[i].value, levels - 1);
      }
    case _ =>
  }

  /** Generating and parsing with symbolized names gives the value back exactly when it is plain,
      whatever the level of pretty printing (negative for generate, zero for pretty_generate). */
  lemma {:induction false} ParseUndoesGenerateIff(v: Ruby, pretty: int)
    requires Tame(v)
    ensures var r := Parser.ParseText(Generate(v, pretty));
            r.Parsed? && ToRuby(r.value) == v <==> Plain(v, MAX_NESTING)
  {
    hide Generate, Plain, Tame, Writable, ToJson, ToRuby, DistinctNames, DepthAtMost, Parser.ParseText;
    GeneratedIsReadOrRefused(v, pretty);
    if Plain(v, MAX_NESTING) {
      PlainIsTame(v, MAX_NESTING);
      JsonOfPlain(v, MAX_NESTING);
      BackToRuby(v, MAX_NESTING);
    } else if Writable(v) && DistinctNames(ToJson(v)) && DepthAtMost(ToJson(v), MAX_NESTING) && ToRuby(ToJson(v)) == v {
      OnlyPlainComesBack(v, MAX_NESTING);
    }
  }

  lemma {:induction false} ParseUndoesGenerate(v: Ruby, pretty: int)
    requires Plain(v, MAX_NESTING)
    ensures var r := Parser.ParseText(Generate(v, pretty)); r.Parsed? && ToRuby(r.value) == v
  {
    hide Generate, Plain, Tame, Writable, ToRuby, Parser.ParseText;
    PlainIsTame(v, MAX_NESTING);
    ParseUndoesGenerateIff(v, pretty);
  }

  // ---- The layout of the generated text --------------------------------------------------------

  // Two spaces a level and none behind a colon; a line break between empty brackets.
  const PRETTY: Style := Style(2, [], [10])

  lemma RowIsBreak(level: nat)
    ensures Row(level, PRETTY) == Break(level)
  {
    BlanksText(level);
  }

  lemma KeyLays(name: CString, rest: Text, depth: nat)
    requires SafeName(name)
    ensures Layout(KeyText(name) + rest, depth, PRETTY) == KeyText(name) + Layout(rest, depth, PRETTY)
    ensures Tight(KeyText(name) + rest) <==> Tight(rest)
  {
    hide Layout, Tight, SymbolToKey, SpellKey, SpelledText, LegalSpelling, LooseSpelling;
    SafeKeyOfSymbol(name);
    SpellKeyIsKey(SymbolToKey(name));
    SafeIsLoose(SpellKey(SymbolToKey(name)));
    LiteralLays(SpellKey(SymbolToKey(name)), rest, depth, PRETTY);
  }

  lemma StringLays(bytes: Text, rest: Text, depth: nat)
    ensures Layout([QUOTE] + EscapeBytes(bytes) + [QUOTE] + rest, depth, PRETTY) ==
            [QUOTE] + EscapeBytes(bytes) + [QUOTE] + Layout(rest, depth, PRETTY)
    ensures Tight([QUOTE] + EscapeBytes(bytes) + [QUOTE] + rest) <==> Tight(rest)
  {
    hide Layout, Tight, EscapeBytes, SpellBytes, SpelledText, LegalSpelling, LooseSpelling;
    SpellBytesIsEscape(UpToNul(bytes));
    EscapedUpToNul(bytes);
    LiteralLays(SpellBytes(UpToNul(bytes)), rest, depth, PRETTY);
  }

  lemma GenerateStarts(v: Ruby, pretty: int)
    ensures var t := Generate(v, pretty); t != [] && t[0] != 93 && t[0] != 125
  {
    if v.Int? {
      var n: int := v.n;
      DecimalIsDigits(if n < 0 then -n else n);
    }
  }

  /** Pretty generation is compact generation with a layout; and compact texts have no white space
      outside their string literals. */
  lemma {:induction false} GenerateLays(v: Ruby, level: nat, rest: Text)
    requires Tame(v)
    ensures Layout(Generate(v, -1) + rest, level, PRETTY) == Generate(v, level) + Layout(rest, level, PRETTY)
    ensures Tight(Generate(v, -1) + rest) <==> Tight(rest)
    decreases v
  {
    hide Layout, Tight, GenerateItems, GeneratePairs, NumberText, EscapeBytes, KeyText, SafeName, Row;
    match v
    case Ary(items) =>
      if items == [] {
        EmptyLays(LBRACKET, RBRACKET, rest, level, PRETTY);
        assert [LBRACKET] + [] + [RBRACKET] == [LBRACKET, RBRACKET];
      } else {
        ItemsLay(items, level, rest);
        BracketsLay(LBRACKET, GenerateItems(items, -1), GenerateItems(items, level + 1), RBRACKET, level, rest);
      }
    case Hash(pairs) =>
      if pairs == [] {
        EmptyLays(LBRACE, RBRACE, rest, level, PRETTY);
        assert [LBRACE] + [] + [RBRACE] == [LBRACE, RBRACE];
      } else {
        PairsLay(pairs, 0, level, rest);
        BracketsLay(LBRACE, GeneratePairs(pairs, 0, -1), GeneratePairs(pairs, 0, level + 1), RBRACE, level, rest);
      }
    case Str(bytes) => StringLays(bytes, rest, level);
    case Sym(name) => KeyLays(name, rest, level);
    case _ => LeafLays(ToJson(v), rest, level, PRETTY);
  }

  lemma BracketsLay(open: byte, body: Text, shown: Text, close: byte, level: nat, rest: Text)
    requires (open == 91 && close == 93) || (open == 123 && close == 125)
    requires body != [] && body[0] != 93 && body[0] != 125
    requires Layout(body + ([close] + rest), level + 1, PRETTY) ==
             shown + Break(level) + [close] + Layout(rest, level, PRETTY)
    ensures Layout(([open] + [] + body + [] + [close]) + rest, level, PRETTY) ==
            ([open] + Break(level + 1) + shown + Break(level) + [close]) + Layout(rest, level, PRETTY)
    ensures Tight(([open] + [] + body + [] + [close]) + rest) <==> Tight(body + ([close] + rest))
  {
    hide Layout, Tight, Row, Break;
    var inside := body + ([close] + rest);
    OpenLays(open, inside, level, PRETTY);
    RowIsBreak(level + 1);
    assert ([open] + [] + body + [] + [close]) + rest == [open] + inside;
  }

  lemma ItemsUnfold(items: seq<Ruby>, pretty: int)
    requires items != []
    ensures GenerateItems(items, pretty) ==
            Generate(items[0], pretty) + (Comma(|items|, pretty) + GenerateItems(items[1..], pretty))
    ensures GenerateItems([], pretty) == []
  {
  }

  lemma {:induction false} ItemsLay(items: seq<Ruby>, level: nat, rest: Text)
    requires items != [] && forall i | 0 <= i < |items| :: Tame(items[i])
    ensures var t := GenerateItems(items, -1); t != [] && t[0] != 93 && t[0] != 125
    ensures Layout(GenerateItems(items, -1) + ([RBRACKET] + rest), level + 1, PRETTY) ==
            GenerateItems(items, level + 1) + Break(level) + [RBRACKET] + Layout(rest, level, PRETTY)
    ensures Tight(GenerateItems(items, -1) + ([RBRACKET] + rest)) <==> Tight(rest)
    decreases items
  {
    hide Layout, Tight, Generate, GenerateItems, Tame, Row, Break;
    var tail, first, shown := items[1..], Generate(items[0], -1), Generate(items[0], level + 1);
    ItemsUnfold(items, -1);
    ItemsUnfold(items, level + 1);
    GenerateStarts(items[0], -1);
    if tail == [] {
      GenerateLays(items[0], level + 1, [RBRACKET] + rest);
      CloseLays(RBRACKET, rest, level, PRETTY);
      RowIsBreak(level);
      LastEntry(first, shown, Break(level), [RBRACKET], rest, Layout(rest, level, PRETTY));
    } else {
      var after := GenerateItems(tail, -1) + ([RBRACKET] + rest);
      ItemsLay(tail, level, rest);
      CommaLays(after, level + 1, PRETTY);
      RowIsBreak(level + 1);
      GenerateLays(items[0], level + 1, [COMMA] + after);
      CompactComma(|items|);
      NextEntry(first, GenerateItems(tail, -1), [RBRACKET] + rest);
      NextShown(shown, Break(level + 1), GenerateItems(tail, level + 1), Break(level), [RBRACKET],
                Layout(rest, level, PRETTY));
    }
  }

  lemma CompactComma(left: nat)
    requires left > 1
    ensures Comma(left, -1) == [COMMA]
  {
  }

  lemma LastEntry(first: Text, shown: Text, outer: Text, close: Text, rest: Text, laid: Text)
    ensures (first + ([] + [])) + (close + rest) == first + (close + rest)
    ensures shown + (outer + close + laid) == (shown + ([] + [])) + outer + close + laid
  {
  }

  lemma NextEntry(first: Text, tail: Text, rest: Text)
    ensures (first + ([COMMA] + tail)) + rest == first + ([COMMA] + (tail + rest))
  {
  }

  lemma NextShown(shown: Text, line: Text, tail: Text, outer: Text, close: Text, laid: Text)
    ensures shown + ([COMMA] + line + (tail + outer + close + laid)) ==
            (shown + (([COMMA] + line) + tail)) + outer + close + laid
  {
  }

  // The value of a pair is the one found under its key.
  function PairLine(pairs: seq<Entry<Ruby>>, i: nat, pretty: int): Text
    requires i < |pairs|
  {
    KeyText(pairs[i].name) + ([COLON] + Generate(pairs[Find(pairs, pairs[i].name)].value, pretty))
  }

  lemma PairsUnfold(pairs: seq<Entry<Ruby>>, i: nat, pretty: int)
    requires i < |pairs|
    ensures GeneratePairs(pairs, i, pretty) ==
            PairLine(pairs, i, pretty) + (Comma(|pairs| - i, pretty) + GeneratePairs(pairs, i + 1, pretty))
    ensures GeneratePairs(pairs, |pairs|, pretty) == []
  {
    hide Generate, Find, KeyText, Comma;
    PairText4(KeyText(pairs[i].name), Generate(pairs[Find(pairs, pairs[i].name)].value, pretty),
              Comma(|pairs| - i, pretty), GeneratePairs(pairs, i + 1, pretty));
  }

  lemma PairText4(key: Text, value: Text, comma: Text, rest: Text)
    ensures key + [COLON] + value + comma + rest == (key + ([COLON] + value)) + (comma + rest)
  {
  }

  lemma {:induction false} PairLays(pairs: seq<Entry<Ruby>>, i: nat, level: nat, rest: Text)
    requires i < |pairs|
    requires forall k | 0 <= k < |pairs| :: SafeName(pairs[k].name) && Tame(pairs[k].value)
    ensures Layout(PairLine(pairs, i, -1) + rest, level + 1, PRETTY) ==
            PairLine(pairs, i, level + 1) + Layout(rest, level + 1, PRETTY)
    ensures Tight(PairLine(pairs, i, -1) + rest) <==> Tight(rest)
    decreases pairs, 0
  {
    hide Layout, Tight, Generate, KeyText, Find, SafeName, Tame;
    var key, v := KeyText(pairs[i].name), pairs[Find(pairs, pairs[i].name)].value;
    GenerateLays(v, level + 1, rest);
    ColonLays(Generate(v, -1) + rest, level + 1, PRETTY);
    KeyLays(pairs[i].name, [COLON] + (Generate(v, -1) + rest), level + 1);
    NextPart(key, Generate(v, -1), rest);
    NextPart(key, Generate(v, level + 1), Layout(rest, level + 1, PRETTY));
  }

  lemma NextPart(key: Text, value: Text, rest: Text)
    ensures (key + ([COLON] + value)) + rest == key + ([COLON] + (value + rest))
    ensures [COLON] + [] + (value + rest) == [COLON] + (value + rest)
  {
  }

  lemma PairStarts(pairs: seq<Entry<Ruby>>, i: nat)
    requires i < |pairs|
    ensures var t := PairLine(pairs, i, -1); t != [] && t[0] == 34
  {
    hide Generate, Find, SymbolToKey;
  }

  lemma {:induction false} PairsLay(pairs: seq<Entry<Ruby>>, i: nat, level: nat, rest: Text)
    requires i < |pairs|
    requires forall k | 0 <= k < |pairs| :: SafeName(pairs[k].name) && Tame(pairs[k].value)
    ensures var t := GeneratePairs(pairs, i, -1); t != [] && t[0] != 93 && t[0] != 125
    ensures Layout(GeneratePairs(pairs, i, -1) + ([RBRACE] + rest), level + 1, PRETTY) ==
            GeneratePairs(pairs, i, level + 1) + Break(level) + [RBRACE] + Layout(rest, level, PRETTY)
    ensures Tight(GeneratePairs(pairs, i, -1) + ([RBRACE] + rest)) <==> Tight(rest)
    decreases pairs, |pairs| - i
  {
    hide Layout, Tight, PairLine, GeneratePairs, Tame, SafeName, Row, Break;
    var first, shown := PairLine(pairs, i, -1), PairLine(pairs, i, level + 1);
    PairsUnfold(pairs, i, -1);
    PairsUnfold(pairs, i, level + 1);
    PairStarts(pairs, i);
    if i + 1 == |pairs| {
      PairLays(pairs, i, level, [RBRACE] + rest);
      CloseLays(RBRACE, rest, level, PRETTY);
      RowIsBreak(level);
      LastEntry(first, shown, Break(level), [RBRACE], rest, Layout(rest, level, PRETTY));
    } else {
      var tail := GeneratePairs(pairs, i + 1, -1);
      var after := tail + ([RBRACE] + rest);
      PairsLay(pairs, i + 1, level, rest);
      CommaLays(after, level + 1, PRETTY);
      RowIsBreak(level + 1);
      PairLays(pairs, i, level, [COMMA] + after);
      CompactComma(|pairs| - i);
      NextEntry(first, tail, [RBRACE] + rest);
      NextShown(shown, Break(level + 1), GeneratePairs(pairs, i + 1, level + 1), Break(level), [RBRACE],
                Layout(rest, level, PRETTY));
    }
  }

  /** pretty_generate is generate with a new line, indented by two spaces for each open bracket, behind
      brackets that open, in front of those that close and behind commas, and a line break between
      empty brackets. What generate gives has no white space outside its string literals. */
  lemma {:induction false} PrettyIsLayout(v: Ruby)
    requires Tame(v)
    ensures Generate(v, 0) == Layout(Generate(v, -1), 0, Style(2, [], [10]))
    ensures Tight(Generate(v, -1))
  {
    hide Generate, Tame;
    GenerateLays(v, 0, []);
    assert Generate(v, -1) + [] == Generate(v, -1) && Generate(v, 0) + [] == Generate(v, 0);
  }

  /** What a byte of a string is written as: nothing else is escaped. */
  lemma {:induction false} EscapeByteIsExact(c: byte)
    ensures |EscapeByte(c)| == if c in {8, 9, 10, 12, 13, 34, 92} then 2 else 1
    ensures |EscapeByte(c)| == 1 ==> EscapeByte(c) == [c]
    ensures |EscapeByte(c)| == 2 ==> EscapeByte(c)[0] == 92 && WritesShort(EscapeByte(c)[1], c)
  {
  }

  // ---- The generator as written ----------------------------------------------------------

  /** pretty_cat */
  method PrettyCat(str: Text, pretty: nat) returns (r: Text)
    ensures r == str + Break(pretty)
  {
    r := str + [LINE_FEED];
    for i := 0 to pretty
      invariant r == str + [LINE_FEED] + Blanks(i)
    {
      r := r + [SPACE, SPACE];
      BlanksText(i);
      BlanksText(i + 1);
      assert Blanks(i) + [SPACE, SPACE] == Blanks(i + 1);
    }
  }

  // The loop over the bytes of a string.
  method StringToString(bytes: Text) returns (str: Text)
    ensures str == [QUOTE] + EscapeBytes(bytes) + [QUOTE]
  {
    hide EscapeByte;
    str := [QUOTE];
    var i := 0;
    while i < |bytes| && bytes[i] != NUL
      invariant 0 <= i <= |bytes|
      invariant str + EscapeBytes(bytes[i..]) == [QUOTE] + EscapeBytes(bytes)
    {
      assert bytes[i..][1..] == bytes[i + 1..];
      assert str + (EscapeByte(bytes[i]) + EscapeBytes(bytes[i + 1..])) ==
             str + EscapeByte(bytes[i]) + EscapeBytes(bytes[i + 1..]);
      str := str + EscapeByte(bytes[i]);
      i := i + 1;
    }
    assert EscapeBytes(bytes[i..]) == [];
    assert str + [] == str;
    str := str + [QUOTE];
  }

  // A line break in pretty mode.
  method CatBreak(str: Text, pretty: int) returns (r: Text)
    ensures r == str + Break(pretty)
  {
    r := str;
    if pretty >= 0 {
      r := PrettyCat(str, pretty);
    }
  }

  // What follows an entry that is not the last one.
  method CatComma(str: Text, left: nat, pretty: int) returns (r: Text)
    ensures r == str + Comma(left, pretty)
  {
    hide Break;
    r := str;
    if left > 1 {
      r := CatBreak(r + [COMMA], pretty);
      assert r == str + ([COMMA] + Break(pretty));
    }
  }

  /** mrb_value_to_string */
  method MrbValueToString(v: Ruby, pretty: int) returns (str: Text)
    ensures str == Generate(v, pretty)
    decreases v
  {
    hide Break, SymbolToKey, GenerateItems, GeneratePairs, NumberText, EscapeBytes;
    match v
    case Nil => str := Parser.NULL_TOKEN;
    case Bool(b) => str := if b then Parser.TRUE_TOKEN else Parser.FALSE_TOKEN;
    case Int(n) => str := NumberText(n);
    case Sym(name) => str := RubySymbolToJsonKey(name);
    case Str(bytes) => str := StringToString(bytes);
    case Ary(items) =>
      if |items| == 0 {
        return if pretty >= 0 then [LBRACKET] + [LINE_FEED, RBRACKET] else [LBRACKET] + [RBRACKET];
      }
      var level := Deeper(pretty);
      str := CatBreak([LBRACKET], level);
      str := ItemsToString(items, str, level);
      str := CatBreak(str, pretty);
      str := str + [RBRACKET];
    case Hash(pairs) =>
      if |pairs| == 0 {
        return if pretty >= 0 then [LBRACE] + [LINE_FEED, RBRACE] else [LBRACE] + [RBRACE];
      }
      var level := Deeper(pretty);
      str := CatBreak([LBRACE], level);
      str := PairsToString(pairs, str, level);
      str := CatBreak(str, pretty);
      str := str + [RBRACE];
  }

  // The loop over the items of an array.
  method ItemsToString(items: seq<Ruby>, start: Text, pretty: int) returns (str: Text)
    ensures str == start + GenerateItems(items, pretty)
    decreases items
  {
    hide Generate, Comma;
    str := start;
    assert items[0..] == items;
    for n := 0 to |items|
      invariant str + GenerateItems(items[n..], pretty) == start + GenerateItems(items, pretty)
    {
      assert items[n..][1..] == items[n + 1..];
      ghost var before := str;
      var obj := MrbValueToString(items[n], pretty);
      str := str + obj;
      str := CatComma(str, |items| - n, pretty);
      Regrouped(before, obj, Comma(|items| - n, pretty), GenerateItems(items[n + 1..], pretty));
    }
    assert items[|items|..] == [] && str + [] == str;
  }

  lemma Regrouped(a: Text, b: Text, c: Text, d: Text)
    ensures a + (b + c + d) == a + b + c + d
  {
  }

  // The loop over the keys of a hash.
  method PairsToString(pairs: seq<Entry<Ruby>>, start: Text, pretty: int) returns (str: Text)
    ensures str == start + GeneratePairs(pairs, 0, pretty)
    decreases pairs
  {
    hide Generate, Comma, SymbolToKey, Find;
    str := start;
    for n := 0 to |pairs|
      invariant str + GeneratePairs(pairs, n, pretty) == start + GeneratePairs(pairs, 0, pretty)
    {
      ghost var before := str;
      var key := pairs[n].name;
      var enckey := RubySymbolToJsonKey(key);
      str := str + enckey;
      str := str + [COLON];
      var obj := MrbValueToString(pairs[Find(pairs, key)].value, pretty);
      str := str + obj;
      ghost var part := enckey + [COLON] + obj;
      assert str == before + part;
      str := CatComma(str, |pairs| - n, pretty);
      Regrouped(before, part, Comma(|pairs| - n, pretty), GeneratePairs(pairs, n + 1, pretty));
    }
    assert str + [] == str;
  }
}
