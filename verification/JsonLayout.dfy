/** Pretty printing as a formatter of compact texts.

    The pretty printers of mrbgems/json-with-casing/src/parson.c and mrb_json.c in the same directory
    are related to it: what they add to their compact form is what it adds. */
module JsonLayout {
  import opened Bytes
  import opened JsonSpelling
  import opened JsonStrings
  import opened JsonTree
  import opened JsonSyntax
  import opened JsonRefusal

  // Spaces a level, and what stands behind a colon and between empty brackets.
  datatype Style = Style(step: nat, colon: Text, empty: Text)

  // A new line, indented for the given number of open brackets.
  function Row(depth: nat, style: Style): Text {
    [10] + seq(style.step * depth, _ => 32)
  }

  // The layout of what is left of a compact text, outside its string literals: a new line behind each
  // opening bracket and each comma and in front of each closing bracket.
  function Layout(t: Text, depth: nat, style: Style): Text
    decreases |t|
  {
    if t == [] then []
    else if t[0] == 34 then [34] + LayoutString(t[1..], false, depth, style)
    else if t[0] == 91 || t[0] == 123 then
      if |t| > 1 && (t[1] == 93 || t[1] == 125) then
        [t[0]] + style.empty + [t[1]] + Layout(t[2..], depth, style)
      else [t[0]] + Row(depth + 1, style) + Layout(t[1..], depth + 1, style)
    else if (t[0] == 93 || t[0] == 125) && depth > 0 then
      Row(depth - 1, style) + [t[0]] + Layout(t[1..], depth - 1, style)
    else if t[0] == 44 then [44] + Row(depth, style) + Layout(t[1..], depth, style)
    else if t[0] == 58 then [58] + style.colon + Layout(t[1..], depth, style)
    else [t[0]] + Layout(t[1..], depth, style)
  }

  function LayoutString(t: Text, escaped: bool, depth: nat, style: Style): Text
    decreases |t|
  {
    if t == [] then []
    else if t[0] == 34 && !escaped then [34] + Layout(t[1..], depth, style)
    else [t[0]] + LayoutString(t[1..], !escaped && t[0] == 92, depth, style)
  }

  // No white space outside string literals.
  predicate Tight(t: Text)
    decreases |t|
  {
    t == [] || (t[0] > 32 && if t[0] == 34 then TightString(t[1..], false) else Tight(t[1..]))
  }

  predicate TightString(t: Text, escaped: bool)
    decreases |t|
  {
    t == [] || if t[0] == 34 && !escaped then Tight(t[1..]) else TightString(t[1..], !escaped && t[0] == 92)
  }

  // ---- Parts of a text ----

  // Bytes that the formatter copies.
  predicate Quiet(p: Text) {
    forall k | 0 <= k < |p| :: p[k] > 32 && p[k] !in {34, 44, 58, 91, 93, 123, 125}
  }

  lemma {:induction false} QuietLays(p: Text, rest: Text, depth: nat, style: Style)
    requires Quiet(p)
    ensures Layout(p + rest, depth, style) == p + Layout(rest, depth, style)
    ensures Tight(p + rest) <==> Tight(rest)
    decreases |p|
  {
    if p == [] {
      assert p + rest == rest && [] + Layout(rest, depth, style) == Layout(rest, depth, style);
    } else {
      var t := p + rest;
      assert t[0] == p[0] && t[1..] == p[1..] + rest;
      QuietLays(p[1..], rest, depth, style);
      assert p == [p[0]] + p[1..];
    }
  }

  // Inside a literal, what is neither a quote nor a backslash.
  lemma {:induction false} InsideLays(p: Text, rest: Text, depth: nat, style: Style)
    requires forall k | 0 <= k < |p| :: p[k] != 34 && p[k] != 92
    ensures LayoutString(p + rest, false, depth, style) == p + LayoutString(rest, false, depth, style)
    ensures TightString(p + rest, false) <==> TightString(rest, false)
    decreases |p|
  {
    if p == [] {
      var laid := LayoutString(rest, false, depth, style);
      assert p + rest == rest && [] + laid == laid;
    } else {
      var t := p + rest;
      assert t[0] == p[0] && t[1..] == p[1..] + rest;
      InsideLays(p[1..], rest, depth, style);
      assert p == [p[0]] + p[1..];
    }
  }

  lemma EscapeLays(letter: byte, rest: Text, depth: nat, style: Style)
    ensures LayoutString([92, letter] + rest, false, depth, style) ==
            [92, letter] + LayoutString(rest, false, depth, style)
    ensures TightString([92, letter] + rest, false) <==> TightString(rest, false)
  {
    var t := [92, letter] + rest;
    assert t[1..] == [letter] + rest && t[1..][1..] == rest;
    assert LayoutString(t[1..], true, depth, style) == [letter] + LayoutString(rest, false, depth, style);
  }

  lemma HexLays(h: Text, rest: Text, depth: nat, style: Style)
    requires IsHex(h)
    ensures LayoutString([92, 117] + h + rest, false, depth, style) ==
            [92, 117] + h + LayoutString(rest, false, depth, style)
    ensures TightString([92, 117] + h + rest, false) <==> TightString(rest, false)
  {
    hide LayoutString, TightString;
    assert [92, 117] + h + rest == [92, 117] + (h + rest);
    EscapeLays(117, h + rest, depth, style);
    InsideLays(h, rest, depth, style);
  }

  lemma PairLays(lead: Text, trail: Text, rest: Text, depth: nat, style: Style)
    requires IsHex(lead) && IsHex(trail)
    ensures var p := [92, 117] + lead + [92, 117] + trail;
            LayoutString(p + rest, false, depth, style) == p + LayoutString(rest, false, depth, style)
            && (TightString(p + rest, false) <==> TightString(rest, false))
  {
    hide LayoutString, TightString, IsHex;
    var behind := [92, 117] + trail + rest;
    HexLays(trail, rest, depth, style);
    HexLays(lead, behind, depth, style);
    assert [92, 117] + lead + [92, 117] + trail + rest == [92, 117] + lead + behind;
  }

  lemma UnitLays(u: Unit, rest: Text, depth: nat, style: Style)
    requires LooseUnit(u)
    ensures LayoutString(UnitText(u) + rest, false, depth, style) ==
            UnitText(u) + LayoutString(rest, false, depth, style)
    ensures TightString(UnitText(u) + rest, false) <==> TightString(rest, false)
  {
    hide LayoutString, TightString, IsHex;
    match u
    case Raw(b) => InsideLays([b], rest, depth, style);
    case Short(letter) => EscapeLays(letter, rest, depth, style);
    case Hex(h) => HexLays(h, rest, depth, style);
    case Pair(lead, trail) => PairLays(lead, trail, rest, depth, style);
  }

  lemma {:induction false} SpellingLays(us: Spelling, rest: Text, depth: nat, style: Style)
    requires LooseSpelling(us)
    ensures LayoutString(SpelledText(us) + rest, false, depth, style) ==
            SpelledText(us) + LayoutString(rest, false, depth, style)
    ensures TightString(SpelledText(us) + rest, false) <==> TightString(rest, false)
    decreases |us|
  {
    hide LayoutString, TightString, UnitText, LooseUnit;
    if us == [] {
      assert [] + rest == rest;
    } else {
      SpellingLays(us[1..], rest, depth, style);
      UnitLays(us[0], SpelledText(us[1..]) + rest, depth, style);
      assert SpelledText(us) + rest == UnitText(us[0]) + (SpelledText(us[1..]) + rest);
    }
  }

  // String literals are copied.
  lemma {:induction false} LiteralLays(us: Spelling, rest: Text, depth: nat, style: Style)
    requires LooseSpelling(us)
    ensures Layout(Quoted(us) + rest, depth, style) == Quoted(us) + Layout(rest, depth, style)
    ensures Tight(Quoted(us) + rest) <==> Tight(rest)
  {
    hide SpelledText, LooseSpelling;
    var inside := SpelledText(us) + ([34] + rest);
    SpellingLays(us, [34] + rest, depth, style);
    assert Quoted(us) + rest == [34] + inside;
    assert ([34] + inside)[1..] == inside && ([34] + rest)[1..] == rest;
    assert LayoutString([34] + rest, false, depth, style) == [34] + Layout(rest, depth, style);
  }

  lemma LeafLays(v: Json, rest: Text, depth: nat, style: Style)
    requires LegalLeaf(v)
    ensures Layout(LeafText(v) + rest, depth, style) == LeafText(v) + Layout(rest, depth, style)
    ensures Tight(LeafText(v) + rest) <==> Tight(rest)
  {
    if v.Fixed? {
      var n: int := v.n;
      DecimalIsDigits(if n < 0 then -n else n);
    }
    QuietLays(LeafText(v), rest, depth, style);
  }

  // ---- Brackets, commas and colons ----

  lemma OpenLays(open: byte, rest: Text, depth: nat, style: Style)
    requires open == 91 || open == 123
    requires rest != [] && rest[0] != 93 && rest[0] != 125
    ensures Layout([open] + rest, depth, style) == [open] + Row(depth + 1, style) + Layout(rest, depth + 1, style)
    ensures Tight([open] + rest) <==> Tight(rest)
  {
    assert ([open] + rest)[1..] == rest;
  }

  lemma EmptyLays(open: byte, close: byte, rest: Text, depth: nat, style: Style)
    requires (open == 91 && close == 93) || (open == 123 && close == 125)
    ensures Layout([open, close] + rest, depth, style) == [open] + style.empty + [close] + Layout(rest, depth, style)
    ensures Tight([open, close] + rest) <==> Tight(rest)
  {
    var t := [open, close] + rest;
    assert t[2..] == rest && t[1..] == [close] + rest && ([close] + rest)[1..] == rest;
  }

  lemma CloseLays(close: byte, rest: Text, depth: nat, style: Style)
    requires close == 93 || close == 125
    ensures Layout([close] + rest, depth + 1, style) == Row(depth, style) + [close] + Layout(rest, depth, style)
    ensures Tight([close] + rest) <==> Tight(rest)
  {
    assert ([close] + rest)[1..] == rest;
  }

  lemma CommaLays(rest: Text, depth: nat, style: Style)
    ensures Layout([44] + rest, depth, style) == [44] + Row(depth, style) + Layout(rest, depth, style)
    ensures Tight([44] + rest) <==> Tight(rest)
  {
    assert ([44] + rest)[1..] == rest;
  }

  lemma ColonLays(rest: Text, depth: nat, style: Style)
    ensures Layout([58] + rest, depth, style) == [58] + style.colon + Layout(rest, depth, style)
    ensures Tight([58] + rest) <==> Tight(rest)
  {
    assert ([58] + rest)[1..] == rest;
  }
}
