/** Removing comments in front of parsing (mrbgems/json-with-casing/src/parson.c, lines 308-341 and
    1099-1112): one pass for block comments, then one for line comments. Both overwrite with spaces,
    so that the text keeps its length, and both pass over string literals, in which nothing is a
    comment. */
module JsonComments {
  import opened Bytes
  import opened Options
  import opened JsonStrings
  import opened JsonSpelling
  import opened JsonTree
  import opened JsonSyntax
  import opened JsonRefusal
  import Parser = JsonParser
  import Printer = JsonPrinter

  const COMMENT_OPEN: Text := [SLASH, STAR]
  const COMMENT_CLOSE: Text := [STAR, SLASH]
  const LINE_OPEN: Text := [SLASH, SLASH]
  const LINE_CLOSE: Text := [LINE_FEED]

  function Blanks(n: nat): Text {
    seq(n, _ => SPACE)
  }

  // strstr from offset i on: offset of the first occurrence.
  function FirstAt(t: Text, i: nat, token: Text): (r: Option<nat>)
    ensures r.Some? ==> i <= r.value && HasAt(t, r.value, token)
    ensures forall k: nat | i <= k && HasAt(t, k, token) :: r.Some? && r.value <= k
    decreases |t| - i
  {
    if HasAt(t, i, token) then Some(i)
    else if i >= |t| then None
    else FirstAt(t, i + 1, token)
  }

  // In a string literal or not, and behind a backslash or not, once byte c has been passed.
  predicate StringAfter(c: byte, inString: bool, escaped: bool) {
    if c == QUOTE && !escaped then !inString else inString
  }

  predicate EscapedAfter(c: byte, escaped: bool) {
    c == BACKSLASH && !escaped
  }

  // A comment starts here: outside string literals, at a byte that means nothing else.
  predicate Starts(t: Text, open: Text, inString: bool, escaped: bool) {
    t != [] && (escaped || (t[0] != BACKSLASH && t[0] != QUOTE)) && !inString && HasAt(t, 0, open)
  }

  // remove_comments on what is left of the string. A comment becomes spaces; an unclosed one loses
  // its opening token only and ends the pass.
  function Remove(t: Text, open: Text, close: Text, inString: bool, escaped: bool): (r: Text)
    requires open != [] && close != []
    ensures |r| == |t|
    ensures forall k | 0 <= k < |t| :: r[k] == t[k] || r[k] == SPACE
    decreases |t|
  {
    if t == [] then []
    else if Starts(t, open, inString, escaped) then
      var body := t[|open|..];
      match FirstAt(body, 0, close)
      case None => Blanks(|open|) + body
      case Some(k) =>
        Blanks(|open|) + (Blanks(k + |close|) + Remove(body[k + |close|..], open, close, inString, false))
    else [t[0]] + Remove(t[1..], open, close, StringAfter(t[0], inString, escaped), EscapedAfter(t[0], escaped))
  }

  // How the state changes behind a byte that is kept.
  predicate Keeps(u: Text, open: Text, inString: bool, escaped: bool, inString': bool, escaped': bool) {
    && u != [] && !Starts(u, open, inString, escaped)
    && inString' == StringAfter(u[0], inString, escaped) && escaped' == EscapedAfter(u[0], escaped)
  }

  lemma KeepUnfolds(u: Text, open: Text, close: Text, inString: bool, escaped: bool, inString': bool, escaped': bool)
    requires open != [] && close != [] && Keeps(u, open, inString, escaped, inString', escaped')
    ensures Remove(u, open, close, inString, escaped) == [u[0]] + Remove(u[1..], open, close, inString', escaped')
  {
    hide HasAt, FirstAt, Blanks;
  }

  // ---- What removal leaves alone ---------------------------------------------------------------

  // A byte that starts nothing is kept.
  lemma PlainStep(t: Text, open: Text, close: Text, inString: bool, escaped: bool)
    requires open != [] && close != [] && t != []
    requires t[0] != BACKSLASH && t[0] != QUOTE && (inString || t[0] != open[0])
    ensures Remove(t, open, close, inString, escaped) == [t[0]] + Remove(t[1..], open, close, inString, false)
  {
    if HasAt(t, 0, open) {
      HasAtIndex(t, 0, open, 0);
    }
  }

  // Spaces are passed over when no comment can start with a space.
  lemma {:induction false} RemoveBlanks(n: nat, t: Text, open: Text, close: Text, escaped: bool)
    requires open != [] && close != [] && open[0] != SPACE
    ensures Remove(Blanks(n) + t, open, close, false, escaped) ==
            Blanks(n) + Remove(t, open, close, false, if n == 0 then escaped else false)
    decreases n
  {
    hide Remove;
    if n == 0 {
      assert Blanks(0) + t == t;
    } else {
      var u := Blanks(n) + t;
      assert u[0] == SPACE && u[1..] == Blanks(n - 1) + t;
      PlainStep(u, open, close, false, escaped);
      RemoveBlanks(n - 1, t, open, close, false);
      assert Blanks(n) == [SPACE] + Blanks(n - 1);
    }
  }

  // Blanking cannot make a comment start.
  lemma NoNewStart(t: Text, r: Text, open: Text)
    requires |r| == |t| && SPACE !in open && HasAt(r, 0, open)
    requires forall k | 0 <= k < |t| :: r[k] == t[k] || r[k] == SPACE
    ensures HasAt(t, 0, open)
  {
    forall k: nat | k < |open|
      ensures t[k] == open[k]
    {
      HasAtIndex(r, 0, open, k);
      assert open[k] in open;
    }
    assert t[0..|open|] == open;
  }

  // ---- Removing a second time ------------------------------------------------------------------

  // No comment starts at all.
  predicate Quiet(t: Text, open: Text, inString: bool, escaped: bool)
    decreases |t|
  {
    t == [] ||
    (!Starts(t, open, inString, escaped)
     && Quiet(t[1..], open, StringAfter(t[0], inString, escaped), EscapedAfter(t[0], escaped)))
  }

  // Every comment met by the pass is closed, or nothing starts behind the opening token of the one
  // that is not.
  predicate Settled(t: Text, open: Text, close: Text, inString: bool, escaped: bool)
    requires open != [] && close != []
    decreases |t|
  {
    if t == [] then true
    else if Starts(t, open, inString, escaped) then
      var body := t[|open|..];
      match FirstAt(body, 0, close)
      case None => Quiet(body, open, false, false)
      case Some(k) => Settled(body[k + |close|..], open, close, inString, false)
    else Settled(t[1..], open, close, StringAfter(t[0], inString, escaped), EscapedAfter(t[0], escaped))
  }

  lemma SameFirst(c: byte, a: Text, b: Text)
    ensures [c] + a == [c] + b <==> a == b
  {
    assert ([c] + a)[1..] == a && ([c] + b)[1..] == b;
  }

  lemma SameBehind(p: Text, a: Text, b: Text)
    ensures p + a == p + b <==> a == b
  {
    assert (p + a)[|p|..] == a && (p + b)[|p|..] == b;
  }

  lemma {:induction false} UnchangedIffQuiet(t: Text, open: Text, close: Text, inString: bool, escaped: bool)
    requires open != [] && close != [] && SPACE !in open
    ensures Remove(t, open, close, inString, escaped) == t <==> Quiet(t, open, inString, escaped)
    decreases |t|
  {
    hide Remove, HasAt;
    if t == [] {
      assert Remove(t, open, close, inString, escaped) == t;
    } else if Starts(t, open, inString, escaped) {
      StartIsBlanked(t, open, close, inString, escaped);
    } else {
      var inString', escaped' := StringAfter(t[0], inString, escaped), EscapedAfter(t[0], escaped);
      KeepUnfolds(t, open, close, inString, escaped, inString', escaped');
      UnchangedIffQuiet(t[1..], open, close, inString', escaped');
      assert t == [t[0]] + t[1..];
      SameFirst(t[0], Remove(t[1..], open, close, inString', escaped'), t[1..]);
    }
  }

  lemma StartIsBlanked(t: Text, open: Text, close: Text, inString: bool, escaped: bool)
    requires open != [] && close != [] && SPACE !in open && Starts(t, open, inString, escaped)
    ensures Remove(t, open, close, inString, escaped) != t
  {
    HasAtIndex(t, 0, open, 0);
    assert open[0] in open && t[0] != SPACE;
    assert Remove(t, open, close, inString, escaped)[0] == SPACE;
  }

  lemma UnclosedSettles(t: Text, open: Text, close: Text, escaped: bool)
    requires open != [] && close != [] && SPACE !in open && Starts(t, open, false, escaped)
    requires FirstAt(t[|open|..], 0, close).None?
    ensures var r := Remove(t, open, close, false, escaped);
            Remove(r, open, close, false, escaped) == r <==> Settled(t, open, close, false, escaped)
  {
    hide FirstAt;
    var body := t[|open|..];
    assert open[0] in open;
    RemoveBlanks(|open|, body, open, close, escaped);
    UnchangedIffQuiet(body, open, close, false, false);
    SameBehind(Blanks(|open|), Remove(body, open, close, false, false), body);
  }

  lemma ClosedSettles(t: Text, open: Text, close: Text, escaped: bool, k: nat, rest: Text)
    requires open != [] && close != [] && SPACE !in open && Starts(t, open, false, escaped)
    requires FirstAt(t[|open|..], 0, close) == Some(k) && rest == t[|open|..][k + |close|..]
    ensures var r := Remove(t, open, close, false, escaped); var rr := Remove(rest, open, close, false, false);
            Remove(r, open, close, false, escaped) == r <==> Remove(rr, open, close, false, false) == rr
  {
    hide FirstAt, Remove;
    var n, rr := |open| + (k + |close|), Remove(rest, open, close, false, false);
    CommentIsBlanked(t, open, close, escaped, k, rest);
    assert open[0] in open;
    RemoveBlanks(n, rr, open, close, escaped);
    SameBehind(Blanks(n), Remove(rr, open, close, false, false), rr);
  }

  lemma CommentIsBlanked(t: Text, open: Text, close: Text, escaped: bool, k: nat, rest: Text)
    requires open != [] && close != [] && Starts(t, open, false, escaped)
    requires FirstAt(t[|open|..], 0, close) == Some(k) && rest == t[|open|..][k + |close|..]
    ensures Remove(t, open, close, false, escaped) ==
            Blanks(|open| + (k + |close|)) + Remove(rest, open, close, false, false)
  {
    HasAtFits(t, 0, open);
    HasAtFits(t[|open|..], k, close);
    hide Remove, FirstAt, Blanks, HasAt, Starts;
    ClosedUnfolds(t, t[|open|..], k, rest, open, close, escaped);
    BlanksTogether(|open|, k + |close|, Remove(rest, open, close, false, false));
  }

  // What becomes of a comment.
  lemma StartUnfolds(t: Text, open: Text, close: Text, escaped: bool)
    requires open != [] && close != [] && Starts(t, open, false, escaped)
    ensures |open| <= |t|
    ensures match FirstAt(t[|open|..], 0, close)
            case None => Remove(t, open, close, false, escaped) == Blanks(|open|) + t[|open|..]
            case Some(k) =>
              && k + |close| <= |t[|open|..]|
              && Remove(t, open, close, false, escaped) ==
                 Blanks(|open|) +
                 (Blanks(k + |close|) + Remove(t[|open|..][k + |close|..], open, close, false, false))
  {
    hide FirstAt, Blanks;
  }

  lemma BlanksTogether(a: nat, b: nat, t: Text)
    ensures Blanks(a) + (Blanks(b) + t) == Blanks(a + b) + t
  {
  }

  lemma ClosedUnfolds(u: Text, body: Text, k: nat, rest: Text, open: Text, close: Text, escaped: bool)
    requires open != [] && close != [] && Starts(u, open, false, escaped) && |open| <= |u| && body == u[|open|..]
    requires FirstAt(body, 0, close) == Some(k) && k + |close| <= |body| && rest == body[k + |close|..]
    ensures Remove(u, open, close, false, escaped) ==
            Blanks(|open|) + (Blanks(k + |close|) + Remove(rest, open, close, false, false))
  {
    hide Remove, FirstAt, Blanks, Starts;
    StartUnfolds(u, open, close, escaped);
  }

  // The byte behind which nothing started still starts nothing once the rest has been cleared.
  lemma StillKept(t: Text, open: Text, close: Text, inString: bool, escaped: bool, inString': bool, escaped': bool)
    requires open != [] && close != [] && SPACE !in open && Keeps(t, open, inString, escaped, inString', escaped')
    ensures Keeps(Remove(t, open, close, inString, escaped), open, inString, escaped, inString', escaped')
  {
    var r := Remove(t, open, close, inString, escaped);
    KeepUnfolds(t, open, close, inString, escaped, inString', escaped');
    hide Remove;
    if HasAt(r, 0, open) {
      NoNewStart(t, r, open);
    }
  }

  /** Removing comments a second time changes nothing exactly when every comment was closed, or
      nothing like a comment starts behind the opening token of the one that was not. */
  lemma {:induction false} RemoveIsIdempotentIff(t: Text, open: Text, close: Text, inString: bool, escaped: bool)
    requires open != [] && close != [] && SPACE !in open
    ensures Remove(Remove(t, open, close, inString, escaped), open, close, inString, escaped) ==
            Remove(t, open, close, inString, escaped)
            <==> Settled(t, open, close, inString, escaped)
    decreases |t|
  {
    hide Remove, FirstAt;
    if t == [] {
      assert Remove(t, open, close, inString, escaped) == t;
    } else if Starts(t, open, inString, escaped) {
      match FirstAt(t[|open|..], 0, close)
      case None => UnclosedSettles(t, open, close, escaped);
      case Some(k) =>
        var rest := t[|open|..][k + |close|..];
        ClosedSettles(t, open, close, escaped, k, rest);
        RemoveIsIdempotentIff(rest, open, close, false, false);
    } else {
      var inString', escaped' := StringAfter(t[0], inString, escaped), EscapedAfter(t[0], escaped);
      var rest := Remove(t[1..], open, close, inString', escaped');
      KeepUnfolds(t, open, close, inString, escaped, inString', escaped');
      StillKept(t, open, close, inString, escaped, inString', escaped');
      assert ([t[0]] + rest)[1..] == rest;
      KeepUnfolds([t[0]] + rest, open, close, inString, escaped, inString', escaped');
      SameFirst(t[0], Remove(rest, open, close, inString', escaped'), rest);
      RemoveIsIdempotentIff(t[1..], open, close, inString', escaped');
    }
  }

  // Every comment met by the pass is closed.
  predicate Closed(t: Text, open: Text, close: Text, inString: bool, escaped: bool)
    requires open != [] && close != []
    decreases |t|
  {
    if t == [] then true
    else if Starts(t, open, inString, escaped) then
      var body := t[|open|..];
      match FirstAt(body, 0, close)
      case None => false
      case Some(k) => Closed(body[k + |close|..], open, close, inString, false)
    else Closed(t[1..], open, close, StringAfter(t[0], inString, escaped), EscapedAfter(t[0], escaped))
  }

  lemma {:induction false} ClosedIsSettled(t: Text, open: Text, close: Text, inString: bool, escaped: bool)
    requires open != [] && close != [] && Closed(t, open, close, inString, escaped)
    ensures Settled(t, open, close, inString, escaped)
    decreases |t|
  {
    hide FirstAt;
    if t != [] && Starts(t, open, inString, escaped) {
      var body := t[|open|..];
      ClosedIsSettled(body[FirstAt(body, 0, close).value + |close|..], open, close, inString, false);
    } else if t != [] {
      ClosedIsSettled(t[1..], open, close, StringAfter(t[0], inString, escaped), EscapedAfter(t[0], escaped));
    }
  }

  /** An unclosed comment with another start in it is not left alone the second time. */
  lemma {:induction false} UnclosedIsNotIdempotent(body: Text)
    requires FirstAt(body, 0, COMMENT_CLOSE).None? && !Quiet(body, COMMENT_OPEN, false, false)
    ensures var r := Remove(COMMENT_OPEN + body, COMMENT_OPEN, COMMENT_CLOSE, false, false);
            Remove(r, COMMENT_OPEN, COMMENT_CLOSE, false, false) != r
  {
    hide Remove, FirstAt, Quiet;
    var t := COMMENT_OPEN + body;
    assert t[0..2] == COMMENT_OPEN && t[2..] == body;
    RemoveIsIdempotentIff(t, COMMENT_OPEN, COMMENT_CLOSE, false, false);
  }

  /** In particular, removal is idempotent when all comments are closed. */
  lemma {:induction false} RemoveIsIdempotent(t: Text, open: Text, close: Text, inString: bool, escaped: bool)
    requires open != [] && close != [] && SPACE !in open
    requires Closed(t, open, close, inString, escaped)
    ensures Remove(Remove(t, open, close, inString, escaped), open, close, inString, escaped) ==
            Remove(t, open, close, inString, escaped)
  {
    hide Remove, Closed, Settled;
    ClosedIsSettled(t, open, close, inString, escaped);
    RemoveIsIdempotentIff(t, open, close, inString, escaped);
  }

  // ---- Texts with block comments between their tokens ------------------------------------------

  // Which comments are cleared: those of one pass, which leaves spaces, or all of them.
  datatype Clearing = Blocks | Lines | All

  function ClearedTrivia(t: Trivia, what: Clearing): Gap {
    match (t, what)
    case (Comment(body), Blocks) => Printer.Spaces(2 + |body| + 2)
    case (LineComment(body), Lines) => Printer.Spaces(2 + |body| + 1)
    case (Comment(_), All) => []
    case (LineComment(_), All) => []
    case _ => [t]
  }

  function ClearedGap(g: Gap, what: Clearing): Gap {
    if g == [] then [] else ClearedTrivia(g[0], what) + ClearedGap(g[1..], what)
  }

  // Nothing in the line looks like a string literal, an escape or a block comment.
  predicate LineBody(body: Text) {
    && 10 !in body && 34 !in body && 92 !in body
    && forall k | 0 <= k < |body| && body[k] == 42 :: k > 0 && body[k - 1] != 47
  }

  // Comments end where they are meant to end; no block comments any more for the second pass.
  predicate GapAllowed(g: Gap, line: bool) {
    forall k | 0 <= k < |g| ::
      match g[k]
      case Space(b) => b in {9, 10, 11, 12, 13, 32}
      case Comment(body) => !line && FirstAt(body, 0, [42, 47]).None?
      case LineComment(body) => LineBody(body)
  }

  function Cleared(d: Doc, what: Clearing): Doc
    decreases d
  {
    match d
    case ArrayOf(inner, items) => ArrayOf(ClearedGap(inner, what), ClearedItems(items, what))
    case ObjectOf(inner, fields) => ObjectOf(ClearedGap(inner, what), ClearedFields(fields, what))
    case _ => d
  }

  function ClearedPiece(p: Piece, what: Clearing): Piece
    decreases p
  {
    Piece(ClearedGap(p.before, what), Cleared(p.doc, what), ClearedGap(p.after, what))
  }

  function ClearedItems(items: seq<Piece>, what: Clearing): (r: seq<Piece>)
    ensures |r| == |items|
    decreases items
  {
    if items == [] then [] else [ClearedPiece(items[0], what)] + ClearedItems(items[1..], what)
  }

  function ClearedField(f: Field, what: Clearing): Field
    decreases f
  {
    Field(ClearedGap(f.before, what), f.key, ClearedGap(f.beforeColon, what),
          ClearedPiece(f.value, what))
  }

  function ClearedFields(fields: seq<Field>, what: Clearing): (r: seq<Field>)
    ensures |r| == |fields|
    decreases fields
  {
    if fields == [] then [] else [ClearedField(fields[0], what)] + ClearedFields(fields[1..], what)
  }

  // A text whose tokens are legal, with allowed gaps.
  predicate Allowed(d: Doc, line: bool)
    decreases d
  {
    match d
    case Leaf(v) => LegalLeaf(v)
    case Quote(us) => LegalSpelling(us)
    case ArrayOf(inner, items) => GapAllowed(inner, line) && AllowedItems(items, line)
    case ObjectOf(inner, fields) => GapAllowed(inner, line) && AllowedFields(fields, line)
  }

  predicate AllowedPiece(p: Piece, line: bool)
    decreases p
  {
    GapAllowed(p.before, line) && Allowed(p.doc, line) && GapAllowed(p.after, line)
  }

  predicate AllowedItems(items: seq<Piece>, line: bool)
    decreases items
  {
    items == [] || (AllowedPiece(items[0], line) && AllowedItems(items[1..], line))
  }

  predicate AllowedField(f: Field, line: bool)
    decreases f
  {
    GapAllowed(f.before, line) && LegalSpelling(f.key) && GapAllowed(f.beforeColon, line) && AllowedPiece(f.value, line)
  }

  predicate AllowedFields(fields: seq<Field>, line: bool)
    decreases fields
  {
    fields == [] || (AllowedField(fields[0], line) && AllowedFields(fields[1..], line))
  }

  // ---- One pass over such a text ---------------------------------------------------------------

  // The two passes: over block comments, and over line comments.
  function Pass(t: Text, line: bool): Text {
    if line then Remove(t, LINE_OPEN, LINE_CLOSE, false, false)
    else Remove(t, COMMENT_OPEN, COMMENT_CLOSE, false, false)
  }

  function By(line: bool): Clearing {
    if line then Lines else Blocks
  }

  predicate Inert(p: Text) {
    forall k | 0 <= k < |p| :: p[k] != QUOTE && p[k] != BACKSLASH && p[k] != SLASH
  }

  lemma {:induction false} InertPasses(p: Text, rest: Text, line: bool)
    requires Inert(p)
    ensures Pass(p + rest, line) == p + Pass(rest, line)
    decreases |p|
  {
    hide Remove;
    if p == [] {
      assert p + rest == rest;
    } else {
      var t := p + rest;
      assert t[0] == p[0] && t[1..] == p[1..] + rest;
      InertPasses(p[1..], rest, line);
      if line {
        PlainStep(t, LINE_OPEN, LINE_CLOSE, false, false);
      } else {
        PlainStep(t, COMMENT_OPEN, COMMENT_CLOSE, false, false);
      }
      assert p == [p[0]] + p[1..];
    }
  }

  // Inside a string literal, bytes other than quotes and backslashes are kept whatever follows.
  lemma {:induction false} InsidePasses(p: Text, rest: Text, open: Text, close: Text)
    requires open != [] && close != [] && forall k | 0 <= k < |p| :: p[k] != QUOTE && p[k] != BACKSLASH
    ensures Remove(p + rest, open, close, true, false) == p + Remove(rest, open, close, true, false)
    decreases |p|
  {
    hide Remove;
    if p == [] {
      assert p + rest == rest;
    } else {
      var t := p + rest;
      assert t[0] == p[0] && t[1..] == p[1..] + rest;
      InsidePasses(p[1..], rest, open, close);
      PlainStep(t, open, close, true, false);
      assert p == [p[0]] + p[1..];
    }
  }

  // A backslash protects the byte behind it.
  lemma EscapePasses(letter: byte, rest: Text, open: Text, close: Text)
    requires open != [] && close != []
    ensures Remove([BACKSLASH, letter] + rest, open, close, true, false) ==
            [BACKSLASH, letter] + Remove(rest, open, close, true, false)
  {
    hide Remove;
    BackslashStep([letter] + rest, open, close);
    EscapedStep(letter, rest, open, close);
    Pairs(BACKSLASH, letter, rest);
    Pairs(BACKSLASH, letter, Remove(rest, open, close, true, false));
  }

  lemma Pairs(a: byte, b: byte, rest: Text)
    ensures [a, b] + rest == [a] + ([b] + rest)
  {
  }

  lemma BackslashStep(rest: Text, open: Text, close: Text)
    requires open != [] && close != []
    ensures Remove([BACKSLASH] + rest, open, close, true, false) == [BACKSLASH] + Remove(rest, open, close, true, true)
  {
    assert ([BACKSLASH] + rest)[1..] == rest;
  }

  lemma EscapedStep(letter: byte, rest: Text, open: Text, close: Text)
    requires open != [] && close != []
    ensures Remove([letter] + rest, open, close, true, true) == [letter] + Remove(rest, open, close, true, false)
  {
    assert ([letter] + rest)[1..] == rest;
  }

  lemma QuoteStep(t: Text, open: Text, close: Text, inString: bool)
    requires open != [] && close != [] && t != [] && t[0] == QUOTE
    ensures Remove(t, open, close, inString, false) == [t[0]] + Remove(t[1..], open, close, !inString, false)
  {
  }

  lemma UnitPasses(u: Unit, rest: Text, open: Text, close: Text)
    requires open != [] && close != [] && LegalUnit(u)
    ensures Remove(UnitText(u) + rest, open, close, true, false) ==
            UnitText(u) + Remove(rest, open, close, true, false)
  {
    hide Remove, HexValue, IsLead, IsTrail, HexDigit;
    match u
    case Raw(b) => InsidePasses([b], rest, open, close);
    case Short(letter) => EscapePasses(letter, rest, open, close);
    case Hex(h) =>
      HexPasses(h, rest, open, close);
    case Pair(lead, trail) =>
      var escape := [BACKSLASH, LOWER_U];
      HexPasses(trail, rest, open, close);
      HexPasses(lead, escape + trail + rest, open, close);
      assert UnitText(u) + rest == escape + lead + (escape + trail + rest);
  }

  lemma HexPasses(h: Text, rest: Text, open: Text, close: Text)
    requires open != [] && close != [] && IsHex(h)
    ensures Remove([BACKSLASH, LOWER_U] + h + rest, open, close, true, false) ==
            [BACKSLASH, LOWER_U] + h + Remove(rest, open, close, true, false)
  {
    hide Remove;
    assert [BACKSLASH, LOWER_U] + h + rest == [BACKSLASH, LOWER_U] + (h + rest);
    EscapePasses(LOWER_U, h + rest, open, close);
    InsidePasses(h, rest, open, close);
  }

  lemma {:induction false} SpellingPasses(us: Spelling, rest: Text, open: Text, close: Text)
    requires open != [] && close != [] && LegalSpelling(us)
    ensures Remove(SpelledText(us) + rest, open, close, true, false) ==
            SpelledText(us) + Remove(rest, open, close, true, false)
    decreases |us|
  {
    hide Remove, LegalUnit, UnitText;
    if us == [] {
      assert [] + rest == rest;
    } else {
      SpellingPasses(us[1..], rest, open, close);
      UnitPasses(us[0], SpelledText(us[1..]) + rest, open, close);
      assert SpelledText(us) + rest == UnitText(us[0]) + (SpelledText(us[1..]) + rest);
    }
  }

  /** String literals are passed over byte for byte, whatever they contain. */
  lemma {:induction false} LiteralPasses(us: Spelling, rest: Text, line: bool)
    requires LegalSpelling(us)
    ensures Pass(Quoted(us) + rest, line) == Quoted(us) + Pass(rest, line)
  {
    hide LegalSpelling, SpelledText, Remove;
    var open, close := if line then LINE_OPEN else COMMENT_OPEN, if line then LINE_CLOSE else COMMENT_CLOSE;
    var inside := SpelledText(us) + ([QUOTE] + rest);
    assert Quoted(us) + rest == [QUOTE] + inside;
    assert ([QUOTE] + inside)[1..] == inside && ([QUOTE] + rest)[1..] == rest;
    SpellingPasses(us, [QUOTE] + rest, open, close);
    QuoteStep([QUOTE] + inside, open, close, false);
    QuoteStep([QUOTE] + rest, open, close, true);
  }

  // ---- The whole text --------------------------------------------------------------------------

  lemma BlanksCons(n: nat)
    ensures Blanks(n + 1) == [SPACE] + Blanks(n)
    ensures Blanks(0) == []
  {
  }

  lemma GapCons(t: Trivia, g: Gap)
    ensures GapText([t] + g) == TriviaText(t) + GapText(g)
  {
    hide TriviaText;
    assert ([t] + g)[1..] == g;
  }

  lemma {:induction false} SpacesConcat(n: nat, g: Gap)
    ensures GapText(Printer.Spaces(n) + g) == Blanks(n) + GapText(g)
  {
    hide Blanks, TriviaText, GapText;
    if n == 0 {
      BlanksCons(0);
      assert [] + g == g;
      assert [] + GapText(g) == GapText(g);
    } else {
      SpacesConcat(n - 1, g);
      SpacesCons(n - 1, g);
      GapCons(Space(SPACE), Printer.Spaces(n - 1) + g);
      SpaceText(SPACE);
      BlanksCons(n - 1);
      FourParts([], [SPACE], Blanks(n - 1), GapText(g));
    }
  }

  lemma SpacesCons(n: nat, g: Gap)
    ensures Printer.Spaces(n + 1) + g == [Space(SPACE)] + (Printer.Spaces(n) + g)
  {
  }

  // A closed comment becomes as many spaces as it has bytes.
  lemma CommentPasses(body: Text, rest: Text)
    requires FirstAt(body, 0, COMMENT_CLOSE).None?
    ensures Pass(TriviaText(Comment(body)) + rest, false) == Blanks(2 + |body| + 2) + Pass(rest, false)
  {
    hide FirstAt, Blanks, Remove, TriviaText, HasAt;
    var inner := body + (COMMENT_CLOSE + rest);
    var t := COMMENT_OPEN + inner;
    CommentText(body, rest);
    CloseFound(body, rest);
    Behind(body, COMMENT_CLOSE, rest);
    Opened(COMMENT_OPEN, inner);
    CommentIsBlanked(t, COMMENT_OPEN, COMMENT_CLOSE, false, |body|, rest);
  }

  // So does a line comment, its line feed included.
  lemma LineCommentPasses(body: Text, rest: Text)
    requires LineBody(body)
    ensures Pass(TriviaText(LineComment(body)) + rest, true) == Blanks(2 + |body| + 1) + Pass(rest, true)
  {
    hide FirstAt, Blanks, Remove, TriviaText, HasAt;
    var inner := body + (LINE_CLOSE + rest);
    var t := LINE_OPEN + inner;
    CommentText(body, rest);
    LineFound(body, rest);
    Behind(body, LINE_CLOSE, rest);
    Opened(LINE_OPEN, inner);
    CommentIsBlanked(t, LINE_OPEN, LINE_CLOSE, false, |body|, rest);
  }

  lemma Opened(open: Text, inner: Text)
    requires open != []
    ensures var t := open + inner;
            t[0] == open[0] && HasAt(t, 0, open) && t[|open|..] == inner
  {
    var t := open + inner;
    assert t[0..|open|] == open;
  }

  lemma CommentText(body: Text, rest: Text)
    ensures TriviaText(Comment(body)) + rest == COMMENT_OPEN + (body + (COMMENT_CLOSE + rest))
    ensures TriviaText(LineComment(body)) + rest == LINE_OPEN + (body + (LINE_CLOSE + rest))
  {
    FourParts([], COMMENT_OPEN + body, COMMENT_CLOSE, rest);
    FourParts([], LINE_OPEN + body, LINE_CLOSE, rest);
  }

  lemma Behind(a: Text, b: Text, c: Text)
    ensures (a + (b + c))[|a| + |b|..] == c
  {
  }

  // The end token is found right behind a body that does not contain it.
  lemma CloseFound(body: Text, rest: Text)
    requires FirstAt(body, 0, COMMENT_CLOSE).None?
    ensures FirstAt(body + (COMMENT_CLOSE + rest), 0, COMMENT_CLOSE) == Some(|body|)
  {
    var t := body + (COMMENT_CLOSE + rest);
    PartsAt(body, COMMENT_CLOSE, rest);
    assert HasAt(t, |body|, COMMENT_CLOSE);
    var k := FirstAt(t, 0, COMMENT_CLOSE).value;
    if k < |body| {
      HasAtIndex(t, k, COMMENT_CLOSE, 0);
      HasAtIndex(t, k, COMMENT_CLOSE, 1);
      if k + 1 < |body| {
        assert body[k..k + 2] == COMMENT_CLOSE;
        assert HasAt(body, k, COMMENT_CLOSE);
      }
    }
  }

  lemma LineFound(body: Text, rest: Text)
    requires 10 !in body
    ensures FirstAt(body + (LINE_CLOSE + rest), 0, LINE_CLOSE) == Some(|body|)
  {
    hide FirstAt, HasAt;
    var t := body + (LINE_CLOSE + rest);
    PartsAt(body, LINE_CLOSE, rest);
    assert HasAt(t, |body|, LINE_CLOSE);
    var k := FirstAt(t, 0, LINE_CLOSE).value;
    if k < |body| {
      HasAtIndex(t, k, LINE_CLOSE, 0);
    }
  }

  // Nothing in p is a string literal, an escape or the start of a block comment.
  predicate Calm(p: Text) {
    && 34 !in p && 92 !in p && (p != [] ==> p[|p| - 1] != 47)
    && forall k | 0 <= k < |p| - 1 && p[k] == 47 :: p[k + 1] != 42
  }

  lemma CalmStep(t: Text, p: Text)
    requires Calm(p) && p != [] && p <= t
    ensures Pass(t, false) == [t[0]] + Pass(t[1..], false)
  {
    hide Remove;
    assert t[0] == p[0] && p[0] in p;
    if HasAt(t, 0, COMMENT_OPEN) {
      HasAtIndex(t, 0, COMMENT_OPEN, 0);
      HasAtIndex(t, 0, COMMENT_OPEN, 1);
    }
    KeepUnfolds(t, COMMENT_OPEN, COMMENT_CLOSE, false, false, false, false);
  }

  // The pass over block comments leaves it alone.
  lemma {:induction false} CalmPasses(p: Text, rest: Text)
    requires Calm(p)
    ensures Pass(p + rest, false) == p + Pass(rest, false)
    decreases |p|
  {
    hide Pass;
    if p == [] {
      assert p + rest == rest && [] + Pass(rest, false) == Pass(rest, false);
    } else {
      var t := p + rest;
      CalmStep(t, p);
      CalmTail(p);
      assert t[1..] == p[1..] + rest;
      CalmPasses(p[1..], rest);
      assert p == [p[0]] + p[1..];
      FourParts([], [p[0]], p[1..], Pass(rest, false));
    }
  }

  lemma CalmTail(p: Text)
    requires Calm(p) && p != []
    ensures Calm(p[1..])
  {
    assert forall b | b in p[1..] :: b in p;
    forall k | 0 <= k < |p[1..]| - 1 && p[1..][k] == 47
      ensures p[1..][k + 1] != 42
    {
      assert p[k + 1] == 47;
    }
  }

  lemma LineIsCalm(body: Text)
    requires LineBody(body)
    ensures Calm(TriviaText(LineComment(body)))
  {
    var p := TriviaText(LineComment(body));
    forall k | 0 <= k < |p| - 1 && p[k] == 47
      ensures p[k + 1] != 42
    {
      if 1 <= k < |p| - 2 {
        assert p[k + 1] == body[k - 1];
        assert k > 1 ==> p[k] == body[k - 2];
      }
    }
    forall b | b in p
      ensures b != 34 && b != 92
    {
      if b !in [47, 47] && b !in [10] {
        assert b in body;
      }
    }
  }

  // Two parts that are passed over one after the other.
  lemma PassesInTurn(a: Text, a': Text, b: Text, b': Text, rest: Text, line: bool)
    requires Pass(a + (b + rest), line) == a' + Pass(b + rest, line)
    requires Pass(b + rest, line) == b' + Pass(rest, line)
    ensures Pass((a + b) + rest, line) == (a' + b') + Pass(rest, line)
  {
    hide Pass;
    assert (a + b) + rest == a + (b + rest);
    assert a' + (b' + Pass(rest, line)) == (a' + b') + Pass(rest, line);
  }

  lemma {:induction false} GapPasses(g: Gap, rest: Text, line: bool)
    requires GapAllowed(g, line)
    ensures Pass(GapText(g) + rest, line) == GapText(ClearedGap(g, By(line))) + Pass(rest, line)
    decreases |g|
  {
    hide Pass, FirstAt, TriviaText, ClearedTrivia, LineBody;
    if g == [] {
      assert [] + rest == rest && [] + Pass(rest, line) == Pass(rest, line);
    } else {
      var tail := g[1..];
      GapPasses(tail, rest, line);
      assert GapText(g) + rest == TriviaText(g[0]) + (GapText(tail) + rest);
      assert GapAllowed([g[0]], line) && GapAllowed(tail, line);
      TriviaPasses(g[0], GapText(tail) + rest, line);
      GapTextConcat(ClearedTrivia(g[0], By(line)), ClearedGap(tail, By(line)));
      PassesInTurn(TriviaText(g[0]), GapText(ClearedTrivia(g[0], By(line))), GapText(tail),
                   GapText(ClearedGap(tail, By(line))), rest, line);
    }
  }

  lemma {:induction false} GapTextConcat(a: Gap, b: Gap)
    ensures GapText(a + b) == GapText(a) + GapText(b)
  {
    hide TriviaText;
    if a == [] {
      assert a + b == b;
    } else {
      GapTextConcat(a[1..], b);
      assert (a + b)[1..] == a[1..] + b;
    }
  }

  lemma OneTriviaText(t: Trivia)
    ensures GapText([t]) == TriviaText(t)
  {
    assert [t][1..] == [] && TriviaText(t) + [] == TriviaText(t);
  }

  lemma SpacesText(n: nat)
    ensures GapText(Printer.Spaces(n)) == Blanks(n)
  {
    SpacesConcat(n, []);
    assert Printer.Spaces(n) + [] == Printer.Spaces(n) && Blanks(n) + GapText([]) == Blanks(n);
  }

  lemma TriviaPasses(t: Trivia, rest: Text, line: bool)
    requires GapAllowed([t], line)
    ensures Pass(TriviaText(t) + rest, line) == GapText(ClearedTrivia(t, By(line))) + Pass(rest, line)
  {
    hide Pass, FirstAt, TriviaText, Blanks, Printer.Spaces, GapText, LineBody, Calm;
    assert [t][0] == t;
    OneTriviaText(t);
    match t
    case Space(b) =>
      SpaceText(b);
      InertPasses([b], rest, line);
    case Comment(body) =>
      CommentPasses(body, rest);
      SpacesText(2 + |body| + 2);
    case LineComment(body) =>
      if line {
        LineCommentPasses(body, rest);
        SpacesText(2 + |body| + 1);
      } else {
        LineIsCalm(body);
        CalmPasses(TriviaText(t), rest);
      }
  }

  lemma SpaceText(b: byte)
    requires IsSpace(b)
    ensures TriviaText(Space(b)) == [b] && Inert([b])
  {
  }

  lemma LeafIsInert(v: Json)
    requires LegalLeaf(v)
    ensures Inert(LeafText(v))
  {
    if v.Fixed? {
      var n: int := v.n;
      DecimalIsDigits(if n < 0 then -n else n);
    }
  }

  /** One pass over a text with allowed gaps replaces each comment by spaces and changes nothing
      else. */
  lemma {:induction false} DocPasses(d: Doc, rest: Text, line: bool)
    requires Allowed(d, line)
    ensures Pass(DocText(d) + rest, line) == DocText(Cleared(d, By(line))) + Pass(rest, line)
    decreases d
  {
    hide Pass, LeafText, Quoted, LegalSpelling, ItemsText, FieldsText, GapText, ClearedItems, ClearedFields,
      AllowedItems, AllowedFields, GapAllowed, ClearedGap, Inert;
    PunctuationIsInert();
    match d
    case Leaf(v) =>
      LeafIsInert(v);
      InertPasses(LeafText(v), rest, line);
    case Quote(us) =>
      LiteralPasses(us, rest, line);
    case ArrayOf(inner, items) =>
      var body := if items == [] then GapText(inner) else ItemsText(items);
      var what := By(line);
      var body' := if items == [] then GapText(ClearedGap(inner, what)) else ItemsText(ClearedItems(items, what));
      if items == [] {
        GapPasses(inner, [RBRACKET] + rest, line);
      } else {
        ItemsPass(items, [RBRACKET] + rest, line);
      }
      BracketsPass(LBRACKET, body, body', RBRACKET, rest, line);
    case ObjectOf(inner, fields) =>
      var body := if fields == [] then GapText(inner) else FieldsText(fields);
      var what := By(line);
      var body' := if fields == [] then GapText(ClearedGap(inner, what)) else FieldsText(ClearedFields(fields, what));
      if fields == [] {
        GapPasses(inner, [RBRACE] + rest, line);
      } else {
        FieldsPass(fields, [RBRACE] + rest, line);
      }
      BracketsPass(LBRACE, body, body', RBRACE, rest, line);
  }

  lemma PunctuationIsInert()
    ensures forall c | c in {LBRACKET, RBRACKET, LBRACE, RBRACE, COMMA, COLON} :: Inert([c])
  {
  }

  lemma BracketsPass(open: byte, body: Text, body': Text, close: byte, rest: Text, line: bool)
    requires Inert([open]) && Inert([close])
    requires Pass(body + ([close] + rest), line) == body' + Pass([close] + rest, line)
    ensures Pass(([open] + body + [close]) + rest, line) == ([open] + body' + [close]) + Pass(rest, line)
  {
    hide Pass;
    InertPasses([close], rest, line);
    InertPasses([open], body + ([close] + rest), line);
    PassesInTurn([open], [open], body, body', [close] + rest, line);
    PassesInTurn([open] + body, [open] + body', [close], [close], rest, line);
  }

  lemma {:induction false} PiecePasses(p: Piece, rest: Text, line: bool)
    requires AllowedPiece(p, line)
    ensures Pass(PieceText(p) + rest, line) == PieceText(ClearedPiece(p, By(line))) + Pass(rest, line)
    decreases p
  {
    hide Pass, GapText, DocText, Cleared, ClearedGap, Allowed, GapAllowed;
    var before, doc, after := GapText(p.before), DocText(p.doc), GapText(p.after);
    GapPasses(p.after, rest, line);
    DocPasses(p.doc, after + rest, line);
    GapPasses(p.before, doc + (after + rest), line);
    var before' := GapText(ClearedGap(p.before, By(line)));
    PassesInTurn(before, before', doc, DocText(Cleared(p.doc, By(line))), after + rest, line);
    PassesInTurn(before + doc, before' + DocText(Cleared(p.doc, By(line))), after,
                 GapText(ClearedGap(p.after, By(line))), rest, line);
  }

  lemma {:induction false} ItemsPass(items: seq<Piece>, rest: Text, line: bool)
    requires items != [] && AllowedItems(items, line)
    ensures Pass(ItemsText(items) + rest, line) == ItemsText(ClearedItems(items, By(line))) + Pass(rest, line)
    decreases items
  {
    hide Pass, PieceText, ClearedPiece, AllowedPiece;
    var p, tail := items[0], items[1..];
    var cleared := ClearedItems(items, By(line));
    assert cleared[0] == ClearedPiece(p, By(line)) && cleared[1..] == ClearedItems(tail, By(line));
    if tail == [] {
      PiecePasses(p, rest, line);
      assert ItemsText(items) == PieceText(p) + [] == PieceText(p);
      assert ItemsText(cleared) == PieceText(cleared[0]) + [] == PieceText(cleared[0]);
    } else {
      ItemsPass(tail, rest, line);
      InertPasses([COMMA], ItemsText(tail) + rest, line);
      PassesInTurn([COMMA], [COMMA], ItemsText(tail), ItemsText(cleared[1..]), rest, line);
      PiecePasses(p, ([COMMA] + ItemsText(tail)) + rest, line);
      PassesInTurn(PieceText(p), PieceText(cleared[0]), [COMMA] + ItemsText(tail), [COMMA] + ItemsText(cleared[1..]),
                   rest, line);
    }
  }

  lemma {:induction false} FieldPasses(f: Field, rest: Text, line: bool)
    requires AllowedField(f, line)
    ensures Pass(FieldText(f) + rest, line) == FieldText(ClearedField(f, By(line))) + Pass(rest, line)
    decreases f
  {
    hide Pass, GapText, PieceText, Quoted, ClearedPiece, ClearedGap, AllowedPiece, GapAllowed, LegalSpelling;
    var before, key, middle, value := GapText(f.before), Quoted(f.key), GapText(f.beforeColon), PieceText(f.value);
    var before', middle' := GapText(ClearedGap(f.before, By(line))), GapText(ClearedGap(f.beforeColon, By(line)));
    PiecePasses(f.value, rest, line);
    InertPasses([COLON], value + rest, line);
    GapPasses(f.beforeColon, [COLON] + (value + rest), line);
    LiteralPasses(f.key, middle + ([COLON] + (value + rest)), line);
    GapPasses(f.before, key + (middle + ([COLON] + (value + rest))), line);
    PassesInTurn(before, before', key, key, middle + ([COLON] + (value + rest)), line);
    PassesInTurn(before + key, before' + key, middle, middle', [COLON] + (value + rest), line);
    PassesInTurn(before + key + middle, before' + key + middle', [COLON], [COLON], value + rest, line);
    PassesInTurn(before + key + middle + [COLON], before' + key + middle' + [COLON], value,
                 PieceText(ClearedPiece(f.value, By(line))), rest, line);
  }

  lemma {:induction false} FieldsPass(fields: seq<Field>, rest: Text, line: bool)
    requires fields != [] && AllowedFields(fields, line)
    ensures Pass(FieldsText(fields) + rest, line) == FieldsText(ClearedFields(fields, By(line))) + Pass(rest, line)
    decreases fields
  {
    hide Pass, FieldText, ClearedField, AllowedField;
    var f, tail := fields[0], fields[1..];
    var cleared := ClearedFields(fields, By(line));
    assert cleared[0] == ClearedField(f, By(line)) && cleared[1..] == ClearedFields(tail, By(line));
    if tail == [] {
      FieldPasses(f, rest, line);
      assert FieldsText(fields) == FieldText(f) + [] == FieldText(f);
      assert FieldsText(cleared) == FieldText(cleared[0]) + [] == FieldText(cleared[0]);
    } else {
      FieldsPass(tail, rest, line);
      InertPasses([COMMA], FieldsText(tail) + rest, line);
      PassesInTurn([COMMA], [COMMA], FieldsText(tail), FieldsText(cleared[1..]), rest, line);
      FieldPasses(f, ([COMMA] + FieldsText(tail)) + rest, line);
      PassesInTurn(FieldText(f), FieldText(cleared[0]), [COMMA] + FieldsText(tail), [COMMA] + FieldsText(cleared[1..]),
                   rest, line);
    }
  }

  // ---- Comments are invisible to the parser ----------------------------------------------------

  lemma {:induction false} SpacesAllowed(n: nat)
    ensures |Printer.Spaces(n)| == n
    ensures forall k | 0 <= k < n :: Printer.Spaces(n)[k] == Space(SPACE)
  {
    if n > 0 {
      SpacesAllowed(n - 1);
    }
  }

  lemma {:induction false} ClearedConcat(a: Gap, b: Gap, what: Clearing)
    ensures ClearedGap(a + b, what) == ClearedGap(a, what) + ClearedGap(b, what)
  {
    hide ClearedTrivia;
    if a == [] {
      assert a + b == b;
    } else {
      ClearedConcat(a[1..], b, what);
      assert (a + b)[0] == a[0] && (a + b)[1..] == a[1..] + b;
      var first, others := ClearedTrivia(a[0], what), ClearedGap(a[1..], what);
      assert (first + others) + ClearedGap(b, what) == first + (others + ClearedGap(b, what));
    }
  }

  lemma {:induction false} BlankStays(g: Gap, what: Clearing)
    requires Blank(g)
    ensures ClearedGap(g, what) == g
  {
    if g != [] {
      BlankStays(g[1..], what);
    }
  }

  lemma SpacesAreBlank(n: nat)
    ensures Blank(Printer.Spaces(n)) && GapAllowed(Printer.Spaces(n), true)
  {
    SpacesAllowed(n);
  }

  lemma OneGap(t: Trivia, what: Clearing)
    ensures ClearedGap([t], what) == ClearedTrivia(t, what)
  {
    assert [t][1..] == [];
  }

  // One trivia after the first pass, after both, and without all comments.
  lemma TriviaIsCleared(t: Trivia)
    requires GapAllowed([t], false)
    ensures GapAllowed(ClearedTrivia(t, Blocks), true)
    ensures Blank(ClearedGap(ClearedTrivia(t, Blocks), Lines)) && Blank(ClearedTrivia(t, All))
  {
    hide FirstAt, LineBody, Printer.Spaces;
    assert [t][0] == t;
    match t
    case Comment(body) =>
      SpacesAreBlank(2 + |body| + 2);
      BlankStays(Printer.Spaces(2 + |body| + 2), Lines);
    case LineComment(body) =>
      SpacesAreBlank(2 + |body| + 1);
      OneGap(t, Lines);
    case Space(_) =>
      BlankStays([t], Lines);
  }

  lemma {:induction false} GapIsCleared(g: Gap)
    requires GapAllowed(g, false)
    ensures GapAllowed(ClearedGap(g, Blocks), true)
    ensures Blank(ClearedGap(ClearedGap(g, Blocks), Lines)) && Blank(ClearedGap(g, All))
  {
    hide FirstAt, LineBody, ClearedTrivia;
    if g != [] {
      GapIsCleared(g[1..]);
      assert GapAllowed([g[0]], false);
      TriviaIsCleared(g[0]);
      ClearedConcat(ClearedTrivia(g[0], Blocks), ClearedGap(g[1..], Blocks), Lines);
    }
  }

  // Without its comments a text is legal and stands for the same value, whether they were replaced by
  // spaces, the block comments first, or dropped.
  ghost predicate ClearedWell(d: Doc) {
    && Allowed(Cleared(d, Blocks), true)
    && Legal(Cleared(Cleared(d, Blocks), Lines)) && Legal(Cleared(d, All))
    && Value(Cleared(Cleared(d, Blocks), Lines)) == Value(Cleared(d, All))
  }

  lemma {:induction false} ClearedIsLegal(d: Doc)
    requires Allowed(d, false)
    ensures ClearedWell(d)
    decreases d
  {
    hide GapAllowed, Blank, ClearedGap, LegalSpelling;
    match d
    case ArrayOf(inner, items) =>
      GapIsCleared(inner);
      ItemsCleared(items);
    case ObjectOf(inner, fields) =>
      GapIsCleared(inner);
      FieldsCleared(fields);
    case _ =>
  }

  function PieceTwice(p: Piece): Piece {
    ClearedPiece(ClearedPiece(p, Blocks), Lines)
  }

  lemma {:induction false} PieceCleared(p: Piece)
    requires AllowedPiece(p, false)
    ensures ClearedWell(p.doc) && AllowedPiece(ClearedPiece(p, Blocks), true)
    ensures LegalPiece(PieceTwice(p)) && LegalPiece(ClearedPiece(p, All))
    ensures Legal(PieceTwice(p).doc) && Legal(ClearedPiece(p, All).doc)
    ensures Value(PieceTwice(p).doc) == Value(ClearedPiece(p, All).doc)
    decreases p
  {
    hide GapAllowed, Blank, ClearedGap, Cleared, Allowed, Legal, Value;
    GapIsCleared(p.before);
    GapIsCleared(p.after);
    ClearedIsLegal(p.doc);
  }

  lemma ItemsTwice(items: seq<Piece>)
    requires items != []
    ensures ClearedItems(ClearedItems(items, Blocks), Lines) ==
            [PieceTwice(items[0])] + ClearedItems(ClearedItems(items[1..], Blocks), Lines)
    ensures ClearedItems(items, All) == [ClearedPiece(items[0], All)] + ClearedItems(items[1..], All)
  {
    hide ClearedPiece;
    assert ClearedItems(items, Blocks)[1..] == ClearedItems(items[1..], Blocks);
  }

  lemma {:induction false} ItemsCleared(items: seq<Piece>)
    requires AllowedItems(items, false)
    ensures AllowedItems(ClearedItems(items, Blocks), true)
    ensures var wide, narrow := ClearedItems(ClearedItems(items, Blocks), Lines), ClearedItems(items, All);
            LegalItems(wide) && LegalItems(narrow) && ItemValues(wide) == ItemValues(narrow)
    decreases items
  {
    hide LegalPiece, AllowedPiece, ClearedPiece, Value, PieceTwice;
    if items != [] {
      var p, tail := items[0], items[1..];
      PieceCleared(p);
      ItemsCleared(tail);
      ItemsTwice(items);
      ItemsCons(PieceTwice(p), ClearedItems(ClearedItems(tail, Blocks), Lines));
      ItemsCons(ClearedPiece(p, All), ClearedItems(tail, All));
      assert ClearedItems(items, Blocks)[1..] == ClearedItems(tail, Blocks);
    }
  }

  function FieldTwice(f: Field): Field {
    ClearedField(ClearedField(f, Blocks), Lines)
  }

  lemma {:induction false} FieldCleared(f: Field)
    requires AllowedField(f, false)
    ensures AllowedField(ClearedField(f, Blocks), true)
    ensures LegalField(FieldTwice(f)) && LegalField(ClearedField(f, All))
    ensures FieldEntry(FieldTwice(f)) == FieldEntry(ClearedField(f, All))
    decreases f
  {
    hide GapAllowed, Blank, ClearedGap, LegalPiece, AllowedPiece, ClearedPiece, Value, LegalSpelling, SpelledBytes;
    GapIsCleared(f.before);
    GapIsCleared(f.beforeColon);
    PieceCleared(f.value);
  }

  lemma FieldsTwice(fields: seq<Field>)
    requires fields != []
    ensures ClearedFields(ClearedFields(fields, Blocks), Lines) ==
            [FieldTwice(fields[0])] + ClearedFields(ClearedFields(fields[1..], Blocks), Lines)
    ensures ClearedFields(fields, All) == [ClearedField(fields[0], All)] + ClearedFields(fields[1..], All)
  {
    hide ClearedField;
    assert ClearedFields(fields, Blocks)[1..] == ClearedFields(fields[1..], Blocks);
  }

  lemma {:induction false} FieldsCleared(fields: seq<Field>)
    requires AllowedFields(fields, false)
    ensures AllowedFields(ClearedFields(fields, Blocks), true)
    ensures var wide, narrow := ClearedFields(ClearedFields(fields, Blocks), Lines), ClearedFields(fields, All);
            LegalFields(wide) && LegalFields(narrow) && FieldEntries(wide) == FieldEntries(narrow)
    decreases fields
  {
    hide LegalField, AllowedField, ClearedField, FieldEntry, FieldTwice;
    if fields != [] {
      var f, tail := fields[0], fields[1..];
      FieldCleared(f);
      FieldsCleared(tail);
      FieldsTwice(fields);
      FieldsCons(FieldTwice(f), ClearedFields(ClearedFields(tail, Blocks), Lines));
      FieldsCons(ClearedField(f, All), ClearedFields(tail, All));
      assert ClearedFields(fields, Blocks)[1..] == ClearedFields(tail, Blocks);
    }
  }

  // json_parse_string_with_comments, which knows nothing of byte order marks.
  function ParseWithComments(s: Text): Parser.Outcome {
    Parser.ParseValue(Pass(Pass(s, false), true), 0, 0)
  }

  lemma WholePasses(before: Gap, d: Doc, after: Gap, line: bool)
    requires GapAllowed(before, line) && Allowed(d, line) && GapAllowed(after, line)
    ensures var what := By(line);
            Pass(GapText(before) + (DocText(d) + GapText(after)), line) ==
            GapText(ClearedGap(before, what)) + (DocText(Cleared(d, what)) + GapText(ClearedGap(after, what)))
  {
    hide GapText, DocText, Cleared, ClearedGap, Allowed, GapAllowed, Pass;
    NothingPasses(line);
    GapPasses(after, [], line);
    assert GapText(after) + [] == GapText(after);
    assert GapText(ClearedGap(after, By(line))) + [] == GapText(ClearedGap(after, By(line)));
    DocPasses(d, GapText(after), line);
    GapPasses(before, DocText(d) + GapText(after), line);
  }

  lemma NothingPasses(line: bool)
    ensures Pass([], line) == []
  {
  }

  /** Block and line comments between the tokens of a text are invisible: the parser that removes
      comments returns the value of the text without them, or refuses it if its names repeat or it is
      too deep. */
  lemma {:induction false} CommentsAreInvisible(before: Gap, d: Doc, after: Gap)
    requires GapAllowed(before, false) && Allowed(d, false) && GapAllowed(after, false)
    requires Legal(Cleared(d, All))
    ensures var v, r := Value(Cleared(d, All)), ParseWithComments(GapText(before) + (DocText(d) + GapText(after)));
            if Parseable(v, 0) then r.Parsed? && r.value == v else r == Parser.Rejected
  {
    hide GapText, DocText, Cleared, ClearedGap, Allowed, GapAllowed, Pass, Legal, Value, Parseable, Parser.ParseValue,
      Blank;
    ClearedIsLegal(d);
    GapIsCleared(before);
    GapIsCleared(after);
    var b, e, a := ClearedGap(before, Blocks), Cleared(d, Blocks), ClearedGap(after, Blocks);
    WholePasses(before, d, after, false);
    WholePasses(b, e, a, true);
    BlankTextIsRead(ClearedGap(b, Lines), Cleared(e, Lines), ClearedGap(a, Lines));
  }

  lemma BlankTextIsRead(before: Gap, d: Doc, after: Gap)
    requires Blank(before) && Legal(d) && Blank(after)
    ensures var r := Parser.ParseValue(GapText(before) + (DocText(d) + GapText(after)), 0, 0);
            if Parseable(Value(d), 0) then r.Parsed? && r.value == Value(d) else r == Parser.Rejected
  {
    hide GapText, DocText, Legal, Value, Parseable, Parser.ParseValue, HasAt, Blank, Delimits, At, Loose;
    var b, e, a := GapText(before), DocText(d), GapText(after);
    PartsAt(b, e, a);
    AtTail(b + (e + a), |b| + |e|, a);
    FirstOfBlank(after);
    LegalIsLoose(d);
    GapThenDocReadOrRefused(b + (e + a), 0, before, d);
  }

  lemma FirstOfBlank(g: Gap)
    requires Blank(g)
    ensures Delimits(At(GapText(g), 0))
  {
    BlankText(g);
    if g != [] {
      assert IsSpace(GapText(g)[0]);
    }
  }

  /** In particular, closed block comments and line comments inserted anywhere between the tokens of a
      serialized tree do not change what it parses to. */
  lemma {:induction false} CommentedTreeIsRead(v: Json, pretty: bool, before: Gap, d: Doc, after: Gap)
    requires DistinctNames(v) && DepthAtMost(v, MAX_NESTING)
    requires GapAllowed(before, false) && Allowed(d, false) && GapAllowed(after, false)
    requires Cleared(d, All) == Printer.Render(v, 0, pretty)
    ensures var r := ParseWithComments(GapText(before) + (DocText(d) + GapText(after)));
            r.Parsed? && r.value == v
  {
    hide Cleared, Allowed, DistinctNames, DepthAtMost, Printer.Render, Value, Legal, ParseWithComments;
    Printer.PrintIsText(v, 0, pretty);
    CommentsAreInvisible(before, d, after);
  }

  // ---- The pass as written ---------------------------------------------------------------------

  // Where the pass stands in the string.
  ghost predicate Standing(t: Text, done: Text, i: nat, open: Text, close: Text, inString: bool, escaped: bool)
    requires open != [] && close != [] && i <= |t|
  {
    done + Remove(t[i..], open, close, inString, escaped) == Remove(t, open, close, false, false)
  }

  // Overwriting a stretch with spaces.
  method Fill(a: array<byte>, from: nat, count: nat)
    requires from + count <= a.Length
    modifies a
    ensures a[..from + count] == old(a[..from]) + Blanks(count)
    ensures forall k | from + count <= k < a.Length :: a[k] == old(a[k])
  {
    for k := 0 to count
      invariant forall j | 0 <= j < from :: a[j] == old(a[j])
      invariant forall j | from <= j < from + k :: a[j] == SPACE
      invariant forall j | from + k <= j < a.Length :: a[j] == old(a[j])
    {
      a[from + k] := SPACE;
    }
  }

  // A byte is kept.
  lemma ByteKept(t: Text, done: Text, i: nat, open: Text, close: Text, inString: bool, escaped: bool,
                 inString': bool, escaped': bool)
    requires open != [] && close != [] && i < |t| && Standing(t, done, i, open, close, inString, escaped)
    requires Keeps(t[i..], open, inString, escaped, inString', escaped')
    ensures Standing(t, done + [t[i]], i + 1, open, close, inString', escaped')
  {
    hide HasAt, Remove, Standing, Keeps;
    KeepUnfolds(t[i..], open, close, inString, escaped, inString', escaped');
    SliceOfSlice(t, i, 1);
    assert t[i..][0] == t[i];
    StandsBehind(t, done, i, [t[i]], i + 1, open, close, inString, escaped, inString', escaped');
  }

  // An unclosed comment loses its opening token, and the pass is over.
  lemma UnclosedCommentReplaced(t: Text, done: Text, i: nat, open: Text, close: Text, escaped: bool)
    requires open != [] && close != [] && i < |t| && Standing(t, done, i, open, close, false, escaped)
    requires Starts(t[i..], open, false, escaped)
    requires i + |open| <= |t| && FirstAt(t[i + |open|..], 0, close).None?
    ensures done + Blanks(|open|) + t[i + |open|..] == Remove(t, open, close, false, false)
  {
    hide Blanks, FirstAt, Remove, HasAt, Standing, Starts;
    SliceOfSlice(t, i, |open|);
    StartUnfolds(t[i..], open, close, escaped);
    StandingMeans(t, done, i, open, close, false, escaped);
    FourParts([], done, Blanks(|open|), t[i + |open|..]);
  }

  // A closed comment is replaced from its first to its last byte.
  lemma CommentReplaced(t: Text, done: Text, i: nat, k: nat, j: nat, open: Text, close: Text, escaped: bool)
    requires open != [] && close != [] && i < |t| && Standing(t, done, i, open, close, false, escaped)
    requires Starts(t[i..], open, false, escaped)
    requires j == i + |open| + k + |close| <= |t| && FirstAt(t[i + |open|..], 0, close) == Some(k)
    ensures Standing(t, done + Blanks(|open|) + Blanks(k + |close|), j, open, close, false, false)
  {
    hide Blanks, FirstAt, Remove, HasAt, Standing, Starts;
    SliceOfSlice(t, i, |open|);
    SliceOfSlice(t, i + |open|, k + |close|);
    ClosedUnfolds(t[i..], t[i + |open|..], k, t[j..], open, close, escaped);
    ThreeParts(Blanks(|open|), Blanks(k + |close|), Remove(t[j..], open, close, false, false));
    StandsBehind(t, done, i, Blanks(|open|) + Blanks(k + |close|), j, open, close, false, escaped, false, false);
    ThreeParts(done, Blanks(|open|), Blanks(k + |close|));
  }

  lemma StandingMeans(t: Text, done: Text, i: nat, open: Text, close: Text, inString: bool, escaped: bool)
    requires open != [] && close != [] && i <= |t| && Standing(t, done, i, open, close, inString, escaped)
    ensures done + Remove(t[i..], open, close, inString, escaped) == Remove(t, open, close, false, false)
  {
  }

  lemma StandsBehind(t: Text, done: Text, i: nat, a: Text, j: nat, open: Text, close: Text,
                     inString: bool, escaped: bool, inString': bool, escaped': bool)
    requires open != [] && close != [] && i <= j <= |t| && Standing(t, done, i, open, close, inString, escaped)
    requires Remove(t[i..], open, close, inString, escaped) == a + Remove(t[j..], open, close, inString', escaped')
    ensures Standing(t, done + a, j, open, close, inString', escaped')
  {
    hide Remove;
    ThreeParts(done, a, Remove(t[j..], open, close, inString', escaped'));
  }

  lemma ThreeParts(a: Text, b: Text, c: Text)
    ensures a + (b + c) == (a + b) + c
  {
  }

  lemma SliceOfSlice(t: Text, i: nat, k: nat)
    requires i + k <= |t|
    ensures t[i..][k..] == t[i + k..]
  {
  }

  lemma SameTail(a: array<byte>, t: Text, i: nat)
    requires i <= |t| <= a.Length && forall k | i <= k < |t| :: a[k] == t[k]
    ensures a[i..|t|] == t[i..]
  {
  }

  // Blanks the comment that starts at i: the offset behind it, if it is closed.
  method BlankComment(a: array<byte>, ghost t: Text, i: nat, open: CString, close: CString, ghost escaped: bool)
    returns (behind: Option<nat>)
    requires open != [] && close != [] && a.Length == |t| + 1 && i < |t|
    requires a[i..|t|] == t[i..] && Standing(t, a[..i], i, open, close, false, escaped)
    requires Starts(t[i..], open, false, escaped)
    modifies a
    ensures a[|t|] == old(a[|t|])
    ensures match behind
            case None => a[..|t|] == Remove(t, open, close, false, false)
            case Some(j) => i < j <= |t| && a[j..|t|] == t[j..] && Standing(t, a[..j], j, open, close, false, false)
  {
    hide Standing, Remove, FirstAt, Blanks;
    var n := a.Length - 1;
    ghost var done := a[..i];
    HasAtFits(t[i..], 0, open);
    forall k | i <= k < n
      ensures a[k] == t[k]
    {
      assert a[i..n][k - i] == t[i..][k - i];
    }
    Fill(a, i, |open|);
    var inner := i + |open|;
    assert forall k | inner <= k < n :: a[k] == t[k];
    SameTail(a, t, inner);
    var ptr := FirstAt(a[inner..n], 0, close);
    if ptr.None? {
      UnclosedCommentReplaced(t, done, i, open, close, escaped);
      assert a[..n] == a[..inner] + a[inner..n];
      return None;
    }
    HasAtFits(t[inner..], ptr.value, close);
    var j := inner + ptr.value + |close|;
    CommentReplaced(t, done, i, ptr.value, j, open, close, escaped);
    assert forall k | j <= k < n :: a[k] == t[k];
    Fill(a, inner, ptr.value + |close|);
    assert forall k | j <= k < n :: a[k] == t[k];
    SameTail(a, t, j);
    behind := Some(j);
  }

  /** remove_comments, in place on a C string. */
  method RemoveComments(a: array<byte>, open: CString, close: CString)
    requires a.Length > 0 && a[a.Length - 1] == NUL && NUL !in a[..a.Length - 1]
    modifies a
    ensures a[a.Length - 1] == NUL
    ensures a[..a.Length - 1] ==
            if open == [] || close == [] then old(a[..a.Length - 1])
            else Remove(old(a[..a.Length - 1]), open, close, false, false)
  {
    hide Standing, Remove, FirstAt, HasAt;
    if |open| == 0 || |close| == 0 {
      return;
    }
    var n := a.Length - 1;
    ghost var t := a[..n];
    var i, inString, escaped := 0, false, false;
    StandingAtStart(t, open, close);
    while a[i] != NUL
      invariant 0 <= i <= n && a[n] == NUL
      invariant a[i..n] == t[i..]
      invariant Standing(t, a[..i], i, open, close, inString, escaped)
      decreases n - i
    {
      assert a[i] == a[i..n][0] == t[i] && t[i..][0] == t[i];
      assert a[..i + 1] == a[..i] + [t[i]];
      assert a[i + 1..n] == a[i..n][1..] == t[i + 1..];
      if a[i] == BACKSLASH && !escaped {
        ByteKept(t, a[..i], i, open, close, inString, escaped, inString, true);
        escaped := true;
        i := i + 1;
        continue;
      } else if a[i] == QUOTE && !escaped {
        ByteKept(t, a[..i], i, open, close, inString, escaped, !inString, false);
        inString := !inString;
      } else if !inString && HasAt(a[i..n], 0, open) {
        var behind := BlankComment(a, t, i, open, close, escaped);
        if behind.None? {
          return;
        }
        i := behind.value - 1;
      } else {
        ByteKept(t, a[..i], i, open, close, inString, escaped, inString, false);
      }
      escaped := false;
      i := i + 1;
    }
    StandingAtEnd(t, a[..i], i, open, close, inString, escaped);
  }

  lemma StandingAtStart(t: Text, open: Text, close: Text)
    requires open != [] && close != []
    ensures Standing(t, [], 0, open, close, false, false)
  {
    assert t[0..] == t;
  }

  lemma StandingAtEnd(t: Text, done: Text, i: nat, open: Text, close: Text, inString: bool, escaped: bool)
    requires open != [] && close != [] && i <= |t| && Standing(t, done, i, open, close, inString, escaped)
    ensures i == |t| ==> done == Remove(t, open, close, false, false)
  {
    if i == |t| {
      assert t[i..] == [];
    }
  }

  // The copy of the text that json_parse_string_with_comments makes, with both passes run on it.
  method WithoutComments(text: CString) returns (r: CString)
    ensures r == Pass(Pass(text, false), true)
  {
    hide Remove;
    var n := |text|;
    var copy := new byte[n + 1];
    forall i | 0 <= i < n {
      copy[i] := text[i];
    }
    copy[n] := NUL;
    assert copy[..n] == text;
    RemoveComments(copy, COMMENT_OPEN, COMMENT_CLOSE);
    RemovedHasNoNul(text, COMMENT_OPEN, COMMENT_CLOSE);
    RemoveComments(copy, LINE_OPEN, LINE_CLOSE);
    RemovedHasNoNul(Pass(text, false), LINE_OPEN, LINE_CLOSE);
    r := copy[..n];
  }

  lemma RemovedHasNoNul(t: CString, open: Text, close: Text)
    requires open != [] && close != []
    ensures NUL !in Remove(t, open, close, false, false)
  {
    var r := Remove(t, open, close, false, false);
    forall k | 0 <= k < |r|
      ensures r[k] != NUL
    {
      assert t[k] in t;
    }
  }
}
