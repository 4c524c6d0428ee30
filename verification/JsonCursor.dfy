/** The cursor of the parser in mrbgems/json-with-casing/src/parson.c, lines 503-520 and 626-637, moved
    over the text, and one turn of each of the parser's two loops. */
module JsonCursor {
  import opened Bytes
  import opened Options
  import opened JsonStrings
  import opened Entries
  import opened JsonTree
  import Parser = JsonParser

  // One turn of the loop of parse_array_value, from its head to its head or its break.
  lemma ItemsTurn(s: Text, i: nat, nesting: nat, done: seq<Json>)
    requires i <= |s|
    ensures At(s, i) == NUL ==> Parser.ParseItems(s, i, nesting, done) == Parser.CloseArray(s, i, done)
    ensures At(s, i) != NUL ==>
              match Parser.ParseValue(s, i, nesting)
              case Parsed(v, next) =>
                var p := Parser.SkipSpace(s, next);
                Parser.ParseItems(s, i, nesting, done) ==
                if At(s, p) != COMMA then Parser.CloseArray(s, p, done + [v])
                else Parser.ParseItems(s, Parser.SkipSpace(s, p + 1), nesting, done + [v])
              case other => Parser.ParseItems(s, i, nesting, done) == other
  {
    hide Parser.ParseValue, Parser.SkipSpace, Parser.CloseArray;
  }

  // One turn of the loop of parse_object_value.
  lemma MembersTurn(s: Text, i: nat, nesting: nat, done: seq<Entry<Json>>)
    requires i <= |s|
    ensures At(s, i) == NUL ==> Parser.ParseMembers(s, i, nesting, done) == Parser.CloseObject(s, i, done)
    ensures At(s, i) != NUL ==>
              var (name, r) := Parser.ParsePair(s, i, nesting);
              match r
              case Parsed(v, next) =>
                var added := Add(done, name, v);
                var p := Parser.SkipSpace(s, next);
                Parser.ParseMembers(s, i, nesting, done) ==
                if added.None? then Parser.Rejected
                else if At(s, p) != COMMA then Parser.CloseObject(s, p, added.value)
                else Parser.ParseMembers(s, Parser.SkipSpace(s, p + 1), nesting, added.value)
              case other => Parser.ParseMembers(s, i, nesting, done) == other
  {
    hide Parser.ParsePair, Parser.SkipSpace, Parser.CloseObject, Add;
  }

  class Cursor {
    const text: Text
    var pos: nat

    constructor (text: Text, pos: nat)
      ensures this.text == text && this.pos == pos
    {
      this.text, this.pos := text, pos;
    }

    method SkipWhitespaces()
      modifies this
      ensures pos == Parser.SkipSpace(text, old(pos))
    {
      while IsSpace(At(text, pos))
        invariant Parser.SkipSpace(text, pos) == Parser.SkipSpace(text, old(pos))
        decreases |text| - pos
      {
        pos := pos + 1;
      }
    }

    /** skip_quotes */
    method SkipQuotes() returns (ok: bool)
      modifies this
      ensures ok <==> At(text, old(pos)) == QUOTE && Scan(text, old(pos) + 1).Some?
      ensures ok ==> pos == Scan(text, old(pos) + 1).value + 1
      ensures old(pos) <= |text| ==> pos <= |text|
    {
      if At(text, pos) != QUOTE {
        return false;
      }
      pos := pos + 1;
      while At(text, pos) != QUOTE
        invariant Scan(text, pos) == Scan(text, old(pos) + 1)
        invariant old(pos) <= |text| ==> pos <= |text|
        decreases |text| - pos
      {
        if At(text, pos) == NUL {
          return false;
        } else if At(text, pos) == BACKSLASH {
          pos := pos + 1;
          if At(text, pos) == NUL {
            return false;
          }
        }
        pos := pos + 1;
      }
      pos := pos + 1;
      return true;
    }

    /** get_quoted_string */
    method GetQuotedString() returns (r: Option<Text>)
      modifies this
      ensures r.Some? <==> QuotedString(text, old(pos)).Some?
      ensures r.Some? ==> QuotedString(text, old(pos)) == Some((r.value, pos))
      ensures old(pos) <= |text| ==> pos <= |text|
    {
      hide Scan, DecodeTo;
      var start := pos;
      var ok := SkipQuotes();
      if !ok {
        return None;
      }
      r := ProcessString(text, start + 1, pos - start - 2);
    }
  }
}
