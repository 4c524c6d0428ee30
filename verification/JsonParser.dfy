/** The recursive-descent parser (mrbgems/json-with-casing/src/parson.c, lines 639-807 and
    1089-1097) as functions on the text and an offset into it. */
module JsonParser {
  import opened Bytes
  import opened JsonStrings
  import opened Entries
  import opened JsonTree

  // NeedsDouble: the number parser falls through to strtod, of which nothing is modelled.
  datatype Outcome = Parsed(value: Json, pos: nat) | Rejected | NeedsDouble

  const NULL_TOKEN: Text := [LOWER_N, LOWER_U, 108, 108]
  const TRUE_TOKEN: Text := [LOWER_T, LOWER_R, LOWER_U, LOWER_E]
  const FALSE_TOKEN: Text := [LOWER_F, LOWER_A, 108, 115, LOWER_E]

  function SkipSpace(s: Text, i: nat): (j: nat)
    ensures i <= j && (i <= |s| ==> j <= |s|)
    ensures !IsSpace(At(s, j))
    ensures forall k | i <= k < j :: IsSpace(At(s, k))
    decreases |s| - i
  {
    if IsSpace(At(s, i)) then SkipSpace(s, i + 1) else i
  }

  // End of the run of digits at offset i.
  function DigitsEnd(s: Text, i: nat): (j: nat)
    ensures i <= j && (i <= |s| ==> j <= |s|)
    ensures !IsDigit(At(s, j))
    ensures forall k | i <= k < j :: IsDigit(At(s, k))
    decreases |s| - i
  {
    if IsDigit(At(s, i)) then DigitsEnd(s, i + 1) else i
  }

  // The number the digits from offset i up to offset j write in base ten.
  function DigitsValue(s: Text, i: nat, j: nat): (v: nat)
    requires i <= j && forall k | i <= k < j :: IsDigit(At(s, k))
  {
    if i == j then 0
    else
      var digit: int := At(s, j - 1);
      assert IsDigit(At(s, j - 1));
      DigitsValue(s, i, j - 1) * 10 + (digit - DIGIT_0)
  }

  // strtoimax in base ten on a text that starts with a digit or a minus sign: the value and the end
  // pointer. Without any digit nothing is consumed and the value is zero.
  function ReadInteger(s: Text, i: nat): (r: (int, nat))
    ensures i <= r.1 && (i <= |s| ==> r.1 <= |s|)
  {
    var from := if At(s, i) == MINUS then i + 1 else i;
    var end := DigitsEnd(s, from);
    if end == from then (0, i)
    else
      var magnitude: int := DigitsValue(s, from, end);
      (if At(s, i) == MINUS then -magnitude else magnitude, end)
  }

  function ParseNumber(s: Text, i: nat): Outcome {
    var (n, end) := ReadInteger(s, i);
    if -0x8000_0000_0000_0000 <= n <= 0x7FFF_FFFF_FFFF_FFFF &&
       At(s, end) != DOT && At(s, end) != LOWER_E && At(s, end) != UPPER_E
    then Parsed(Fixed(n), end)
    else NeedsDouble
  }

  // strncmp(token, cursor, length) == 0, with the token's value on success.
  function ParseToken(s: Text, i: nat, token: Text, value: Json): Outcome {
    if HasAt(s, i, token) then Parsed(value, i + |token|) else Rejected
  }

  function ParseBoolean(s: Text, i: nat): Outcome {
    if HasAt(s, i, TRUE_TOKEN) then Parsed(Boolean(true), i + |TRUE_TOKEN|)
    else ParseToken(s, i, FALSE_TOKEN, Boolean(false))
  }

  function ParseString(s: Text, i: nat): Outcome {
    match QuotedString(s, i)
    case None => Rejected
    case Some((bytes, next)) => Parsed(String(UpToNul(bytes)), next)
  }

  function ParseValue(s: Text, i: nat, nesting: nat): (r: Outcome)
    requires i <= |s|
    ensures r.Parsed? ==> i <= r.pos <= |s|
    decreases |s| - i, 1
  {
    if nesting > MAX_NESTING then Rejected
    else
      var p := SkipSpace(s, i);
      var c := At(s, p);
      if c == LBRACE then ParseObject(s, p, nesting + 1)
      else if c == LBRACKET then ParseArray(s, p, nesting + 1)
      else if c == QUOTE then ParseString(s, p)
      else if c == LOWER_F || c == LOWER_T then ParseBoolean(s, p)
      else if c == MINUS || IsDigit(c) then ParseNumber(s, p)
      else if c == LOWER_N then ParseToken(s, p, NULL_TOKEN, Null)
      else Rejected
  }

  function ParseArray(s: Text, i: nat, nesting: nat): (r: Outcome)
    requires i < |s|
    ensures r.Parsed? ==> i <= r.pos <= |s|
    decreases |s| - i, 0
  {
    var p := SkipSpace(s, i + 1);
    if At(s, p) == RBRACKET then Parsed(Array([]), p + 1)
    else ParseItems(s, p, nesting, [])
  }

  // The loop of parse_array_value with the cursor at offset i and the given items already added.
  function ParseItems(s: Text, i: nat, nesting: nat, done: seq<Json>): (r: Outcome)
    requires i <= |s|
    ensures r.Parsed? ==> i <= r.pos <= |s|
    decreases |s| - i, 2
  {
    if At(s, i) == NUL then CloseArray(s, i, done)
    else
      match ParseValue(s, i, nesting)
      case Rejected => Rejected
      case NeedsDouble => NeedsDouble
      case Parsed(v, next) =>
        var p := SkipSpace(s, next);
        if At(s, p) != COMMA then CloseArray(s, p, done + [v])
        else ParseItems(s, SkipSpace(s, p + 1), nesting, done + [v])
  }

  // Trimming the array to its count fails when there is nothing in it.
  function CloseArray(s: Text, i: nat, done: seq<Json>): (r: Outcome)
    requires i <= |s|
    ensures r.Parsed? ==> i <= r.pos <= |s|
  {
    var p := SkipSpace(s, i);
    if At(s, p) != RBRACKET || done == [] then Rejected else Parsed(Array(done), p + 1)
  }

  function ParseObject(s: Text, i: nat, nesting: nat): (r: Outcome)
    requires i < |s|
    ensures r.Parsed? ==> i <= r.pos <= |s|
    decreases |s| - i, 0
  {
    var p := SkipSpace(s, i + 1);
    if At(s, p) == RBRACE then Parsed(Object([]), p + 1)
    else ParseMembers(s, p, nesting, [])
  }

  // The loop of parse_object_value with the cursor at offset i and the given members already added.
  function ParseMembers(s: Text, i: nat, nesting: nat, done: seq<Entry<Json>>): (r: Outcome)
    requires i <= |s|
    ensures r.Parsed? ==> i <= r.pos <= |s|
    decreases |s| - i, 2
  {
    if At(s, i) == NUL then CloseObject(s, i, done)
    else
      var (name, r) := ParsePair(s, i, nesting);
      match r
      case Rejected => Rejected
      case NeedsDouble => NeedsDouble
      case Parsed(v, next) =>
        match Add(done, name, v)
        case None => Rejected
        case Some(members) =>
          var p := SkipSpace(s, next);
          if At(s, p) != COMMA then CloseObject(s, p, members)
          else ParseMembers(s, SkipSpace(s, p + 1), nesting, members)
  }

  // A quoted name, a colon and a value.
  function ParsePair(s: Text, i: nat, nesting: nat): (r: (CString, Outcome))
    requires i <= |s|
    ensures r.1.Parsed? ==> i < r.1.pos <= |s|
    decreases |s| - i, 1
  {
    match QuotedString(s, i)
    case None => ([], Rejected)
    case Some((key, afterKey)) =>
      var colon := SkipSpace(s, afterKey);
      if At(s, colon) != COLON then ([], Rejected)
      else (UpToNul(key), ParseValue(s, colon + 1, nesting))
  }

  function CloseObject(s: Text, i: nat, done: seq<Entry<Json>>): (r: Outcome)
    requires i <= |s|
    ensures r.Parsed? ==> i <= r.pos <= |s|
  {
    var p := SkipSpace(s, i);
    if At(s, p) != RBRACE || done == [] then Rejected else Parsed(Object(done), p + 1)
  }

  const BYTE_ORDER_MARK: Text := [0xEF, 0xBB, 0xBF]

  // json_parse_string; text after the first value is ignored.
  function ParseText(s: Text): Outcome {
    ParseValue(s, if HasAt(s, 0, BYTE_ORDER_MARK) then 3 else 0, 0)
  }

  // ---- Accepted texts give trees in normal form ------------------------------------------------

  ghost predicate Normal(r: Outcome, nesting: nat) {
    r.Parsed? ==> DistinctNames(r.value) && DepthAtMost(r.value, MAX_NESTING - nesting)
  }

  lemma {:induction false} ParsedValueIsNormal(s: Text, i: nat, nesting: nat)
    requires i <= |s|
    ensures Normal(ParseValue(s, i, nesting), nesting)
    decreases |s| - i, 1
  {
    var p := SkipSpace(s, i);
    if nesting <= MAX_NESTING {
      if At(s, p) == LBRACE {
        ParsedMembersAreNormal(s, SkipSpace(s, p + 1), nesting + 1, []);
      } else if At(s, p) == LBRACKET {
        ParsedItemsAreNormal(s, SkipSpace(s, p + 1), nesting + 1, []);
      }
    }
  }

  lemma {:induction false} ParsedItemsAreNormal(s: Text, i: nat, nesting: nat, done: seq<Json>)
    requires i <= |s| && 1 <= nesting <= MAX_NESTING + 1
    requires forall k | 0 <= k < |done| :: DistinctNames(done[k]) && DepthAtMost(done[k], MAX_NESTING - nesting)
    ensures Normal(ParseItems(s, i, nesting, done), nesting - 1)
    decreases |s| - i, 2
  {
    hide SkipSpace, ParseValue, CloseArray;
    NormalArray(s, nesting, done);
    var r := ParseValue(s, i, nesting);
    if At(s, i) != NUL && r.Parsed? {
      ParsedValueIsNormal(s, i, nesting);
      var p := SkipSpace(s, r.pos);
      NormalArray(s, nesting, done + [r.value]);
      if At(s, p) == COMMA {
        ParsedItemsAreNormal(s, SkipSpace(s, p + 1), nesting, done + [r.value]);
      }
    }
  }

  lemma NormalArray(s: Text, nesting: nat, done: seq<Json>)
    requires 1 <= nesting <= MAX_NESTING + 1
    requires forall k | 0 <= k < |done| :: DistinctNames(done[k]) && DepthAtMost(done[k], MAX_NESTING - nesting)
    ensures forall j: nat | j <= |s| :: Normal(CloseArray(s, j, done), nesting - 1)
  {
  }

  lemma NormalObject(s: Text, nesting: nat, done: seq<Entry<Json>>)
    requires 1 <= nesting <= MAX_NESTING + 1 && Distinct(done)
    requires forall k | 0 <= k < |done| ::
               DistinctNames(done[k].value) && DepthAtMost(done[k].value, MAX_NESTING - nesting)
    ensures forall j: nat | j <= |s| :: Normal(CloseObject(s, j, done), nesting - 1)
  {
  }

  lemma {:induction false} ParsedMembersAreNormal(s: Text, i: nat, nesting: nat, done: seq<Entry<Json>>)
    requires i <= |s| && 1 <= nesting <= MAX_NESTING + 1
    requires Distinct(done)
    requires forall k | 0 <= k < |done| ::
               DistinctNames(done[k].value) && DepthAtMost(done[k].value, MAX_NESTING - nesting)
    ensures Normal(ParseMembers(s, i, nesting, done), nesting - 1)
    decreases |s| - i, 2
  {
    hide SkipSpace, Find, AsMap, ParsePair, CloseObject;
    NormalObject(s, nesting, done);
    if At(s, i) != NUL {
      var (name, r) := ParsePair(s, i, nesting);
      ParsedPairIsNormal(s, i, nesting);
      if r.Parsed? && Add(done, name, r.value).Some? {
        AddIsInsert(done, name, r.value);
        var p := SkipSpace(s, r.pos);
        var done' := done + [Entry(name, r.value)];
        NormalObject(s, nesting, done');
        if At(s, p) == COMMA {
          ParsedMembersAreNormal(s, SkipSpace(s, p + 1), nesting, done');
        }
      }
    }
  }

  lemma {:induction false} ParsedPairIsNormal(s: Text, i: nat, nesting: nat)
    requires i <= |s|
    ensures Normal(ParsePair(s, i, nesting).1, nesting)
    decreases |s| - i, 1
  {
    hide SkipSpace, ParseValue, QuotedString, Normal;
    NormalRejection(nesting);
    if QuotedString(s, i).Some? {
      var colon := SkipSpace(s, QuotedString(s, i).value.1);
      if At(s, colon) == COLON {
        ParsedValueIsNormal(s, colon + 1, nesting);
      }
    }
  }

  lemma NormalRejection(nesting: nat)
    ensures Normal(Rejected, nesting)
  {
  }

  /** Every accepted text gives a tree with distinct names whose depth is within the limit. */
  lemma {:induction false} AcceptedTextIsNormal(s: Text)
    ensures var r := ParseText(s);
            r.Parsed? ==> DistinctNames(r.value) && DepthAtMost(r.value, MAX_NESTING) && r.pos <= |s|
  {
    ParsedValueIsNormal(s, if HasAt(s, 0, BYTE_ORDER_MARK) then 3 else 0, 0);
  }
}
