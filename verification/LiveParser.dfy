/** The recursive-descent parser as written in mrbgems/json-with-casing/src/parson.c, lines 639-807
    and 1089-1112: a cursor moved over the text, nodes made and hung below their containers, and
    everything freed again when the text is refused. What it makes of a text is what the functions
    of JsonParser say. */
module LiveParser {
  import opened Bytes
  import opened Options
  import opened JsonStrings
  import opened Entries
  import opened JsonTree
  import opened Forest
  import opened ForestValues
  import opened HeapGrowth
  import opened LiveValues
  import opened JsonCursor
  import Spec = JsonParser
  import JsonComments

  datatype Reading = Read(node: Node) | Refused | NeedsDouble

  // The outcome is that of the specification. What was read is a new tree with that value, and the
  // cursor stands behind its text; after a failure the heap is as it was.
  ghost predicate Means(h: Heap, ops: seq<Op>, h': Heap, out: Reading, o: Spec.Outcome, pos: nat)
    requires IsForest(h) && IsForest(h')
  {
    match o
    case Parsed(v, end) =>
      && out.Read? && pos == end
      && Built(h, ops, h', out.node) && ValueOf(h', out.node) == v
    case Rejected => out == Refused && h' == h
    case NeedsDouble => out == Reading.NeedsDouble && h' == h
  }

  // The same for the loop that fills the container r, which the caller frees after a failure.
  ghost predicate Fills(h': Heap, r: Node, out: Reading, o: Spec.Outcome, pos: nat)
    requires IsForest(h')
  {
    match o
    case Parsed(v, end) => out == Read(r) && pos == end && r in h' && ValueOf(h', r) == v
    case Rejected => out == Refused
    case NeedsDouble => out == Reading.NeedsDouble
  }

  lemma LeafMeans(h: Heap, h': Heap, r: Node, v: Json, pos: nat)
    requires IsForest(h) && r !in h && !v.Array? && !v.Object? && h' == NewIn(h, r, Scalar(v))
    ensures IsForest(h') && Means(h, [Create(r, Scalar(v))], h', Read(r), Spec.Parsed(v, pos), pos)
  {
    NewRoot(h, r, Scalar(v));
    ScalarValue(h', r);
  }

  // ---- Moving the cursor touches no value ----

  lemma CursorIsNoTable(cursor: Cursor, n: Node)
    ensures cursor !in n.Repr()
  {
  }

  method MoveTo(live: Live, cursor: Cursor, pos: nat)
    requires live.Valid()
    modifies cursor
    ensures cursor.pos == pos
    ensures live.Valid() && live.Now() == old(live.Now()) && live.Reprs() == old(live.Reprs())
    ensures forall m | m in live.nodes :: m.Layout() == old(m.Layout())
  {
    live.TablesOnly();
    cursor.pos := pos;
    live.NothingChanged();
  }

  method SkipWhitespaces(live: Live, cursor: Cursor)
    requires live.Valid()
    modifies cursor
    ensures cursor.pos == Spec.SkipSpace(cursor.text, old(cursor.pos))
    ensures live.Valid() && live.Now() == old(live.Now()) && live.Reprs() == old(live.Reprs())
    ensures forall m | m in live.nodes :: m.Layout() == old(m.Layout())
  {
    live.TablesOnly();
    cursor.SkipWhitespaces();
    live.NothingChanged();
  }

  method GetQuotedString(live: Live, cursor: Cursor) returns (r: Option<Text>)
    requires live.Valid()
    modifies cursor
    ensures r.Some? <==> QuotedString(cursor.text, old(cursor.pos)).Some?
    ensures r.Some? ==> QuotedString(cursor.text, old(cursor.pos)) == Some((r.value, cursor.pos))
    ensures old(cursor.pos) <= |cursor.text| ==> cursor.pos <= |cursor.text|
    ensures live.Valid() && live.Now() == old(live.Now()) && live.Reprs() == old(live.Reprs())
    ensures forall m | m in live.nodes :: m.Layout() == old(m.Layout())
  {
    hide QuotedString;
    live.TablesOnly();
    r := cursor.GetQuotedString();
    live.NothingChanged();
  }

  // The end of a turn of either loop: white space, and a comma with white space if there is one.
  method SkipComma(live: Live, cursor: Cursor) returns (more: bool)
    requires live.Valid()
    modifies cursor
    ensures var p := Spec.SkipSpace(cursor.text, old(cursor.pos));
            && more == (At(cursor.text, p) == COMMA)
            && cursor.pos == if more then Spec.SkipSpace(cursor.text, p + 1) else p
    ensures live.Valid() && live.Now() == old(live.Now()) && live.Reprs() == old(live.Reprs())
    ensures forall m | m in live.nodes :: m.Layout() == old(m.Layout())
  {
    hide Live.Apart, Live.Now, Live.Reprs, IsForest, Node.Repr, Spec.SkipSpace;
    SkipWhitespaces(live, cursor);
    more := At(cursor.text, cursor.pos) == COMMA;
    if more {
      MoveTo(live, cursor, cursor.pos + 1);
      SkipWhitespaces(live, cursor);
    }
  }

  // ---- Scalars ----

  // A scalar of which the specification says all there is to say: the node is made and the cursor
  // moved, if there is one.
  method MakeLeaf(live: Live, cursor: Cursor, o: Spec.Outcome) returns (out: Reading, ghost ops: seq<Op>)
    requires live.Valid() && (o.Parsed? ==> !o.value.Array? && !o.value.Object?)
    requires cursor.pos <= |cursor.text| && (o.Parsed? ==> o.pos <= |cursor.text|)
    modifies cursor, live
    ensures cursor.pos <= |cursor.text|
    ensures live.Valid() && Means(old(live.Now()), ops, live.Now(), out, o, cursor.pos)
    ensures old(live.nodes) <= live.nodes
    ensures forall m | m in live.nodes && m !in old(live.nodes) :: fresh(m) && m.Trimmed()
    ensures forall n | n in live.Reprs() && n !in old(live.Reprs()) :: fresh(n)
    ensures forall m | m in old(live.nodes) :: m.Layout() == old(m.Layout())
  {
    hide Live.Apart, Live.Now, Live.Reprs, IsForest, Node.Repr;
    match o
    case Rejected => out, ops := Refused, [];
    case NeedsDouble => out, ops := Reading.NeedsDouble, [];
    case Parsed(v, end) =>
      hide Means;
      live.LiveKeys();
      MoveTo(live, cursor, end);
      var r := live.MakeScalar(v);
      LeafMeans(old(live.Now()), live.Now(), r, v, end);
      out, ops := Read(r), [Create(r, Scalar(v))];
  }

  // ---- Values ----

  /** parse_value */
  method ParseValue(live: Live, cursor: Cursor, nesting: nat) returns (out: Reading, ghost ops: seq<Op>)
    requires live.Valid() && cursor.pos <= |cursor.text|
    modifies cursor, live, live.nodes`above
    ensures live.Valid() && cursor.pos <= |cursor.text|
    ensures var o := Spec.ParseValue(cursor.text, old(cursor.pos), nesting);
            Means(old(live.Now()), ops, live.Now(), out, o, cursor.pos)
    ensures old(live.nodes) <= live.nodes
    ensures forall m | m in live.nodes && m !in old(live.nodes) :: fresh(m) && m.Trimmed()
    ensures forall n | n in live.Reprs() && n !in old(live.Reprs()) :: fresh(n)
    ensures forall m | m in old(live.nodes) :: m.Layout() == old(m.Layout())
    decreases |cursor.text| - cursor.pos, 3
  {
    hide Live.Apart, Live.Now, Live.Reprs, IsForest, Node.Repr;
    hide Spec.ParseNumber, Spec.ParseString, Spec.ParseBoolean, Spec.ParseToken, Spec.ParseArray, Spec.ParseObject;
    if nesting > MAX_NESTING {
      return Refused, [];
    }
    SkipWhitespaces(live, cursor);
    var c := At(cursor.text, cursor.pos);
    if c == LBRACE {
      out, ops := ParseObjectValue(live, cursor, nesting + 1);
    } else if c == LBRACKET {
      out, ops := ParseArrayValue(live, cursor, nesting + 1);
    } else {
      out, ops := ParseScalar(live, cursor);
    }
  }

  // What the specification says of the scalars that start with c.
  function ScalarAt(s: Text, p: nat): (o: Spec.Outcome)
    requires p <= |s|
    ensures o.Parsed? ==> o.pos <= |s| && !o.value.Array? && !o.value.Object?
  {
    var c := At(s, p);
    if c == QUOTE then Spec.ParseString(s, p)
    else if c == LOWER_F || c == LOWER_T then Spec.ParseBoolean(s, p)
    else if c == MINUS || IsDigit(c) then Spec.ParseNumber(s, p)
    else if c == LOWER_N then Spec.ParseToken(s, p, Spec.NULL_TOKEN, Null)
    else Spec.Rejected
  }

  // parse_string_value, parse_boolean_value, parse_number_value, parse_null_value
  method ParseScalar(live: Live, cursor: Cursor) returns (out: Reading, ghost ops: seq<Op>)
    requires live.Valid() && cursor.pos <= |cursor.text|
    modifies cursor, live
    ensures live.Valid() && cursor.pos <= |cursor.text|
    ensures Means(old(live.Now()), ops, live.Now(), out, ScalarAt(cursor.text, old(cursor.pos)), cursor.pos)
    ensures old(live.nodes) <= live.nodes
    ensures forall m | m in live.nodes && m !in old(live.nodes) :: fresh(m) && m.Trimmed()
    ensures forall n | n in live.Reprs() && n !in old(live.Reprs()) :: fresh(n)
    ensures forall m | m in old(live.nodes) :: m.Layout() == old(m.Layout())
  {
    hide Live.Apart, Live.Now, Live.Reprs, IsForest, Node.Repr, Means, QuotedString;
    hide Spec.ParseNumber, Spec.ParseBoolean, Spec.ParseToken;
    if At(cursor.text, cursor.pos) == QUOTE {
      ghost var start := cursor.pos;
      var bytes := GetQuotedString(live, cursor);
      var o := if bytes.None? then Spec.Rejected else Spec.Parsed(String(UpToNul(bytes.value)), cursor.pos);
      assert o == Spec.ParseString(cursor.text, start);
      out, ops := MakeLeaf(live, cursor, o);
    } else {
      out, ops := MakeLeaf(live, cursor, ScalarAt(cursor.text, cursor.pos));
    }
  }

  // The new array, with the cursor behind the opening bracket.
  method StartArray(live: Live, cursor: Cursor) returns (r: Node)
    requires live.Valid() && cursor.pos < |cursor.text|
    modifies cursor, live
    ensures live.Valid() && cursor.pos == Spec.SkipSpace(cursor.text, old(cursor.pos) + 1)
    ensures Built(old(live.Now()), [Create(r, List([]))], live.Now(), r)
    ensures live.Now()[r].content == List([]) && r in live.nodes && r.list != null
    ensures live.nodes == old(live.nodes) + {r} && fresh(r) && r.Trimmed() && forall n | n in r.Repr() :: fresh(n)
    ensures forall n | n in live.Reprs() && n !in old(live.Reprs()) :: fresh(n)
    ensures forall m | m in old(live.nodes) :: m.Layout() == old(m.Layout())
  {
    hide Live.Apart, Live.Now, Live.Reprs, IsForest, Node.Repr, Extends, NewBelow, Leads, NewIn, Spec.SkipSpace;
    live.LiveKeys();
    r := live.MakeArray();
    NewRoot(old(live.Now()), r, List([]));
    MoveTo(live, cursor, cursor.pos + 1);
    SkipWhitespaces(live, cursor);
  }

  /** parse_array_value: the array is made first, and freed again if the text is refused. */
  method ParseArrayValue(live: Live, cursor: Cursor, nesting: nat) returns (out: Reading, ghost ops: seq<Op>)
    requires live.Valid() && cursor.pos < |cursor.text| && At(cursor.text, cursor.pos) == LBRACKET
    modifies cursor, live, live.nodes`above
    ensures live.Valid() && cursor.pos <= |cursor.text|
    ensures var o := Spec.ParseArray(cursor.text, old(cursor.pos), nesting);
            Means(old(live.Now()), ops, live.Now(), out, o, cursor.pos)
    ensures old(live.nodes) <= live.nodes
    ensures forall m | m in live.nodes && m !in old(live.nodes) :: fresh(m) && m.Trimmed()
    ensures forall n | n in live.Reprs() && n !in old(live.Reprs()) :: fresh(n)
    ensures forall m | m in old(live.nodes) :: m.Layout() == old(m.Layout())
    decreases |cursor.text| - cursor.pos, 2
  {
    hide Live.Apart, Live.Now, Live.Reprs, IsForest, Node.Repr, Means, Fills, Extends, NewBelow, Leads, NewIn;
    hide Spec.ParseItems, Spec.SkipSpace;
    ghost var h := live.Now();
    live.LiveKeys();
    var r := StartArray(live, cursor);
    if At(cursor.text, cursor.pos) == RBRACKET {
      MoveTo(live, cursor, cursor.pos + 1);
      EmptyMeans(h, [Create(r, List([]))], live.Now(), r, cursor.pos);
      return Read(r), [Create(r, List([]))];
    }
    out, ops := FillArray(live, cursor, nesting, h, [Create(r, List([]))], r);
    live.LiveKeys();
    RootOfGrowth(h, ops, live.Now(), r);
    if !out.Read? {
      live.FreeValue(r);
      live.LiveKeys();
    }
  }

  lemma EmptyMeans(h: Heap, ops: seq<Op>, h': Heap, r: Node, pos: nat)
    requires IsForest(h) && IsForest(h') && Built(h, ops, h', r)
    ensures h'[r].content == List([]) ==> Means(h, ops, h', Read(r), Spec.Parsed(Array([]), pos), pos)
    ensures h'[r].content == Dict([]) ==> Means(h, ops, h', Read(r), Spec.Parsed(Object([]), pos), pos)
  {
    NothingYet(h', r);
    if h'[r].content == List([]) {
      ArrayValue(h', r);
    } else if h'[r].content == Dict([]) {
      ObjectValue(h', r);
    }
  }

  lemma RootOfGrowth(h: Heap, ops: seq<Op>, h': Heap, r: Node)
    requires IsForest(h) && IsForest(h') && Built(h, ops, h', r)
    ensures r in h' && h'[r].parent == null && FreeIn(h', r) == h
    ensures forall out, o, pos | Fills(h', r, out, o, pos) ::
              if out.Read? then Means(h, ops, h', out, o, pos) else Means(h, ops, h, out, o, pos)
  {
    FreeingUndoes(h, h', r);
  }

  // The loop of parse_array_value, the closing bracket and the trimming.
  method FillArray(live: Live, cursor: Cursor, nesting: nat, ghost h: Heap, ghost start: seq<Op>, r: Node)
    returns (out: Reading, ghost ops: seq<Op>)
    requires live.Valid() && IsForest(h) && cursor.pos <= |cursor.text|
    requires Built(h, start, live.Now(), r) && live.Now()[r].content == List([])
    requires r in live.nodes && r.list != null
    modifies cursor, live, live.nodes`above, r.Repr()
    ensures live.Valid() && Built(h, ops, live.Now(), r)
    ensures cursor.pos <= |cursor.text|
    ensures Fills(live.Now(), r, out, Spec.ParseItems(cursor.text, old(cursor.pos), nesting, []), cursor.pos)
    ensures out.Read? ==> r.Trimmed()
    ensures old(live.nodes) <= live.nodes
    ensures forall m | m in live.nodes && m !in old(live.nodes) :: fresh(m) && m.Trimmed()
    ensures forall n | n in live.Reprs() && n !in old(live.Reprs()) :: fresh(n)
    ensures forall m | m in old(live.nodes) && m != r :: m.Layout() == old(m.Layout())
    decreases |cursor.text| - cursor.pos, 6
  {
    hide Live.Apart, Live.Now, Live.Reprs, IsForest, Node.Repr, Extends, NewBelow, Leads, HasItems, ValueOf;
    hide Spec.ParseItems, Spec.CloseArray;
    live.LiveKeys();
    HasNone(live.Now(), r);
    ghost var done;
    out, ops, done := FillItems(live, cursor, nesting, h, start, r);
    if out.Read? {
      out := CloseArray(live, cursor, r, done);
    }
  }

  // The loop: at its end, what is left is to close the array.
  method FillItems(live: Live, cursor: Cursor, nesting: nat, ghost h: Heap, ghost start: seq<Op>, r: Node)
    returns (out: Reading, ghost ops: seq<Op>, ghost done: seq<Json>)
    requires live.Valid() && IsForest(h) && cursor.pos <= |cursor.text|
    requires Built(h, start, live.Now(), r) && HasItems(live.Now(), r, [])
    requires r in live.nodes && r.list != null
    modifies cursor, live, live.nodes`above, r.Repr()
    ensures live.Valid() && Built(h, ops, live.Now(), r)
    ensures cursor.pos <= |cursor.text| && (out.Read? ==> out == Read(r) && HasItems(live.Now(), r, done))
    ensures Spec.ParseItems(cursor.text, old(cursor.pos), nesting, []) ==
            match out
            case Read(_) => Spec.CloseArray(cursor.text, cursor.pos, done)
            case Refused => Spec.Rejected
            case NeedsDouble => Spec.NeedsDouble
    ensures old(live.nodes) <= live.nodes
    ensures forall m | m in live.nodes && m !in old(live.nodes) :: fresh(m) && m.Trimmed()
    ensures forall n | n in live.Reprs() && n !in old(live.Reprs()) :: fresh(n)
    ensures forall n | n in r.Repr() && n !in old(r.Repr()) :: fresh(n)
    ensures forall m | m in old(live.nodes) && m != r :: m.Layout() == old(m.Layout())
    decreases |cursor.text| - cursor.pos, 5
  {
    hide Live.Apart, Live.Now, Live.Reprs, IsForest, Node.Repr, Means, Extends, NewBelow, Leads, ItemValues, HasItems;
    hide Spec.ParseValue, Spec.SkipSpace, Spec.ParseItems, Spec.CloseArray;
    done, ops := [], start;
    out := Read(r);
    while At(cursor.text, cursor.pos) != NUL
      invariant live.Valid() && Built(h, ops, live.Now(), r)
      invariant out == Read(r) && HasItems(live.Now(), r, done)
      invariant old(cursor.pos) <= cursor.pos <= |cursor.text|
      invariant Spec.ParseItems(cursor.text, cursor.pos, nesting, done) ==
                Spec.ParseItems(cursor.text, old(cursor.pos), nesting, [])
      invariant old(live.nodes) <= live.nodes
      invariant forall m | m in live.nodes && m !in old(live.nodes) :: fresh(m) && m.Trimmed()
      invariant forall n | n in live.Reprs() && n !in old(live.Reprs()) :: fresh(n)
      invariant forall n | n in r.Repr() && n !in old(r.Repr()) :: fresh(n)
      invariant forall m | m in old(live.nodes) && m != r :: m.Layout() == old(m.Layout())
      decreases |cursor.text| - cursor.pos
    {
      ItemsTurn(cursor.text, cursor.pos, nesting, done);
      ghost var o := Spec.ParseValue(cursor.text, cursor.pos, nesting);
      out, ops := ParseItem(live, cursor, nesting, h, ops, r, done);
      if !out.Read? {
        return;
      }
      done := done + [o.value];
      var more := SkipComma(live, cursor);
      if !more {
        return;
      }
    }
    ItemsTurn(cursor.text, cursor.pos, nesting, done);
  }

  ghost predicate HasItems(h: Heap, r: Node, done: seq<Json>)
    requires IsForest(h)
  {
    r in h && h[r].content.List? && ItemValues(h, r) == done
  }

  lemma HasNone(h: Heap, r: Node)
    requires IsForest(h) && r in h
    ensures h[r].content == List([]) ==> HasItems(h, r, [])
  {
    NothingYet(h, r);
  }

  // An item is parsed and added to the array.
  method ParseItem(live: Live, cursor: Cursor, nesting: nat, ghost h: Heap, ghost start: seq<Op>, r: Node,
      ghost done: seq<Json>)
    returns (out: Reading, ghost ops: seq<Op>)
    requires live.Valid() && IsForest(h) && cursor.pos <= |cursor.text|
    requires Built(h, start, live.Now(), r) && HasItems(live.Now(), r, done)
    requires r in live.nodes && r.list != null
    modifies cursor, live, live.nodes`above, r.Repr()
    ensures live.Valid() && Built(h, ops, live.Now(), r)
    ensures cursor.pos <= |cursor.text|
    ensures match Spec.ParseValue(cursor.text, old(cursor.pos), nesting)
            case Parsed(v, end) => out == Read(r) && cursor.pos == end && HasItems(live.Now(), r, done + [v])
            case Rejected => out == Refused
            case NeedsDouble => out == Reading.NeedsDouble
    ensures old(live.nodes) <= live.nodes
    ensures forall m | m in live.nodes && m !in old(live.nodes) :: fresh(m) && m.Trimmed()
    ensures forall n | n in live.Reprs() && n !in old(live.Reprs()) :: fresh(n)
    ensures forall n | n in r.Repr() && n !in old(r.Repr()) :: fresh(n)
    ensures forall m | m in old(live.nodes) && m != r :: m.Layout() == old(m.Layout())
    decreases |cursor.text| - cursor.pos, 4
  {
    hide Live.Apart, Live.Now, Live.Reprs, IsForest, Node.Repr, Extends, NewBelow, Leads, AppendIn, ItemValues,
      ValueOf;
    hide Spec.ParseValue;
    ghost var h1 := live.Now();
    live.LiveKeys();
    ops := start;
    ghost var more;
    out, more := ParseValue(live, cursor, nesting);
    if out.Read? {
      var v := out.node;
      ghost var h2 := live.Now();
      live.LiveKeys();
      GrowArray(h, start, h1, more, h2, r, v);
      ops := start + more + [Append(r, v)];
      CursorIsNoTable(cursor, r);
      live.AddItem(r, v);
      out := Read(r);
    }
  }

  // The closing bracket and the trimming of the array to its count.
  method CloseArray(live: Live, cursor: Cursor, r: Node, ghost done: seq<Json>) returns (out: Reading)
    requires live.Valid() && cursor.pos <= |cursor.text| && r in live.nodes && r.list != null
    requires HasItems(live.Now(), r, done)
    modifies cursor, r.Repr()
    ensures live.Valid() && live.Now() == old(live.Now()) && live.nodes == old(live.nodes)
    ensures cursor.pos <= |cursor.text|
    ensures Fills(live.Now(), r, out, Spec.CloseArray(cursor.text, old(cursor.pos), done), cursor.pos)
    ensures out.Read? ==> r.Trimmed()
    ensures forall n | n in live.Reprs() && n !in old(live.Reprs()) :: fresh(n)
    ensures forall m | m in live.nodes && m != r :: m.Layout() == old(m.Layout())
  {
    hide Live.Apart, Live.Now, Live.Reprs, IsForest, Node.Repr, ItemValues, ValueOf, Spec.SkipSpace;
    SkipWhitespaces(live, cursor);
    if At(cursor.text, cursor.pos) != RBRACKET {
      return Refused;
    }
    ArrayValue(live.Now(), r);
    ItemCount(live.Now(), r);
    CursorIsNoTable(cursor, r);
    var trimmed := live.TrimItems(r);
    if !trimmed {
      return Refused;
    }
    MoveTo(live, cursor, cursor.pos + 1);
    out := Read(r);
  }

  lemma ItemCount(h: Heap, r: Node)
    requires IsForest(h) && r in h && h[r].content.List?
    ensures |ItemValues(h, r)| == |h[r].content.items|
  {
  }

  // ---- Objects ----

  ghost predicate HasMembers(h: Heap, r: Node, done: seq<Entry<Json>>)
    requires IsForest(h)
  {
    r in h && h[r].content.Dict? && MemberValues(h, r) == done
  }

  lemma HasNoMembers(h: Heap, r: Node)
    requires IsForest(h) && r in h
    ensures h[r].content == Dict([]) ==> HasMembers(h, r, [])
  {
    NothingYet(h, r);
  }

  lemma MemberCount(h: Heap, r: Node, done: seq<Entry<Json>>)
    requires IsForest(h) && HasMembers(h, r, done)
    ensures |done| == |h[r].content.members| && ValueOf(h, r) == Object(done)
    ensures forall name: CString :: Has(h[r].content.members, name) <==> Has(done, name)
  {
    hide Has;
    ObjectValue(h, r);
    forall name: CString
      ensures Has(h[r].content.members, name) <==> Has(done, name)
    {
      SameNamesSameHas(h[r].content.members, done, name);
    }
  }

  // The new object, with the cursor behind the opening bracket.
  method StartObject(live: Live, cursor: Cursor) returns (r: Node)
    requires live.Valid() && cursor.pos < |cursor.text|
    modifies cursor, live
    ensures live.Valid() && cursor.pos == Spec.SkipSpace(cursor.text, old(cursor.pos) + 1)
    ensures Built(old(live.Now()), [Create(r, Dict([]))], live.Now(), r)
    ensures live.Now()[r].content == Dict([]) && r in live.nodes && r.table != null
    ensures live.nodes == old(live.nodes) + {r} && fresh(r) && r.Trimmed() && forall n | n in r.Repr() :: fresh(n)
    ensures forall n | n in live.Reprs() && n !in old(live.Reprs()) :: fresh(n)
    ensures forall m | m in old(live.nodes) :: m.Layout() == old(m.Layout())
  {
    hide Live.Apart, Live.Now, Live.Reprs, IsForest, Node.Repr, Extends, NewBelow, Leads, NewIn, Spec.SkipSpace;
    live.LiveKeys();
    r := live.MakeObject();
    NewRoot(old(live.Now()), r, Dict([]));
    MoveTo(live, cursor, cursor.pos + 1);
    SkipWhitespaces(live, cursor);
  }

  /** parse_object_value: the object is made first, and freed again if the text is refused. */
  method ParseObjectValue(live: Live, cursor: Cursor, nesting: nat) returns (out: Reading, ghost ops: seq<Op>)
    requires live.Valid() && cursor.pos < |cursor.text| && At(cursor.text, cursor.pos) == LBRACE
    modifies cursor, live, live.nodes`above
    ensures live.Valid() && cursor.pos <= |cursor.text|
    ensures var o := Spec.ParseObject(cursor.text, old(cursor.pos), nesting);
            Means(old(live.Now()), ops, live.Now(), out, o, cursor.pos)
    ensures old(live.nodes) <= live.nodes
    ensures forall m | m in live.nodes && m !in old(live.nodes) :: fresh(m) && m.Trimmed()
    ensures forall n | n in live.Reprs() && n !in old(live.Reprs()) :: fresh(n)
    ensures forall m | m in old(live.nodes) :: m.Layout() == old(m.Layout())
    decreases |cursor.text| - cursor.pos, 2
  {
    hide Live.Apart, Live.Now, Live.Reprs, IsForest, Node.Repr, Means, Fills, Extends, NewBelow, Leads, NewIn;
    hide Spec.ParseMembers, Spec.SkipSpace;
    ghost var h := live.Now();
    live.LiveKeys();
    var r := StartObject(live, cursor);
    if At(cursor.text, cursor.pos) == RBRACE {
      MoveTo(live, cursor, cursor.pos + 1);
      EmptyMeans(h, [Create(r, Dict([]))], live.Now(), r, cursor.pos);
      return Read(r), [Create(r, Dict([]))];
    }
    out, ops := FillObject(live, cursor, nesting, h, [Create(r, Dict([]))], r);
    live.LiveKeys();
    RootOfGrowth(h, ops, live.Now(), r);
    if !out.Read? {
      live.FreeValue(r);
      live.LiveKeys();
    }
  }

  // The loop of parse_object_value, the closing brace and the trimming.
  method FillObject(live: Live, cursor: Cursor, nesting: nat, ghost h: Heap, ghost start: seq<Op>, r: Node)
    returns (out: Reading, ghost ops: seq<Op>)
    requires live.Valid() && IsForest(h) && cursor.pos <= |cursor.text|
    requires Built(h, start, live.Now(), r) && live.Now()[r].content == Dict([])
    requires r in live.nodes && r.table != null
    modifies cursor, live, live.nodes`above, r.Repr()
    ensures live.Valid() && Built(h, ops, live.Now(), r)
    ensures cursor.pos <= |cursor.text|
    ensures Fills(live.Now(), r, out, Spec.ParseMembers(cursor.text, old(cursor.pos), nesting, []), cursor.pos)
    ensures out.Read? ==> r.Trimmed()
    ensures old(live.nodes) <= live.nodes
    ensures forall m | m in live.nodes && m !in old(live.nodes) :: fresh(m) && m.Trimmed()
    ensures forall n | n in live.Reprs() && n !in old(live.Reprs()) :: fresh(n)
    ensures forall m | m in old(live.nodes) && m != r :: m.Layout() == old(m.Layout())
    decreases |cursor.text| - cursor.pos, 6
  {
    hide Live.Apart, Live.Now, Live.Reprs, IsForest, Node.Repr, Extends, NewBelow, Leads, HasMembers, ValueOf;
    hide Spec.ParseMembers, Spec.CloseObject;
    live.LiveKeys();
    HasNoMembers(live.Now(), r);
    ghost var done;
    out, ops, done := FillMembers(live, cursor, nesting, h, start, r);
    if out.Read? {
      out := CloseObject(live, cursor, r, done);
    }
  }

  // The loop: at its end, what is left is to close the object.
  method FillMembers(live: Live, cursor: Cursor, nesting: nat, ghost h: Heap, ghost start: seq<Op>, r: Node)
    returns (out: Reading, ghost ops: seq<Op>, ghost done: seq<Entry<Json>>)
    requires live.Valid() && IsForest(h) && cursor.pos <= |cursor.text|
    requires Built(h, start, live.Now(), r) && HasMembers(live.Now(), r, [])
    requires r in live.nodes && r.table != null
    modifies cursor, live, live.nodes`above, r.Repr()
    ensures live.Valid() && Built(h, ops, live.Now(), r)
    ensures cursor.pos <= |cursor.text| && (out.Read? ==> out == Read(r) && HasMembers(live.Now(), r, done))
    ensures Spec.ParseMembers(cursor.text, old(cursor.pos), nesting, []) ==
            match out
            case Read(_) => Spec.CloseObject(cursor.text, cursor.pos, done)
            case Refused => Spec.Rejected
            case NeedsDouble => Spec.NeedsDouble
    ensures old(live.nodes) <= live.nodes
    ensures forall m | m in live.nodes && m !in old(live.nodes) :: fresh(m) && m.Trimmed()
    ensures forall n | n in live.Reprs() && n !in old(live.Reprs()) :: fresh(n)
    ensures forall n | n in r.Repr() && n !in old(r.Repr()) :: fresh(n)
    ensures forall m | m in old(live.nodes) && m != r :: m.Layout() == old(m.Layout())
    decreases |cursor.text| - cursor.pos, 5
  {
    hide Live.Apart, Live.Now, Live.Reprs, IsForest, Node.Repr, Means, Extends, NewBelow, Leads, HasMembers;
    hide Spec.ParsePair, Spec.SkipSpace, Spec.ParseMembers, Spec.CloseObject, Add;
    done, ops := [], start;
    out := Read(r);
    while At(cursor.text, cursor.pos) != NUL
      invariant live.Valid() && Built(h, ops, live.Now(), r)
      invariant out == Read(r) && HasMembers(live.Now(), r, done)
      invariant old(cursor.pos) <= cursor.pos <= |cursor.text|
      invariant Spec.ParseMembers(cursor.text, cursor.pos, nesting, done) ==
                Spec.ParseMembers(cursor.text, old(cursor.pos), nesting, [])
      invariant old(live.nodes) <= live.nodes
      invariant forall m | m in live.nodes && m !in old(live.nodes) :: fresh(m) && m.Trimmed()
      invariant forall n | n in live.Reprs() && n !in old(live.Reprs()) :: fresh(n)
      invariant forall n | n in r.Repr() && n !in old(r.Repr()) :: fresh(n)
      invariant forall m | m in old(live.nodes) && m != r :: m.Layout() == old(m.Layout())
      decreases |cursor.text| - cursor.pos
    {
      MembersTurn(cursor.text, cursor.pos, nesting, done);
      ghost var (name, o) := Spec.ParsePair(cursor.text, cursor.pos, nesting);
      out, ops := ParseMember(live, cursor, nesting, h, ops, r, done);
      if !out.Read? {
        return;
      }
      done := Add(done, name, o.value).value;
      var more := SkipComma(live, cursor);
      if !more {
        return;
      }
    }
    MembersTurn(cursor.text, cursor.pos, nesting, done);
  }

  // A member is parsed and added to the object; a name that is there is refused.
  method ParseMember(live: Live, cursor: Cursor, nesting: nat, ghost h: Heap, ghost start: seq<Op>, r: Node,
      ghost done: seq<Entry<Json>>)
    returns (out: Reading, ghost ops: seq<Op>)
    requires live.Valid() && IsForest(h) && cursor.pos <= |cursor.text|
    requires Built(h, start, live.Now(), r) && HasMembers(live.Now(), r, done)
    requires r in live.nodes && r.table != null
    modifies cursor, live, live.nodes`above, r.Repr()
    ensures live.Valid() && Built(h, ops, live.Now(), r)
    ensures cursor.pos <= |cursor.text|
    ensures var (name, o) := Spec.ParsePair(cursor.text, old(cursor.pos), nesting);
            match o
            case Parsed(v, end) =>
              var added := Add(done, name, v);
              if added.None? then out == Refused
              else out == Read(r) && cursor.pos == end && HasMembers(live.Now(), r, added.value)
            case Rejected => out == Refused
            case NeedsDouble => out == Reading.NeedsDouble
    ensures old(live.nodes) <= live.nodes
    ensures forall m | m in live.nodes && m !in old(live.nodes) :: fresh(m) && m.Trimmed()
    ensures forall n | n in live.Reprs() && n !in old(live.Reprs()) :: fresh(n)
    ensures forall n | n in r.Repr() && n !in old(r.Repr()) :: fresh(n)
    ensures forall m | m in old(live.nodes) && m != r :: m.Layout() == old(m.Layout())
    decreases |cursor.text| - cursor.pos, 4
  {
    hide Live.Apart, Live.Now, Live.Reprs, IsForest, Node.Repr, Extends, NewBelow, Leads, HasMembers, ValueOf, Add;
    hide Spec.ParsePair;
    ghost var h1 := live.Now();
    live.LiveKeys();
    var name;
    ops := start;
    ghost var more;
    name, out, more := ParsePair(live, cursor, nesting);
    if out.Read? {
      live.LiveKeys();
      StillThere(h1, h1, live.Now(), r);
      NewNode(h1, live.Now(), out.node);
      CursorIsNoTable(cursor, r);
      var ok := KeepMember(live, h, start, h1, more, r, name, out.node, done);
      live.LiveKeys();
      if ok {
        ops := start + more + [AddTo(r, name, out.node)];
      }
      out := if ok then Read(r) else Refused;
    }
  }

  // The quoted name, the colon and the value of one member.
  method ParsePair(live: Live, cursor: Cursor, nesting: nat) returns (name: CString, out: Reading, ghost ops: seq<Op>)
    requires live.Valid() && cursor.pos <= |cursor.text|
    modifies cursor, live, live.nodes`above
    ensures live.Valid() && cursor.pos <= |cursor.text|
    ensures var o := Spec.ParsePair(cursor.text, old(cursor.pos), nesting).1;
            Means(old(live.Now()), ops, live.Now(), out, o, cursor.pos)
    ensures out.Read? ==> name == Spec.ParsePair(cursor.text, old(cursor.pos), nesting).0
    ensures old(live.nodes) <= live.nodes
    ensures forall m | m in live.nodes && m !in old(live.nodes) :: fresh(m) && m.Trimmed()
    ensures forall n | n in live.Reprs() && n !in old(live.Reprs()) :: fresh(n)
    ensures forall m | m in old(live.nodes) :: m.Layout() == old(m.Layout())
    decreases |cursor.text| - cursor.pos, 0
  {
    hide Live.Apart, Live.Now, Live.Reprs, IsForest, Node.Repr, Extends, NewBelow, Leads, ValueOf;
    hide Spec.ParseValue, Spec.SkipSpace, QuotedString;
    name, ops := [], [];
    var key := GetQuotedString(live, cursor);
    if key.None? {
      return name, Refused, ops;
    }
    SkipWhitespaces(live, cursor);
    if At(cursor.text, cursor.pos) != COLON {
      return name, Refused, ops;
    }
    MoveTo(live, cursor, cursor.pos + 1);
    name := UpToNul(key.value);
    out, ops := ParseValue(live, cursor, nesting);
  }

  // json_object_add, and json_value_free of the value that was not added.
  method KeepMember(live: Live, ghost h: Heap, ghost start: seq<Op>, ghost h1: Heap, ghost more: seq<Op>,
      r: Node, name: CString, v: Node, ghost done: seq<Entry<Json>>)
    returns (ok: bool)
    requires live.Valid() && IsForest(h) && IsForest(h1)
    requires Built(h, start, h1, r) && HasMembers(h1, r, done)
    requires Built(h1, more, live.Now(), v)
    requires r in live.nodes && v in live.nodes && r.table != null
    modifies live, v`parent, live.nodes`above, r.Repr()
    ensures live.Valid()
    ensures ok <==> Add(done, name, ValueOf(old(live.Now()), v)).Some?
    ensures if ok then
              && Built(h, start + more + [AddTo(r, name, v)], live.Now(), r) && live.nodes == old(live.nodes)
              && HasMembers(live.Now(), r, Add(done, name, ValueOf(old(live.Now()), v)).value)
            else live.Now() == h1 && live.nodes <= old(live.nodes)
    ensures forall n | n in live.Reprs() && n !in old(live.Reprs()) :: fresh(n)
    ensures forall n | n in r.Repr() && n !in old(r.Repr()) :: fresh(n)
    ensures forall m | m in old(live.nodes) && m != r :: m.Layout() == old(m.Layout())
  {
    hide Live.Apart, Live.Now, Live.Reprs, IsForest, Node.Repr, Extends, NewBelow, Leads, HasMembers, ValueOf, Has;
    ghost var h2 := live.Now();
    if Has(done, name) {
      Refusal(h, start, h1, more, h2, r, name, v, done);
    } else {
      Growth(h, start, h1, more, h2, r, name, v, done);
    }
    ok := live.AddValue(r, name, v);
    if !ok {
      live.FreeValue(v);
    }
  }

  // A new member under a name that is not there.
  lemma Growth(h: Heap, start: seq<Op>, h1: Heap, more: seq<Op>, h2: Heap, r: Node, name: CString, v: Node,
      done: seq<Entry<Json>>)
    requires IsForest(h) && IsForest(h1) && IsForest(h2)
    requires Built(h, start, h1, r) && HasMembers(h1, r, done)
    requires Built(h1, more, h2, v) && !Has(done, name)
    ensures MayHold(h2, r, v) && h2[r].content.Dict?
    ensures var a := AddIn(h2, r, name, v);
            && a.ok && Built(h, start + more + [AddTo(r, name, v)], a.heap, r)
            && HasMembers(a.heap, r, done + [Entry(name, ValueOf(h2, v))])
  {
    hide IsForest, Extends, NewBelow, Leads, ValueOf, AddIn, Has;
    MemberCount(h1, r, done);
    GrowObject(h, start, h1, more, h2, r, name, v);
  }

  // A name that is there: the new tree is freed and the object is as before.
  lemma Refusal(h: Heap, start: seq<Op>, h1: Heap, more: seq<Op>, h2: Heap, r: Node, name: CString, v: Node,
      done: seq<Entry<Json>>)
    requires IsForest(h) && IsForest(h1) && IsForest(h2)
    requires Built(h, start, h1, r) && HasMembers(h1, r, done)
    requires Built(h1, more, h2, v) && Has(done, name)
    ensures MayHold(h2, r, v) && h2[r].content.Dict?
    ensures !AddIn(h2, r, name, v).ok && AddIn(h2, r, name, v).heap == h2
    ensures h2[v].parent == null && FreeIn(h2, v) == h1
  {
    MemberCount(h1, r, done);
    LinkedGrowth(h, h1, h2, r, h1[r].content, v);
    FreeingUndoes(h1, h2, v);
  }

  lemma NewNode(h: Heap, h': Heap, r: Node)
    requires IsForest(h') && NewBelow(h, h', r)
    ensures r in h' && r !in h
  {
  }

  // The closing brace and the trimming of the object to its count.
  method CloseObject(live: Live, cursor: Cursor, r: Node, ghost done: seq<Entry<Json>>) returns (out: Reading)
    requires live.Valid() && cursor.pos <= |cursor.text| && r in live.nodes && r.table != null
    requires HasMembers(live.Now(), r, done)
    modifies cursor, r.Repr()
    ensures live.Valid() && live.Now() == old(live.Now()) && live.nodes == old(live.nodes)
    ensures cursor.pos <= |cursor.text|
    ensures Fills(live.Now(), r, out, Spec.CloseObject(cursor.text, old(cursor.pos), done), cursor.pos)
    ensures out.Read? ==> r.Trimmed()
    ensures forall n | n in live.Reprs() && n !in old(live.Reprs()) :: fresh(n)
    ensures forall m | m in live.nodes && m != r :: m.Layout() == old(m.Layout())
  {
    hide Live.Apart, Live.Now, Live.Reprs, IsForest, Node.Repr, MemberValues, ValueOf, Spec.SkipSpace;
    SkipWhitespaces(live, cursor);
    if At(cursor.text, cursor.pos) != RBRACE {
      return Refused;
    }
    MemberCount(live.Now(), r, done);
    CursorIsNoTable(cursor, r);
    var trimmed := live.TrimMembers(r);
    if !trimmed {
      return Refused;
    }
    MoveTo(live, cursor, cursor.pos + 1);
    out := Read(r);
  }

  // ---- The whole text ----

  /** json_parse_string: an accepted text becomes a new tree with the value of the text, in tables
      without spare room; a refused one leaves the heap as it was. */
  method JsonParseString(live: Live, text: Text) returns (out: Reading, ghost ops: seq<Op>)
    requires live.Valid()
    modifies live, live.nodes`above
    ensures live.Valid()
    ensures match Spec.ParseText(text)
            case Parsed(v, _) =>
              && out.Read? && Built(old(live.Now()), ops, live.Now(), out.node)
              && ValueOf(live.Now(), out.node) == v
            case Rejected => out == Refused && live.Now() == old(live.Now())
            case NeedsDouble => out == Reading.NeedsDouble && live.Now() == old(live.Now())
    ensures old(live.nodes) <= live.nodes
    ensures forall m | m in live.nodes && m !in old(live.nodes) :: fresh(m) && m.Trimmed()
    ensures forall n | n in live.Reprs() && n !in old(live.Reprs()) :: fresh(n)
    ensures forall m | m in old(live.nodes) :: m.Layout() == old(m.Layout())
  {
    var start := if HasAt(text, 0, Spec.BYTE_ORDER_MARK) then 3 else 0;
    var cursor := new Cursor(text, start);
    live.NothingChanged();
    hide Live.Apart, Live.Now, Live.Reprs, IsForest, Node.Repr, Extends, NewBelow, Leads, ValueOf, Spec.ParseValue;
    out, ops := ParseValue(live, cursor, 0);
  }

  /** json_parse_string_with_comments: the comments are removed from a copy of the text. */
  method JsonParseStringWithComments(live: Live, text: CString) returns (out: Reading, ghost ops: seq<Op>)
    requires live.Valid()
    modifies live, live.nodes`above
    ensures live.Valid()
    ensures match JsonComments.ParseWithComments(text)
            case Parsed(v, _) =>
              && out.Read? && Built(old(live.Now()), ops, live.Now(), out.node)
              && ValueOf(live.Now(), out.node) == v
            case Rejected => out == Refused && live.Now() == old(live.Now())
            case NeedsDouble => out == Reading.NeedsDouble && live.Now() == old(live.Now())
    ensures old(live.nodes) <= live.nodes
    ensures forall m | m in live.nodes && m !in old(live.nodes) :: fresh(m) && m.Trimmed()
    ensures forall n | n in live.Reprs() && n !in old(live.Reprs()) :: fresh(n)
    ensures forall m | m in old(live.nodes) :: m.Layout() == old(m.Layout())
  {
    var stripped := JsonComments.WithoutComments(text);
    var cursor := new Cursor(stripped, 0);
    live.NothingChanged();
    hide Live.Apart, Live.Now, Live.Reprs, IsForest, Node.Repr, Extends, NewBelow, Leads, ValueOf, Spec.ParseValue,
      JsonComments.Pass;
    out, ops := ParseValue(live, cursor, 0);
  }
}
