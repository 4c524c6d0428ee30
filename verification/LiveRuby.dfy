/** JSON.parse on live values, and the whole way from a Ruby value to its text and back
    (mrbgems/json-with-casing/src/mrb_json.c, lines 203-290 and 315-372). The nodes only live from
    parsing to the end of the conversion. */
module LiveRuby {
  import opened Bytes
  import opened Options
  import opened Entries
  import opened JsonTree
  import opened Forest
  import opened ForestValues
  import opened HeapGrowth
  import opened LiveValues
  import opened KeyCasing
  import opened RubyJson
  import LiveParser
  import Spec = JsonParser

  // ---- Converting live values ----

  lemma KidIsDeeper(h: Heap, c: Node, k: Node)
    requires IsForest(h) && c in h && k in Kids(h[c].content)
    ensures k in h && h.Keys - h[k].above < h.Keys - h[c].above
  {
    KidIsBelow(h, c, k);
    assert c in h.Keys - h[c].above;
  }

  /** json_value_to_mrb_value with symbolize_names */
  method JsonValueToMrbValue(live: Live, n: Node, ghost h: Heap) returns (r: Ruby)
    requires live.Valid() && live.Now() == h && n in live.nodes && n in h
    ensures r == ToRuby(ValueOf(h, n))
    ensures live.Valid() && live.Now() == h
    decreases h.Keys - h[n].above, 1
  {
    hide Live.Apart, Live.Now, IsForest, ValueOf, ToRubyItems, ToRubyPairs;
    live.LiveKind(n);
    live.NothingChanged();
    if n.list != null {
      ArrayValue(h, n);
      var ary := ItemsToRuby(live, n, h);
      r := Ary(ary);
    } else if n.table != null {
      ObjectValue(h, n);
      var hash := MembersToRuby(live, n, h);
      r := Hash(hash);
    } else {
      ScalarValue(h, n);
      r := match n.scalar
           case Null => Nil
           case Boolean(b) => Bool(b)
           case Fixed(i) => Int(i)
           case String(s) => Str(s)
           case _ => Nil;
    }
  }

  method ItemsToRuby(live: Live, n: Node, ghost h: Heap) returns (ary: seq<Ruby>)
    requires live.Valid() && live.Now() == h && n in live.nodes && n.list != null
    requires n in h && h[n].content.List?
    ensures ary == ToRubyItems(ItemValues(h, n))
    ensures live.Valid() && live.Now() == h
    decreases h.Keys - h[n].above, 0
  {
    hide Live.Apart, Live.Now, Live.Reprs, IsForest, Node.Repr, ValueOf, ToRuby, ToRubyItems;
    ghost var items := ItemValues(h, n);
    ary := [];
    var i := 0;
    var item := live.ItemAt(n, i);
    while item.Some?
      invariant live.Valid() && live.Now() == h
      invariant i <= |items| && item == if i < |items| then Some(h[n].content.items[i]) else None
      invariant |ary| == i && forall k | 0 <= k < i :: ary[k] == ToRuby(items[k])
      decreases |items| - i
    {
      KidIsDeeper(h, n, item.value);
      live.LiveKeys();
      var elem := JsonValueToMrbValue(live, item.value, h);
      ary := ary + [elem];
      i := i + 1;
      item := live.ItemAt(n, i);
    }
    ItemsBack(items);
  }

  method MembersToRuby(live: Live, n: Node, ghost h: Heap) returns (hash: seq<Entry<Ruby>>)
    requires live.Valid() && live.Now() == h && n in live.nodes && n.table != null
    requires n in h && h[n].content.Dict?
    ensures hash == ToRubyPairs(MemberValues(h, n), |MemberValues(h, n)|)
    ensures live.Valid() && live.Now() == h
    decreases h.Keys - h[n].above, 0
  {
    hide Live.Apart, Live.Now, Live.Reprs, IsForest, Node.Repr, ValueOf, ToRuby, MemberValues, Set, Find, SymbolName,
      ToRubyPairs;
    ghost var members := MemberValues(h, n);
    hash := [];
    NoPairs(members);
    var i := 0;
    var name := live.NameAt(n, i);
    while name.Some?
      invariant live.Valid() && live.Now() == h
      invariant i <= |members| && name == if i < |members| then Some(h[n].content.members[i].name) else None
      invariant hash == ToRubyPairs(members, i)
      decreases |members| - i
    {
      NameIsHeld(h, n, i);
      OnePairMore(members, i);
      var symbol := SymbolOf(live, name.value);
      var member := live.Held(n, name.value);
      live.LiveKeys();
      var value := JsonValueToMrbValue(live, member.value, h);
      hash := Set(hash, symbol, value);
      i := i + 1;
      name := live.NameAt(n, i);
    }
  }

  method SymbolOf(live: Live, name: CString) returns (symbol: CString)
    requires live.Valid()
    ensures symbol == SymbolName(name)
    ensures live.Valid() && live.Now() == old(live.Now())
  {
    hide Live.Apart, Live.Now, IsForest;
    SymbolHasNoNul(name, 0);
    var bytes := JsonKeyToRubySymbol(name);
    live.NothingChanged();
    symbol := bytes;
  }

  // Looking a listed name up finds the member that it is looked up by in the value of the object.
  lemma NameIsHeld(h: Heap, n: Node, i: nat)
    requires IsForest(h) && n in h && h[n].content.Dict? && i < |h[n].content.members|
    ensures var members, name := h[n].content.members, h[n].content.members[i].name;
            && Has(members, name) && Find(MemberValues(h, n), name) == Find(members, name)
            && var k := members[Find(members, name)].value;
            && k in h && h.Keys - h[k].above < h.Keys - h[n].above
            && MemberValues(h, n)[Find(members, name)].value == ValueOf(h, k)
  {
    hide IsForest, ValueOf;
    var members, name := h[n].content.members, h[n].content.members[i].name;
    FindByNames(members, MemberValues(h, n), name);
    KidIsDeeper(h, n, KidAt(h, n, Find(members, name)));
  }

  // ---- JSON.parse ----

  datatype Parsing = Value(v: Ruby) | ParserError | NeedsDouble

  /** JSON.parse with symbolize_names: the text becomes nodes, the nodes a Ruby value, and then the
      nodes are freed, which leaves the heap as it was. */
  method MrbJsonParse(live: Live, text: Text) returns (r: Parsing)
    requires live.Valid()
    modifies live, live.nodes`above
    ensures live.Valid() && live.Now() == old(live.Now())
    ensures r == match Spec.ParseText(text)
                 case Parsed(v, _) => Value(ToRuby(v))
                 case Rejected => ParserError
                 case NeedsDouble => Parsing.NeedsDouble
  {
    hide Live.Apart, Live.Now, Live.Reprs, IsForest, ValueOf, ToRuby, Spec.ParseText, Leads;
    ghost var h := live.Now();
    var root;
    ghost var ops;
    root, ops := LiveParser.JsonParseString(live, text);
    match root
    case Read(n) =>
      live.LiveKeys();
      var v := JsonValueToMrbValue(live, n, live.Now());
      FreeingUndoes(h, live.Now(), n);
      live.FreeValue(n);
      r := Value(v);
    case Refused => r := ParserError;
    case NeedsDouble => r := Parsing.NeedsDouble;
  }

  /** JSON.generate and JSON.pretty_generate followed by JSON.parse with symbolize_names, run through
      the generator, the parser and both key conversions. */
  method GenerateAndParse(live: Live, v: Ruby, pretty: bool) returns (r: Parsing)
    requires live.Valid() && RubyJson.Plain(v, MAX_NESTING)
    modifies live, live.nodes`above
    ensures r == Value(v)
    ensures live.Valid() && live.Now() == old(live.Now())
  {
    hide Live.Apart, Live.Now, IsForest, Generate, RubyJson.Plain, Spec.ParseText, ToRuby;
    var level := if pretty then 0 else -1;
    var text := MrbValueToString(v, level);
    live.NothingChanged();
    ParseUndoesGenerate(v, level);
    r := MrbJsonParse(live, text);
  }
}
