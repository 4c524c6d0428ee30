/** What the operations on nodes do to the JSON values the nodes stand for
    (mrbgems/json-with-casing/src/parson.c, lines 357-380 and 1631-1982): the value of the container
    changes as it should, and that of every tree without the container does not. */
module ForestValues {
  import opened Bytes
  import opened JsonTree
  import opened Entries
  import opened Forest

  // ---- The values of the children ----

  ghost function KidAt(h: Heap, c: Node, i: nat): (k: Node)
    requires IsForest(h) && c in h && h[c].content.Dict? && i < |h[c].content.members|
    ensures k in Kids(h[c].content) && k in h && k == h[c].content.members[i].value
  {
    assert Kids(h[c].content)[i] == h[c].content.members[i].value;
    KidIsBelow(h, c, h[c].content.members[i].value);
    h[c].content.members[i].value
  }

  ghost function MemberValues(h: Heap, c: Node): (vs: seq<Entry<Json>>)
    requires IsForest(h) && c in h && h[c].content.Dict?
    ensures |vs| == |h[c].content.members|
    ensures forall i | 0 <= i < |vs| :: vs[i] == Entry(h[c].content.members[i].name, ValueOf(h, KidAt(h, c, i)))
  {
    var members := h[c].content.members;
    seq(|members|, i requires 0 <= i < |members| => Entry(members[i].name, ValueOf(h, KidAt(h, c, i))))
  }

  lemma ObjectValue(h: Heap, c: Node)
    requires IsForest(h) && c in h && h[c].content.Dict?
    ensures ValueOf(h, c) == Object(MemberValues(h, c))
  {
    var vs, members := ValueOf(h, c).members, h[c].content.members;
    forall i | 0 <= i < |members|
      ensures vs[i] == MemberValues(h, c)[i]
    {
      assert Kids(h[c].content)[i] == KidAt(h, c, i);
      assert vs[i] == Entry(members[i].name, KidValue(h, c, KidAt(h, c, i)));
    }
  }

  /** json_object_set_value on a value: the member is set, every tree that neither contains c nor was
      replaced keeps its value. */
  lemma {:induction false} SetSetsTheMember(h: Heap, c: Node, name: CString, v: Node)
    requires IsForest(h) && MayHold(h, c, v) && h[c].content.Dict?
    ensures SetIn(h, c, name, v).ok
    ensures var h' := SetIn(h, c, name, v).heap;
            && c in h' && h'[c].content.Dict?
            && ValueOf(h, c) == Object(MemberValues(h, c))
            && ValueOf(h', c) == Object(Set(MemberValues(h, c), name, ValueOf(h, v)))
            && OthersKeepValue(h, h', c)
  {
    hide IsForest, Find, Kids, Has, Set, SetIn, Stored;
    var h' := SetIn(h, c, name, v).heap;
    SetStores(h, c, name, v);
    StoredFacts(h, h', c, name, v);
    forall n | n in h && n in h' && !InTree(h, n, c)
      ensures ValueOf(h', n) == ValueOf(h, n)
    {
      StoredElsewhere(h, h', c, name, v, n);
      SameBelowSameValue(h, h', n);
    }
    var members, members' := h[c].content.members, h'[c].content.members;
    ObjectValue(h, c);
    ObjectValue(h', c);
    SetLength(members, name, v);
    SetLength(MemberValues(h, c), name, ValueOf(h, v));
    SameNamesSameHas(members, MemberValues(h, c), name);
    FindByNames(members, MemberValues(h, c), name);
    forall i | 0 <= i < |members'|
      ensures MemberValues(h', c)[i] == Set(MemberValues(h, c), name, ValueOf(h, v))[i]
    {
      SetAt(members, name, v, i);
      SetAt(MemberValues(h, c), name, ValueOf(h, v), i);
      if i != Find(members, name) {
        assert KidAt(h', c, i) == KidAt(h, c, i);
        KidIsBelow(h, c, KidAt(h, c, i));
      }
    }
  }

  lemma StoredFacts(h: Heap, h': Heap, c: Node, name: CString, v: Node)
    requires c in h && h[c].content.Dict? && Stored(h, h', c, name, v)
    ensures c in h' && v in h' && h'[c].content == Dict(Set(h[c].content.members, name, v))
  {
  }

  ghost function ItemAt(h: Heap, c: Node, i: nat): (k: Node)
    requires IsForest(h) && c in h && h[c].content.List? && i < |h[c].content.items|
    ensures k in Kids(h[c].content) && k in h && k == h[c].content.items[i]
  {
    KidIsBelow(h, c, h[c].content.items[i]);
    h[c].content.items[i]
  }

  ghost function ItemValues(h: Heap, c: Node): (vs: seq<Json>)
    requires IsForest(h) && c in h && h[c].content.List?
    ensures |vs| == |h[c].content.items|
    ensures forall i | 0 <= i < |vs| :: vs[i] == ValueOf(h, ItemAt(h, c, i))
  {
    seq(|h[c].content.items|, i requires 0 <= i < |h[c].content.items| => ValueOf(h, ItemAt(h, c, i)))
  }

  lemma ArrayValue(h: Heap, c: Node)
    requires IsForest(h) && c in h && h[c].content.List?
    ensures ValueOf(h, c) == Array(ItemValues(h, c))
  {
    var vs, items := ValueOf(h, c).items, h[c].content.items;
    forall i | 0 <= i < |items|
      ensures vs[i] == ItemValues(h, c)[i]
    {
      assert vs[i] == KidValue(h, c, ItemAt(h, c, i));
    }
  }

  // ---- The other operations ----

  // Trees that do not contain c keep their values.
  ghost predicate OthersKeepValue(h: Heap, h': Heap, c: Node)
    requires IsForest(h) && IsForest(h') && c in h
  {
    forall n | n in h && n in h' && !InTree(h, n, c) :: ValueOf(h', n) == ValueOf(h, n)
  }

  lemma UnlinkedKeepsValues(h: Heap, c: Node, content: Content, dropped: set<Node>)
    requires IsForest(h) && c in h && forall k | k in dropped :: k in Kids(h[c].content)
    requires IsForest(Unlinked(h, c, content, dropped))
    ensures OthersKeepValue(h, Unlinked(h, c, content, dropped), c)
  {
    hide IsForest;
    var h' := Unlinked(h, c, content, dropped);
    forall n | n in h && n in h' && !InTree(h, n, c)
      ensures ValueOf(h', n) == ValueOf(h, n)
    {
      UnlinkedElsewhere(h, c, content, dropped, n);
      SameBelowSameValue(h, h', n);
    }
  }

  lemma LinkedKeepsValues(h: Heap, c: Node, content: Content, v: Node)
    requires IsForest(h) && c in h && IsForest(Linked(h, c, content, v))
    ensures OthersKeepValue(h, Linked(h, c, content, v), c)
  {
    hide IsForest;
    var h' := Linked(h, c, content, v);
    forall n | n in h && n in h' && !InTree(h, n, c)
      ensures ValueOf(h', n) == ValueOf(h, n)
    {
      LinkedElsewhere(h, c, content, v, n);
      SameBelowSameValue(h, h', n);
    }
  }

  // Gone are exactly the trees of the given nodes.
  ghost predicate Frees(h: Heap, h': Heap, gone: set<Node>) {
    && (forall n | n in h' :: n in h)
    && forall n | n in h :: n in h' <==> forall k | k in gone :: !InTree(h, k, n)
  }

  lemma AddAnswers(h: Heap, c: Node, name: CString, v: Node)
    requires IsForest(h) && MayHold(h, c, v) && h[c].content.Dict?
    ensures var r := AddIn(h, c, name, v);
            && (r.ok <==> !Has(MemberValues(h, c), name)) && (!r.ok ==> r.heap == h)
            && Frees(h, r.heap, {})
  {
    hide IsForest, Find, Kids;
    SameNamesSameHas(h[c].content.members, MemberValues(h, c), name);
  }

  /** json_object_add on a value: the member is added at the end, unless its name is there. */
  lemma {:induction false} AddAddsTheMember(h: Heap, c: Node, name: CString, v: Node)
    requires IsForest(h) && MayHold(h, c, v) && h[c].content.Dict?
    ensures var r := AddIn(h, c, name, v);
            && (r.ok <==> !Has(MemberValues(h, c), name)) && (!r.ok ==> r.heap == h)
            && c in r.heap && OthersKeepValue(h, r.heap, c) && Frees(h, r.heap, {})
            && (r.ok ==> ValueOf(r.heap, c) == Object(MemberValues(h, c) + [Entry(name, ValueOf(h, v))]))
  {
    hide IsForest, Find, Kids, Frees, ValueOf;
    AddAnswers(h, c, name, v);
    if AddIn(h, c, name, v).ok {
      assert SetIn(h, c, name, v) == AddIn(h, c, name, v);
      SetSetsTheMember(h, c, name, v);
      SameNamesSameHas(h[c].content.members, MemberValues(h, c), name);
    }
  }

  lemma RemovedAt<V>(es: seq<Entry<V>>, name: CString, i: nat)
    requires Has(es, name) && i < |es| - 1
    ensures |Remove(es, name)| == |es| - 1
    ensures Remove(es, name)[i] == es[if i == Find(es, name) then |es| - 1 else i]
  {
  }

  lemma RemoveAnswers(h: Heap, c: Node, name: CString)
    requires IsForest(h) && c in h && h[c].content.Dict?
    ensures var r := RemoveIn(h, c, name);
            && (r.ok <==> Has(h[c].content.members, name)) && (r.ok <==> Has(MemberValues(h, c), name))
            && (!r.ok ==> r.heap == h) && (r.ok ==> Frees(h, r.heap, {Held(h, c, name)}))
  {
    hide IsForest, Find, Kids;
    SameNamesSameHas(h[c].content.members, MemberValues(h, c), name);
  }

  /** json_object_remove on a value: a member that is there goes with its tree, and the last one takes
      its place. */
  lemma {:induction false} RemoveTakesTheMember(h: Heap, c: Node, name: CString)
    requires IsForest(h) && c in h && h[c].content.Dict?
    ensures var r := RemoveIn(h, c, name);
            && (r.ok <==> Has(MemberValues(h, c), name)) && (!r.ok ==> r.heap == h)
            && (r.ok ==> && c in r.heap && OthersKeepValue(h, r.heap, c)
                         && Has(h[c].content.members, name) && Frees(h, r.heap, {Held(h, c, name)})
                         && ValueOf(r.heap, c) == Object(Remove(MemberValues(h, c), name)))
  {
    hide IsForest, Find, Kids, Frees, ValueOf, RemoveIn;
    RemoveAnswers(h, c, name);
    if RemoveIn(h, c, name).ok {
      RemovedTakesTheMember(h, c, name);
    }
  }

  lemma RemovedTakesTheMember(h: Heap, c: Node, name: CString)
    requires IsForest(h) && c in h && h[c].content.Dict? && RemoveIn(h, c, name).ok
    ensures var h' := RemoveIn(h, c, name).heap;
            && c in h' && OthersKeepValue(h, h', c) && Has(MemberValues(h, c), name)
            && ValueOf(h', c) == Object(Remove(MemberValues(h, c), name))
  {
    hide IsForest, Find, Kids, Remove;
    var members, vs := h[c].content.members, MemberValues(h, c);
    var r := RemoveIn(h, c, name);
    RemoveIsUnlinked(h, c, name);
    SameNamesSameHas(members, vs, name);
    FindByNames(members, vs, name);
    ObjectValue(r.heap, c);
    forall i | 0 <= i < |members| - 1
      ensures i < |MemberValues(r.heap, c)| && i < |Remove(vs, name)|
      ensures MemberValues(r.heap, c)[i] == Remove(vs, name)[i]
    {
      RemovedAt(members, name, i);
      RemovedAt(vs, name, i);
      var j := if i == Find(members, name) then |members| - 1 else i;
      assert KidAt(r.heap, c, i) == KidAt(h, c, j);
      KidIsBelow(h, c, KidAt(h, c, j));
    }
    RemovedLength(members, name);
    RemovedLength(vs, name);
  }

  lemma RemovedLength<V>(es: seq<Entry<V>>, name: CString)
    requires Has(es, name)
    ensures |Remove(es, name)| == |es| - 1
  {
  }

  lemma RemoveIsUnlinked(h: Heap, c: Node, name: CString)
    requires IsForest(h) && c in h && h[c].content.Dict? && RemoveIn(h, c, name).ok
    ensures var h' := RemoveIn(h, c, name).heap;
            && Has(h[c].content.members, name) && c in h' && OthersKeepValue(h, h', c)
            && h'[c].content == Dict(Remove(h[c].content.members, name))
  {
    hide IsForest, Find, Kids, Remove;
    var members := h[c].content.members;
    var d := Held(h, c, name);
    ContainerStays(h, c, {d});
    UnlinkedKeepsValues(h, c, Dict(Remove(members, name)), {d});
  }

  lemma ClearFrees(h: Heap, c: Node)
    requires IsForest(h) && c in h && !h[c].content.Scalar?
    ensures Frees(h, ClearIn(h, c), set k | k in Kids(h[c].content))
  {
    hide IsForest, Kids;
  }

  /** json_object_clear and json_array_clear on a value. */
  lemma {:induction false} ClearEmpties(h: Heap, c: Node)
    requires IsForest(h) && c in h && !h[c].content.Scalar?
    ensures var h' := ClearIn(h, c);
            && c in h' && OthersKeepValue(h, h', c) && Frees(h, h', set k | k in Kids(h[c].content))
            && ValueOf(h', c) == if h[c].content.Dict? then Object([]) else Array([])
  {
    var h', dropped := ClearIn(h, c), set k | k in Kids(h[c].content);
    ContainerStays(h, c, dropped);
    ClearFrees(h, c);
    hide IsForest, Frees;
    UnlinkedKeepsValues(h, c, if h[c].content.Dict? then Dict([]) else List([]), dropped);
    if h[c].content.Dict? {
      ObjectValue(h', c);
    } else {
      ArrayValue(h', c);
    }
  }

  /** json_array_append_value on a value. */
  lemma {:induction false} AppendAppends(h: Heap, c: Node, v: Node)
    requires IsForest(h) && MayHold(h, c, v) && h[c].content.List?
    ensures AppendIn(h, c, v).ok && Frees(h, AppendIn(h, c, v).heap, {})
    ensures var h' := AppendIn(h, c, v).heap;
            && c in h' && OthersKeepValue(h, h', c)
            && ValueOf(h', c) == Array(ItemValues(h, c) + [ValueOf(h, v)])
  {
    hide IsForest, Kids;
    var items, h' := h[c].content.items, AppendIn(h, c, v).heap;
    LinkedKeepsValues(h, c, List(items + [v]), v);
    ArrayValue(h', c);
    forall i | 0 <= i < |items|
      ensures ItemValues(h', c)[i] == ItemValues(h, c)[i]
    {
      assert ItemAt(h', c, i) == ItemAt(h, c, i);
      KidIsBelow(h, c, ItemAt(h, c, i));
    }
    assert ItemAt(h', c, |items|) == v;
  }

  lemma RemoveItemAnswers(h: Heap, c: Node, ix: nat)
    requires IsForest(h) && c in h && h[c].content.List?
    ensures var r := RemoveItemIn(h, c, ix);
            && (r.ok <==> ix < |h[c].content.items|) && (!r.ok ==> r.heap == h)
            && (r.ok ==> Frees(h, r.heap, {h[c].content.items[ix]}))
  {
    hide IsForest, Kids;
  }

  /** json_array_remove on a value: an item that is there goes with its tree. */
  lemma {:induction false} RemoveItemDrops(h: Heap, c: Node, ix: nat)
    requires IsForest(h) && c in h && h[c].content.List?
    ensures var r := RemoveItemIn(h, c, ix);
            && (r.ok <==> ix < |ItemValues(h, c)|) && (!r.ok ==> r.heap == h)
            && (r.ok ==> && c in r.heap && OthersKeepValue(h, r.heap, c)
                         && Frees(h, r.heap, {h[c].content.items[ix]})
                         && ValueOf(r.heap, c) == Array(Without(ItemValues(h, c), ix)))
  {
    hide IsForest, Kids, Frees, ValueOf, RemoveItemIn, Without;
    RemoveItemAnswers(h, c, ix);
    if ix < |h[c].content.items| {
      RemovedItemDrops(h, c, ix);
    }
  }

  lemma RemovedItemDrops(h: Heap, c: Node, ix: nat)
    requires IsForest(h) && c in h && h[c].content.List? && ix < |h[c].content.items|
    ensures var h' := RemoveItemIn(h, c, ix).heap;
            && c in h' && OthersKeepValue(h, h', c)
            && ValueOf(h', c) == Array(Without(ItemValues(h, c), ix))
  {
    hide IsForest, Kids;
    var items, h' := h[c].content.items, RemoveItemIn(h, c, ix).heap;
    assert ItemAt(h, c, ix) == items[ix];
    UnlinkedKeepsValues(h, c, List(Without(items, ix)), {items[ix]});
    ArrayValue(h', c);
    forall i | 0 <= i < |items| - 1
      ensures ItemValues(h', c)[i] == Without(ItemValues(h, c), ix)[i]
    {
      var j := if i < ix then i else i + 1;
      assert ItemAt(h', c, i) == ItemAt(h, c, j);
      KidIsBelow(h, c, ItemAt(h, c, j));
    }
    assert ItemValues(h', c) == Without(ItemValues(h, c), ix);
  }

  lemma ReplaceAnswers(h: Heap, c: Node, ix: nat, v: Node)
    requires IsForest(h) && MayHold(h, c, v) && h[c].content.List?
    ensures var r := ReplaceIn(h, c, ix, v);
            && (r.ok <==> ix < |h[c].content.items|) && (!r.ok ==> r.heap == h)
            && (r.ok ==> Frees(h, r.heap, {h[c].content.items[ix]}))
  {
    hide IsForest, Kids;
  }

  /** json_array_replace_value on a value: an item that is there goes with its tree, and v takes its
      place. */
  lemma {:induction false} ReplaceReplaces(h: Heap, c: Node, ix: nat, v: Node)
    requires IsForest(h) && MayHold(h, c, v) && h[c].content.List?
    ensures var r := ReplaceIn(h, c, ix, v);
            && (r.ok <==> ix < |ItemValues(h, c)|) && (!r.ok ==> r.heap == h)
            && (r.ok ==> && c in r.heap && OthersKeepValue(h, r.heap, c)
                         && Frees(h, r.heap, {h[c].content.items[ix]})
                         && ValueOf(r.heap, c) == Array(ItemValues(h, c)[ix := ValueOf(h, v)]))
  {
    hide IsForest, Kids, Frees, ValueOf, ReplaceIn;
    ReplaceAnswers(h, c, ix, v);
    if ix < |h[c].content.items| {
      ReplacedReplaces(h, c, ix, v);
    }
  }

  lemma ReplacedReplaces(h: Heap, c: Node, ix: nat, v: Node)
    requires IsForest(h) && MayHold(h, c, v) && h[c].content.List? && ix < |h[c].content.items|
    ensures var h' := ReplaceIn(h, c, ix, v).heap;
            && c in h' && OthersKeepValue(h, h', c)
            && ValueOf(h', c) == Array(ItemValues(h, c)[ix := ValueOf(h, v)])
  {
    hide IsForest, Kids, ValueOf;
    var items, h' := h[c].content.items, ReplaceIn(h, c, ix, v).heap;
    ReplaceKeepsValues(h, c, ix, v);
    ArrayValue(h', c);
    forall i | 0 <= i < |items|
      ensures ItemValues(h', c)[i] == ItemValues(h, c)[ix := ValueOf(h, v)][i]
    {
      if i == ix {
        assert ItemAt(h', c, i) == v;
      } else {
        assert ItemAt(h', c, i) == ItemAt(h, c, i);
        KidIsBelow(h, c, ItemAt(h, c, i));
      }
    }
  }

  lemma ReplaceKeepsValues(h: Heap, c: Node, ix: nat, v: Node)
    requires IsForest(h) && MayHold(h, c, v) && h[c].content.List? && ix < |h[c].content.items|
    ensures var h' := ReplaceIn(h, c, ix, v).heap;
            && c in h' && v in h' && OthersKeepValue(h, h', c)
            && h'[c].content == List(h[c].content.items[ix := v])
            && ValueOf(h', v) == ValueOf(h, v)
  {
    hide IsForest, Kids;
    var items, h1 := h[c].content.items, RemoveItemIn(h, c, ix).heap;
    var h' := ReplaceIn(h, c, ix, v).heap;
    assert h' == Linked(h1, c, List(items[ix := v]), v);
    UnlinkedKeepsValues(h, c, List(Without(items, ix)), {items[ix]});
    LinkedKeepsValues(h1, c, List(items[ix := v]), v);
    RootIsNoKid(h, c, v);
    RootIsAlone(h, v);
    assert v in h1;
  }

  lemma RootIsAlone(h: Heap, v: Node)
    requires IsForest(h) && v in h && h[v].parent == null
    ensures h[v].above == {}
  {
    assert ParentKnows(h, v);
  }

  /** A value that has a parent is refused, and nothing changes. */
  lemma {:induction false} ParentedIsRefused(h: Heap, c: Node, name: CString, ix: nat, v: Node)
    requires IsForest(h) && c in h && v in h && h[v].parent != null
    ensures h[c].content.Dict? ==> SetIn(h, c, name, v) == Outcome(false, h)
    ensures h[c].content.List? ==>
              AppendIn(h, c, v) == Outcome(false, h) && ReplaceIn(h, c, ix, v) == Outcome(false, h)
  {
    hide IsForest, Kids;
  }

  /** json_value_free: the tree goes, and nothing else changes. */
  lemma {:induction false} FreeFrees(h: Heap, v: Node)
    requires IsForest(h) && v in h && h[v].parent == null
    ensures Frees(h, FreeIn(h, v), {v}) && forall n | n in FreeIn(h, v) :: n in h && FreeIn(h, v)[n] == h[n]
  {
    hide IsForest, Kids;
  }
}
