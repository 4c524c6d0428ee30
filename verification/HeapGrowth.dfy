/** Trees under construction: new nodes are made and hung below a new root, and nothing else changes.
    Deep copy and the parser build their results this way (mrbgems/json-with-casing/src/parson.c,
    lines 664-758 and 1420-1501). */
module HeapGrowth {
  import opened Bytes
  import opened Entries
  import opened Forest
  import opened ForestValues

  // Everything in h is in h' as it was.
  ghost predicate Extends(h: Heap, h': Heap) {
    forall n | n in h :: n in h' && h'[n] == h[n]
  }

  // What is new in h' hangs below r, a new root.
  ghost predicate NewBelow(h: Heap, h': Heap, r: Node) {
    && r in h' && r !in h && h'[r].parent == null
    && forall n | n in h' && n !in h :: InTree(h', r, n)
  }

  // The operations lead from h to h', where nothing has changed but that there is a new tree at r.
  ghost predicate Built(h: Heap, ops: seq<Op>, h': Heap, r: Node)
    requires IsForest(h)
  {
    Extends(h, h') && NewBelow(h, h', r) && Leads(h, ops, h')
  }

  lemma ExtendedValue(h: Heap, h': Heap, n: Node)
    requires IsForest(h) && IsForest(h') && Extends(h, h') && n in h
    ensures n in h' && ValueOf(h', n) == ValueOf(h, n)
  {
    assert SameBelow(h, h', n);
    SameBelowSameValue(h, h', n);
  }

  /** What hangs below the new root is exactly what was not there before. */
  lemma {:induction false} NewIsApart(h: Heap, h': Heap, r: Node, n: Node)
    requires IsForest(h) && IsForest(h') && Extends(h, h') && NewBelow(h, h', r) && n in h'
    ensures InTree(h', r, n) <==> n !in h
  {
    if n in h && r in h[n].above {
      AboveIsClosed(h, n, r);
    }
  }

  // One more new tree, v, is linked to the new root r.
  lemma LinkedGrowth(h: Heap, h1: Heap, h2: Heap, r: Node, content: Content, v: Node)
    requires IsForest(h) && IsForest(h1) && IsForest(h2)
    requires Extends(h, h1) && NewBelow(h, h1, r) && Extends(h1, h2) && NewBelow(h1, h2, v)
    ensures MayHold(h2, r, v)
    ensures Extends(h, Linked(h2, r, content, v)) && NewBelow(h, Linked(h2, r, content, v), r)
    ensures forall n | n in h1 && n != r :: Linked(h2, r, content, v)[n].content == h1[n].content
    ensures Linked(h2, r, content, v)[r].above == {}
  {
    var h3 := Linked(h2, r, content, v);
    assert ParentKnows(h1, r) && ParentKnows(h2, v);
    forall n | n in h1
      ensures !InTree(h2, v, n)
    {
      NewIsApart(h1, h2, v, n);
    }
    forall n | n in h3 && n !in h
      ensures InTree(h3, r, n)
    {
      if n in h1 {
        assert InTree(h1, r, n);
      } else {
        assert InTree(h2, v, n);
      }
    }
  }

  lemma NewRoot(h: Heap, n: Node, content: Content)
    requires IsForest(h) && n !in h && Kids(content) == [] && Tidy(content)
    ensures var h' := NewIn(h, n, content);
            Built(h, [Create(n, content)], h', n) && h'[n].content == content
  {
    OneStepLeads(h, Create(n, content));
  }

  lemma ScalarValue(h: Heap, n: Node)
    requires IsForest(h) && n in h && h[n].content.Scalar?
    ensures ValueOf(h, n) == h[n].content.v && !h[n].content.v.Array? && !h[n].content.v.Object?
  {
    assert Tidy(h[n].content);
  }

  lemma StillThere(h0: Heap, h: Heap, h': Heap, n: Node)
    requires Extends(h0, h) && Extends(h, h') && n in h0
    ensures n in h' && h'[n] == h0[n]
  {
  }

  lemma ExtendsTwice(h: Heap, h1: Heap, h2: Heap)
    requires Extends(h, h1) && Extends(h1, h2)
    ensures Extends(h, h2)
  {
  }

  lemma ExtendedChildren(h: Heap, h': Heap, r: Node)
    requires IsForest(h) && IsForest(h') && Extends(h, h') && r in h
    ensures r in h' && h'[r] == h[r]
    ensures h[r].content.List? ==> ItemValues(h', r) == ItemValues(h, r)
    ensures h[r].content.Dict? ==> MemberValues(h', r) == MemberValues(h, r)
  {
    hide IsForest, Extends, ValueOf;
    StillThere(h, h, h', r);
    ExtendedValue(h, h', r);
    if h[r].content.List? {
      ArrayValue(h, r);
      ArrayValue(h', r);
    } else if h[r].content.Dict? {
      ObjectValue(h, r);
      ObjectValue(h', r);
    }
  }

  lemma OneStepMore(h: Heap, ops: seq<Op>, h1: Heap, more: seq<Op>, h2: Heap, op: Op)
    requires IsForest(h) && IsForest(h1) && IsForest(h2) && Allowed(h2, op)
    requires Leads(h, ops, h1) && Leads(h1, more, h2)
    ensures Leads(h, ops + more + [op], Apply(h2, op))
  {
    LeadsOn(h, ops, h1, more, h2);
    OneStepLeads(h2, op);
    LeadsOn(h, ops + more, h2, [op], Apply(h2, op));
  }

  /** One item more: the new tree v, made since h1, is appended to the new array r. */
  lemma {:induction false} GrowArray(h: Heap, ops: seq<Op>, h1: Heap, more: seq<Op>, h2: Heap, r: Node, v: Node)
    requires IsForest(h) && IsForest(h1) && IsForest(h2)
    requires Built(h, ops, h1, r) && Built(h1, more, h2, v)
    requires h1[r].content.List?
    ensures r in h2 && h2[r].content.List? && MayHold(h2, r, v) && v !in h1
    ensures var a := AppendIn(h2, r, v);
            && a.ok && Built(h, ops + more + [Append(r, v)], a.heap, r) && r in a.heap && a.heap[r].content.List?
            && ItemValues(a.heap, r) == ItemValues(h1, r) + [ValueOf(h2, v)]
  {
    hide IsForest, ValueOf, Leads;
    LinkedGrowth(h, h1, h2, r, List(h2[r].content.items + [v]), v);
    ExtendedChildren(h1, h2, r);
    OneStepMore(h, ops, h1, more, h2, Append(r, v));
    AppendAppends(h2, r, v);
    ArrayValue(AppendIn(h2, r, v).heap, r);
  }

  /** One member more, under a name that is not there. */
  lemma {:induction false} GrowObject(h: Heap, ops: seq<Op>, h1: Heap, more: seq<Op>, h2: Heap, r: Node,
      name: CString, v: Node)
    requires IsForest(h) && IsForest(h1) && IsForest(h2)
    requires Built(h, ops, h1, r) && Built(h1, more, h2, v)
    requires h1[r].content.Dict? && !Has(h1[r].content.members, name)
    ensures r in h2 && h2[r].content.Dict? && MayHold(h2, r, v) && v !in h1
    ensures var a := AddIn(h2, r, name, v);
            && a.ok && Built(h, ops + more + [AddTo(r, name, v)], a.heap, r) && r in a.heap && a.heap[r].content.Dict?
            && MemberValues(a.heap, r) == MemberValues(h1, r) + [Entry(name, ValueOf(h2, v))]
  {
    hide IsForest, ValueOf, Leads;
    LinkedGrowth(h, h1, h2, r, Dict(h2[r].content.members + [Entry(name, v)]), v);
    ExtendedChildren(h1, h2, r);
    OneStepMore(h, ops, h1, more, h2, AddTo(r, name, v));
    AddAddsTheMember(h2, r, name, v);
    ObjectValue(AddIn(h2, r, name, v).heap, r);
  }

  lemma NothingYet(h: Heap, r: Node)
    requires IsForest(h) && r in h
    ensures h[r].content == List([]) ==> ItemValues(h, r) == []
    ensures h[r].content == Dict([]) ==> MemberValues(h, r) == []
  {
  }

  /** Freeing a tree under construction undoes it. */
  lemma {:induction false} FreeingUndoes(h: Heap, h1: Heap, r: Node)
    requires IsForest(h) && IsForest(h1) && Extends(h, h1) && NewBelow(h, h1, r)
    ensures FreeIn(h1, r) == h
  {
    forall n | n in h1
      ensures InTree(h1, r, n) <==> n !in h
    {
      NewIsApart(h, h1, r, n);
    }
  }
}
