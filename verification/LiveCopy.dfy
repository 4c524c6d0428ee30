/** json_value_deep_copy (mrbgems/json-with-casing/src/parson.c, lines 1420-1501) on live values: a
    node is made for each node of the source, containers are filled in a loop over their children,
    and members are looked up by name. The copy is compared with its source by
    json_value_equals. */
module LiveCopy {
  import opened Bytes
  import opened Options
  import opened Entries
  import opened JsonTree
  import JsonCompare
  import opened Forest
  import opened ForestValues
  import opened HeapGrowth
  import opened LiveValues

  // ---- Building the copy ----

  // The children of r have the values of the first k children of n.
  ghost predicate ItemsCopied(h0: Heap, n: Node, h: Heap, r: Node, k: nat)
    requires IsForest(h0) && n in h0 && h0[n].content.List? && IsForest(h)
  {
    && k <= |h0[n].content.items| && r in h && h[r].content.List?
    && ItemValues(h, r) == ItemValues(h0, n)[..k]
  }

  ghost predicate MembersCopied(h0: Heap, n: Node, h: Heap, r: Node, k: nat)
    requires IsForest(h0) && n in h0 && h0[n].content.Dict? && IsForest(h)
  {
    && k <= |h0[n].content.members| && r in h && h[r].content.Dict?
    && MemberValues(h, r) == MemberValues(h0, n)[..k]
  }

  lemma AllCopied(h0: Heap, n: Node, h: Heap, r: Node)
    requires IsForest(h0) && n in h0 && IsForest(h)
    ensures h0[n].content.List? && ItemsCopied(h0, n, h, r, |h0[n].content.items|) ==> ValueOf(h, r) == ValueOf(h0, n)
    ensures h0[n].content.Dict? && MembersCopied(h0, n, h, r, |h0[n].content.members|) ==>
              ValueOf(h, r) == ValueOf(h0, n)
  {
    hide IsForest, ValueOf;
    if h0[n].content.List? && ItemsCopied(h0, n, h, r, |h0[n].content.items|) {
      ArrayValue(h0, n);
      ArrayValue(h, r);
    } else if h0[n].content.Dict? && MembersCopied(h0, n, h, r, |h0[n].content.members|) {
      ObjectValue(h0, n);
      ObjectValue(h, r);
    }
  }

  // The next name is not among those copied so far, and looking it up finds its own value.
  lemma {:induction false} NextNameIsNew(h0: Heap, n: Node, h: Heap, r: Node, k: nat)
    requires IsForest(h0) && n in h0 && h0[n].content.Dict? && IsForest(h)
    requires MembersCopied(h0, n, h, r, k) && k < |h0[n].content.members|
    ensures var name := h0[n].content.members[k].name;
            !Has(h[r].content.members, name) && Lookup(h0[n].content.members, name) == Some(KidAt(h0, n, k))
  {
    hide ValueOf;
    var members, name := h0[n].content.members, h0[n].content.members[k].name;
    assert Tidy(h0[n].content);
    FindAt(members, k);
    forall i | 0 <= i < k
      ensures h[r].content.members[i].name != name
    {
      assert MemberValues(h, r)[i] == MemberValues(h0, n)[i];
      assert members[i].name != members[k].name;
    }
    assert |MemberValues(h, r)| == k;
  }

  // ---- The copy ----

  lemma NothingCopied(h0: Heap, n: Node, h: Heap, r: Node)
    requires IsForest(h0) && n in h0 && IsForest(h) && r in h
    ensures h0[n].content.List? && h[r].content == List([]) ==> ItemsCopied(h0, n, h, r, 0)
    ensures h0[n].content.Dict? && h[r].content == Dict([]) ==> MembersCopied(h0, n, h, r, 0)
  {
    NothingYet(h, r);
  }

  lemma ItemIsBelow(h0: Heap, n: Node, i: nat)
    requires IsForest(h0) && n in h0 && h0[n].content.List? && i < |h0[n].content.items|
    ensures var k := h0[n].content.items[i];
            && k in h0 && n in h0.Keys - h0[n].above && h0[k].above == h0[n].above + {n}
            && ItemValues(h0, n)[i] == ValueOf(h0, k)
  {
    assert h0[n].content.items[i] in Kids(h0[n].content);
    KidIsBelow(h0, n, h0[n].content.items[i]);
  }

  lemma MemberIsBelow(h0: Heap, n: Node, i: nat)
    requires IsForest(h0) && n in h0 && h0[n].content.Dict? && i < |h0[n].content.members|
    ensures var k := KidAt(h0, n, i);
            && n in h0.Keys - h0[n].above && h0[k].above == h0[n].above + {n}
            && MemberValues(h0, n)[i] == Entry(h0[n].content.members[i].name, ValueOf(h0, k))
  {
    KidIsBelow(h0, n, KidAt(h0, n, i));
  }

  /** json_value_deep_copy makes a value equal to its source, json_value_equals included, out of
      new nodes only: the heap is otherwise as before, and the new nodes are exactly the copy's. */
  method DeepCopy(live: Live, n: Node, ghost h0: Heap) returns (r: Node, ghost ops: seq<Op>)
    requires live.Valid() && IsForest(h0) && Extends(h0, live.Now()) && n in h0
    modifies live, live.nodes`above
    ensures live.Valid() && Built(old(live.Now()), ops, live.Now(), r)
    ensures ValueOf(live.Now(), r) == ValueOf(h0, n) && JsonCompare.Equals(ValueOf(live.Now(), r), ValueOf(h0, n))
    ensures old(live.nodes) <= live.nodes && forall m | m in live.nodes && m !in old(live.nodes) :: fresh(m)
    ensures forall o | o in live.Reprs() && o !in old(live.Reprs()) :: fresh(o)
    ensures forall m | m in old(live.nodes) :: m.Layout() == old(m.Layout())
    decreases h0.Keys - h0[n].above, 3
  {
    hide Live.Apart, Live.Now, Live.Reprs, IsForest, ValueOf, Node.Repr, JsonCompare.Equals, Leads;
    EqualsItself(h0, n);
    live.LiveKeys();
    live.LiveKind(n);
    if n.list != null {
      r, ops := CopyArray(live, n, h0);
    } else if n.table != null {
      r, ops := CopyObject(live, n, h0);
    } else {
      ScalarValue(h0, n);
      r := live.MakeScalar(n.scalar);
      NewRoot(old(live.Now()), r, Scalar(n.scalar));
      ops := [Create(r, Scalar(n.scalar))];
      ScalarValue(live.Now(), r);
    }
  }

  method CopyArray(live: Live, n: Node, ghost h0: Heap) returns (r: Node, ghost ops: seq<Op>)
    requires live.Valid() && IsForest(h0) && Extends(h0, live.Now()) && n in h0 && h0[n].content.List?
    requires n in live.nodes && n.list != null
    modifies live, live.nodes`above
    ensures live.Valid() && Built(old(live.Now()), ops, live.Now(), r)
    ensures ValueOf(live.Now(), r) == ValueOf(h0, n)
    ensures old(live.nodes) <= live.nodes && forall m | m in live.nodes && m !in old(live.nodes) :: fresh(m)
    ensures forall o | o in live.Reprs() && o !in old(live.Reprs()) :: fresh(o)
    ensures forall m | m in old(live.nodes) :: m.Layout() == old(m.Layout())
    decreases h0.Keys - h0[n].above, 2
  {
    hide Live.Apart, Live.Now, Live.Reprs, IsForest, ValueOf, Node.Repr, Extends, NewBelow, Leads, ItemsCopied, NewIn;
    ghost var h := live.Now();
    live.LiveKeys();
    r := live.MakeArray();
    NewRoot(h, r, List([]));
    live.LiveKeys();
    NothingCopied(h0, n, live.Now(), r);
    ops := CopyItems(live, n, h0, h, [Create(r, List([]))], r);
    AllCopied(h0, n, live.Now(), r);
  }

  // The loop over an array.
  method CopyItems(live: Live, n: Node, ghost h0: Heap, ghost h: Heap, ghost start: seq<Op>, r: Node)
    returns (ghost ops: seq<Op>)
    requires live.Valid() && IsForest(h0) && IsForest(h) && Extends(h0, h) && n in h0 && h0[n].content.List?
    requires Built(h, start, live.Now(), r) && ItemsCopied(h0, n, live.Now(), r, 0)
    requires r in live.nodes && r.list != null && n in live.nodes && n.list != null
    modifies live, live.nodes`above, r.Repr()
    ensures live.Valid() && Built(h, ops, live.Now(), r)
    ensures ItemsCopied(h0, n, live.Now(), r, |h0[n].content.items|)
    ensures old(live.nodes) <= live.nodes && forall m | m in live.nodes && m !in old(live.nodes) :: fresh(m)
    ensures forall o | o in live.Reprs() && o !in old(live.Reprs()) :: fresh(o)
    ensures forall m | m in old(live.nodes) && m != r :: m.Layout() == old(m.Layout())
    decreases h0.Keys - h0[n].above, 1
  {
    hide Live.Apart, Live.Now, Live.Reprs, IsForest, ValueOf, Node.Repr, Extends, NewBelow, Leads, ItemsCopied;
    live.LiveKeys();
    StillThere(h0, h, live.Now(), n);
    ops := start;
    var i := 0;
    var item := live.ItemAt(n, i);
    while item.Some?
      invariant live.Valid() && Built(h, ops, live.Now(), r)
      invariant i <= |h0[n].content.items| && ItemsCopied(h0, n, live.Now(), r, i)
      invariant item == if i < |h0[n].content.items| then Some(h0[n].content.items[i]) else None
      invariant old(live.nodes) <= live.nodes && forall m | m in live.nodes && m !in old(live.nodes) :: fresh(m)
      invariant forall o | o in live.Reprs() && o !in old(live.Reprs()) :: fresh(o)
      invariant forall o | o in r.Repr() && o !in old(r.Repr()) :: fresh(o)
      invariant forall m | m in old(live.nodes) && m != r :: m.Layout() == old(m.Layout())
      decreases |h0[n].content.items| - i
    {
      ops := CopyItem(live, n, h0, h, ops, r, item.value, i);
      live.LiveKeys();
      StillThere(h0, h, live.Now(), n);
      i := i + 1;
      item := live.ItemAt(n, i);
    }
  }

  lemma OneMoreItem(h0: Heap, n: Node, h: Heap, ops: seq<Op>, h1: Heap, more: seq<Op>, h2: Heap, r: Node, v: Node,
      k: nat)
    requires IsForest(h0) && n in h0 && h0[n].content.List? && k < |h0[n].content.items|
    requires IsForest(h) && IsForest(h1) && IsForest(h2)
    requires Built(h, ops, h1, r) && Built(h1, more, h2, v)
    requires ItemsCopied(h0, n, h1, r, k) && ValueOf(h2, v) == ItemValues(h0, n)[k]
    ensures r in h2 && h2[r].content.List? && MayHold(h2, r, v) && v !in h1
    ensures var a := AppendIn(h2, r, v);
            a.ok && Built(h, ops + more + [Append(r, v)], a.heap, r) && ItemsCopied(h0, n, a.heap, r, k + 1)
  {
    hide IsForest, ValueOf, ItemValues, AppendIn, Leads, Extends, NewBelow;
    GrowArray(h, ops, h1, more, h2, r, v);
  }

  // One turn of the loop over an array.
  method CopyItem(live: Live, n: Node, ghost h0: Heap, ghost h: Heap, ghost start: seq<Op>, r: Node, item: Node,
      ghost i: nat)
    returns (ghost ops: seq<Op>)
    requires live.Valid() && IsForest(h0) && IsForest(h) && Extends(h0, h) && n in h0 && h0[n].content.List?
    requires Built(h, start, live.Now(), r) && ItemsCopied(h0, n, live.Now(), r, i)
    requires i < |h0[n].content.items| && item == h0[n].content.items[i]
    requires r in live.nodes && r.list != null
    modifies live, live.nodes`above, r.Repr()
    ensures live.Valid() && Built(h, ops, live.Now(), r)
    ensures ItemsCopied(h0, n, live.Now(), r, i + 1)
    ensures old(live.nodes) <= live.nodes && forall m | m in live.nodes && m !in old(live.nodes) :: fresh(m)
    ensures forall o | o in live.Reprs() && o !in old(live.Reprs()) :: fresh(o)
    ensures forall o | o in r.Repr() && o !in old(r.Repr()) :: fresh(o)
    ensures forall m | m in old(live.nodes) && m != r :: m.Layout() == old(m.Layout())
    decreases h0.Keys - h0[n].above, 0
  {
    hide Live.Apart, Live.Now, Live.Reprs, IsForest, ValueOf, Node.Repr, Extends, NewBelow, Leads, ItemsCopied,
      AppendIn;
    ghost var h1 := live.Now();
    live.LiveKeys();
    ItemIsBelow(h0, n, i);
    ExtendsTwice(h0, h, h1);
    var v;
    ghost var more;
    v, more := DeepCopy(live, item, h0);
    ghost var h2 := live.Now();
    live.LiveKeys();
    OneMoreItem(h0, n, h, start, h1, more, h2, r, v, i);
    ops := start + more + [Append(r, v)];
    label Copied:
    live.AddItem(r, v);
    forall m | m in old(live.nodes) && m != r
      ensures m.Layout() == old(m.Layout())
    {
      assert m.Layout() == old@Copied(m.Layout());
    }
  }

  method CopyObject(live: Live, n: Node, ghost h0: Heap) returns (r: Node, ghost ops: seq<Op>)
    requires live.Valid() && IsForest(h0) && Extends(h0, live.Now()) && n in h0 && h0[n].content.Dict?
    requires n in live.nodes && n.table != null
    modifies live, live.nodes`above
    ensures live.Valid() && Built(old(live.Now()), ops, live.Now(), r)
    ensures ValueOf(live.Now(), r) == ValueOf(h0, n)
    ensures old(live.nodes) <= live.nodes && forall m | m in live.nodes && m !in old(live.nodes) :: fresh(m)
    ensures forall o | o in live.Reprs() && o !in old(live.Reprs()) :: fresh(o)
    ensures forall m | m in old(live.nodes) :: m.Layout() == old(m.Layout())
    decreases h0.Keys - h0[n].above, 2
  {
    hide Live.Apart, Live.Now, Live.Reprs, IsForest, ValueOf, Node.Repr, Extends, NewBelow, Leads, MembersCopied,
      NewIn;
    ghost var h := live.Now();
    live.LiveKeys();
    r := live.MakeObject();
    NewRoot(h, r, Dict([]));
    live.LiveKeys();
    NothingCopied(h0, n, live.Now(), r);
    ops := CopyMembers(live, n, h0, h, [Create(r, Dict([]))], r);
    AllCopied(h0, n, live.Now(), r);
  }

  // The loop over an object.
  method CopyMembers(live: Live, n: Node, ghost h0: Heap, ghost h: Heap, ghost start: seq<Op>, r: Node)
    returns (ghost ops: seq<Op>)
    requires live.Valid() && IsForest(h0) && IsForest(h) && Extends(h0, h) && n in h0 && h0[n].content.Dict?
    requires Built(h, start, live.Now(), r) && MembersCopied(h0, n, live.Now(), r, 0)
    requires r in live.nodes && r.table != null && n in live.nodes && n.table != null
    modifies live, live.nodes`above, r.Repr()
    ensures live.Valid() && Built(h, ops, live.Now(), r)
    ensures MembersCopied(h0, n, live.Now(), r, |h0[n].content.members|)
    ensures old(live.nodes) <= live.nodes && forall m | m in live.nodes && m !in old(live.nodes) :: fresh(m)
    ensures forall o | o in live.Reprs() && o !in old(live.Reprs()) :: fresh(o)
    ensures forall m | m in old(live.nodes) && m != r :: m.Layout() == old(m.Layout())
    decreases h0.Keys - h0[n].above, 1
  {
    hide Live.Apart, Live.Now, Live.Reprs, IsForest, ValueOf, Node.Repr, Extends, NewBelow, Leads, MembersCopied;
    live.LiveKeys();
    StillThere(h0, h, live.Now(), n);
    ops := start;
    var i := 0;
    var name := live.NameAt(n, i);
    while name.Some?
      invariant live.Valid() && Built(h, ops, live.Now(), r)
      invariant i <= |h0[n].content.members| && MembersCopied(h0, n, live.Now(), r, i)
      invariant name == if i < |h0[n].content.members| then Some(h0[n].content.members[i].name) else None
      invariant old(live.nodes) <= live.nodes && forall m | m in live.nodes && m !in old(live.nodes) :: fresh(m)
      invariant forall o | o in live.Reprs() && o !in old(live.Reprs()) :: fresh(o)
      invariant forall o | o in r.Repr() && o !in old(r.Repr()) :: fresh(o)
      invariant forall m | m in old(live.nodes) && m != r :: m.Layout() == old(m.Layout())
      decreases |h0[n].content.members| - i
    {
      ops := CopyMember(live, n, h0, h, ops, r, name.value, i);
      live.LiveKeys();
      StillThere(h0, h, live.Now(), n);
      i := i + 1;
      name := live.NameAt(n, i);
    }
  }

  lemma OneMoreMember(h0: Heap, n: Node, h: Heap, ops: seq<Op>, h1: Heap, more: seq<Op>, h2: Heap, r: Node,
      name: CString, v: Node, k: nat)
    requires IsForest(h0) && n in h0 && h0[n].content.Dict? && k < |h0[n].content.members|
    requires IsForest(h) && IsForest(h1) && IsForest(h2)
    requires Built(h, ops, h1, r) && Built(h1, more, h2, v)
    requires MembersCopied(h0, n, h1, r, k) && Entry(name, ValueOf(h2, v)) == MemberValues(h0, n)[k]
    ensures r in h2 && h2[r].content.Dict? && MayHold(h2, r, v) && v !in h1
    ensures var a := AddIn(h2, r, name, v);
            a.ok && Built(h, ops + more + [AddTo(r, name, v)], a.heap, r) && MembersCopied(h0, n, a.heap, r, k + 1)
  {
    hide IsForest, ValueOf, MemberValues, AddIn, Leads, Extends, NewBelow, Has, Lookup;
    NextNameIsNew(h0, n, h1, r, k);
    GrowObject(h, ops, h1, more, h2, r, name, v);
  }

  // One turn of the loop over an object.
  method CopyMember(live: Live, n: Node, ghost h0: Heap, ghost h: Heap, ghost start: seq<Op>, r: Node,
      name: CString, ghost i: nat)
    returns (ghost ops: seq<Op>)
    requires live.Valid() && IsForest(h0) && IsForest(h) && Extends(h0, h) && n in h0 && h0[n].content.Dict?
    requires Built(h, start, live.Now(), r) && MembersCopied(h0, n, live.Now(), r, i)
    requires i < |h0[n].content.members| && name == h0[n].content.members[i].name
    requires r in live.nodes && r.table != null
    modifies live, live.nodes`above, r.Repr()
    ensures live.Valid() && Built(h, ops, live.Now(), r)
    ensures MembersCopied(h0, n, live.Now(), r, i + 1)
    ensures old(live.nodes) <= live.nodes && forall m | m in live.nodes && m !in old(live.nodes) :: fresh(m)
    ensures forall o | o in live.Reprs() && o !in old(live.Reprs()) :: fresh(o)
    ensures forall o | o in r.Repr() && o !in old(r.Repr()) :: fresh(o)
    ensures forall m | m in old(live.nodes) && m != r :: m.Layout() == old(m.Layout())
    decreases h0.Keys - h0[n].above, 0
  {
    hide Live.Apart, Live.Now, Live.Reprs, IsForest, ValueOf, Node.Repr, Extends, NewBelow, Leads, MembersCopied,
      AddIn;
    ghost var h1 := live.Now();
    live.LiveKeys();
    StillThere(h0, h, h1, n);
    live.LiveKind(n);
    MemberIsBelow(h0, n, i);
    ExtendsTwice(h0, h, h1);
    NextNameIsNew(h0, n, h1, r, i);
    var member := live.Held(n, name);
    var v;
    ghost var more;
    v, more := DeepCopy(live, member.value, h0);
    ghost var h2 := live.Now();
    live.LiveKeys();
    OneMoreMember(h0, n, h, start, h1, more, h2, r, name, v, i);
    ops := start + more + [AddTo(r, name, v)];
    label Copied:
    var added := live.AddValue(r, name, v);
    forall m | m in old(live.nodes) && m != r
      ensures m.Layout() == old(m.Layout())
    {
      assert m.Layout() == old@Copied(m.Layout());
    }
  }

  // ---- Equal to its source ----

  lemma {:induction false} ValuesAreNormal(h: Heap, n: Node)
    requires IsForest(h) && n in h
    ensures DistinctNames(ValueOf(h, n))
    decreases h.Keys - h[n].above
  {
    match h[n].content
    case Scalar(_) =>
      ScalarValue(h, n);
    case List(items) =>
      ArrayValue(h, n);
      forall i | 0 <= i < |items|
        ensures DistinctNames(ValueOf(h, n).items[i])
      {
        ItemIsBelow(h, n, i);
        ValuesAreNormal(h, items[i]);
      }
    case Dict(members) =>
      ObjectValue(h, n);
      assert Tidy(h[n].content);
      forall i | 0 <= i < |members|
        ensures DistinctNames(MemberValues(h, n)[i].value)
      {
        MemberIsBelow(h, n, i);
        ValuesAreNormal(h, KidAt(h, n, i));
      }
  }

  lemma EqualsItself(h: Heap, n: Node)
    requires IsForest(h) && n in h
    ensures JsonCompare.Equals(ValueOf(h, n), ValueOf(h, n))
  {
    ValuesAreNormal(h, n);
    JsonCompare.EqualsIsSameMeaning(ValueOf(h, n), ValueOf(h, n));
  }

  /** json_value_equals holds between the values of two nodes exactly when they mean the same. */
  lemma {:induction false} LiveEqualsIsSameMeaning(h: Heap, a: Node, b: Node)
    requires IsForest(h) && a in h && b in h
    ensures JsonCompare.Equals(ValueOf(h, a), ValueOf(h, b)) <==>
            JsonCompare.MeaningOf(ValueOf(h, a)) == JsonCompare.MeaningOf(ValueOf(h, b))
  {
    ValuesAreNormal(h, a);
    ValuesAreNormal(h, b);
    JsonCompare.EqualsIsSameMeaning(ValueOf(h, a), ValueOf(h, b));
  }
}
