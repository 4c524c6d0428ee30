/** The functions of mrbgems/json-with-casing/src/parson.c that change values in memory (lines 357-479,
    1301-1345 and 1631-1982), on the real objects: parent pointers, tables, and the set of values that
    have not been freed. What each of them does is stated as a function on the map from live values
    to their fields. */
module LiveValues {
  import opened Bytes
  import opened Options
  import opened Entries
  import opened JsonTree
  import opened Tables
  import opened Forest

  // Which values are live: what malloc and free keep track of.
  class Live {
    ghost var nodes: set<Node>

    ghost function Heads(): set<object>
      reads this
    {
      set n, o | n in nodes && o in n.Head() :: o
    }

    ghost function Reprs(): set<object>
      reads this, Heads()
    {
      set n, o | n in nodes && o in n.Repr() :: o
    }

    // Every container is in order, and no two share a table.
    ghost predicate Apart()
      reads this, Heads(), Reprs()
    {
      && (forall n | n in nodes :: n.Sound())
      && (forall m, n | m in nodes && n in nodes && m != n :: m.Repr() !! n.Repr())
    }

    ghost function Now(): Heap
      requires Apart()
      reads this, nodes, Heads(), Reprs()
    {
      map n | n in nodes :: Cell(n.parent, n.Content(), n.above)
    }

    ghost predicate Valid()
      reads this, nodes, Heads(), Reprs()
    {
      Apart() && IsForest(Now())
    }

    constructor ()
      ensures Valid() && nodes == {}
    {
      nodes := {};
    }

    twostate lemma NodeStays(n: Node)
      requires old(n.Sound()) && forall o | o in old(n.Repr()) :: unchanged(o)
      ensures n.Sound() && n.Layout() == old(n.Layout()) && n.Content() == old(n.Content())
    {
      assert n.Head() <= old(n.Repr());
      if n.table != null {
        assert n.table in old(n.Repr());
        assert old(n.table.names) != null ==>
            old(n.table.names) in old(n.Repr()) && old(n.table.values) in old(n.Repr());
      }
      if n.list != null {
        assert n.list in old(n.Repr());
        assert old(n.list.items) != null ==> old(n.list.items) in old(n.Repr());
      }
    }

    // Neither nodes nor this object are tables.
    lemma TablesOnly()
      requires Apart()
      ensures forall o | o in Reprs() :: !(o is Node) && !(o is Live)
    {
      forall n, o | n in nodes && o in n.Repr()
        ensures !(o is Node) && !(o is Live)
      {
        TableOnly(n, o);
      }
    }

    static lemma TableOnly(n: Node, o: object)
      requires o in n.Repr()
      ensures !(o is Node) && !(o is Live)
    {
    }

    // No table was changed; some nodes may have been freed.
    twostate lemma AllStay()
      requires old(Apart()) && nodes <= old(nodes)
      requires forall o | o in old(Reprs()) :: unchanged(o)
      ensures Apart()
      ensures forall n | n in nodes :: n.Content() == old(n.Content())
      ensures forall n | n in old(nodes) :: n.Layout() == old(n.Layout())
    {
      hide Node.Sound, Node.Content, Node.Repr;
      forall n | n in old(nodes)
        ensures n.Sound() && n.Layout() == old(n.Layout()) && n.Content() == old(n.Content())
      {
        assert forall o | o in old(n.Repr()) :: o in old(Reprs());
        NodeStays(n);
      }
    }

    twostate lemma NothingChanged()
      requires old(Apart()) && nodes == old(nodes)
      requires forall o | o in old(Reprs()) :: unchanged(o)
      requires forall n | n in nodes :: n.parent == old(n.parent) && n.above == old(n.above)
      ensures Apart() && Now() == old(Now()) && Reprs() == old(Reprs())
      ensures forall n | n in nodes :: n.Layout() == old(n.Layout())
    {
      hide Node.Sound, Node.Content, Node.Repr;
      AllStay();
    }

    // What is new in the tables of c is all that is new.
    twostate lemma ReprsGrow(c: Node)
      requires nodes <= old(nodes) && c in old(nodes)
      requires forall n | n in nodes && n != c :: n.Layout() == old(n.Layout())
      requires forall o | o in c.Repr() && o !in old(c.Repr()) :: fresh(o)
      ensures forall o | o in Reprs() && o !in old(Reprs()) :: fresh(o)
    {
      hide Node.Repr;
    }

    // The table of c was changed, and no other.
    twostate lemma OthersStay(c: Node)
      requires old(Apart()) && nodes == old(nodes) && c in nodes
      requires forall o | o in old(Reprs()) && o !in old(c.Repr()) :: unchanged(o)
      requires c.Sound() && fresh(c.Repr() - old(c.Repr()))
      ensures Apart()
      ensures forall n | n in nodes && n != c :: n.Content() == old(n.Content()) && n.Layout() == old(n.Layout())
    {
      forall n | n in nodes && n != c
        ensures n.Sound() && n.Layout() == old(n.Layout()) && n.Content() == old(n.Content())
      {
        hide Node.Sound, Node.Content, Node.Repr;
        assert n.Repr() !! old(c.Repr());
        assert forall o | o in old(n.Repr()) :: o in old(Reprs());
        NodeStays(n);
      }
      TablesStayApart(c);
    }

    twostate lemma TablesStayApart(c: Node)
      requires old(Apart()) && nodes == old(nodes) && c in nodes
      requires forall n | n in nodes && n != c :: n.Layout() == old(n.Layout())
      requires fresh(c.Repr() - old(c.Repr()))
      ensures forall m, n | m in nodes && n in nodes && m != n :: m.Repr() !! n.Repr()
    {
      assert forall n, o | n in nodes && o in old(n.Repr()) :: !fresh(o);
      hide Node.Sound, Node.Content, Node.Repr;
      forall m, n | m in nodes && n in nodes && m != n
        ensures m.Repr() !! n.Repr()
      {
        assert old(m.Repr()) !! old(n.Repr());
        assert m != c ==> m.Layout() == old(m.Layout());
        assert n != c ==> n.Layout() == old(n.Layout());
      }
    }

    // ... which shows only in what c holds.
    twostate lemma OnlyContentChanged(c: Node)
      requires old(Apart()) && nodes == old(nodes) && c in nodes
      requires forall o | o in old(Reprs()) && o !in old(c.Repr()) :: unchanged(o)
      requires forall n | n in nodes :: n.parent == old(n.parent) && n.above == old(n.above)
      requires c.Sound() && fresh(c.Repr() - old(c.Repr()))
      ensures Apart()
      ensures Now() == WithContent(old(Now()), c, c.Content())
      ensures forall n | n in nodes && n != c :: n.Layout() == old(n.Layout())
    {
      hide Node.Sound, Node.Content, Node.Repr;
      OthersStay(c);
    }

    // The nodes in dropped are freed, with everything below them.
    ghost method Forget(c: Node, dropped: set<Node>)
      requires Apart() && c in nodes
      modifies this
      ensures nodes <= old(nodes) && Apart() && forall n | n in old(nodes) :: n.Layout() == old(n.Layout())
      ensures Now() == Unlinked(old(Now()), c, old(Now())[c].content, dropped)
    {
      hide Node.Sound, Node.Content, Node.Repr;
      TablesOnly();
      nodes := set n | n in nodes && n !in dropped && n.above !! dropped;
      AllStay();
    }

    // value->parent = c, and the ancestors of everything below value.
    method Hang(c: Node, v: Node)
      requires Apart() && c in nodes && v in nodes
      modifies v`parent, nodes`above
      ensures Apart() && forall n | n in nodes :: n.Layout() == old(n.Layout())
      ensures Now() == Linked(old(Now()), c, old(Now())[c].content, v)
    {
      hide Node.Sound, Node.Content, Node.Repr;
      ghost var h := Now();
      TablesOnly();
      v.parent := c;
      forall n | n in nodes && InTree(h, v, n) {
        n.above := n.above + h[c].above + {c};
      }
      AllStay();
    }

    // What a table call on c may change is c's own.
    lemma OwnTable(c: Node)
      requires Apart() && c in nodes && c.table != null
      ensures c.Sound() && c.table.Valid() && c.Repr() == c.table.Repr()
      ensures c.Content() == Dict(c.table.Members())
      ensures Now()[c].content == Dict(c.table.Members())
      ensures this !in c.Repr() && forall n | n in nodes :: n !in c.Repr()
    {
    }

    method StoreMember(c: Node, name: CString, v: Node)
      requires Apart() && c in nodes && c.table != null && Now()[c].content.Dict?
      modifies c.Repr()
      ensures Apart() && nodes == old(nodes) && forall o | o in c.Repr() && o !in old(c.Repr()) :: fresh(o)
      ensures forall n | n in nodes && n != c :: n.Layout() == old(n.Layout())
      ensures Now() == WithContent(old(Now()), c, Dict(Set(old(Now())[c].content.members, name, v)))
    {
      OwnTable(c);
      hide Node.Content, Node.Repr, ObjectTable.Repr, ObjectTable.Members, Set;
      c.table.SetEntry(name, v);
      SoundTable(c);
      OnlyContentChanged(c);
    }

    static lemma SoundTable(c: Node)
      requires c.table != null && c.list == null && c.table.Valid()
      ensures c.Sound() && c.Repr() == c.table.Repr() && c.Content() == Dict(c.table.Members())
    {
    }

    method AddMember(c: Node, name: CString, v: Node) returns (ok: bool)
      requires Apart() && c in nodes && c.table != null && Now()[c].content.Dict?
      modifies c.Repr()
      ensures Apart() && nodes == old(nodes) && forall o | o in c.Repr() && o !in old(c.Repr()) :: fresh(o)
      ensures forall n | n in nodes && n != c :: n.Layout() == old(n.Layout())
      ensures ok <==> !Has(old(Now())[c].content.members, name)
      ensures Now() == WithContent(old(Now()), c, Dict(Appended(old(Now())[c].content.members, name, v, ok)))
    {
      OwnTable(c);
      hide Node.Content, Node.Repr, ObjectTable.Repr, ObjectTable.Members;
      ok := AddToTable(c.table, name, v);
      SoundTable(c);
      OnlyContentChanged(c);
    }

    static method AddToTable(t: ObjectTable<Node>, name: CString, v: Node) returns (ok: bool)
      requires t.Valid()
      modifies t.Repr()
      ensures t.Valid() && fresh(t.Repr() - old(t.Repr()))
      ensures ok <==> !Has(old(t.Members()), name)
      ensures t.Members() == Appended(old(t.Members()), name, v, ok)
    {
      hide ObjectTable.Members, ObjectTable.Repr, Find, Distinct;
      ok := t.AddEntry(name, v);
    }

    method TrimTable(c: Node) returns (ok: bool)
      requires Apart() && c in nodes && c.table != null && Now()[c].content.Dict?
      modifies c.Repr()
      ensures Apart() && nodes == old(nodes) && forall o | o in c.Repr() && o !in old(c.Repr()) :: fresh(o)
      ensures forall n | n in nodes && n != c :: n.Layout() == old(n.Layout())
      ensures ok <==> old(Now())[c].content.members != []
      ensures ok ==> c.Trimmed()
      ensures Now() == WithContent(old(Now()), c, old(Now())[c].content)
    {
      OwnTable(c);
      hide Node.Content, Node.Repr, ObjectTable.Repr, ObjectTable.Members;
      ok := FitTable(c.table, c);
      SoundTable(c);
      OnlyContentChanged(c);
    }

    static method FitTable(t: ObjectTable<Node>, filler: Node) returns (ok: bool)
      requires t.Valid()
      modifies t.Repr()
      ensures t.Valid() && fresh(t.Repr() - old(t.Repr()))
      ensures t.Members() == old(t.Members())
      ensures ok <==> old(t.Members()) != []
      ensures ok ==> t.capacity == t.count
    {
      hide Distinct;
      ok := t.Resize(t.count, filler);
    }

    method TrimList(c: Node) returns (ok: bool)
      requires Apart() && c in nodes && c.list != null && Now()[c].content.List?
      modifies c.Repr()
      ensures Apart() && nodes == old(nodes) && forall o | o in c.Repr() && o !in old(c.Repr()) :: fresh(o)
      ensures forall n | n in nodes && n != c :: n.Layout() == old(n.Layout())
      ensures ok <==> old(Now())[c].content.items != []
      ensures ok ==> c.Trimmed()
      ensures Now() == WithContent(old(Now()), c, old(Now())[c].content)
    {
      OwnList(c);
      hide Node.Content, Node.Repr, ArrayTable.Repr, ArrayTable.Items;
      ok := FitList(c.list, c);
      SoundList(c);
      OnlyContentChanged(c);
    }

    static method FitList(t: ArrayTable<Node>, filler: Node) returns (ok: bool)
      requires t.Valid()
      modifies t.Repr()
      ensures t.Valid() && fresh(t.Repr() - old(t.Repr()))
      ensures t.Items() == old(t.Items())
      ensures ok <==> old(t.Items()) != []
      ensures ok ==> t.capacity == t.count
    {
      ok := t.Resize(t.count, filler);
    }

    method DropMember(c: Node, name: CString)
      requires Apart() && c in nodes && c.table != null
      requires Now()[c].content.Dict? && Has(Now()[c].content.members, name)
      modifies c.Repr()
      ensures Apart() && nodes == old(nodes) && forall o | o in c.Repr() && o !in old(c.Repr()) :: fresh(o)
      ensures forall n | n in nodes && n != c :: n.Layout() == old(n.Layout())
      ensures Now() == WithContent(old(Now()), c, Dict(Remove(old(Now())[c].content.members, name)))
    {
      OwnTable(c);
      TableParts(c.table);
      hide Node.Content, Node.Repr, ObjectTable.Members, Remove;
      var removed := c.table.RemoveEntry(name);
      SoundTable(c);
      OnlyContentChanged(c);
    }

    method ClearMembers(c: Node)
      requires Apart() && c in nodes && c.table != null
      modifies c.Repr()
      ensures Apart() && nodes == old(nodes) && forall o | o in c.Repr() && o !in old(c.Repr()) :: fresh(o)
      ensures forall n | n in nodes && n != c :: n.Layout() == old(n.Layout())
      ensures Now() == WithContent(old(Now()), c, Dict([]))
    {
      OwnTable(c);
      TableParts(c.table);
      hide Node.Content, Node.Repr, ObjectTable.Members;
      c.table.Clear();
      SoundTable(c);
      OnlyContentChanged(c);
    }

    static lemma TableParts(t: ObjectTable<Node>)
      ensures t in t.Repr() && (t.names != null ==> t.names in t.Repr()) && (t.values != null ==> t.values in t.Repr())
    {
    }

    lemma OwnList(c: Node)
      requires Apart() && c in nodes && c.list != null
      ensures c.Sound() && c.list.Valid() && c.Repr() == c.list.Repr()
      ensures c.Content() == List(c.list.Items())
      ensures Now()[c].content == List(c.list.Items())
      ensures this !in c.Repr() && forall n | n in nodes :: n !in c.Repr()
      ensures c.list in c.Repr() && (c.list.items != null ==> c.list.items in c.Repr())
    {
    }

    static lemma SoundList(c: Node)
      requires c.list != null && c.table == null && c.list.Valid()
      ensures c.Sound() && c.Repr() == c.list.Repr() && c.Content() == List(c.list.Items())
    {
    }

    method PushItem(c: Node, v: Node)
      requires Apart() && c in nodes && c.list != null && Now()[c].content.List?
      modifies c.Repr()
      ensures Apart() && nodes == old(nodes) && forall o | o in c.Repr() && o !in old(c.Repr()) :: fresh(o)
      ensures forall n | n in nodes && n != c :: n.Layout() == old(n.Layout())
      ensures Now() == WithContent(old(Now()), c, List(old(Now())[c].content.items + [v]))
    {
      OwnList(c);
      hide Node.Content, Node.Repr, ArrayTable.Repr, ArrayTable.Items;
      c.list.AddItem(v);
      SoundList(c);
      OnlyContentChanged(c);
    }

    static method DropFromList(l: ArrayTable<Node>, ix: nat)
      requires l.Valid() && ix < |l.Items()|
      modifies l.Repr()
      ensures l.Valid() && fresh(l.Repr() - old(l.Repr()))
      ensures l.Items() == Without(old(l.Items()), ix)
    {
      var removed := l.RemoveItem(ix);
    }

    method DropItem(c: Node, ix: nat)
      requires Apart() && c in nodes && c.list != null
      requires Now()[c].content.List? && ix < |Now()[c].content.items|
      modifies c.Repr()
      ensures Apart() && nodes == old(nodes) && forall o | o in c.Repr() && o !in old(c.Repr()) :: fresh(o)
      ensures forall n | n in nodes && n != c :: n.Layout() == old(n.Layout())
      ensures Now() == WithContent(old(Now()), c, List(Without(old(Now())[c].content.items, ix)))
    {
      OwnList(c);
      hide Node.Content, Node.Repr, ArrayTable.Items, ArrayTable.Repr, Without;
      DropFromList(c.list, ix);
      SoundList(c);
      OnlyContentChanged(c);
    }

    method StoreItem(c: Node, ix: nat, v: Node)
      requires Apart() && c in nodes && c.list != null
      requires Now()[c].content.List? && ix < |Now()[c].content.items|
      modifies c.Repr()
      ensures Apart() && nodes == old(nodes) && forall o | o in c.Repr() && o !in old(c.Repr()) :: fresh(o)
      ensures forall n | n in nodes && n != c :: n.Layout() == old(n.Layout())
      ensures Now() == WithContent(old(Now()), c, List(old(Now())[c].content.items[ix := v]))
    {
      OwnList(c);
      hide Node.Content, Node.Repr, ArrayTable.Items;
      var replaced := c.list.ReplaceItem(ix, v);
      SoundList(c);
      OnlyContentChanged(c);
    }

    method ClearItems(c: Node)
      requires Apart() && c in nodes && c.list != null
      modifies c.Repr()
      ensures Apart() && nodes == old(nodes) && forall o | o in c.Repr() && o !in old(c.Repr()) :: fresh(o)
      ensures forall n | n in nodes && n != c :: n.Layout() == old(n.Layout())
      ensures Now() == WithContent(old(Now()), c, List([]))
    {
      OwnList(c);
      hide Node.Content, Node.Repr, ArrayTable.Items;
      c.list.Clear();
      SoundList(c);
      OnlyContentChanged(c);
    }

    // ---- The public functions ----

    lemma LiveKeys()
      requires Apart()
      ensures Now().Keys == nodes
    {
    }

    lemma LiveNode(n: Node)
      requires Apart() && n in nodes
      ensures Now()[n] == Cell(n.parent, n.Content(), n.above)
    {
    }

    lemma ReprIsOurs(n: Node)
      requires n in nodes
      ensures n.Repr() <= Reprs()
    {
    }

    lemma LiveKind(n: Node)
      requires Apart() && n in nodes
      ensures n.table != null <==> Now()[n].content.Dict?
      ensures n.list != null <==> Now()[n].content.List?
      ensures Now()[n].content.Scalar? ==> Now()[n].content.v == n.scalar
    {
    }

    lemma LiveObject(c: Node)
      requires Apart() && c in nodes
      ensures c.table != null ==> Now()[c].content == Dict(c.table.Members()) && c.table.Valid()
      ensures c.list != null ==> Now()[c].content == List(c.list.Items()) && c.list.Valid()
    {
    }

    // Looking a name up in an object.
    method Held(c: Node, name: CString) returns (r: Option<Node>)
      requires Apart() && c in nodes && c.table != null && Now()[c].content.Dict?
      ensures Apart() && Now() == old(Now()) && c.Layout() == old(c.Layout()) && Reprs() == old(Reprs())
      ensures forall n | n in nodes :: n.Layout() == old(n.Layout())
      ensures r == Lookup(Now()[c].content.members, name)
    {
      LiveObject(c);
      hide Node.Sound, Node.Content, Node.Repr, Apart, Now, Reprs, ObjectTable.Members;
      r := c.table.GetValue(name, |name|);
      assert name[..|name|] == name;
      NothingChanged();
    }

    // The end of json_object_set_value and of json_object_add: parent and slot.
    method PutMember(c: Node, name: CString, v: Node)
      requires Apart() && c in nodes && v in nodes && c.table != null && Now()[c].content.Dict?
      modifies v`parent, nodes`above, c.Repr()
      ensures Apart() && nodes == old(nodes) && forall o | o in c.Repr() && o !in old(c.Repr()) :: fresh(o)
      ensures forall n | n in nodes && n != c :: n.Layout() == old(n.Layout())
      ensures Now() == Linked(old(Now()), c, Dict(Set(old(Now())[c].content.members, name, v)), v)
    {
      hide Node.Repr, Set, Apart, Now, Linked;
      ghost var h := Now();
      LiveKeys();
      LinkThenStore(h, c, Dict(Set(h[c].content.members, name, v)), v);
      Hang(c, v);
      LiveKeys();
      label Hung:
      StoreMember(c, name, v);
      forall n | n in nodes && n != c
        ensures n.Layout() == old(n.Layout())
      {
        assert n.Layout() == old@Hung(n.Layout());
      }
    }

    /** json_object_set_value: frees what the name held, hangs the value under the object, stores it. */
    method SetValue(c: Node, name: CString, v: Node) returns (ok: bool)
      requires Valid() && c in nodes && v in nodes && c.table != null && Now()[c].content.Dict?
      requires v.parent == null ==> MayHold(Now(), c, v)
      modifies this, nodes, c.Repr()
      ensures Valid() && Now() == SetIn(old(Now()), c, name, v).heap
      ensures ok == SetIn(old(Now()), c, name, v).ok
      ensures forall o | o in Reprs() && o !in old(Reprs()) :: fresh(o)
    {
      hide Node.Repr, IsForest, Find, Set, Apart, Now, Linked, Unlinked, Reprs;
      ghost var h := Now();
      LiveKeys();
      LiveNode(v);
      if v.parent != null {
        return false;
      }
      var present := Held(c, name);
      if present.Some? {
        OverwriteSteps(h, c, name, v);
        Forget(c, {present.value});
        LiveKeys();
      } else {
        AddSteps(h, c, name, v);
      }
      PutMember(c, name, v);
      ReprsGrow(c);
      ok := true;
    }

    /** json_object_add: a name that is there is refused. */
    method AddValue(c: Node, name: CString, v: Node) returns (ok: bool)
      requires Valid() && c in nodes && v in nodes && c.table != null && Now()[c].content.Dict?
      requires MayHold(Now(), c, v)
      modifies v`parent, nodes`above, c.Repr()
      ensures Valid() && nodes == old(nodes) && Now() == AddIn(old(Now()), c, name, v).heap
      ensures ok == AddIn(old(Now()), c, name, v).ok
      ensures forall n | n in nodes && n != c :: n.Layout() == old(n.Layout())
      ensures forall o | o in c.Repr() && o !in old(c.Repr()) :: fresh(o)
      ensures forall o | o in Reprs() && o !in old(Reprs()) :: fresh(o)
    {
      hide Node.Repr, IsForest, Find, Set, Apart, Now, Linked, Unlinked, Reprs;
      ghost var h := Now();
      LiveKeys();
      assert IsForest(AddIn(h, c, name, v).heap);
      SameContent(h, c);
      ok := AddMember(c, name, v);
      if ok {
        StoreThenLink(h, c, Dict(h[c].content.members + [Entry(name, v)]), v);
        LiveKeys();
        Hang(c, v);
      }
      ReprsGrow(c);
    }

    /** json_object_remove */
    method RemoveValue(c: Node, name: CString) returns (ok: bool)
      requires Valid() && c in nodes && c.table != null && Now()[c].content.Dict?
      modifies this, c.Repr()
      ensures Valid() && Now() == RemoveIn(old(Now()), c, name).heap
      ensures ok == RemoveIn(old(Now()), c, name).ok
    {
      hide Node.Repr, IsForest, Find, Remove, Apart, Now, Linked, Unlinked;
      ghost var h := Now();
      LiveKeys();
      var present := Held(c, name);
      if present.None? {
        return false;
      }
      RemoveSteps(h, c, name);
      Forget(c, {present.value});
      LiveKeys();
      DropMember(c, name);
      ok := true;
    }

    /** json_object_clear */
    method ClearObject(c: Node)
      requires Valid() && c in nodes && c.table != null && Now()[c].content.Dict?
      modifies this, c.Repr()
      ensures Valid() && Now() == ClearIn(old(Now()), c)
    {
      hide Node.Repr, IsForest, Apart, Now, Linked, Unlinked;
      ghost var h := Now();
      LiveKeys();
      ClearSteps(h, c);
      Forget(c, set k | k in Kids(h[c].content));
      LiveKeys();
      ClearMembers(c);
    }

    // json_array_add: parent and slot.
    method PutItem(c: Node, v: Node)
      requires Apart() && c in nodes && v in nodes && c.list != null && Now()[c].content.List?
      modifies v`parent, nodes`above, c.Repr()
      ensures Apart() && nodes == old(nodes) && forall o | o in c.Repr() && o !in old(c.Repr()) :: fresh(o)
      ensures forall n | n in nodes && n != c :: n.Layout() == old(n.Layout())
      ensures Now() == Linked(old(Now()), c, List(old(Now())[c].content.items + [v]), v)
    {
      hide Node.Repr, Apart, Now, Linked;
      ghost var h := Now();
      LiveKeys();
      LinkThenStore(h, c, List(h[c].content.items + [v]), v);
      Hang(c, v);
      LiveKeys();
      label Hung:
      PushItem(c, v);
      forall n | n in nodes && n != c
        ensures n.Layout() == old(n.Layout())
      {
        assert n.Layout() == old@Hung(n.Layout());
      }
    }

    /** json_array_add */
    method AddItem(c: Node, v: Node)
      requires Valid() && c in nodes && v in nodes && c.list != null && Now()[c].content.List?
      requires MayHold(Now(), c, v)
      modifies v`parent, nodes`above, c.Repr()
      ensures Valid() && nodes == old(nodes) && Now() == AppendIn(old(Now()), c, v).heap
      ensures forall n | n in nodes && n != c :: n.Layout() == old(n.Layout())
      ensures forall o | o in c.Repr() && o !in old(c.Repr()) :: fresh(o)
      ensures forall o | o in Reprs() && o !in old(Reprs()) :: fresh(o)
    {
      hide Node.Repr, IsForest, Apart, Now, Linked, Reprs;
      assert IsForest(AppendIn(Now(), c, v).heap);
      PutItem(c, v);
      ReprsGrow(c);
    }

    /** json_array_append_value */
    method AppendValue(c: Node, v: Node) returns (ok: bool)
      requires Valid() && c in nodes && v in nodes && c.list != null && Now()[c].content.List?
      requires v.parent == null ==> MayHold(Now(), c, v)
      modifies v`parent, nodes`above, c.Repr()
      ensures Valid() && nodes == old(nodes) && Now() == AppendIn(old(Now()), c, v).heap
      ensures ok == AppendIn(old(Now()), c, v).ok
      ensures forall o | o in Reprs() && o !in old(Reprs()) :: fresh(o)
    {
      hide Node.Repr, IsForest, Apart, Now, Linked, Reprs;
      LiveKeys();
      LiveNode(v);
      if v.parent != null {
        return false;
      }
      AddItem(c, v);
      ok := true;
    }

    /** json_array_resize to the count, as the parser does in the end. */
    method TrimItems(c: Node) returns (ok: bool)
      requires Valid() && c in nodes && c.list != null && Now()[c].content.List?
      modifies c.Repr()
      ensures Valid() && nodes == old(nodes) && Now() == old(Now())
      ensures ok <==> Now()[c].content.items != []
      ensures ok ==> c.Trimmed()
      ensures forall n | n in nodes && n != c :: n.Layout() == old(n.Layout())
      ensures forall o | o in Reprs() && o !in old(Reprs()) :: fresh(o)
    {
      hide Node.Content, Node.Repr, Apart, Now, Reprs, IsForest;
      ghost var h := Now();
      LiveKeys();
      SameContent(h, c);
      ok := TrimList(c);
      ReprsGrow(c);
    }

    /** json_object_resize to the count */
    method TrimMembers(c: Node) returns (ok: bool)
      requires Valid() && c in nodes && c.table != null && Now()[c].content.Dict?
      modifies c.Repr()
      ensures Valid() && nodes == old(nodes) && Now() == old(Now())
      ensures ok <==> Now()[c].content.members != []
      ensures ok ==> c.Trimmed()
      ensures forall n | n in nodes && n != c :: n.Layout() == old(n.Layout())
      ensures forall o | o in Reprs() && o !in old(Reprs()) :: fresh(o)
    {
      hide Node.Content, Node.Repr, Apart, Now, Reprs, IsForest;
      ghost var h := Now();
      LiveKeys();
      SameContent(h, c);
      ok := TrimTable(c);
      ReprsGrow(c);
    }

    // json_object_get_name, until the names run out.
    method NameAt(c: Node, ix: nat) returns (r: Option<CString>)
      requires Apart() && c in nodes && c.table != null && Now()[c].content.Dict?
      ensures Apart() && Now() == old(Now()) && c.Layout() == old(c.Layout()) && Reprs() == old(Reprs())
      ensures forall n | n in nodes :: n.Layout() == old(n.Layout())
      ensures r == if ix < |Now()[c].content.members| then Some(Now()[c].content.members[ix].name) else None
    {
      LiveObject(c);
      NothingChanged();
      r := if ix < c.table.count then Some(c.table.names[ix]) else None;
    }

    // json_array_get_value, until the items run out.
    method ItemAt(c: Node, ix: nat) returns (r: Option<Node>)
      requires Apart() && c in nodes && c.list != null && Now()[c].content.List?
      ensures Apart() && Now() == old(Now()) && c.Layout() == old(c.Layout()) && Reprs() == old(Reprs())
      ensures forall n | n in nodes :: n.Layout() == old(n.Layout())
      ensures r == if ix < |Now()[c].content.items| then Some(Now()[c].content.items[ix]) else None
    {
      LiveObject(c);
      NothingChanged();
      r := if ix < c.list.count then Some(c.list.items[ix]) else None;
    }

    /** json_array_remove */
    method RemoveAt(c: Node, ix: nat) returns (ok: bool)
      requires Valid() && c in nodes && c.list != null && Now()[c].content.List?
      modifies this, c.Repr()
      ensures Valid() && Now() == RemoveItemIn(old(Now()), c, ix).heap
      ensures ok == RemoveItemIn(old(Now()), c, ix).ok
    {
      hide Node.Repr, IsForest, Apart, Now, Linked, Unlinked, Without;
      ghost var h := Now();
      LiveKeys();
      var item := ItemAt(c, ix);
      if item.None? {
        return false;
      }
      RemoveItemSteps(h, c, ix);
      Forget(c, {item.value});
      LiveKeys();
      DropItem(c, ix);
      ok := true;
    }

    /** json_array_replace_value */
    method ReplaceAt(c: Node, ix: nat, v: Node) returns (ok: bool)
      requires Valid() && c in nodes && v in nodes && c.list != null && Now()[c].content.List?
      requires v.parent == null ==> MayHold(Now(), c, v)
      modifies this, nodes, c.Repr()
      ensures Valid() && Now() == ReplaceIn(old(Now()), c, ix, v).heap
      ensures ok == ReplaceIn(old(Now()), c, ix, v).ok
    {
      hide Node.Repr, IsForest, Apart, Now, Linked, Unlinked, Without;
      ghost var h := Now();
      LiveKeys();
      LiveNode(v);
      if v.parent != null {
        return false;
      }
      var item := ItemAt(c, ix);
      if item.None? {
        return false;
      }
      ReplaceSteps(h, c, ix, v);
      Forget(c, {item.value});
      LiveKeys();
      ghost var h1 := Now();
      LinkThenStore(h1, c, List(h[c].content.items[ix := v]), v);
      Hang(c, v);
      LiveKeys();
      StoreItem(c, ix, v);
      ok := true;
    }

    /** json_array_clear */
    method ClearArray(c: Node)
      requires Valid() && c in nodes && c.list != null && Now()[c].content.List?
      modifies this, c.Repr()
      ensures Valid() && Now() == ClearIn(old(Now()), c)
    {
      hide Node.Repr, IsForest, Apart, Now, Linked, Unlinked;
      ghost var h := Now();
      LiveKeys();
      ClearSteps(h, c);
      Forget(c, set k | k in Kids(h[c].content));
      LiveKeys();
      ClearItems(c);
    }

    // ---- Making and freeing values ----

    // A new node with a table of its own, or none, joins.
    ghost method Adopt(n: Node)
      requires Apart() && n !in nodes && n.Sound() && n.parent == null && n.above == {}
      requires forall m | m in nodes :: m.Repr() !! n.Repr()
      modifies this
      ensures nodes == old(nodes) + {n} && Apart()
      ensures forall m | m in old(nodes) :: m.Layout() == old(m.Layout())
      ensures Now() == old(Now())[n := Cell(null, n.Content(), {})]
      ensures n.Layout() == old(n.Layout()) && n.Content() == old(n.Content())
      ensures Reprs() == old(Reprs()) + n.Repr()
    {
      TablesOnly();
      forall o | o in n.Repr()
        ensures !(o is Live)
      {
        TableOnly(n, o);
      }
      hide Node.Sound, Node.Content, Node.Repr;
      nodes := nodes + {n};
      NodeStays(n);
      forall m | m in old(nodes)
        ensures m.Sound() && m.Layout() == old(m.Layout()) && m.Content() == old(m.Content())
      {
        assert forall o | o in old(m.Repr()) :: o in old(Reprs());
        NodeStays(m);
      }
    }

    /** json_value_init_null, _boolean, _fixed, _string */
    method MakeScalar(v: Json) returns (n: Node)
      requires Valid() && !v.Array? && !v.Object?
      modifies this
      ensures Valid() && fresh(n) && n in nodes && n.table == null && n.list == null && n.Trimmed()
      ensures Now() == NewIn(old(Now()), n, Scalar(v))
      ensures nodes == old(nodes) + {n} && forall m | m in old(nodes) :: m.Layout() == old(m.Layout())
      ensures forall o | o in Reprs() && o !in old(Reprs()) :: fresh(o)
    {
      n := new Node(v);
      NothingChanged();
      hide Node.Repr, Apart, Now, Reprs, IsForest;
      LiveKeys();
      Adopt(n);
      NewNodeIsForest(old(Now()), n, Scalar(v));
    }

    /** json_value_init_object */
    method MakeObject() returns (n: Node)
      requires Valid()
      modifies this
      ensures Valid() && fresh(n) && n in nodes && n.table != null && n.list == null && n.Trimmed()
      ensures Now() == NewIn(old(Now()), n, Dict([]))
      ensures nodes == old(nodes) + {n} && forall o | o in n.Repr() :: fresh(o)
      ensures forall m | m in old(nodes) :: m.Layout() == old(m.Layout())
      ensures forall o | o in Reprs() && o !in old(Reprs()) :: fresh(o)
    {
      n := new Node.Object();
      NothingChanged();
      ReprsAreOld();
      hide Node.Repr, Node.Content, Node.Sound, Apart, Now, Reprs, IsForest;
      LiveKeys();
      Adopt(n);
      NewNodeIsForest(old(Now()), n, Dict([]));
    }

    /** json_value_init_array */
    method MakeArray() returns (n: Node)
      requires Valid()
      modifies this
      ensures Valid() && fresh(n) && n in nodes && n.table == null && n.list != null && n.Trimmed()
      ensures Now() == NewIn(old(Now()), n, List([]))
      ensures nodes == old(nodes) + {n} && forall o | o in n.Repr() :: fresh(o)
      ensures forall m | m in old(nodes) :: m.Layout() == old(m.Layout())
      ensures forall o | o in Reprs() && o !in old(Reprs()) :: fresh(o)
    {
      n := new Node.Array();
      NothingChanged();
      ReprsAreOld();
      hide Node.Repr, Node.Content, Node.Sound, Apart, Now, Reprs, IsForest;
      LiveKeys();
      Adopt(n);
      NewNodeIsForest(old(Now()), n, List([]));
    }

    // A table made just now belongs to no node.
    twostate lemma ReprsAreOld()
      requires old(Apart()) && nodes == old(nodes) && forall n | n in nodes :: n.Layout() == old(n.Layout())
      ensures forall m, o | m in nodes && o in m.Repr() :: !fresh(o)
    {
    }

    // json_value_free of a value in no container
    ghost method FreeValue(v: Node)
      requires Valid() && v in nodes && Now()[v].parent == null
      modifies this
      ensures Valid() && Now() == FreeIn(old(Now()), v)
      ensures nodes <= old(nodes) && Reprs() <= old(Reprs())
      ensures forall n | n in old(nodes) :: n.Layout() == old(n.Layout())
    {
      hide Node.Sound, Node.Content, Node.Repr, IsForest;
      assert IsForest(FreeIn(Now(), v));
      TablesOnly();
      nodes := set n | n in nodes && n != v && v !in n.above;
      AllStay();
      assert Now() == FreeIn(old(Now()), v);
    }
  }

  lemma NewNodeIsForest(h: Heap, n: Node, content: Content)
    requires IsForest(h) && n !in h && Kids(content) == [] && Tidy(content)
    ensures IsForest(h[n := Cell(null, content, {})])
    ensures h[n := Cell(null, content, {})] == NewIn(h, n, content)
  {
    var h' := NewIn(h, n, content);
  }

  lemma OverwriteSteps(h: Heap, c: Node, name: CString, v: Node)
    requires IsForest(h) && MayHold(h, c, v) && h[c].content.Dict? && Has(h[c].content.members, name)
    ensures var members := h[c].content.members;
            var h1 := Unlinked(h, c, h[c].content, {members[Find(members, name)].value});
            && c in h1 && v in h1 && h1[c].content == h[c].content
            && Linked(h1, c, Dict(Set(members, name, v)), v) == SetIn(h, c, name, v).heap
            && SetIn(h, c, name, v).ok
  {
    var members := h[c].content.members;
    var dropped := {members[Find(members, name)].value};
    assert members[Find(members, name)].value == Kids(h[c].content)[Find(members, name)];
    RootIsNoKid(h, c, v);
    assert ParentKnows(h, v);
    ContainerStays(h, c, dropped);
    UnlinkLinkStore(h, c, Dict(Without(members, Find(members, name))), dropped, Dict(Set(members, name, v)), v);
  }

  lemma AddSteps(h: Heap, c: Node, name: CString, v: Node)
    requires IsForest(h) && MayHold(h, c, v) && h[c].content.Dict? && !Has(h[c].content.members, name)
    ensures Linked(h, c, Dict(Set(h[c].content.members, name, v)), v) == SetIn(h, c, name, v).heap
    ensures SetIn(h, c, name, v).ok
  {
  }

  ghost function WithContent(h: Heap, c: Node, content: Content): Heap
    requires c in h
  {
    h[c := h[c].(content := content)]
  }

  function Appended(members: seq<Entry<Node>>, name: CString, v: Node, ok: bool): seq<Entry<Node>> {
    if ok then members + [Entry(name, v)] else members
  }

  lemma SameContent(h: Heap, c: Node)
    requires c in h
    ensures WithContent(h, c, h[c].content) == h
  {
  }

  lemma LinkThenStore(h: Heap, c: Node, content: Content, v: Node)
    requires c in h
    ensures Linked(h, c, h[c].content, v).Keys == h.Keys && Linked(h, c, h[c].content, v)[c].content == h[c].content
    ensures WithContent(Linked(h, c, h[c].content, v), c, content) == Linked(h, c, content, v)
  {
  }

  lemma StoreThenLink(h: Heap, c: Node, content: Content, v: Node)
    requires c in h
    ensures var h1 := WithContent(h, c, content);
            h1.Keys == h.Keys && Linked(h1, c, h1[c].content, v) == Linked(h, c, content, v)
  {
  }

  lemma UnlinkLinkStore(h: Heap, c: Node, any: Content, dropped: set<Node>, content: Content, v: Node)
    requires c in h && c !in dropped && h[c].above !! dropped
    ensures var h1, h2 := Unlinked(h, c, h[c].content, dropped), Unlinked(h, c, any, dropped);
            Linked(h1, c, content, v) == Linked(h2, c, content, v)
  {
    var h1, h2 := Unlinked(h, c, h[c].content, dropped), Unlinked(h, c, any, dropped);
    assert h1.Keys == h2.Keys;
    assert Linked(h1, c, content, v).Keys == Linked(h2, c, content, v).Keys;
  }

  lemma UnlinkThenStore(h: Heap, c: Node, dropped: set<Node>, content: Content)
    requires c in h && c !in dropped && h[c].above !! dropped
    ensures WithContent(Unlinked(h, c, h[c].content, dropped), c, content) == Unlinked(h, c, content, dropped)
  {
  }

  lemma RemoveSteps(h: Heap, c: Node, name: CString)
    requires IsForest(h) && c in h && h[c].content.Dict? && Has(h[c].content.members, name)
    ensures var members := h[c].content.members;
            var h1 := Unlinked(h, c, h[c].content, {members[Find(members, name)].value});
            && c in h1 && h1[c].content == h[c].content
            && WithContent(h1, c, Dict(Remove(members, name))) == RemoveIn(h, c, name).heap
            && RemoveIn(h, c, name).ok
  {
    var members := h[c].content.members;
    var dropped := {members[Find(members, name)].value};
    assert members[Find(members, name)].value == Kids(h[c].content)[Find(members, name)];
    ContainerStays(h, c, dropped);
    UnlinkThenStore(h, c, dropped, Dict(Remove(members, name)));
  }

  lemma ClearSteps(h: Heap, c: Node)
    requires IsForest(h) && c in h && !h[c].content.Scalar?
    ensures var h1 := Unlinked(h, c, h[c].content, set k | k in Kids(h[c].content));
            && c in h1 && h1[c].content == h[c].content
            && WithContent(h1, c, if h[c].content.Dict? then Dict([]) else List([])) == ClearIn(h, c)
  {
    var dropped := set k | k in Kids(h[c].content);
    ContainerStays(h, c, dropped);
    UnlinkThenStore(h, c, dropped, if h[c].content.Dict? then Dict([]) else List([]));
  }

  lemma RemoveItemSteps(h: Heap, c: Node, ix: nat)
    requires IsForest(h) && c in h && h[c].content.List? && ix < |h[c].content.items|
    ensures var items := h[c].content.items;
            var h1 := Unlinked(h, c, h[c].content, {items[ix]});
            && c in h1 && h1[c].content == h[c].content
            && WithContent(h1, c, List(Without(items, ix))) == RemoveItemIn(h, c, ix).heap
            && RemoveItemIn(h, c, ix).ok
  {
    var items := h[c].content.items;
    ContainerStays(h, c, {items[ix]});
    UnlinkThenStore(h, c, {items[ix]}, List(Without(items, ix)));
  }

  lemma ReplaceSteps(h: Heap, c: Node, ix: nat, v: Node)
    requires IsForest(h) && MayHold(h, c, v) && h[c].content.List? && ix < |h[c].content.items|
    ensures var items := h[c].content.items;
            var h1 := Unlinked(h, c, h[c].content, {items[ix]});
            && c in h1 && v in h1 && h1[c].content == h[c].content
            && Linked(h1, c, List(items[ix := v]), v) == ReplaceIn(h, c, ix, v).heap
            && ReplaceIn(h, c, ix, v).ok
  {
    var items := h[c].content.items;
    RootIsNoKid(h, c, v);
    assert ParentKnows(h, v);
    ContainerStays(h, c, {items[ix]});
    UnlinkLinkStore(h, c, List(Without(items, ix)), {items[ix]}, List(items[ix := v]), v);
  }
}
