/** The values of mrbgems/json-with-casing/src/parson.c in memory: nodes with parent pointers that
    are added to, taken out of and replaced in objects and arrays. An operation is a function on the
    map from live nodes to their fields. */
module Forest {
  import opened Bytes
  import opened Entries
  import opened JsonTree
  import opened Tables

  // What a node holds, and the entries or items of its table if it is a container.
  datatype Content = Scalar(v: Json) | List(items: seq<Node>) | Dict(members: seq<Entry<Node>>)

  // json_value_t, with the json_object_t or json_array_t it wraps.
  class Node {
    var parent: Node?
    const scalar: Json
    const table: ObjectTable?<Node>
    const list: ArrayTable?<Node>
    ghost var above: set<Node>   // all ancestors

    // The table itself, and the table with its arrays.
    ghost function Head(): set<object> {
      (if table == null then {} else {table}) + (if list == null then {} else {list})
    }

    ghost function Repr(): (r: set<object>)
      reads Head()
      ensures Head() <= r
    {
      (if table == null then {} else table.Repr()) + (if list == null then {} else list.Repr())
    }

    // The table takes no more room than its entries.
    ghost predicate Trimmed()
      reads Head()
    {
      && (table != null ==> table.capacity == table.count)
      && (list != null ==> list.capacity == list.count)
    }

    // What the other functions on values leave alone.
    ghost function Layout(): (l: (set<object>, bool))
      reads Head()
      ensures l.0 == Repr()
    {
      (Repr(), Trimmed())
    }

    ghost predicate Sound()
      reads Head(), Repr()
    {
      && (table == null || list == null)
      && (table != null ==> table.Valid())
      && (list != null ==> list.Valid())
    }

    ghost function Content(): Content
      requires Sound()
      reads Head(), Repr()
    {
      if table != null then Dict(table.Members())
      else if list != null then List(list.Items())
      else Scalar(scalar)
    }

    // json_value_init_null, _boolean, _fixed, _string
    constructor (v: Json)
      ensures parent == null && above == {} && table == null && list == null && scalar == v
    {
      parent, scalar, table, list, above := null, v, null, null, {};
    }

    // json_value_init_object
    constructor Object()
      ensures parent == null && above == {} && table != null && list == null
      ensures Sound() && Content() == Dict([]) && fresh(Repr()) && Trimmed()
    {
      var t := new ObjectTable<Node>();
      parent, scalar, table, list, above := null, Null, t, null, {};
    }

    // json_value_init_array
    constructor Array()
      ensures parent == null && above == {} && table == null && list != null
      ensures Sound() && Content() == List([]) && fresh(Repr()) && Trimmed()
    {
      var l := new ArrayTable<Node>();
      parent, scalar, table, list, above := null, Null, null, l, {};
    }
  }

  // The fields of a node at one moment, and those of all live nodes.
  datatype Cell = Cell(parent: Node?, content: Content, above: set<Node>)

  type Heap = map<Node, Cell>

  function Kids(c: Content): (kids: seq<Node>)
    ensures c.List? ==> kids == c.items
    ensures c.Dict? ==> |kids| == |c.members| && forall i | 0 <= i < |kids| :: kids[i] == c.members[i].value
    ensures c.Scalar? ==> kids == []
  {
    match c
    case Scalar(_) => []
    case List(items) => items
    case Dict(members) => seq(|members|, i requires 0 <= i < |members| => members[i].value)
  }

  ghost predicate NoRepeats(kids: seq<Node>) {
    forall i, j | 0 <= i < j < |kids| :: kids[i] != kids[j]
  }

  // A container lists no child twice and, if an object, no name twice.
  ghost predicate Tidy(c: Content) {
    && NoRepeats(Kids(c))
    && (c.Dict? ==> Distinct(c.members))
    && (c.Scalar? ==> !c.v.Array? && !c.v.Object?)
  }

  ghost predicate KidsBelong(h: Heap, n: Node)
    requires n in h
  {
    forall k | k in Kids(h[n].content) :: k in h && h[k].parent == n
  }

  ghost predicate ParentKnows(h: Heap, n: Node)
    requires n in h
  {
    var p := h[n].parent;
    if p == null then h[n].above == {}
    else p in h && n in Kids(h[p].content) && h[n].above == h[p].above + {p}
  }

  /** The nodes are a forest: children point back to the one container that lists them, and no
      node is its own ancestor. */
  ghost predicate IsForest(h: Heap) {
    forall n | n in h ::
      Tidy(h[n].content) && KidsBelong(h, n) && ParentKnows(h, n) && n !in h[n].above
  }

  lemma {:induction false} AboveIsClosed(h: Heap, n: Node, a: Node)
    requires IsForest(h) && n in h && a in h[n].above
    ensures a in h && h[a].above <= h[n].above
    decreases h[n].above
  {
    assert ParentKnows(h, n);
    var p := h[n].parent;
    if a != p {
      AboveIsClosed(h, p, a);
    }
  }

  // ---- Taking children out ----

  // The children in dropped are freed, with everything below them; content is what is left of c.
  ghost function Unlinked(h: Heap, c: Node, content: Content, dropped: set<Node>): Heap
    requires c in h
  {
    map n | n in h && n !in dropped && h[n].above !! dropped :: if n == c then h[n].(content := content) else h[n]
  }

  lemma {:induction false} UnlinkedIsForest(h: Heap, c: Node, content: Content, dropped: set<Node>)
    requires IsForest(h) && c in h && Tidy(content)
    requires forall k | k in dropped :: k in Kids(h[c].content)
    requires forall k :: k in Kids(content) <==> k in Kids(h[c].content) && k !in dropped
    ensures IsForest(Unlinked(h, c, content, dropped))
    ensures c in Unlinked(h, c, content, dropped)
  {
    hide Kids, Tidy;
    var h' := Unlinked(h, c, content, dropped);
    ContainerStays(h, c, dropped);
    forall n | n in h'
      ensures Tidy(h'[n].content) && KidsBelong(h', n) && ParentKnows(h', n) && n !in h'[n].above
    {
      assert Tidy(h[n].content) && KidsBelong(h, n) && ParentKnows(h, n) && n !in h[n].above;
      forall k | k in Kids(h'[n].content)
        ensures k in h' && h'[k].parent == n
      {
        assert k in Kids(h[n].content);
        assert ParentKnows(h, k) && KidsBelong(h, c);
      }
      var p := h[n].parent;
      if p != null {
        assert p in h[n].above;
        AboveIsClosed(h, n, p);
      }
    }
  }

  lemma ContainerStays(h: Heap, c: Node, dropped: set<Node>)
    requires IsForest(h) && c in h
    requires forall k | k in dropped :: k in Kids(h[c].content)
    ensures c !in dropped && h[c].above !! dropped
  {
    forall k | k in dropped
      ensures k != c && k !in h[c].above
    {
      assert KidsBelong(h, c) && ParentKnows(h, k);
      if k in h[c].above {
        AboveIsClosed(h, c, k);
      }
    }
  }

  // ---- Putting a value in ----

  ghost predicate InTree(h: Heap, root: Node, n: Node)
    requires n in h
  {
    n == root || root in h[n].above
  }

  // The parentless value v becomes a child of c, whose content is then the given one.
  ghost function Linked(h: Heap, c: Node, content: Content, v: Node): Heap
    requires c in h
  {
    map n | n in h ::
      Cell(if n == v then c else h[n].parent,
           if n == c then content else h[n].content,
           if InTree(h, v, n) then h[n].above + h[c].above + {c} else h[n].above)
  }

  lemma {:induction false} LinkedIsForest(h: Heap, c: Node, content: Content, v: Node)
    requires IsForest(h) && c in h && v in h && Tidy(content)
    requires h[v].parent == null && v != c && v !in h[c].above
    requires forall k :: k in Kids(content) <==> k in Kids(h[c].content) || k == v
    ensures IsForest(Linked(h, c, content, v))
  {
    hide Kids, Tidy, KidsBelong, ParentKnows;
    var h' := Linked(h, c, content, v);
    forall n | n in h'
      ensures Tidy(h'[n].content) && KidsBelong(h', n) && ParentKnows(h', n) && n !in h'[n].above
    {
      LinkedKidsBelong(h, c, content, v, n);
      LinkedIsAcyclic(h, c, content, v, n);
      LinkedParentKnows(h, c, content, v, n);
    }
  }

  lemma LinkedKidsBelong(h: Heap, c: Node, content: Content, v: Node, n: Node)
    requires c in h && v in h && n in h && h[v].parent == null
    requires KidsBelong(h, n) && KidsBelong(h, c)
    requires forall k :: k in Kids(content) <==> k in Kids(h[c].content) || k == v
    ensures KidsBelong(Linked(h, c, content, v), n)
  {
    hide Kids, InTree;
  }

  lemma LinkedIsAcyclic(h: Heap, c: Node, content: Content, v: Node, n: Node)
    requires IsForest(h) && c in h && v in h && n in h && v != c && v !in h[c].above
    ensures n !in Linked(h, c, content, v)[n].above
  {
    hide Kids, Tidy, KidsBelong;
    assert n !in h[n].above;
    if n in h[c].above {
      AboveIsClosed(h, c, n);
    }
  }

  lemma LinkedParentKnows(h: Heap, c: Node, content: Content, v: Node, n: Node)
    requires c in h && v in h && n in h && ParentKnows(h, n) && ParentKnows(h, v) && h[v].parent == null
    requires forall k :: k in Kids(content) <==> k in Kids(h[c].content) || k == v
    ensures ParentKnows(Linked(h, c, content, v), n)
  {
    hide Kids;
    var p := h[n].parent;
    if p != null {
      assert InTree(h, v, n) <==> InTree(h, v, p);
    }
  }

  // ---- The operations ----

  function Without<T>(s: seq<T>, i: nat): seq<T>
    requires i < |s|
  {
    s[..i] + s[i + 1..]
  }

  lemma WithoutDropsOne(kids: seq<Node>, i: nat)
    requires i < |kids| && NoRepeats(kids)
    ensures forall k :: k in Without(kids, i) <==> k in kids && k != kids[i]
    ensures NoRepeats(Without(kids, i))
  {
    forall k
      ensures k in Without(kids, i) <==> k in kids && k != kids[i]
    {
      if k in kids && k != kids[i] {
        var j :| 0 <= j < |kids| && kids[j] == k;
        assert k == Without(kids, i)[if j < i then j else j - 1];
      }
    }
  }

  lemma WithoutMember(members: seq<Entry<Node>>, i: nat)
    requires i < |members| && Tidy(Dict(members))
    ensures Tidy(Dict(Without(members, i)))
    ensures forall k :: k in Kids(Dict(Without(members, i))) <==> k in Kids(Dict(members)) && k != members[i].value
  {
    WithoutDropsOne(Kids(Dict(members)), i);
    assert Kids(Dict(Without(members, i))) == Without(Kids(Dict(members)), i);
  }

  lemma WithoutItem(items: seq<Node>, i: nat)
    requires i < |items| && Tidy(List(items))
    ensures Tidy(List(Without(items, i)))
    ensures forall k :: k in Kids(List(Without(items, i))) <==> k in Kids(List(items)) && k != items[i]
  {
    assert Kids(List(items)) == items;
    WithoutDropsOne(items, i);
    assert Kids(List(Without(items, i))) == Without(items, i);
  }

  // The last entry moves into the hole: the same entries as without the removed one.
  lemma RemovedMember(members: seq<Entry<Node>>, name: CString)
    requires Has(members, name) && Tidy(Dict(members))
    ensures Tidy(Dict(Remove(members, name)))
    ensures forall k :: k in Kids(Dict(Remove(members, name))) <==>
                        k in Kids(Dict(members)) && k != members[Find(members, name)].value
  {
    hide Find, Distinct, Kids;
    RemoveIsDelete(members, name);
    var i := Find(members, name);
    KidsOfSwapped(members, i);
    SwapDropsOne(Kids(Dict(members)), i);
    assert Remove(members, name) == members[i := members[|members| - 1]][..|members| - 1];
  }

  lemma KidsOfSwapped(members: seq<Entry<Node>>, i: nat)
    requires i < |members|
    ensures var kids, last := Kids(Dict(members)), |members| - 1;
            Kids(Dict(members[i := members[last]][..last])) == kids[i := kids[last]][..last]
  {
  }

  lemma SwapDropsOne(kids: seq<Node>, i: nat)
    requires i < |kids| && NoRepeats(kids)
    ensures var rest := kids[i := kids[|kids| - 1]][..|kids| - 1];
            NoRepeats(rest) && forall k :: k in rest <==> k in kids && k != kids[i]
  {
    var last := |kids| - 1;
    var rest := kids[i := kids[last]][..last];
    forall k
      ensures k in rest <==> k in kids && k != kids[i]
    {
      if k in kids && k != kids[i] {
        var j :| 0 <= j < |kids| && kids[j] == k;
        assert k == rest[if j == last then i else j];
      }
    }
  }

  // Putting an entry into an open slot, or a new one at the end.
  lemma SetMember(members: seq<Entry<Node>>, name: CString, v: Node)
    requires Tidy(Dict(members)) && v !in Kids(Dict(members))
    ensures var members' := Set(members, name, v);
            && Tidy(Dict(members'))
            && forall k :: k in Kids(Dict(members')) <==>
                 k == v ||
                 (k in Kids(Dict(members)) && !(Has(members, name) && k == members[Find(members, name)].value))
  {
    var kids, members' := Kids(Dict(members)), Set(members, name, v);
    var kids' := Kids(Dict(members'));
    SetIsUpdate(members, name, v);
    if Has(members, name) {
      var i := Find(members, name);
      assert kids' == kids[i := v];
      ReplacedKid(kids, i, v);
    } else {
      assert kids' == kids + [v];
    }
  }

  lemma ReplacedKid(kids: seq<Node>, i: nat, v: Node)
    requires i < |kids| && v !in kids && NoRepeats(kids)
    ensures forall k :: k in kids[i := v] <==> k == v || (k in kids && k != kids[i])
    ensures NoRepeats(kids[i := v])
  {
    forall k
      ensures k in kids[i := v] <==> k == v || (k in kids && k != kids[i])
    {
      assert kids[i := v][i] == v;
      if k in kids && k != kids[i] {
        var j :| 0 <= j < |kids| && kids[j] == k;
        assert kids[i := v][j] == k;
      }
    }
  }

  // v may be put into c: it is in no container, and not itself a container around c.
  ghost predicate MayHold(h: Heap, c: Node, v: Node) {
    c in h && v in h && h[v].parent == null && v != c && v !in h[c].above
  }

  lemma RootIsNoKid(h: Heap, c: Node, v: Node)
    requires IsForest(h) && MayHold(h, c, v)
    ensures v !in Kids(h[c].content)
  {
    assert KidsBelong(h, c);
  }

  datatype Outcome = Outcome(ok: bool, heap: Heap)

  // json_value_init_*
  ghost function NewIn(h: Heap, n: Node, content: Content): (h': Heap)
    requires IsForest(h) && n !in h && Kids(content) == [] && Tidy(content)
    ensures IsForest(h')
  {
    assert forall m | m in h :: KidsBelong(h, m) && ParentKnows(h, m);
    h[n := Cell(null, content, {})]
  }

  // json_value_free of a value outside any container
  ghost function FreeIn(h: Heap, v: Node): (h': Heap)
    requires IsForest(h) && v in h && h[v].parent == null
    ensures IsForest(h')
  {
    FreeKeepsForest(h, v);
    map n | n in h && n != v && v !in h[n].above :: h[n]
  }

  lemma FreeKeepsForest(h: Heap, v: Node)
    requires IsForest(h) && v in h && h[v].parent == null
    ensures IsForest(map n | n in h && n != v && v !in h[n].above :: h[n])
  {
    var h' := map n | n in h && n != v && v !in h[n].above :: h[n];
    forall n | n in h'
      ensures KidsBelong(h', n) && ParentKnows(h', n)
    {
      assert KidsBelong(h, n) && ParentKnows(h, n);
      forall k | k in Kids(h[n].content)
        ensures k in h'
      {
        assert ParentKnows(h, k);
      }
    }
  }

  // json_object_add
  ghost function AddIn(h: Heap, c: Node, name: CString, v: Node): (r: Outcome)
    requires IsForest(h) && MayHold(h, c, v) && h[c].content.Dict?
    ensures IsForest(r.heap)
  {
    var members := h[c].content.members;
    if Has(members, name) then Outcome(false, h)
    else
      RootIsNoKid(h, c, v);
      SetMember(members, name, v);
      LinkedIsForest(h, c, Dict(members + [Entry(name, v)]), v);
      Outcome(true, Linked(h, c, Dict(members + [Entry(name, v)]), v))
  }

  // The object in the middle of an overwrite: its old value freed, its slot open.
  ghost function Opened(h: Heap, c: Node, name: CString): (h': Heap)
    requires IsForest(h) && c in h && h[c].content.Dict? && Has(h[c].content.members, name)
    ensures IsForest(h') && c in h' && h'[c].above == h[c].above
  {
    var members := h[c].content.members;
    var i := Find(members, name);
    assert members[i].value == Kids(h[c].content)[i];
    WithoutMember(members, i);
    UnlinkedIsForest(h, c, Dict(Without(members, i)), {members[i].value});
    Unlinked(h, c, Dict(Without(members, i)), {members[i].value})
  }

  // json_object_set_value
  ghost function SetIn(h: Heap, c: Node, name: CString, v: Node): (r: Outcome)
    requires IsForest(h) && c in h && v in h && h[c].content.Dict?
    requires h[v].parent == null ==> MayHold(h, c, v)
    ensures IsForest(r.heap)
  {
    var members := h[c].content.members;
    if h[v].parent != null then Outcome(false, h)
    else if Has(members, name) then
      OverwriteKeepsForest(h, c, name, v);
      Outcome(true, Linked(Opened(h, c, name), c, Dict(Set(members, name, v)), v))
    else AddIn(h, c, name, v)
  }

  lemma OverwriteKeepsForest(h: Heap, c: Node, name: CString, v: Node)
    requires IsForest(h) && MayHold(h, c, v) && h[c].content.Dict? && Has(h[c].content.members, name)
    ensures IsForest(Linked(Opened(h, c, name), c, Dict(Set(h[c].content.members, name, v)), v))
  {
    var members, h1 := h[c].content.members, Opened(h, c, name);
    RootIsNoKid(h, c, v);
    SetMember(members, name, v);
    WithoutMember(members, Find(members, name));
    assert v in h1 by { assert ParentKnows(h, v); }
    LinkedIsForest(h1, c, Dict(Set(members, name, v)), v);
  }

  // json_object_remove
  ghost function RemoveIn(h: Heap, c: Node, name: CString): (r: Outcome)
    requires IsForest(h) && c in h && h[c].content.Dict?
    ensures IsForest(r.heap)
  {
    var members := h[c].content.members;
    if !Has(members, name) then Outcome(false, h)
    else
      var i := Find(members, name);
      assert members[i].value == Kids(h[c].content)[i];
      RemovedMember(members, name);
      UnlinkedIsForest(h, c, Dict(Remove(members, name)), {members[i].value});
      Outcome(true, Unlinked(h, c, Dict(Remove(members, name)), {members[i].value}))
  }

  // json_object_clear, json_array_clear
  ghost function ClearIn(h: Heap, c: Node): (h': Heap)
    requires IsForest(h) && c in h && !h[c].content.Scalar?
    ensures IsForest(h')
  {
    var empty := if h[c].content.Dict? then Dict([]) else List([]);
    UnlinkedIsForest(h, c, empty, set k | k in Kids(h[c].content));
    Unlinked(h, c, empty, set k | k in Kids(h[c].content))
  }

  // json_array_append_value
  ghost function AppendIn(h: Heap, c: Node, v: Node): (r: Outcome)
    requires IsForest(h) && c in h && v in h && h[c].content.List?
    requires h[v].parent == null ==> MayHold(h, c, v)
    ensures IsForest(r.heap)
  {
    if h[v].parent != null then Outcome(false, h)
    else
      RootIsNoKid(h, c, v);
      LinkedIsForest(h, c, List(h[c].content.items + [v]), v);
      Outcome(true, Linked(h, c, List(h[c].content.items + [v]), v))
  }

  // json_array_remove
  ghost function RemoveItemIn(h: Heap, c: Node, ix: nat): (r: Outcome)
    requires IsForest(h) && c in h && h[c].content.List?
    ensures IsForest(r.heap) && c in r.heap && r.heap[c].above == h[c].above
  {
    var items := h[c].content.items;
    if ix >= |items| then Outcome(false, h)
    else
      WithoutItem(items, ix);
      UnlinkedIsForest(h, c, List(Without(items, ix)), {items[ix]});
      Outcome(true, Unlinked(h, c, List(Without(items, ix)), {items[ix]}))
  }

  // json_array_replace_value
  ghost function ReplaceIn(h: Heap, c: Node, ix: nat, v: Node): (r: Outcome)
    requires IsForest(h) && c in h && v in h && h[c].content.List?
    requires h[v].parent == null ==> MayHold(h, c, v)
    ensures IsForest(r.heap)
  {
    var items := h[c].content.items;
    if h[v].parent != null || ix >= |items| then Outcome(false, h)
    else
      ReplaceKeepsForest(h, c, ix, v);
      Outcome(true, Linked(RemoveItemIn(h, c, ix).heap, c, List(items[ix := v]), v))
  }

  lemma ReplaceKeepsForest(h: Heap, c: Node, ix: nat, v: Node)
    requires IsForest(h) && MayHold(h, c, v) && h[c].content.List? && ix < |h[c].content.items|
    ensures IsForest(Linked(RemoveItemIn(h, c, ix).heap, c, List(h[c].content.items[ix := v]), v))
  {
    var items, h1 := h[c].content.items, RemoveItemIn(h, c, ix).heap;
    RootIsNoKid(h, c, v);
    ReplacedKid(items, ix, v);
    WithoutItem(items, ix);
    assert v in h1 by { assert ParentKnows(h, v); }
    LinkedIsForest(h1, c, List(items[ix := v]), v);
  }

  // ---- All runs ----

  datatype Op =
    | Create(n: Node, made: Content)
    | Release(v: Node)
    | AddTo(c: Node, name: CString, v: Node)
    | SetTo(c: Node, name: CString, v: Node)
    | RemoveFrom(c: Node, name: CString)
    | Clear(c: Node)
    | Append(c: Node, v: Node)
    | RemoveItem(c: Node, ix: nat)
    | Replace(c: Node, ix: nat, v: Node)

  ghost predicate Allowed(h: Heap, op: Op)
    requires IsForest(h)
  {
    match op
    case Create(n, made) => n !in h && Kids(made) == [] && Tidy(made)
    case Release(v) => v in h && h[v].parent == null
    case AddTo(c, _, v) => MayHold(h, c, v) && h[c].content.Dict?
    case SetTo(c, _, v) => c in h && v in h && h[c].content.Dict? && (h[v].parent == null ==> MayHold(h, c, v))
    case RemoveFrom(c, _) => c in h && h[c].content.Dict?
    case Clear(c) => c in h && !h[c].content.Scalar?
    case Append(c, v) => c in h && v in h && h[c].content.List? && (h[v].parent == null ==> MayHold(h, c, v))
    case RemoveItem(c, _) => c in h && h[c].content.List?
    case Replace(c, _, v) => c in h && v in h && h[c].content.List? && (h[v].parent == null ==> MayHold(h, c, v))
  }

  ghost function Apply(h: Heap, op: Op): (h': Heap)
    requires IsForest(h) && Allowed(h, op)
    ensures IsForest(h')
  {
    match op
    case Create(n, made) => NewIn(h, n, made)
    case Release(v) => FreeIn(h, v)
    case AddTo(c, name, v) => AddIn(h, c, name, v).heap
    case SetTo(c, name, v) => SetIn(h, c, name, v).heap
    case RemoveFrom(c, name) => RemoveIn(h, c, name).heap
    case Clear(c) => ClearIn(h, c)
    case Append(c, v) => AppendIn(h, c, v).heap
    case RemoveItem(c, ix) => RemoveItemIn(h, c, ix).heap
    case Replace(c, ix, v) => ReplaceIn(h, c, ix, v).heap
  }

  // The operations can be done one after the other from h and lead to h'.
  ghost predicate Leads(h: Heap, ops: seq<Op>, h': Heap)
    requires IsForest(h)
    decreases |ops|
  {
    if ops == [] then h == h'
    else Allowed(h, ops[0]) && Leads(Apply(h, ops[0]), ops[1..], h')
  }

  lemma {:induction false} LeadsOn(h: Heap, ops: seq<Op>, h1: Heap, more: seq<Op>, h2: Heap)
    requires IsForest(h) && Leads(h, ops, h1) && IsForest(h1) && Leads(h1, more, h2)
    ensures Leads(h, ops + more, h2)
    decreases |ops|
  {
    hide IsForest, Allowed, Apply;
    if ops == [] {
      assert ops + more == more;
    } else {
      assert (ops + more)[0] == ops[0] && (ops + more)[1..] == ops[1..] + more;
      LeadsOn(Apply(h, ops[0]), ops[1..], h1, more, h2);
    }
  }

  lemma OneStepLeads(h: Heap, op: Op)
    requires IsForest(h) && Allowed(h, op)
    ensures Leads(h, [op], Apply(h, op))
  {
    assert Leads(Apply(h, op), [op][1..], Apply(h, op));
  }

  /** After any sequence of operations the live nodes are a forest with right parent pointers, and
      every object has distinct names. */
  lemma {:induction false} EveryRunIsForest(h: Heap, ops: seq<Op>, h': Heap)
    requires IsForest(h) && Leads(h, ops, h')
    ensures IsForest(h')
    decreases |ops|
  {
    if ops != [] {
      EveryRunIsForest(Apply(h, ops[0]), ops[1..], h');
    }
  }

  // ---- The trees below ----

  // Two ancestors of a node: one is the other, or above it.
  lemma {:induction false} AncestorsAreInLine(h: Heap, n: Node, a: Node, b: Node)
    requires IsForest(h) && n in h && InTree(h, a, n) && InTree(h, b, n) && a in h && b in h
    ensures InTree(h, a, b) || InTree(h, b, a)
    decreases h[n].above
  {
    assert ParentKnows(h, n);
    if a != n && b != n {
      AncestorsAreInLine(h, h[n].parent, a, b);
    }
  }

  lemma TreesNest(h: Heap, a: Node, b: Node, n: Node)
    requires IsForest(h) && n in h && b in h && InTree(h, a, b) && InTree(h, b, n)
    ensures InTree(h, a, n)
  {
    if b in h[n].above {
      AboveIsClosed(h, n, b);
    }
  }

  lemma KidIsBelow(h: Heap, c: Node, k: Node)
    requires IsForest(h) && c in h && k in Kids(h[c].content)
    ensures k in h && InTree(h, c, k) && !InTree(h, k, c) && h[k].above == h[c].above + {c}
  {
    assert KidsBelong(h, c) && ParentKnows(h, k);
    if k in h[c].above {
      AboveIsClosed(h, c, k);
    }
  }

  // What a node is as a JSON value.
  ghost function ValueOf(h: Heap, n: Node): Json
    requires IsForest(h) && n in h
    decreases h.Keys - h[n].above
  {
    match h[n].content
    case Scalar(v) => v
    case List(items) =>
      Array(seq(|items|, i requires 0 <= i < |items| => KidValue(h, n, items[i])))
    case Dict(members) =>
      Object(seq(|members|, i requires 0 <= i < |members| =>
        Entry(members[i].name, KidValue(h, n, Kids(h[n].content)[i]))))
  }

  ghost function KidValue(h: Heap, n: Node, k: Node): Json
    requires IsForest(h) && n in h && k in Kids(h[n].content)
    decreases h.Keys - h[n].above, 0
  {
    KidIsBelow(h, n, k);
    assert n in h.Keys - h[n].above && n !in h.Keys - h[k].above;
    ValueOf(h, k)
  }

  // The tree below n is there in h' as it is in h.
  ghost predicate SameBelow(h: Heap, h': Heap, n: Node) {
    forall m | m in h && InTree(h, n, m) :: m in h' && h'[m].content == h[m].content
  }

  lemma SameBelowKid(h: Heap, h': Heap, n: Node, k: Node)
    requires IsForest(h) && n in h && k in Kids(h[n].content) && SameBelow(h, h', n)
    ensures SameBelow(h, h', k)
  {
    KidIsBelow(h, n, k);
    forall m | m in h && InTree(h, k, m)
      ensures InTree(h, n, m)
    {
      TreesNest(h, n, k, m);
    }
  }

  lemma {:induction false} SameBelowSameValue(h: Heap, h': Heap, n: Node)
    requires IsForest(h) && IsForest(h') && n in h && SameBelow(h, h', n)
    ensures n in h' && ValueOf(h', n) == ValueOf(h, n)
    decreases h.Keys - h[n].above
  {
    assert InTree(h, n, n);
    forall k | k in Kids(h[n].content)
      ensures KidValue(h, n, k) == KidValue(h', n, k)
    {
      KidIsBelow(h, n, k);
      assert n in h.Keys - h[n].above && n !in h.Keys - h[k].above;
      SameBelowKid(h, h', n, k);
      SameBelowSameValue(h, h', k);
    }
  }

  // ---- What an operation on c leaves alone ----

  // Away from c: the trees that neither contain c nor were freed.
  lemma UnlinkedElsewhere(h: Heap, c: Node, content: Content, dropped: set<Node>, n: Node)
    requires IsForest(h) && c in h
    requires forall k | k in dropped :: k in Kids(h[c].content)
    requires n in Unlinked(h, c, content, dropped) && !InTree(h, n, c)
    ensures SameBelow(h, Unlinked(h, c, content, dropped), n)
  {
    var h' := Unlinked(h, c, content, dropped);
    forall m | m in h && InTree(h, n, m)
      ensures m in h' && h'[m].content == h[m].content
    {
      forall d | d in dropped
        ensures !InTree(h, d, m)
      {
        KidIsBelow(h, c, d);
        if InTree(h, d, m) {
          AncestorsAreInLine(h, m, n, d);
          OffTheTree(h, c, d, n);
        }
      }
    }
  }

  // Whatever holds a child of c is that child or holds c.
  lemma OffTheTree(h: Heap, c: Node, d: Node, n: Node)
    requires IsForest(h) && c in h && n in h && d in Kids(h[c].content) && InTree(h, n, d)
    ensures n == d || InTree(h, n, c)
  {
    KidIsBelow(h, c, d);
  }

  lemma LinkedElsewhere(h: Heap, c: Node, content: Content, v: Node, n: Node)
    requires IsForest(h) && c in h && n in h && !InTree(h, n, c)
    ensures SameBelow(h, Linked(h, c, content, v), n)
  {
  }

  // The value that is stored under a name now.
  ghost function Held(h: Heap, c: Node, name: CString): (k: Node)
    requires c in h && h[c].content.Dict? && Has(h[c].content.members, name)
    ensures k in Kids(h[c].content)
  {
    var members := h[c].content.members;
    assert Kids(h[c].content)[Find(members, name)] == members[Find(members, name)].value;
    h[c].content.members[Find(h[c].content.members, name)].value
  }

  ghost predicate Replaced(h: Heap, c: Node, name: CString, n: Node)
    requires c in h && h[c].content.Dict? && n in h
  {
    Has(h[c].content.members, name) && InTree(h, Held(h, c, name), n)
  }

  // The object c got the value v under a name; what it held there is gone, and nothing else that
  // was there changed.
  ghost predicate Stored(h: Heap, h': Heap, c: Node, name: CString, v: Node)
    requires c in h && h[c].content.Dict?
  {
    && (forall n | n in h :: n in h' <==> !Replaced(h, c, name, n))
    && c in h' && h'[c].content == Dict(Set(h[c].content.members, name, v))
    && (forall n | n in h && n in h' && n != c :: h'[n].content == h[n].content)
    && v in h'
  }

  lemma {:induction false} SetStores(h: Heap, c: Node, name: CString, v: Node)
    requires IsForest(h) && MayHold(h, c, v) && h[c].content.Dict?
    ensures var r := SetIn(h, c, name, v); r.ok && Stored(h, r.heap, c, name, v)
  {
    hide IsForest, Find, Kids;
    var r := SetIn(h, c, name, v);
    if Has(h[c].content.members, name) {
      OpenedLacksHeld(h, c, name);
      RootStays(h, c, name, v);
      var h1 := Opened(h, c, name);
      assert r.heap == Linked(h1, c, Dict(Set(h[c].content.members, name, v)), v);
      LinkedContents(h1, c, Dict(Set(h[c].content.members, name, v)), v);
    } else {
      assert r.heap == Linked(h, c, Dict(Set(h[c].content.members, name, v)), v);
      LinkedContents(h, c, Dict(Set(h[c].content.members, name, v)), v);
      assert h.Keys == set n | n in h && !Replaced(h, c, name, n);
    }
  }

  lemma LinkedContents(h: Heap, c: Node, content: Content, v: Node)
    requires c in h
    ensures var h' := Linked(h, c, content, v);
            && h'.Keys == h.Keys && h'[c].content == content
            && forall n | n in h && n != c :: h'[n].content == h[n].content
  {
  }

  lemma OpenedLacksHeld(h: Heap, c: Node, name: CString)
    requires IsForest(h) && c in h && h[c].content.Dict? && Has(h[c].content.members, name)
    ensures var h1 := Opened(h, c, name);
            && h1.Keys == (set n | n in h && !Replaced(h, c, name, n))
            && (forall n | n in h1 && n != c :: h1[n].content == h[n].content)
  {
    hide IsForest, Find, Kids;
  }

  lemma RootStays(h: Heap, c: Node, name: CString, v: Node)
    requires IsForest(h) && MayHold(h, c, v) && h[c].content.Dict? && Has(h[c].content.members, name)
    ensures !Replaced(h, c, name, v)
  {
    RootIsNoKid(h, c, v);
    assert ParentKnows(h, v);
  }

  // A tree that does not contain c, and does not hang where v was stored, is as before.
  lemma {:induction false} StoredElsewhere(h: Heap, h': Heap, c: Node, name: CString, v: Node, n: Node)
    requires IsForest(h) && c in h && h[c].content.Dict? && Stored(h, h', c, name, v)
    requires n in h && n in h' && !InTree(h, n, c)
    ensures SameBelow(h, h', n)
  {
    hide IsForest, Find, Kids, Set;
    forall m | m in h && InTree(h, n, m)
      ensures m in h' && h'[m].content == h[m].content
    {
      if m !in h' {
        var d := Held(h, c, name);
        HeldIsBelow(h, c, name);
        AncestorsAreInLine(h, m, n, d);
        if InTree(h, n, d) {
          OffTheTree(h, c, d, n);
        }
      }
    }
  }

  lemma HeldIsBelow(h: Heap, c: Node, name: CString)
    requires IsForest(h) && c in h && h[c].content.Dict? && Has(h[c].content.members, name)
    ensures Held(h, c, name) in h && InTree(h, c, Held(h, c, name))
  {
    KidIsBelow(h, c, Held(h, c, name));
  }
}
