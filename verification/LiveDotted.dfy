/** Dotted access and update on live values (mrbgems/json-with-casing/src/parson.c, lines 1149-1156
    and 1839-1869): each call takes one segment off the name and goes on below the object that is
    there, or below a new one. */
module LiveDotted {
  import opened Bytes
  import opened Forest
  import opened DottedPaths
  import opened LiveValues

  method StrChrDot(name: CString) returns (d: nat)
    ensures d == FirstDot(name)
  {
    d := 0;
    while d < |name| && name[d] != DOT
      invariant d <= |name| && DOT !in name[..d]
    {
      d := d + 1;
    }
    DotIsFirst(name, d);
  }

  lemma {:induction false} DotIsFirst(name: CString, d: nat)
    requires d <= |name| && DOT !in name[..d] && (d < |name| ==> name[d] == DOT)
    ensures d == FirstDot(name)
  {
    if d > 0 {
      assert name[0] in name[..d] && name[1..][..d - 1] == name[..d][1..];
      DotIsFirst(name[1..], d - 1);
    }
  }

  /** json_object_dotget_value finds what the path resolves to. */
  method DotGet(live: Live, o: Node?, name: CString) returns (r: Node?)
    requires live.Valid() && (o != null ==> o in live.nodes)
    ensures live.Valid() && live.Now() == old(live.Now()) && (o != null ==> o in live.nodes)
    ensures r == Resolve(live.Now(), o, Segments(name))
    decreases |name|
  {
    hide Live.Apart, Live.Now, IsForest;
    var dot := StrChrDot(name);
    live.NothingChanged();
    live.LiveKeys();
    var segment := if dot == |name| then name else name[..dot];
    r := null;
    if o != null {
      live.LiveKind(o);
      if o.table != null {
        var held := live.Held(o, segment);
        live.LiveKeys();
        ChildIsLookup(live.Now(), o, segment);
        r := if held.Some? then held.value else null;
      }
    }
    if dot < |name| {
      live.LiveKeys();
      r := DotGet(live, r, name[dot + 1..]);
    }
  }

  // json_object_get_object
  method ObjectAt(live: Live, o: Node, segment: CString) returns (k: Node?)
    requires live.Valid() && o in live.nodes && IsObject(live.Now(), o)
    ensures live.Valid() && live.Now() == old(live.Now())
    ensures live.nodes == old(live.nodes) && live.Reprs() == old(live.Reprs())
    ensures var c := Child(live.Now(), o, segment); k == if IsObject(live.Now(), c) then c else null
  {
    hide Live.Apart, Live.Now, Live.Reprs, IsForest;
    live.LiveKeys();
    live.LiveKind(o);
    ChildIsLookup(live.Now(), o, segment);
    var held := live.Held(o, segment);
    k := null;
    if held.Some? {
      live.LiveKind(held.value);
      k := if held.value.table != null then held.value else null;
    }
  }

  /** The middle of json_object_dotset_value: make an object and add it; if the name is taken, free it. */
  method Grow(live: Live, o: Node, segment: CString) returns (made: Node?)
    requires live.Valid() && o in live.nodes && IsObject(live.Now(), o)
    modifies live, live.nodes, live.Reprs()
    ensures live.Valid()
    ensures made == null <==> Child(old(live.Now()), o, segment) != null
    ensures made == null ==> live.Now() == old(live.Now())
    ensures made != null ==> made !in old(live.nodes) && live.Now() == GrowIn(old(live.Now()), o, segment, made)
    ensures forall n | n in live.nodes && n !in old(live.nodes) :: fresh(n)
    ensures forall r | r in live.Reprs() && r !in old(live.Reprs()) :: fresh(r)
  {
    hide Live.Apart, Live.Now, IsForest, Live.Reprs;
    ghost var h := live.Now();
    live.LiveKeys();
    ChildIsLookup(h, o, segment);
    made := live.MakeObject();
    ghost var h1 := live.Now();
    live.LiveKeys();
    live.LiveKind(o);
    live.ReprIsOurs(o);
    NewMayBeHeld(h, o, made);
    var added := live.AddValue(o, segment, made);
    if !added {
      live.FreeValue(made);
      FreedAgain(h, made);
      made := null;
    }
  }

  lemma GrowLeads(h: Heap, o: Node, segment: CString, n: Node)
    requires IsForest(h) && IsObject(h, o) && n !in h && Child(h, o, segment) == null
    ensures Leads(h, [Create(n, Dict([])), AddTo(o, segment, n)], GrowIn(h, o, segment, n))
  {
    hide Leads, IsForest, AddIn, Child;
    var create, add := Create(n, Dict([])), AddTo(o, segment, n);
    NewMayBeHeld(h, o, n);
    OneStepLeads(h, create);
    OneStepLeads(Apply(h, create), add);
    LeadsOn(h, [create], Apply(h, create), [add], GrowIn(h, o, segment, n));
    assert [create] + [add] == [create, add];
  }

  lemma NothingLeads(h: Heap)
    requires IsForest(h)
    ensures Leads(h, [], h)
  {
  }

  lemma FreedAgain(h: Heap, n: Node)
    requires IsForest(h) && n !in h
    ensures var h1 := NewIn(h, n, Dict([]));
            n in h1 && h1[n].parent == null && FreeIn(h1, n) == h
  {
    NewIsNotAbove(h, n);
  }

  method DotOf(live: Live, name: CString) returns (d: nat)
    requires live.Valid()
    ensures d == FirstDot(name)
    ensures live.Valid() && live.Now() == old(live.Now()) && live.Reprs() == old(live.Reprs())
  {
    d := StrChrDot(name);
    live.NothingChanged();
  }

  /** json_object_dotset_value does what DotSetIn says, with the objects it makes on the way. */
  method DotSet(live: Live, o: Node, name: CString, v: Node)
    returns (ok: bool, ghost news: seq<Node>, ghost ops: seq<Op>)
    requires live.Valid() && o in live.nodes && v in live.nodes && IsObject(live.Now(), o)
    requires Outside(live.Now(), o, v)
    modifies live, live.nodes, live.Reprs()
    ensures live.Valid()
    ensures |news| == Missing(old(live.Now()), o, Segments(name)) && AllNew(old(live.Now()), news)
    ensures ok == DotSetIn(old(live.Now()), o, Segments(name), v, news).ok
    ensures live.Now() == DotSetIn(old(live.Now()), o, Segments(name), v, news).heap
    ensures Leads(old(live.Now()), ops, live.Now())
    decreases |name|
  {
    hide Live.Apart, Live.Now, Live.Reprs, IsForest, Segments, Missing, DotSetIn, AllNew, SetIn, GrowIn, Child, Leads;
    ghost var h, path := live.Now(), Segments(name);
    var dot := DotOf(live, name);
    live.LiveKeys();
    SegmentsUnfold(name);
    news, ops := [], [];
    if dot == |name| {
      ok := SetLast(live, o, name, v);
      ops := [SetTo(o, name, v)];
    } else {
      var segment, rest := name[..dot], name[dot + 1..];
      var k := ObjectAt(live, o, segment);
      if k != null {
        DotSetBelow(h, o, path, v, []);
        live.LiveKeys();
        ok, news, ops := DotSet(live, k, rest, v);
        DotSetBelow(h, o, path, v, news);
      } else {
        var made := Grow(live, o, segment);
        if made == null {
          DotSetBlocked(h, o, path, v);
          NoneIsNew(h);
          NothingLeads(h);
          ok := false;
        } else {
          ghost var more, later;
          ghost var h1 := live.Now();
          DotSetGrown(h, o, path, v, made, []);
          live.LiveKeys();
          ok, more, later := DotSet(live, made, rest, v);
          GrowLeads(h, o, segment, made);
          ops := [Create(made, Dict([])), AddTo(o, segment, made)];
          LeadsOn(h, ops, h1, later, live.Now());
          ops := ops + later;
          news := [made] + more;
          DotSetGrown(h, o, path, v, made, more);
        }
      }
    }
  }

  lemma NoneIsNew(h: Heap)
    ensures AllNew(h, [])
  {
  }

  method SetLast(live: Live, o: Node, name: CString, v: Node) returns (ok: bool)
    requires live.Valid() && o in live.nodes && v in live.nodes && IsObject(live.Now(), o)
    requires Outside(live.Now(), o, v) && FirstDot(name) == |name|
    modifies live, live.nodes, live.Reprs()
    ensures live.Valid() && Missing(old(live.Now()), o, Segments(name)) == 0 && AllNew(old(live.Now()), [])
    ensures ok == DotSetIn(old(live.Now()), o, Segments(name), v, []).ok
    ensures live.Now() == DotSetIn(old(live.Now()), o, Segments(name), v, []).heap
    ensures Leads(old(live.Now()), [SetTo(o, name, v)], live.Now())
  {
    hide Live.Apart, Live.Now, Live.Reprs, IsForest, Missing, DotSetIn, SetIn, Leads;
    live.LiveKeys();
    live.LiveKind(o);
    live.LiveNode(v);
    live.ReprIsOurs(o);
    LastSegment(live.Now(), o, Segments(name), v);
    OneStepLeads(live.Now(), SetTo(o, name, v));
    ok := live.SetValue(o, name, v);
  }

  lemma HeadAndTail(head: CString, tail: seq<CString>)
    ensures ([head] + tail)[0] == head && ([head] + tail)[1..] == tail && |[head] + tail| == 1 + |tail|
  {
  }

  lemma SegmentsUnfold(name: CString)
    ensures var d := FirstDot(name);
            && (d == |name| ==> Segments(name) == [name])
            && (d < |name| ==> |Segments(name)| > 1 && Segments(name)[0] == name[..d]
                               && Segments(name)[1..] == Segments(name[d + 1..]))
  {
    hide FirstDot;
    var d := FirstDot(name);
    if d < |name| {
      HeadAndTail(name[..d], Segments(name[d + 1..]));
    }
  }
}
