/** Dotted names: json_object_dotget_value and json_object_dotset_value
    (mrbgems/json-with-casing/src/parson.c, lines 1149-1156 and 1839-1869), as functions on the
    values in memory. */
module DottedPaths {
  import opened Bytes
  import opened Options
  import opened Entries
  import opened Forest
  import opened ForestValues

  // ---- Names and their segments ----

  // strchr(name, '.'), or the end of the name.
  function FirstDot(name: CString): (d: nat)
    ensures d <= |name| && DOT !in name[..d]
    ensures d < |name| ==> name[d] == DOT
  {
    if name == [] || name[0] == DOT then 0
    else
      var d := FirstDot(name[1..]);
      assert name[..d + 1] == [name[0]] + name[1..][..d];
      1 + d
  }

  function Segments(name: CString): (path: seq<CString>)
    ensures path != []
    decreases |name|
  {
    var d := FirstDot(name);
    if d == |name| then [name] else [name[..d]] + Segments(name[d + 1..])
  }

  function Joined(path: seq<CString>): CString
    requires path != []
  {
    if |path| == 1 then path[0] else path[0] + [DOT] + Joined(path[1..])
  }

  /** A name is its segments with dots between them, and the segments have no dots. */
  lemma {:induction false} SegmentsJoin(name: CString)
    ensures Joined(Segments(name)) == name
    ensures forall i | 0 <= i < |Segments(name)| :: DOT !in Segments(name)[i]
    decreases |name|
  {
    var d := FirstDot(name);
    if d < |name| {
      SegmentsJoin(name[d + 1..]);
      assert name == name[..d] + [DOT] + name[d + 1..];
    } else {
      assert name[..d] == name;
    }
  }

  // ---- Resolving a path ----

  ghost function Child(h: Heap, n: Node?, name: CString): (k: Node?)
    requires IsForest(h) && (n != null ==> n in h)
    ensures k != null ==> n != null && h[n].content.Dict? && k in Kids(h[n].content) && k in h
  {
    if n != null && h[n].content.Dict? && Has(h[n].content.members, name) then
      KidAt(h, n, Find(h[n].content.members, name))
    else null
  }

  ghost predicate IsObject(h: Heap, n: Node?) {
    n != null && n in h && h[n].content.Dict?
  }

  // What json_object_dotget_value finds from n.
  ghost function Resolve(h: Heap, n: Node?, path: seq<CString>): (r: Node?)
    requires IsForest(h) && (n != null ==> n in h)
    ensures r != null ==> n != null && r in h
    decreases |path|
  {
    if path == [] then n else Resolve(h, Child(h, n, path[0]), path[1..])
  }

  lemma {:induction false} ResolvedIsBelow(h: Heap, n: Node, path: seq<CString>)
    requires IsForest(h) && n in h && Resolve(h, n, path) != null
    ensures InTree(h, n, Resolve(h, n, path))
    ensures path != [] ==> !InTree(h, Resolve(h, n, path), n)
    decreases |path|
  {
    if path != [] {
      var k := Child(h, n, path[0]);
      NothingResolvesToNothing(h, path[1..]);
      KidIsBelow(h, n, k);
      ResolvedIsBelow(h, k, path[1..]);
      var r := Resolve(h, n, path);
      TreesNest(h, n, k, r);
      if InTree(h, r, n) {
        TreesNest(h, r, n, k);
        TreesNest(h, k, r, n);
      }
    }
  }

  lemma {:induction false} NothingResolvesToNothing(h: Heap, path: seq<CString>)
    requires IsForest(h)
    ensures Resolve(h, null, path) == null
    decreases |path|
  {
    if path != [] {
      NothingResolvesToNothing(h, path[1..]);
    }
  }

  lemma {:induction false} ResolveInSteps(h: Heap, n: Node?, p: seq<CString>, q: seq<CString>)
    requires IsForest(h) && (n != null ==> n in h)
    ensures Resolve(h, n, p + q) == Resolve(h, Resolve(h, n, p), q)
    decreases |p|
  {
    if p == [] {
      assert p + q == q;
    } else {
      assert (p + q)[1..] == p[1..] + q;
      ResolveInSteps(h, Child(h, n, p[0]), p[1..], q);
    }
  }

  lemma {:induction false} SameBelowSameResolve(h: Heap, h': Heap, n: Node, path: seq<CString>)
    requires IsForest(h) && IsForest(h') && n in h && SameBelow(h, h', n)
    ensures n in h' && Resolve(h', n, path) == Resolve(h, n, path)
    decreases |path|
  {
    assert InTree(h, n, n);
    if path != [] {
      var k := Child(h, n, path[0]);
      if k != null {
        SameBelowKid(h, h', n, k);
        SameBelowSameResolve(h, h', k, path[1..]);
      } else {
        NothingResolvesToNothing(h, path[1..]);
        NothingResolvesToNothing(h', path[1..]);
      }
    }
  }

  // ---- Storing at a path ----

  // The path as far as there are objects, the last of these, and what is left of the path; or that
  // something on the path is not an object.
  datatype Descent = Blocked | Reached(done: seq<CString>, at: Node, rest: seq<CString>)

  lemma ConsSplit(path: seq<CString>, done: seq<CString>, rest: seq<CString>)
    requires path != [] && path[1..] == done + rest
    ensures path == [path[0]] + done + rest
  {
    assert path == [path[0]] + path[1..];
  }

  ghost function Descend(h: Heap, o: Node, path: seq<CString>): (d: Descent)
    requires IsForest(h) && IsObject(h, o) && path != []
    ensures d.Reached? ==> IsObject(h, d.at) && d.rest != [] && path == d.done + d.rest
    decreases |path|
  {
    var k := Child(h, o, path[0]);
    if |path| == 1 || k == null then Reached([], o, path)
    else if IsObject(h, k) then
      var d := Descend(h, k, path[1..]);
      if d.Blocked? then d
      else
        ConsSplit(path, d.done, d.rest);
        Reached([path[0]] + d.done, d.at, d.rest)
    else Blocked
  }

  // The first k segments resolve to something that is not an object.
  ghost predicate BlocksAt(h: Heap, o: Node?, path: seq<CString>, k: nat)
    requires IsForest(h) && (o != null ==> o in h) && k <= |path|
  {
    var r := Resolve(h, o, path[..k]);
    r != null && !IsObject(h, r)
  }

  lemma BlocksOneDown(h: Heap, o: Node, path: seq<CString>, k: nat)
    requires IsForest(h) && o in h && 0 < k <= |path|
    ensures BlocksAt(h, o, path, k) <==> BlocksAt(h, Child(h, o, path[0]), path[1..], k - 1)
  {
    assert path[..k][1..] == path[1..][..k - 1];
  }

  lemma NothingBlocks(h: Heap, path: seq<CString>, k: nat)
    requires IsForest(h) && k <= |path|
    ensures !BlocksAt(h, null, path, k)
  {
    NothingResolvesToNothing(h, path[..k]);
  }

  /** Descent is blocked exactly when some proper prefix of the path resolves to a value that is not
      an object. */
  lemma {:induction false} BlockedIff(h: Heap, o: Node, path: seq<CString>)
    requires IsForest(h) && IsObject(h, o) && path != []
    ensures Descend(h, o, path).Blocked? <==> exists k :: 0 < k < |path| && BlocksAt(h, o, path, k)
    decreases |path|
  {
    hide IsForest, Child, BlocksAt;
    var c := Child(h, o, path[0]);
    forall k | 0 < k < |path|
      ensures BlocksAt(h, o, path, k) <==> BlocksAt(h, c, path[1..], k - 1)
    {
      BlocksOneDown(h, o, path, k);
    }
    if |path| > 1 && IsObject(h, c) {
      ObjectDoesNotBlock(h, c, path[1..]);
      BlockedIff(h, c, path[1..]);
      if k :| 0 < k < |path| - 1 && BlocksAt(h, c, path[1..], k) {
        assert BlocksAt(h, o, path, k + 1);
      }
    } else if |path| > 1 && c == null {
      forall k | 0 < k < |path|
        ensures !BlocksAt(h, o, path, k)
      {
        NothingBlocks(h, path[1..], k - 1);
      }
    } else if |path| > 1 {
      OtherBlocks(h, c, path[1..]);
      assert BlocksAt(h, o, path, 1);
    }
  }

  lemma ObjectDoesNotBlock(h: Heap, c: Node, path: seq<CString>)
    requires IsForest(h) && IsObject(h, c)
    ensures !BlocksAt(h, c, path, 0)
  {
  }

  lemma OtherBlocks(h: Heap, c: Node, path: seq<CString>)
    requires IsForest(h) && c in h && !IsObject(h, c)
    ensures BlocksAt(h, c, path, 0)
  {
  }

  lemma {:induction false} ReachedIsOnPath(h: Heap, o: Node, path: seq<CString>)
    requires IsForest(h) && IsObject(h, o) && path != [] && Descend(h, o, path).Reached?
    ensures var d := Descend(h, o, path);
            && Resolve(h, o, d.done) == d.at && InTree(h, o, d.at)
            && (|d.rest| > 1 ==> Child(h, d.at, d.rest[0]) == null)
    decreases |path|
  {
    hide IsForest, InTree, Child;
    var k := Child(h, o, path[0]);
    if |path| > 1 && k != null {
      ReachedIsOnPath(h, k, path[1..]);
      var d, e := Descend(h, o, path), Descend(h, k, path[1..]);
      assert d.done[1..] == e.done;
      ResolvedIsBelow(h, o, d.done);
    } else {
      ResolvedIsBelow(h, o, []);
    }
  }

  // ---- The objects made on the way ----

  ghost predicate AllNew(h: Heap, news: seq<Node>) {
    NoRepeats(news) && forall i | 0 <= i < |news| :: news[i] !in h
  }

  lemma NewMayBeHeld(h: Heap, t: Node, made: Node)
    requires IsForest(h) && t in h && made !in h
    ensures MayHold(NewIn(h, made, Dict([])), t, made)
  {
    if made in h[t].above {
      AboveIsClosed(h, t, made);
    }
  }

  // An empty object is made and added to t.
  ghost function GrowIn(h: Heap, t: Node, name: CString, made: Node): (h': Heap)
    requires IsForest(h) && IsObject(h, t) && made !in h && Child(h, t, name) == null
    ensures IsForest(h')
  {
    NewMayBeHeld(h, t, made);
    AddIn(NewIn(h, made, Dict([])), t, name, made).heap
  }

  lemma GrownFacts(h: Heap, t: Node, name: CString, made: Node)
    requires IsForest(h) && IsObject(h, t) && made !in h && Child(h, t, name) == null
    ensures var h' := GrowIn(h, t, name, made);
            && h'.Keys == h.Keys + {made}
            && h'[t].content == Dict(h[t].content.members + [Entry(name, made)])
            && h'[made] == Cell(t, Dict([]), h[t].above + {t})
            && (forall n | n in h && n != t :: h'[n].content == h[n].content)
            && forall n | n in h :: h'[n].parent == h[n].parent && h'[n].above == h[n].above
  {
    NewIsNotAbove(h, made);
    GrownIs(h, t, name, made);
    LinkedEmpty(h, t, Dict(h[t].content.members + [Entry(name, made)]), made);
    hide GrowIn, IsForest, Child, Linked;
  }

  lemma LinkedEmpty(h: Heap, t: Node, content: Content, made: Node)
    requires t in h && made !in h && forall n | n in h :: made !in h[n].above
    ensures var h' := Linked(h[made := Cell(null, Dict([]), {})], t, content, made);
            && h'.Keys == h.Keys + {made}
            && h'[t].content == content
            && h'[made] == Cell(t, Dict([]), h[t].above + {t})
            && (forall n | n in h && n != t :: h'[n].content == h[n].content)
            && forall n | n in h :: h'[n].parent == h[n].parent && h'[n].above == h[n].above
  {
  }

  lemma GrownIs(h: Heap, t: Node, name: CString, made: Node)
    requires IsForest(h) && IsObject(h, t) && made !in h && Child(h, t, name) == null
    ensures GrowIn(h, t, name, made) ==
            Linked(h[made := Cell(null, Dict([]), {})], t, Dict(h[t].content.members + [Entry(name, made)]), made)
  {
    hide Linked, IsForest, Kids;
    NewMayBeHeld(h, t, made);
  }

  lemma NewIsNotAbove(h: Heap, made: Node)
    requires IsForest(h) && made !in h
    ensures forall n | n in h :: made !in h[n].above
  {
    forall n | n in h
      ensures made !in h[n].above
    {
      if made in h[n].above {
        AboveIsClosed(h, n, made);
      }
    }
  }

  // v may be stored in t: it is outside the containers t is in.
  ghost predicate Outside(h: Heap, t: Node, v: Node) {
    v in h && t in h && (h[v].parent == null ==> v != t && v !in h[t].above)
  }

  lemma NewObjectIsEmpty(h: Heap, n: Node, name: CString)
    requires IsForest(h) && n in h && h[n].content == Dict([])
    ensures IsObject(h, n) && Child(h, n, name) == null
  {
  }

  lemma ChainGoesOn(h: Heap, t: Node, rest: seq<CString>, v: Node, news: seq<Node>)
    requires IsForest(h) && IsObject(h, t) && |rest| > 1 && Outside(h, t, v)
    requires |news| == |rest| - 1 && AllNew(h, news) && Child(h, t, rest[0]) == null
    ensures var grown := GrowIn(h, t, rest[0], news[0]);
            && IsObject(grown, news[0]) && Outside(grown, news[0], v) && AllNew(grown, news[1..])
            && Child(grown, news[0], rest[1]) == null
  {
    hide IsForest, Child;
    GrownFacts(h, t, rest[0], news[0]);
    NewObjectIsEmpty(GrowIn(h, t, rest[0], news[0]), news[0], rest[1]);
  }

  // One object after the other is made for the rest of the path, and v is set in the last one.
  ghost function Chain(h: Heap, t: Node, rest: seq<CString>, v: Node, news: seq<Node>): (r: Outcome)
    requires IsForest(h) && IsObject(h, t) && rest != [] && Outside(h, t, v)
    requires |news| == |rest| - 1 && AllNew(h, news)
    requires |rest| > 1 ==> Child(h, t, rest[0]) == null
    ensures IsForest(r.heap)
    decreases |rest|
  {
    if |rest| == 1 then SetIn(h, t, rest[0], v)
    else
      var grown := GrowIn(h, t, rest[0], news[0]);
      ChainGoesOn(h, t, rest, v, news);
      Chain(grown, news[0], rest[1..], v, news[1..])
  }

  // The child of t that the chain starts with.
  ghost function Link(rest: seq<CString>, v: Node, news: seq<Node>): Node
    requires |news| == |rest| - 1
  {
    if news == [] then v else news[0]
  }

  lemma {:induction false} ChainStores(h: Heap, t: Node, rest: seq<CString>, v: Node, news: seq<Node>)
    requires IsForest(h) && IsObject(h, t) && rest != [] && Outside(h, t, v) && h[v].parent == null
    requires |news| == |rest| - 1 && AllNew(h, news)
    requires |rest| > 1 ==> Child(h, t, rest[0]) == null
    ensures var r := Chain(h, t, rest, v, news);
            && r.ok
            && Stored(h, r.heap, t, rest[0], Link(rest, v, news))
            && v in r.heap
    decreases |rest|
  {
    hide IsForest, Find, Kids;
    if |rest| == 1 {
      SetStores(h, t, rest[0], v);
    } else {
      var grown := GrowIn(h, t, rest[0], news[0]);
      GrownFacts(h, t, rest[0], news[0]);
      NewObjectIsEmpty(grown, news[0], rest[1]);
      ChainStores(grown, news[0], rest[1..], v, news[1..]);
    }
  }

  lemma LookupSet<V>(es: seq<Entry<V>>, name: CString, v: V, n: Text)
    ensures Lookup(Set(es, name, v), n) == if n == name then Some(v) else Lookup(es, n)
  {
    if Has(es, name) {
      LookupReplaced(es, name, v, n);
    } else {
      LookupAppended(es, Entry(name, v), n);
    }
  }

  lemma ChildIsLookup(h: Heap, n: Node, name: CString)
    requires IsForest(h) && IsObject(h, n)
    ensures var l := Lookup(h[n].content.members, name);
            Child(h, n, name) == if l.None? then null else l.value
  {
  }

  lemma StoredChildren(h: Heap, h': Heap, t: Node, name: CString, v: Node, n: CString)
    requires IsForest(h) && IsForest(h') && IsObject(h, t) && Stored(h, h', t, name, v)
    ensures IsObject(h', t)
    ensures Child(h', t, n) == if n == name then v else Child(h, t, n)
  {
    LookupSet(h[t].content.members, name, v, n);
    ChildIsLookup(h, t, n);
    ChildIsLookup(h', t, n);
  }

  // Two children under different names are different.
  lemma ChildrenDiffer(h: Heap, o: Node, a: CString, b: CString)
    requires IsForest(h) && o in h && Child(h, o, a) != null && Child(h, o, a) == Child(h, o, b)
    ensures a == b
  {
    hide KidsBelong, ParentKnows;
    var members := h[o].content.members;
    var i, j := Find(members, a), Find(members, b);
    assert Tidy(h[o].content);
    assert Kids(h[o].content)[i] == Kids(h[o].content)[j];
  }

  // ---- Everything else resolves as before ----

  ghost predicate Unrelated(p: seq<CString>, q: seq<CString>) {
    !(p <= q) && !(q <= p)
  }

  lemma UnrelatedTails(p: seq<CString>, q: seq<CString>)
    requires Unrelated(p, q) && p[0] == q[0]
    ensures |p| > 1 && |q| > 1 && Unrelated(p[1..], q[1..])
  {
    assert p == [p[0]] + p[1..] && q == [q[0]] + q[1..];
  }

  lemma OtherChildStays(h: Heap, t: Node, name: CString, n: CString)
    requires IsForest(h) && IsObject(h, t) && n != name && Child(h, t, n) != null
    ensures !Replaced(h, t, name, Child(h, t, n))
  {
    hide IsForest, Find, Kids;
    var x := Child(h, t, n);
    if Has(h[t].content.members, name) {
      var d := Held(h, t, name);
      KidIsBelow(h, t, d);
      if InTree(h, d, x) {
        OffTheTree(h, t, x, d);
        ChildrenDiffer(h, t, n, name);
      }
    }
  }

  // A child of t under another name has kept its tree.
  lemma OtherChildKept(h: Heap, h': Heap, t: Node, name: CString, v: Node, n: CString, q: seq<CString>)
    requires IsForest(h) && IsForest(h') && IsObject(h, t) && Stored(h, h', t, name, v) && n != name
    ensures Child(h', t, n) == Child(h, t, n)
    ensures Resolve(h', Child(h', t, n), q) == Resolve(h, Child(h, t, n), q)
  {
    StoredChildren(h, h', t, name, v, n);
    var x := Child(h, t, n);
    if x == null {
      NothingResolvesToNothing(h, q);
      NothingResolvesToNothing(h', q);
    } else {
      KidIsBelow(h, t, x);
      OtherChildStays(h, t, name, n);
      StoredElsewhere(h, h', t, name, v, x);
      SameBelowSameResolve(h, h', x, q);
    }
  }

  lemma {:induction false} ChainResolves(h: Heap, t: Node, rest: seq<CString>, v: Node, news: seq<Node>)
    requires IsForest(h) && IsObject(h, t) && rest != [] && Outside(h, t, v) && h[v].parent == null
    requires |news| == |rest| - 1 && AllNew(h, news)
    requires |rest| > 1 ==> Child(h, t, rest[0]) == null
    ensures var h' := Chain(h, t, rest, v, news).heap;
            t in h' && Resolve(h', t, rest) == v
    decreases |rest|
  {
    hide IsForest, Find, Kids, Stored, SetIn;
    ChainStores(h, t, rest, v, news);
    var h' := Chain(h, t, rest, v, news).heap;
    StoredChildren(h, h', t, rest[0], Link(rest, v, news), rest[0]);
    if |rest| > 1 {
      var grown := GrowIn(h, t, rest[0], news[0]);
      GrownFacts(h, t, rest[0], news[0]);
      NewObjectIsEmpty(grown, news[0], rest[1]);
      ChainResolves(grown, news[0], rest[1..], v, news[1..]);
    }
  }

  // Below t, paths that do not meet the rest of the path resolve as before.
  lemma {:induction false} ChainElsewhere(h: Heap, t: Node, rest: seq<CString>, v: Node, news: seq<Node>,
      q: seq<CString>)
    requires IsForest(h) && IsObject(h, t) && rest != [] && Outside(h, t, v) && h[v].parent == null
    requires |news| == |rest| - 1 && AllNew(h, news)
    requires |rest| > 1 ==> Child(h, t, rest[0]) == null
    requires Unrelated(q, rest)
    ensures var h' := Chain(h, t, rest, v, news).heap;
            t in h' && Resolve(h', t, q) == Resolve(h, t, q)
    decreases |rest|
  {
    hide IsForest, Find, Kids, Stored, SetIn, Child;
    ChainStores(h, t, rest, v, news);
    var h' := Chain(h, t, rest, v, news).heap;
    StoredChildren(h, h', t, rest[0], Link(rest, v, news), q[0]);
    if q[0] != rest[0] {
      OtherChildKept(h, h', t, rest[0], Link(rest, v, news), q[0], q[1..]);
    } else {
      UnrelatedTails(q, rest);
      var grown := GrowIn(h, t, rest[0], news[0]);
      GrownFacts(h, t, rest[0], news[0]);
      NewObjectIsEmpty(grown, news[0], rest[1]);
      ChainElsewhere(grown, news[0], rest[1..], v, news[1..], q[1..]);
      NewObjectIsEmpty(grown, news[0], q[1]);
      NothingResolvesToNothing(h, q[1..]);
      NothingResolvesToNothing(grown, q[2..]);
      assert q[1..][1..] == q[2..];
    }
  }

  // ---- From o down to t ----

  // Storing in t does not touch an object above t.
  lemma AboveIsKept(h: Heap, h': Heap, o: Node, t: Node, name: CString, v: Node)
    requires IsForest(h) && IsObject(h, t) && IsObject(h, o) && Stored(h, h', t, name, v)
    requires InTree(h, o, t) && !InTree(h, t, o)
    ensures o in h' && h'[o].content == h[o].content
  {
    if Has(h[t].content.members, name) {
      var d := Held(h, t, name);
      KidIsBelow(h, t, d);
      if InTree(h, d, o) {
        TreesNest(h, t, d, o);
      }
    }
  }

  lemma {:induction false} WayDownKept(h: Heap, h': Heap, o: Node, done: seq<CString>, t: Node, name: CString, v: Node)
    requires IsForest(h) && IsForest(h') && IsObject(h, o) && IsObject(h, t) && Stored(h, h', t, name, v)
    requires Resolve(h, o, done) == t
    ensures o in h' && Resolve(h', o, done) == t
    decreases |done|
  {
    hide IsForest, Find, Kids, Stored;
    if done == [] {
      StoredFacts(h, h', t, name, v);
    } else {
      var k := Child(h, o, done[0]);
      ResolvedIsBelow(h, o, done);
      AboveIsKept(h, h', o, t, name, v);
      assert Child(h', o, done[0]) == k;
      NothingResolvesToNothing(h, done[1..]);
      KidIsObject(h, k, done[1..]);
      WayDownKept(h, h', k, done[1..], t, name, v);
    }
  }

  // What something resolves from, or is an object itself, is an object.
  lemma KidIsObject(h: Heap, k: Node, path: seq<CString>)
    requires IsForest(h) && k in h && IsObject(h, Resolve(h, k, path))
    ensures IsObject(h, k)
  {
    if path != [] {
      NothingResolvesToNothing(h, path[1..]);
    }
  }

  // A path that leaves the way from o to t resolves as before.
  lemma {:induction false} OffTheWayKept(
      h: Heap, h': Heap, o: Node, done: seq<CString>, t: Node, name: CString, v: Node, q: seq<CString>)
    requires IsForest(h) && IsForest(h') && IsObject(h, o) && IsObject(h, t) && Stored(h, h', t, name, v)
    requires Resolve(h, o, done) == t && Unrelated(q, done)
    ensures o in h' && Resolve(h', o, q) == Resolve(h, o, q)
    decreases |done|
  {
    hide IsForest, Find, Kids, Stored;
    var k := Child(h, o, done[0]);
    ResolvedIsBelow(h, o, done);
    AboveIsKept(h, h', o, t, name, v);
    NothingResolvesToNothing(h, done[1..]);
    KidIsObject(h, k, done[1..]);
    var x := Child(h, o, q[0]);
    assert Child(h', o, q[0]) == x && Child(h', o, done[0]) == k;
    if q[0] == done[0] {
      UnrelatedTails(q, done);
      OffTheWayKept(h, h', k, done[1..], t, name, v, q[1..]);
    } else if x == null {
      NothingResolvesToNothing(h, q[1..]);
      NothingResolvesToNothing(h', q[1..]);
    } else {
      ResolvedIsBelow(h, k, done[1..]);
      SiblingKept(h, h', o, done[0], q[0], t, name, v);
      SameBelowSameResolve(h, h', x, q[1..]);
    }
  }

  lemma SiblingKept(h: Heap, h': Heap, o: Node, a: CString, b: CString, t: Node, name: CString, v: Node)
    requires IsForest(h) && IsObject(h, o) && IsObject(h, t) && Stored(h, h', t, name, v)
    requires a != b && Child(h, o, a) != null && Child(h, o, b) != null && InTree(h, Child(h, o, a), t)
    ensures SameBelow(h, h', Child(h, o, b))
  {
    hide IsForest, Find, Kids;
    var k, x := Child(h, o, a), Child(h, o, b);
    KidIsBelow(h, o, k);
    KidIsBelow(h, o, x);
    if InTree(h, k, x) {
      OffTheTree(h, o, x, k);
      ChildrenDiffer(h, o, a, b);
    } else if InTree(h, x, t) {
      AncestorsAreInLine(h, t, k, x);
      OffTheTree(h, o, k, x);
    } else {
      if Replaced(h, t, name, x) {
        var d := Held(h, t, name);
        KidIsBelow(h, t, d);
        TreesNest(h, t, d, x);
        TreesNest(h, k, t, x);
      }
      StoredElsewhere(h, h', t, name, v, x);
    }
  }

  lemma {:induction false} ChainPrefix(h: Heap, t: Node, rest: seq<CString>, v: Node, news: seq<Node>, p: seq<CString>)
    requires IsForest(h) && IsObject(h, t) && Outside(h, t, v) && h[v].parent == null
    requires p < rest && |news| == |rest| - 1 && AllNew(h, news)
    requires |rest| > 1 ==> Child(h, t, rest[0]) == null
    ensures var h' := Chain(h, t, rest, v, news).heap;
            && t in h' && IsObject(h', Resolve(h', t, p))
            && (p != [] ==> Resolve(h, t, p) == null)
    decreases |rest|
  {
    hide IsForest, Find, Kids, Stored, SetIn, Child;
    ChainStores(h, t, rest, v, news);
    var h' := Chain(h, t, rest, v, news).heap;
    StoredChildren(h, h', t, rest[0], Link(rest, v, news), rest[0]);
    if p != [] {
      var grown := GrowIn(h, t, rest[0], news[0]);
      GrownFacts(h, t, rest[0], news[0]);
      NewObjectIsEmpty(grown, news[0], rest[1]);
      NothingResolvesToNothing(h, p[1..]);
      assert p[1..] < rest[1..];
      ChainPrefix(grown, news[0], rest[1..], v, news[1..], p[1..]);
    }
  }

  lemma {:induction false} WayPrefixKept(
      h: Heap, h': Heap, o: Node, done: seq<CString>, t: Node, name: CString, v: Node, p: seq<CString>)
    requires IsForest(h) && IsForest(h') && IsObject(h, o) && IsObject(h, t) && Stored(h, h', t, name, v)
    requires Resolve(h, o, done) == t && p < done
    ensures o in h' && Resolve(h', o, p) == Resolve(h, o, p) && IsObject(h', Resolve(h', o, p))
    decreases |done|
  {
    hide IsForest, Find, Kids, Stored;
    ResolvedIsBelow(h, o, done);
    AboveIsKept(h, h', o, t, name, v);
    if p != [] {
      var k := Child(h, o, done[0]);
      assert Child(h', o, done[0]) == k && p[0] == done[0];
      NothingResolvesToNothing(h, done[1..]);
      KidIsObject(h, k, done[1..]);
      assert p[1..] < done[1..];
      WayPrefixKept(h, h', k, done[1..], t, name, v, p[1..]);
    }
  }

  // ---- Dotted update ----

  ghost function Missing(h: Heap, o: Node, path: seq<CString>): (n: nat)
    requires IsForest(h) && IsObject(h, o) && path != []
  {
    var d := Descend(h, o, path);
    if d.Blocked? then 0 else |d.rest| - 1
  }

  lemma OutsideBelow(h: Heap, o: Node, t: Node, v: Node)
    requires IsForest(h) && Outside(h, o, v) && t in h && InTree(h, o, t)
    ensures Outside(h, t, v)
  {
    if h[v].parent == null && (v == t || v in h[t].above) {
      assert ParentKnows(h, v);
      AncestorsAreInLine(h, t, o, v);
    }
  }

  /** json_object_dotset_value: down the existing objects, then new ones for the rest of the path. */
  ghost function DotSetIn(h: Heap, o: Node, path: seq<CString>, v: Node, news: seq<Node>): (r: Outcome)
    requires IsForest(h) && IsObject(h, o) && path != [] && Outside(h, o, v)
    requires |news| == Missing(h, o, path) && AllNew(h, news)
    ensures IsForest(r.heap)
  {
    var d := Descend(h, o, path);
    if d.Blocked? then Outcome(false, h)
    else
      ReachedIsOnPath(h, o, path);
      OutsideBelow(h, o, d.at, v);
      Chain(h, d.at, d.rest, v, news)
  }

  /** A dotted update with a value from outside all containers fails exactly when some proper prefix of
      the path resolves to a value that is not an object, and then changes nothing. */
  lemma {:induction false} DotSetFailsIff(h: Heap, o: Node, path: seq<CString>, v: Node, news: seq<Node>)
    requires IsForest(h) && IsObject(h, o) && path != [] && Outside(h, o, v) && h[v].parent == null
    requires |news| == Missing(h, o, path) && AllNew(h, news)
    ensures var r := DotSetIn(h, o, path, v, news);
            && (!r.ok <==> exists k :: 0 < k < |path| && BlocksAt(h, o, path, k))
            && (!r.ok ==> r.heap == h)
  {
    hide IsForest, Find, Kids, Child, Chain, BlocksAt;
    BlockedIff(h, o, path);
    var d := Descend(h, o, path);
    if d.Reached? {
      ReachedIsOnPath(h, o, path);
      OutsideBelow(h, o, d.at, v);
      ChainStores(h, d.at, d.rest, v, news);
    }
  }

  /** When it succeeds, the path resolves to the value, and what is below the value to what is below
      it; every path that is neither a prefix nor an extension resolves as before; and the proper
      prefixes resolve to objects, the same ones where there were any. */
  lemma {:induction false} DotSetIsExact(h: Heap, o: Node, path: seq<CString>, v: Node, news: seq<Node>)
    requires IsForest(h) && IsObject(h, o) && path != [] && Outside(h, o, v) && h[v].parent == null
    requires |news| == Missing(h, o, path) && AllNew(h, news)
    requires DotSetIn(h, o, path, v, news).ok
    ensures var h' := DotSetIn(h, o, path, v, news).heap;
            && o in h' && Resolve(h', o, path) == v
            && (forall q :: Resolve(h', o, path + q) == Resolve(h, v, q))
            && (forall q | Unrelated(q, path) :: Resolve(h', o, q) == Resolve(h, o, q))
            && (forall p | p < path :: IsObject(h', Resolve(h', o, p))
                                       && (Resolve(h, o, p) != null ==> Resolve(h', o, p) == Resolve(h, o, p)))
  {
    hide IsForest, Find, Kids, Child, Chain, Resolve, Unrelated, Stored;
    var h', d := DotSetIn(h, o, path, v, news).heap, Descend(h, o, path);
    var t, rest := d.at, d.rest;
    ReachedIsOnPath(h, o, path);
    OutsideBelow(h, o, t, v);
    ChainStores(h, t, rest, v, news);
    WayDownKept(h, h', o, d.done, t, rest[0], Link(rest, v, news));
    ChainResolves(h, t, rest, v, news);
    ResolveInSteps(h', o, d.done, rest);
    forall q
      ensures Resolve(h', o, path + q) == Resolve(h, v, q)
    {
      ResolveInSteps(h', o, path, q);
      ValueKept(h, h', t, rest[0], Link(rest, v, news), v, q);
    }
    forall q | Unrelated(q, path)
      ensures Resolve(h', o, q) == Resolve(h, o, q)
    {
      DotSetElsewhere(h, o, path, v, news, q);
    }
    forall p | p < path
      ensures IsObject(h', Resolve(h', o, p))
      ensures Resolve(h, o, p) != null ==> Resolve(h', o, p) == Resolve(h, o, p)
    {
      DotSetPrefix(h, o, path, v, news, p);
    }
  }

  lemma ValueKept(h: Heap, h': Heap, t: Node, name: CString, link: Node, v: Node, q: seq<CString>)
    requires IsForest(h) && IsForest(h') && IsObject(h, t) && Stored(h, h', t, name, link)
    requires Outside(h, t, v) && h[v].parent == null && v in h'
    ensures Resolve(h', v, q) == Resolve(h, v, q)
  {
    StoredElsewhere(h, h', t, name, link, v);
    SameBelowSameResolve(h, h', v, q);
  }

  lemma DotSetElsewhere(h: Heap, o: Node, path: seq<CString>, v: Node, news: seq<Node>, q: seq<CString>)
    requires IsForest(h) && IsObject(h, o) && path != [] && Outside(h, o, v) && h[v].parent == null
    requires |news| == Missing(h, o, path) && AllNew(h, news)
    requires DotSetIn(h, o, path, v, news).ok && Unrelated(q, path)
    ensures var h' := DotSetIn(h, o, path, v, news).heap;
            o in h' && Resolve(h', o, q) == Resolve(h, o, q)
  {
    hide IsForest, Find, Kids, Child, Chain, Resolve, Stored;
    var h', d := DotSetIn(h, o, path, v, news).heap, Descend(h, o, path);
    var t, rest, link := d.at, d.rest, Link(d.rest, v, news);
    ReachedIsOnPath(h, o, path);
    OutsideBelow(h, o, t, v);
    ChainStores(h, t, rest, v, news);
    WayDownKept(h, h', o, d.done, t, rest[0], link);
    if Unrelated(q, d.done) {
      OffTheWayKept(h, h', o, d.done, t, rest[0], link, q);
    } else {
      var r := q[|d.done|..];
      assert q == d.done + r;
      UnrelatedRest(d.done, r, rest);
      ChainElsewhere(h, t, rest, v, news, r);
      ResolveInSteps(h, o, d.done, r);
      ResolveInSteps(h', o, d.done, r);
    }
  }

  lemma UnrelatedRest(done: seq<CString>, r: seq<CString>, rest: seq<CString>)
    requires Unrelated(done + r, done + rest)
    ensures Unrelated(r, rest)
  {
    PrefixBehind(done, r, rest);
    PrefixBehind(done, rest, r);
  }

  lemma PrefixBehind(done: seq<CString>, p: seq<CString>, q: seq<CString>)
    ensures done + p <= done + q <==> p <= q
  {
    if p <= q {
      assert done + q == done + p + q[|p|..];
    }
    if done + p <= done + q {
      assert forall i | 0 <= i < |p| :: p[i] == (done + p)[|done| + i] == (done + q)[|done| + i] == q[i];
    }
  }

  lemma DotSetPrefix(h: Heap, o: Node, path: seq<CString>, v: Node, news: seq<Node>, p: seq<CString>)
    requires IsForest(h) && IsObject(h, o) && path != [] && Outside(h, o, v) && h[v].parent == null
    requires |news| == Missing(h, o, path) && AllNew(h, news)
    requires DotSetIn(h, o, path, v, news).ok && p < path
    ensures var h' := DotSetIn(h, o, path, v, news).heap;
            && o in h' && IsObject(h', Resolve(h', o, p))
            && (Resolve(h, o, p) != null ==> Resolve(h', o, p) == Resolve(h, o, p))
  {
    hide IsForest, Find, Kids, Child, Chain, Resolve, Stored;
    var h', d := DotSetIn(h, o, path, v, news).heap, Descend(h, o, path);
    var t, rest, link := d.at, d.rest, Link(d.rest, v, news);
    ReachedIsOnPath(h, o, path);
    OutsideBelow(h, o, t, v);
    ChainStores(h, t, rest, v, news);
    WayDownKept(h, h', o, d.done, t, rest[0], link);
    if |p| < |d.done| {
      assert p < d.done;
      WayPrefixKept(h, h', o, d.done, t, rest[0], link, p);
    } else {
      var r := p[|d.done|..];
      assert p == d.done + r && r < rest;
      ChainPrefix(h, t, rest, v, news, r);
      ResolveInSteps(h, o, d.done, r);
      ResolveInSteps(h', o, d.done, r);
      if r == [] {
        assert d.done + r == d.done;
      }
    }
  }

  /** A value that already is in a container is refused, but only at the end: the objects made on the
      way stay. So a failed update leaves the tree alone exactly when none was missing. */
  lemma {:induction false} DotSetOfParented(h: Heap, o: Node, path: seq<CString>, v: Node, news: seq<Node>)
    requires IsForest(h) && IsObject(h, o) && path != [] && Outside(h, o, v) && h[v].parent != null
    requires |news| == Missing(h, o, path) && AllNew(h, news)
    ensures var r := DotSetIn(h, o, path, v, news);
            !r.ok && (r.heap == h <==> Missing(h, o, path) == 0)
  {
    hide IsForest, Find, Kids, Child, Resolve;
    var d := Descend(h, o, path);
    if d.Reached? {
      ReachedIsOnPath(h, o, path);
      OutsideBelow(h, o, d.at, v);
      ChainOfParented(h, d.at, d.rest, v, news);
    }
  }

  lemma {:induction false} ChainOfParented(h: Heap, t: Node, rest: seq<CString>, v: Node, news: seq<Node>)
    requires IsForest(h) && IsObject(h, t) && rest != [] && Outside(h, t, v) && h[v].parent != null
    requires |news| == |rest| - 1 && AllNew(h, news)
    requires |rest| > 1 ==> Child(h, t, rest[0]) == null
    ensures var r := Chain(h, t, rest, v, news);
            && !r.ok && h.Keys <= r.heap.Keys && (news == [] ==> r.heap == h) && (news != [] ==> news[0] in r.heap)
    decreases |rest|
  {
    hide IsForest, Find, Kids;
    if |rest| > 1 {
      var grown := GrowIn(h, t, rest[0], news[0]);
      GrownFacts(h, t, rest[0], news[0]);
      NewObjectIsEmpty(grown, news[0], rest[1]);
      ChainOfParented(grown, news[0], rest[1..], v, news[1..]);
    }
  }

  // ---- The recursion of json_object_dotset_value ----

  lemma LastSegment(h: Heap, o: Node, path: seq<CString>, v: Node)
    requires IsForest(h) && IsObject(h, o) && |path| == 1 && Outside(h, o, v)
    ensures Missing(h, o, path) == 0 && DotSetIn(h, o, path, v, []) == SetIn(h, o, path[0], v)
  {
  }

  lemma DotSetBelow(h: Heap, o: Node, path: seq<CString>, v: Node, news: seq<Node>)
    requires IsForest(h) && IsObject(h, o) && |path| > 1 && Outside(h, o, v)
    requires IsObject(h, Child(h, o, path[0]))
    ensures var k := Child(h, o, path[0]);
            && Outside(h, k, v) && Missing(h, o, path) == Missing(h, k, path[1..])
            && (|news| == Missing(h, o, path) && AllNew(h, news) ==>
                  DotSetIn(h, o, path, v, news) == DotSetIn(h, k, path[1..], v, news))
  {
    hide IsForest, Find, Kids, Chain, Child;
    var k := Child(h, o, path[0]);
    KidIsBelow(h, o, k);
    OutsideBelow(h, o, k, v);
  }

  lemma DotSetBlocked(h: Heap, o: Node, path: seq<CString>, v: Node)
    requires IsForest(h) && IsObject(h, o) && |path| > 1 && Outside(h, o, v)
    requires Child(h, o, path[0]) != null && !IsObject(h, Child(h, o, path[0]))
    ensures Missing(h, o, path) == 0 && DotSetIn(h, o, path, v, []) == Outcome(false, h)
  {
  }

  lemma DotSetGrown(h: Heap, o: Node, path: seq<CString>, v: Node, made: Node, more: seq<Node>)
    requires IsForest(h) && IsObject(h, o) && |path| > 1 && Outside(h, o, v)
    requires Child(h, o, path[0]) == null && made !in h
    ensures var grown := GrowIn(h, o, path[0], made);
            && IsObject(grown, made) && Outside(grown, made, v)
            && (|more| == Missing(grown, made, path[1..]) && AllNew(grown, more) ==>
                  && AllNew(h, [made] + more) && |[made] + more| == Missing(h, o, path)
                  && DotSetIn(h, o, path, v, [made] + more) == DotSetIn(grown, made, path[1..], v, more))
  {
    hide IsForest, Find, Kids, Child, SetIn;
    var grown := GrowIn(h, o, path[0], made);
    GrownFacts(h, o, path[0], made);
    NewObjectIsEmpty(grown, made, path[1]);
    if |more| == Missing(grown, made, path[1..]) && AllNew(grown, more) {
      var news := [made] + more;
      assert news[1..] == more;
      assert Descend(grown, made, path[1..]) == Reached([], made, path[1..]);
    }
  }
}
