/** The loader behind Ruby's require (mrbgems/require/src/require.c): a depth-first search over files. */
module Require {
  // It keeps a table of required files, a list of finished ones and a stack of loads.
  type Path = string

  // Which files each file requires, in order, after name resolution. Loading never fails.
  type Files = map<Path, seq<Path>>

  ghost predicate Complete(g: Files) {
    forall p, i | p in g && 0 <= i < |g[p]| :: g[p][i] in g
  }

  ghost predicate AllIn(g: Files, paths: seq<Path>) {
    forall i | 0 <= i < |paths| :: paths[i] in g
  }

  // An entry of the load stack; marked if the load was started by a require.
  datatype Frame = Frame(path: Path, marked: bool)

  datatype State = State(
    required: set<Path>,     // $MRUBY_REQUIRED_FILES
    features: seq<Path>,     // $LOADED_FEATURES
    frames: seq<Frame>,      // the load stack, top last
    runs: seq<Path>          // the files whose bodies a require has run, in order of their start
  )

  // mrb_require_init
  const FRESH := State({}, [], [], [])

  function Pushed(st: State, path: Path, marked: bool): State {
    st.(frames := st.frames + [Frame(path, marked)], runs := st.runs + if marked then [path] else [])
  }

  // The state in which the body of a newly required file starts to run.
  function Started(st: State, path: Path): State {
    Pushed(st.(required := st.required + {path}), path, true)
  }

  // mrb_require_absolute
  ghost function RequireFile(g: Files, st: State, path: Path): (r: State)
    requires Complete(g) && path in g
    ensures st.required + {path} <= r.required && r.frames == st.frames
    decreases g.Keys - st.required, 0
  {
    if path in st.required then st
    else
      var ran := LoadFile(g, st.(required := st.required + {path}), path, true);
      ran.(features := ran.features + [path])
  }

  // mrb_load: push, run the body, pop.
  ghost function LoadFile(g: Files, st: State, path: Path, marked: bool): (r: State)
    requires Complete(g) && path in g
    ensures st.required <= r.required && r.frames == st.frames
    decreases g.Keys - st.required, 2, 0
  {
    var ran := RequireAll(g, Pushed(st, path, marked), g[path]);
    ran.(frames := ran.frames[..|ran.frames| - 1])
  }

  // The requires of a body, one after the other.
  ghost function RequireAll(g: Files, st: State, paths: seq<Path>): (r: State)
    requires Complete(g) && AllIn(g, paths)
    ensures st.required <= r.required && r.frames == st.frames
    ensures forall i | 0 <= i < |paths| :: paths[i] in r.required
    decreases g.Keys - st.required, 1, |paths|
  {
    if paths == [] then st
    else
      var first := RequireFile(g, st, paths[0]);
      RequireAll(g, first, paths[1..])
  }

  lemma RequireUnfolds(g: Files, st: State, path: Path)
    requires Complete(g) && path in g && path !in st.required
    ensures var ran := RequireAll(g, Started(st, path), g[path]);
            RequireFile(g, st, path) == ran.(frames := st.frames, features := ran.features + [path])
  {
  }

  // The requires from the i-th on: the i-th first, then the others.
  lemma RequiresFrom(g: Files, st: State, paths: seq<Path>, i: nat)
    requires Complete(g) && AllIn(g, paths)
    requires i <= |paths|
    ensures RequireAll(g, st, paths[i..]) ==
            if i == |paths| then st else RequireAll(g, RequireFile(g, st, paths[i]), paths[i + 1..])
  {
    if i < |paths| {
      assert paths[i..][1..] == paths[i + 1..];
    }
  }

  // ---- Exactly once ----

  ghost function Elements(s: seq<Path>): set<Path> {
    set p | p in s
  }

  ghost predicate Distinct(s: seq<Path>) {
    forall i, j | 0 <= i < j < |s| :: s[i] != s[j]
  }

  // s lists exactly the members of the set, each once.
  ghost predicate Enumerates(s: seq<Path>, members: set<Path>) {
    Distinct(s) && Elements(s) == members
  }

  // Between the two states every newly marked file was run once and finished once, and nothing
  // else was.
  ghost predicate RanOnce(before: State, after: State) {
    && before.required <= after.required
    && before.features <= after.features
    && before.runs <= after.runs
    && Enumerates(after.features[|before.features|..], after.required - before.required)
    && Enumerates(after.runs[|before.runs|..], after.required - before.required)
  }

  lemma EnumerationsJoin(s: seq<Path>, a: set<Path>, t: seq<Path>, b: set<Path>)
    requires Enumerates(s, a) && Enumerates(t, b) && a !! b
    ensures Enumerates(s + t, a + b)
  {
    forall i | 0 <= i < |s|
      ensures s[i] in a
    {
      assert s[i] in Elements(s);
    }
    forall i | 0 <= i < |t|
      ensures t[i] in b
    {
      assert t[i] in Elements(t);
    }
  }

  lemma RanOnceTwice(a: State, b: State, c: State)
    requires RanOnce(a, b) && RanOnce(b, c)
    ensures RanOnce(a, c)
  {
    var first, second := b.required - a.required, c.required - b.required;
    assert first + second == c.required - a.required;
    EnumerationsJoin(b.features[|a.features|..], first, c.features[|b.features|..], second);
    assert c.features[|a.features|..] == b.features[|a.features|..] + c.features[|b.features|..];
    EnumerationsJoin(b.runs[|a.runs|..], first, c.runs[|b.runs|..], second);
    assert c.runs[|a.runs|..] == b.runs[|a.runs|..] + c.runs[|b.runs|..];
  }

  lemma JustOne(path: Path)
    ensures Enumerates([path], {path})
  {
  }

  lemma NothingRan(st: State)
    ensures RanOnce(st, st)
  {
  }

  lemma RequiringAgainDoesNothing(g: Files, st: State, path: Path)
    requires Complete(g) && path in g && path in st.required
    ensures RequireFile(g, st, path) == st
  {
  }

  /** A require runs and finishes exactly the files it marks, each once: cycles included. */
  lemma {:induction false} RequireRunsEachFileOnce(g: Files, st: State, path: Path)
    requires Complete(g) && path in g
    ensures RanOnce(st, RequireFile(g, st, path))
    decreases g.Keys - st.required, 0
  {
    hide RequireFile, RequireAll, LoadFile, Enumerates;
    if path in st.required {
      RequiringAgainDoesNothing(g, st, path);
      NothingRan(st);
    } else {
      var started := Started(st, path);
      var ran := RequireAll(g, started, g[path]);
      RequiresRunEachFileOnce(g, started, g[path]);
      var r := RequireFile(g, st, path);
      RequireUnfolds(g, st, path);
      var inner := ran.required - started.required;
      assert Enumerates([path], {path}) by { JustOne(path); }
      assert inner + {path} == {path} + inner == r.required - st.required;
      EnumerationsJoin(ran.features[|st.features|..], inner, [path], {path});
      assert r.features[|st.features|..] == ran.features[|st.features|..] + [path];
      EnumerationsJoin([path], {path}, ran.runs[|started.runs|..], inner);
      assert r.runs[|st.runs|..] == [path] + ran.runs[|started.runs|..];
    }
  }

  lemma {:induction false} RequiresRunEachFileOnce(g: Files, st: State, paths: seq<Path>)
    requires Complete(g) && AllIn(g, paths)
    ensures RanOnce(st, RequireAll(g, st, paths))
    decreases g.Keys - st.required, 1, |paths|
  {
    if paths != [] {
      var first := RequireFile(g, st, paths[0]);
      RequireRunsEachFileOnce(g, st, paths[0]);
      RequiresRunEachFileOnce(g, first, paths[1..]);
      RanOnceTwice(st, first, RequireAll(g, first, paths[1..]));
    }
  }

  // ---- What is running ----

  ghost function InProgress(frames: seq<Frame>): seq<Path> {
    if frames == [] then []
    else InProgress(frames[..|frames| - 1]) + if frames[|frames| - 1].marked then [frames[|frames| - 1].path] else []
  }

  /** Marked files are finished or in progress, never both, and none is in progress twice or
      finished twice. */
  ghost predicate Consistent(st: State) {
    && Enumerates(st.features + InProgress(st.frames), st.required)
    && Enumerates(st.runs, st.required)
  }

  lemma EnumerationGrows(f: seq<Path>, running: seq<Path>, a: set<Path>, t: seq<Path>, b: set<Path>)
    requires Enumerates(f + running, a) && Enumerates(t, b) && a !! b
    ensures Enumerates(f + t + running, a + b)
  {
    EnumerationsJoin(f + running, a, t, b);
    var s, s' := f + running + t, f + t + running;
    assert multiset(s) == multiset(s');
    MultisetKeepsEnumeration(s, s', a + b);
  }

  lemma MultisetKeepsEnumeration(s: seq<Path>, t: seq<Path>, members: set<Path>)
    requires Enumerates(s, members) && multiset(s) == multiset(t)
    ensures Enumerates(t, members)
  {
    forall p
      ensures p in t <==> p in s
    {
      assert p in multiset(t) <==> p in multiset(s);
    }
    forall i, j | 0 <= i < j < |t|
      ensures t[i] != t[j]
    {
      if t[i] == t[j] {
        TwiceCounts(t, i, j);
        OnceCounts(s, t[i]);
      }
    }
  }

  lemma TwiceCounts(s: seq<Path>, i: nat, j: nat)
    requires i < j < |s| && s[i] == s[j]
    ensures multiset(s)[s[i]] >= 2
  {
    assert s == s[..i + 1] + s[i + 1..];
    assert s[i] in multiset(s[..i + 1]);
    assert s[i + 1..][j - i - 1] == s[i];
    assert s[i] in multiset(s[i + 1..]);
  }

  lemma {:induction false} OnceCounts(s: seq<Path>, p: Path)
    requires Distinct(s)
    ensures multiset(s)[p] <= 1
  {
    if s != [] {
      OnceCounts(s[1..], p);
      assert s == [s[0]] + s[1..];
      assert p in multiset(s[1..]) <==> p in s[1..];
    }
  }

  /** Consistency holds whenever a file body starts and whenever a require returns. */
  lemma {:induction false} StartIsConsistent(st: State, path: Path)
    requires Consistent(st) && path !in st.required
    ensures Consistent(Started(st, path))
  {
    var started := Started(st, path);
    assert started.frames[..|started.frames| - 1] == st.frames;
    assert InProgress(started.frames) == InProgress(st.frames) + [path];
    assert st.features + (InProgress(st.frames) + [path]) == st.features + InProgress(st.frames) + [path];
    EnumerationsJoin(st.features + InProgress(st.frames), st.required, [path], {path});
    EnumerationsJoin(st.runs, st.required, [path], {path});
  }

  lemma {:induction false} RequireKeepsConsistent(g: Files, st: State, path: Path)
    requires Complete(g) && path in g && Consistent(st)
    ensures Consistent(RequireFile(g, st, path))
  {
    RequireRunsEachFileOnce(g, st, path);
    RanOnceKeepsConsistent(st, RequireFile(g, st, path));
  }

  lemma RanOnceKeepsConsistent(st: State, r: State)
    requires Consistent(st) && RanOnce(st, r) && r.frames == st.frames
    ensures Consistent(r)
  {
    var more := r.required - st.required;
    assert st.required + more == r.required;
    EnumerationGrows(st.features, InProgress(st.frames), st.required, r.features[|st.features|..], more);
    assert r.features == st.features + r.features[|st.features|..];
    EnumerationsJoin(st.runs, st.required, r.runs[|st.runs|..], more);
    assert r.runs == st.runs + r.runs[|st.runs|..];
  }

  // ---- What gets loaded ----

  // The files of w, each requiring the next.
  ghost predicate Walk(g: Files, w: seq<Path>) {
    |w| > 0 && forall i | 0 <= i < |w| - 1 :: w[i] in g && w[i + 1] in g[w[i]]
  }

  ghost predicate Joins(g: Files, w: seq<Path>, p: Path, q: Path) {
    Walk(g, w) && w[0] == p && w[|w| - 1] == q
  }

  ghost predicate Avoids(w: seq<Path>, avoided: set<Path>) {
    forall i | 0 <= i < |w| :: w[i] !in avoided
  }

  // q can be reached from p, ends included, without meeting an avoided file.
  ghost predicate ReachesAround(g: Files, avoided: set<Path>, p: Path, q: Path) {
    exists w :: Joins(g, w, p, q) && Avoids(w, avoided)
  }

  ghost predicate SomeReachesAround(g: Files, avoided: set<Path>, paths: seq<Path>, q: Path) {
    exists i :: 0 <= i < |paths| && ReachesAround(g, avoided, paths[i], q)
  }

  lemma StepThenReach(g: Files, avoided: set<Path>, p: Path, q: Path)
    requires p in g && p !in avoided && SomeReachesAround(g, avoided + {p}, g[p], q)
    ensures ReachesAround(g, avoided, p, q)
  {
    var i :| 0 <= i < |g[p]| && ReachesAround(g, avoided + {p}, g[p][i], q);
    var w :| Joins(g, w, g[p][i], q) && Avoids(w, avoided + {p});
    assert Joins(g, [p] + w, p, q) && Avoids([p] + w, avoided);
  }

  lemma ReachAroundLess(g: Files, avoided: set<Path>, more: set<Path>, paths: seq<Path>, q: Path)
    requires avoided <= more && SomeReachesAround(g, more, paths, q)
    ensures SomeReachesAround(g, avoided, paths, q)
  {
    var i :| 0 <= i < |paths| && ReachesAround(g, more, paths[i], q);
    var w :| Joins(g, w, paths[i], q) && Avoids(w, more);
    assert Joins(g, w, paths[i], q) && Avoids(w, avoided);
  }

  // Whatever a require marks can be reached through files that were not marked before.
  lemma {:induction false} MarkedIsReached(g: Files, st: State, path: Path, q: Path)
    requires Complete(g) && path in g
    requires q in RequireFile(g, st, path).required - st.required
    ensures ReachesAround(g, st.required, path, q)
    decreases g.Keys - st.required, 0
  {
    if q == path {
      assert Joins(g, [path], path, q) && Avoids([path], st.required);
    } else {
      var started := Started(st, path);
      MarkedByAllIsReached(g, started, g[path], q);
      StepThenReach(g, st.required, path, q);
    }
  }

  lemma {:induction false} MarkedByAllIsReached(g: Files, st: State, paths: seq<Path>, q: Path)
    requires Complete(g) && AllIn(g, paths)
    requires q in RequireAll(g, st, paths).required - st.required
    ensures SomeReachesAround(g, st.required, paths, q)
    decreases g.Keys - st.required, 1, |paths|
  {
    var first := RequireFile(g, st, paths[0]);
    if q in first.required {
      MarkedIsReached(g, st, paths[0], q);
    } else {
      MarkedByAllIsReached(g, first, paths[1..], q);
      ReachAroundLess(g, st.required, first.required, paths[1..], q);
      var i :| 0 <= i < |paths[1..]| && ReachesAround(g, st.required, paths[1..][i], q);
      assert ReachesAround(g, st.required, paths[i + 1], q);
    }
  }

  // Everything the newly marked files require is marked too.
  ghost predicate NewlyClosed(g: Files, before: set<Path>, after: set<Path>) {
    forall p, q | p in after - before && p in g && q in g[p] :: q in after
  }

  lemma {:induction false} RequireClosesWhatItMarks(g: Files, st: State, path: Path)
    requires Complete(g) && path in g
    ensures NewlyClosed(g, st.required, RequireFile(g, st, path).required)
    decreases g.Keys - st.required, 0
  {
    if path !in st.required {
      RequiresCloseWhatTheyMark(g, Started(st, path), g[path]);
    }
  }

  lemma {:induction false} RequiresCloseWhatTheyMark(g: Files, st: State, paths: seq<Path>)
    requires Complete(g) && AllIn(g, paths)
    ensures NewlyClosed(g, st.required, RequireAll(g, st, paths).required)
    decreases g.Keys - st.required, 1, |paths|
  {
    if paths != [] {
      var first := RequireFile(g, st, paths[0]);
      RequireClosesWhatItMarks(g, st, paths[0]);
      RequiresCloseWhatTheyMark(g, first, paths[1..]);
    }
  }

  lemma {:induction false} ClosedContainsReached(g: Files, before: set<Path>, after: set<Path>, w: seq<Path>)
    requires Walk(g, w) && Avoids(w, before) && NewlyClosed(g, before, after) && w[0] in after
    ensures w[|w| - 1] in after
    decreases |w|
  {
    if |w| > 1 {
      assert w[1] in g[w[0]];
      ClosedContainsReached(g, before, after, w[1..]);
    }
  }

  /** A list of requires marks exactly what can be reached from it through files that were not
      marked before. */
  lemma {:induction false} RequiresMarkWhatIsReached(g: Files, st: State, paths: seq<Path>, q: Path)
    requires Complete(g) && AllIn(g, paths)
    ensures q in RequireAll(g, st, paths).required <==>
            q in st.required || SomeReachesAround(g, st.required, paths, q)
  {
    var r := RequireAll(g, st, paths);
    if q in r.required - st.required {
      MarkedByAllIsReached(g, st, paths, q);
    }
    if q !in st.required && SomeReachesAround(g, st.required, paths, q) {
      var i :| 0 <= i < |paths| && ReachesAround(g, st.required, paths[i], q);
      var w :| Joins(g, w, paths[i], q) && Avoids(w, st.required);
      RequiresCloseWhatTheyMark(g, st, paths);
      ClosedContainsReached(g, st.required, r.required, w);
    }
  }

  // ---- The order of the list of features ----

  ghost predicate Reaches(g: Files, p: Path, q: Path) {
    exists w :: Joins(g, w, p, q) && |w| > 1
  }

  ghost predicate Acyclic(g: Files, files: seq<Path>) {
    forall p | p in files :: !Reaches(g, p, p)
  }

  // Every file stands behind all files it requires.
  ghost predicate DependenciesFirst(g: Files, features: seq<Path>) {
    forall i, q | 0 <= i < |features| && features[i] in g && q in g[features[i]] :: q in features[..i]
  }

  // The same, up to files that require it back.
  ghost predicate Ordered(g: Files, features: seq<Path>) {
    forall i, q | 0 <= i < |features| && features[i] in g && q in g[features[i]] ::
      q in features[..i] || Reaches(g, q, features[i])
  }

  // Every marked file that is not finished is waiting for path.
  ghost predicate PendingReach(g: Files, st: State, path: Path) {
    forall p | p in st.required && p !in st.features :: Reaches(g, p, path)
  }

  lemma ReachThenStep(g: Files, p: Path, q: Path, r: Path)
    requires (p == q || Reaches(g, p, q)) && q in g && r in g[q]
    ensures Reaches(g, p, r)
  {
    if p == q {
      assert Joins(g, [p, r], p, r);
    } else {
      var w :| Joins(g, w, p, q) && |w| > 1;
      assert Joins(g, w + [r], p, r);
    }
  }

  lemma {:induction false} RequireKeepsOrder(g: Files, st: State, path: Path)
    requires Complete(g) && path in g
    requires Elements(st.features) <= st.required && Ordered(g, st.features) && PendingReach(g, st, path)
    ensures Ordered(g, RequireFile(g, st, path).features)
    decreases g.Keys - st.required, 0
  {
    if path !in st.required {
      var started := Started(st, path);
      var ran := RequireAll(g, started, g[path]);
      forall i | 0 <= i < |g[path]|
        ensures PendingReach(g, started, g[path][i])
      {
        forall p | p in started.required && p !in started.features
          ensures Reaches(g, p, g[path][i])
        {
          ReachThenStep(g, p, path, g[path][i]);
        }
      }
      RequiresKeepOrder(g, started, g[path]);
      RequiresRunEachFileOnce(g, started, g[path]);
      forall q | q in g[path]
        ensures q in ran.features || Reaches(g, q, path)
      {
        var i :| 0 <= i < |g[path]| && g[path][i] == q;
        assert q in ran.required;
        if q in started.required {
          if q == path {
            ReachThenStep(g, path, path, q);
          } else if q !in st.features {
            assert Reaches(g, q, path);
          }
        } else {
          assert q in Elements(ran.features[|st.features|..]);
        }
      }
      var r := RequireFile(g, st, path);
      RequireUnfolds(g, st, path);
      assert forall i | 0 <= i <= |ran.features| :: r.features[..i] == ran.features[..i];
    }
  }

  lemma {:induction false} RequiresKeepOrder(g: Files, st: State, paths: seq<Path>)
    requires Complete(g) && AllIn(g, paths)
    requires Elements(st.features) <= st.required && Ordered(g, st.features)
    requires forall i | 0 <= i < |paths| :: PendingReach(g, st, paths[i])
    ensures Ordered(g, RequireAll(g, st, paths).features)
    decreases g.Keys - st.required, 1, |paths|
  {
    if paths != [] {
      var first := RequireFile(g, st, paths[0]);
      RequireKeepsOrder(g, st, paths[0]);
      RequireRunsEachFileOnce(g, st, paths[0]);
      forall p | p in first.required && p !in first.features
        ensures p in st.required && p !in st.features
      {
        assert p !in Elements(first.features[|st.features|..]);
        assert first.features == st.features + first.features[|st.features|..];
      }
      assert Elements(first.features) <= first.required by {
        forall p | p in first.features
          ensures p in first.required
        {
          assert p in st.features || p in first.features[|st.features|..];
          assert p in Elements(st.features) || p in Elements(first.features[|st.features|..]);
        }
      }
      RequiresKeepOrder(g, first, paths[1..]);
    }
  }

  // ---- From an idle interpreter ----

  // No load in progress, and everything loaded so far was loaded by require.
  ghost predicate Idle(g: Files, st: State) {
    && st.frames == []
    && Consistent(st)
    && Ordered(g, st.features)
    && NewlyClosed(g, {}, st.required)
  }

  lemma IdleIsFinished(g: Files, st: State)
    requires Idle(g, st)
    ensures Elements(st.features) == st.required && Distinct(st.features)
    ensures forall p :: p in st.required <==> p in st.features
  {
    assert InProgress(st.frames) == [];
    assert st.features + [] == st.features;
    forall p
      ensures p in st.required <==> p in st.features
    {
      assert p in Elements(st.features) <==> p in st.features;
    }
  }

  /** Any sequence of requires leaves an idle interpreter idle; from the start that makes every
      interpreter that only requires files an idle one between requires. */
  lemma {:induction false} RequiresKeepIdle(g: Files, st: State, paths: seq<Path>)
    requires Complete(g) && AllIn(g, paths)
    requires Idle(g, st)
    ensures Idle(g, RequireAll(g, st, paths))
  {
    var r := RequireAll(g, st, paths);
    IdleIsFinished(g, st);
    RequiresKeepOrder(g, st, paths);
    RequiresRunEachFileOnce(g, st, paths);
    RanOnceKeepsConsistent(st, r);
    RequiresCloseWhatTheyMark(g, st, paths);
    assert NewlyClosed(g, {}, r.required);
  }

  lemma FreshIsIdle(g: Files)
    ensures Idle(g, FRESH)
  {
    assert InProgress(FRESH.frames) == [];
  }

  lemma {:induction false} WalkGoesBack(g: Files, features: seq<Path>, w: seq<Path>, i: nat)
    requires DependenciesFirst(g, features) && Walk(g, w) && i < |features| && w[0] == features[i]
    ensures w[|w| - 1] in features[..i + 1]
    ensures |w| > 1 ==> w[|w| - 1] in features[..i]
    decreases |w|
  {
    if |w| > 1 {
      assert w[0] in g && w[1] in g[w[0]];
      var k :| 0 <= k < i && features[..i][k] == w[1];
      WalkGoesBack(g, features, w[1..], k);
      assert features[..k + 1] <= features[..i];
    }
  }

  /** The list of features has every file behind the files it requires exactly when no loaded file
      requires itself, directly or not. */
  lemma {:induction false} OrderIffAcyclic(g: Files, st: State)
    requires Idle(g, st)
    ensures DependenciesFirst(g, st.features) <==> Acyclic(g, st.features)
  {
    IdleIsFinished(g, st);
    var features := st.features;
    if Acyclic(g, features) {
      forall i, q | 0 <= i < |features| && features[i] in g && q in g[features[i]]
        ensures q in features[..i]
      {
        assert features[i] in st.required && q in st.required;
        if Reaches(g, q, features[i]) {
          ReachThenStep(g, q, features[i], q);
        }
      }
    }
    if DependenciesFirst(g, features) {
      forall p | p in features
        ensures !Reaches(g, p, p)
      {
        if Reaches(g, p, p) {
          var w :| Joins(g, w, p, p) && |w| > 1;
          var i :| 0 <= i < |features| && features[i] == p;
          WalkGoesBack(g, features, w, i);
        }
      }
    }
  }

  // ---- Replay into a fresh interpreter ----

  function Reversed(s: seq<Path>): (r: seq<Path>)
    ensures |r| == |s|
    ensures forall i | 0 <= i < |s| :: r[i] == s[|s| - 1 - i]
  {
    if s == [] then [] else Reversed(s[1..]) + [s[0]]
  }

  // mrb_require_init_copy: require the finished files of the source, last one first.
  ghost function Replay(g: Files, source: State): (r: State)
    requires Complete(g) && AllIn(g, source.features)
  {
    RequireAll(g, FRESH, Reversed(source.features))
  }

  // Requiring the files of a closed list marks no other file.
  lemma ClosedListMarksItself(g: Files, order: seq<Path>, files: set<Path>)
    requires Complete(g) && AllIn(g, order)
    requires NewlyClosed(g, {}, files) && forall p :: p in order <==> p in files
    ensures RequireAll(g, FRESH, order).required == files
  {
    hide RequireAll, RequireFile, LoadFile;
    var r := RequireAll(g, FRESH, order);
    forall p
      ensures p in r.required <==> p in files
    {
      if p in r.required {
        RequiresMarkWhatIsReached(g, FRESH, order, p);
        var i :| 0 <= i < |order| && ReachesAround(g, {}, order[i], p);
        var w :| Joins(g, w, order[i], p) && Avoids(w, {});
        ClosedContainsReached(g, {}, files, w);
      }
      if p in files {
        var i :| 0 <= i < |order| && order[i] == p;
      }
    }
  }

  lemma ReversedHasTheSame(s: seq<Path>)
    ensures forall p :: p in Reversed(s) <==> p in s
  {
    hide Reversed;
    forall p
      ensures p in Reversed(s) <==> p in s
    {
      if p in s {
        var i :| 0 <= i < |s| && s[i] == p;
        assert Reversed(s)[|s| - 1 - i] == p;
      }
    }
  }

  /** The replay of an idle interpreter has loaded the same files, each once, and its list has the
      dependencies first exactly when that of the source has. */
  lemma {:induction false} ReplayLoadsTheSame(g: Files, source: State)
    requires Complete(g) && Idle(g, source) && AllIn(g, source.features)
    ensures Idle(g, Replay(g, source))
    ensures Replay(g, source).required == source.required
    ensures Enumerates(Replay(g, source).features, Elements(source.features))
    ensures DependenciesFirst(g, Replay(g, source).features) <==> DependenciesFirst(g, source.features)
  {
    hide RequireAll, RequireFile, LoadFile, Reversed, Consistent, Ordered, DependenciesFirst, Acyclic;
    var order, r := Reversed(source.features), Replay(g, source);
    IdleIsFinished(g, source);
    ReversedHasTheSame(source.features);
    FreshIsIdle(g);
    RequiresKeepIdle(g, FRESH, order);
    IdleIsFinished(g, r);
    ClosedListMarksItself(g, order, source.required);
    OrderIffAcyclic(g, source);
    OrderIffAcyclic(g, r);
    SameFilesSameCycles(g, source.features, r.features);
  }

  lemma SameFilesSameCycles(g: Files, s: seq<Path>, t: seq<Path>)
    requires Elements(s) == Elements(t)
    ensures Acyclic(g, s) <==> Acyclic(g, t)
  {
    assert forall p :: p in s <==> p in Elements(s);
    assert forall p :: p in t <==> p in Elements(t);
  }

  lemma {:induction false} RequiringAllAgainDoesNothing(g: Files, st: State, paths: seq<Path>, i: nat)
    requires Complete(g) && AllIn(g, paths) && i <= |paths|
    requires forall k | 0 <= k < |paths| :: paths[k] in st.required
    ensures RequireAll(g, st, paths[i..]) == st
    decreases |paths| - i
  {
    hide RequireAll, RequireFile, LoadFile;
    RequiresFrom(g, st, paths, i);
    if i < |paths| {
      RequiringAgainDoesNothing(g, st, paths[i]);
      RequiringAllAgainDoesNothing(g, st, paths, i + 1);
    }
  }

  // What a single require lists in a fresh interpreter: what it marks, with the file itself last.
  lemma FirstRequireLists(g: Files, path: Path)
    requires Complete(g) && path in g
    ensures var r := RequireFile(g, FRESH, path);
            r.features != [] && r.features[|r.features| - 1] == path && Elements(r.features) == r.required
  {
    hide RequireAll, RequireFile, LoadFile;
    var r := RequireFile(g, FRESH, path);
    RequireUnfolds(g, FRESH, path);
    RequireRunsEachFileOnce(g, FRESH, path);
    assert r.features[|FRESH.features|..] == r.features && r.required - FRESH.required == r.required;
  }

  // A prefix that ends like a list without repetition is all of it.
  lemma PrefixWithSameLast(s: seq<Path>, t: seq<Path>)
    requires s <= t && s != [] && Distinct(t) && s[|s| - 1] == t[|t| - 1]
    ensures s == t
  {
    assert t[|s| - 1] == s[|s| - 1];
  }

  // Replay starts with the source's last file.
  lemma ReplayStartsWithLast(g: Files, source: State, last: Path)
    requires Complete(g) && AllIn(g, source.features)
    requires source.features != [] && last == source.features[|source.features| - 1]
    ensures var order := Reversed(source.features);
            Replay(g, source) == RequireAll(g, RequireFile(g, FRESH, last), order[1..])
  {
    hide RequireAll, RequireFile, LoadFile;
    var order := Reversed(source.features);
    assert order[0..] == order && order[0] == last;
    RequiresFrom(g, FRESH, order, 0);
  }

  /** The order is kept exactly when requiring the last file alone lists everything in that order;
      so it is lost whenever the last file does not reach all others, as with two independent ones. */
  lemma {:induction false} ReplayKeepsOrderIff(g: Files, source: State)
    requires Complete(g) && Idle(g, source) && AllIn(g, source.features)
    ensures var features := source.features;
            Replay(g, source).features == features <==>
            features == [] || RequireFile(g, FRESH, features[|features| - 1]).features == features
  {
    hide RequireAll, RequireFile, LoadFile, Reversed, Ordered, Replay;
    var features := source.features;
    if features == [] {
      ReplayOfNothing(g, source);
    } else {
      var last, order := features[|features| - 1], Reversed(features);
      var first, r := RequireFile(g, FRESH, last), Replay(g, source);
      IdleIsFinished(g, source);
      ReplayStartsWithLast(g, source, last);
      FirstRequireLists(g, last);
      RequiresRunEachFileOnce(g, first, order[1..]);
      if r.features == features {
        PrefixWithSameLast(first.features, features);
      }
      if first.features == features {
        ReversedHasTheSame(features);
        forall k | 0 <= k < |order|
          ensures order[k] in first.required
        {
          assert order[k] in Elements(features);
        }
        RequiringAllAgainDoesNothing(g, first, order, 1);
      }
    }
  }

  lemma ReplayOfNothing(g: Files, source: State)
    requires Complete(g) && source.features == []
    ensures Replay(g, source) == FRESH
  {
    RequiresFrom(g, FRESH, [], 0);
  }

  lemma LeafIsListed(g: Files, st: State, path: Path)
    requires Complete(g) && path in g && g[path] == [] && path !in st.required
    ensures var r := RequireFile(g, st, path);
            r.features == st.features + [path] && r.required == st.required + {path}
  {
    RequireUnfolds(g, st, path);
    RequiresFrom(g, Started(st, path), g[path], 0);
  }

  lemma TwoLeavesAreListed(g: Files, p: Path, q: Path)
    requires Complete(g) && p in g && q in g && p != q && g[p] == [] && g[q] == []
    ensures RequireAll(g, FRESH, [p, q]).features == [p, q]
  {
    hide RequireAll, RequireFile, LoadFile;
    var paths, first := [p, q], RequireFile(g, FRESH, p);
    assert paths[0..] == paths;
    LeafIsListed(g, FRESH, p);
    LeafIsListed(g, first, q);
    RequiresFrom(g, FRESH, paths, 0);
    RequiresFrom(g, first, paths, 1);
    RequiresFrom(g, RequireFile(g, first, q), paths, 2);
  }

  /** Two files that require nothing swap places. */
  lemma {:induction false} ReplayMayReorder(g: Files, p: Path, q: Path)
    requires Complete(g) && p in g && q in g && p != q && g[p] == [] && g[q] == []
    ensures var source := RequireAll(g, FRESH, [p, q]);
            source.features == [p, q] && Replay(g, source).features == [q, p]
  {
    hide RequireAll, RequireFile, LoadFile;
    TwoLeavesAreListed(g, p, q);
    TwoLeavesAreListed(g, q, p);
    assert Reversed([p, q]) == [q, p];
  }

  // ---- The loader itself ----

  // load_stack_entry; paths stand for their directories.
  datatype Stack = Bottom | Entry(parent: Stack, depth: nat, directory: Path)

  ghost function Height(s: Stack): nat {
    if s.Bottom? then 0 else 1 + Height(s.parent)
  }

  ghost predicate WellFormed(s: Stack) {
    s.Entry? ==> s.depth == Height(s) && WellFormed(s.parent)
  }

  // The global load_stack_top, shared by all interpreters.
  class LoadStack {
    var top: Stack

    constructor ()
      ensures top == Bottom
    {
      top := Bottom;
    }

    method Push(path: Path)
      requires WellFormed(top)
      modifies this
      ensures WellFormed(top) && top.Entry? && top.parent == old(top) && top.directory == path
    {
      top := Entry(top, if top.Bottom? then 1 else top.depth + 1, path);
    }

    // On an empty stack this only complains.
    method Pop()
      requires WellFormed(top)
      modifies this
      ensures WellFormed(top) && top == if old(top).Bottom? then Bottom else old(top).parent
    {
      if top.Bottom? {
        return;
      }
      top := top.parent;
    }
  }

  class Interpreter {
    var required: set<Path>
    var features: seq<Path>
    ghost var frames: seq<Frame>
    ghost var runs: seq<Path>

    ghost function Now(): State
      reads this
    {
      State(required, features, frames, runs)
    }

    constructor ()
      ensures Now() == FRESH
    {
      required, features, frames, runs := {}, [], [], [];
    }

    // mrb_require_init
    method Init()
      modifies this
      ensures Now() == FRESH
    {
      required, features, frames, runs := {}, [], [], [];
    }
  }

  // The entry on top of the stack is that of the file whose body runs.
  ghost predicate Running(stack: Stack, frames: seq<Frame>, path: Path) {
    stack.Entry? && stack.directory == path && frames != [] && frames[|frames| - 1].path == path
  }

  /** mrb_require_absolute does what RequireFile says, puts the load stack back, and is only ever
      called and left with the marked files split into finished ones and running ones. */
  method RequireAbsolute(files: Files, stack: LoadStack, vm: Interpreter, path: Path) returns (loaded: bool)
    requires Complete(files) && path in files
    requires WellFormed(stack.top) && Consistent(vm.Now())
    modifies stack, vm
    ensures vm.Now() == RequireFile(files, old(vm.Now()), path)
    ensures loaded <==> path !in old(vm.required)
    ensures stack.top == old(stack.top)
    ensures Consistent(vm.Now())
    decreases files.Keys - vm.required, 0
  {
    hide Consistent;
    RequireKeepsConsistent(files, vm.Now(), path);
    if path in vm.required {
      return false;
    }
    StartIsConsistent(vm.Now(), path);
    vm.required := vm.required + {path};
    Load(files, stack, vm, path, true);
    vm.features := vm.features + [path];
    return true;
  }

  /** mrb_load pushes an entry, runs the body with that entry on top, and pops it. */
  method Load(files: Files, stack: LoadStack, vm: Interpreter, path: Path, ghost marked: bool)
    requires Complete(files) && path in files
    requires WellFormed(stack.top) && Consistent(Pushed(vm.Now(), path, marked))
    modifies stack, vm
    ensures vm.Now() == LoadFile(files, old(vm.Now()), path, marked)
    ensures stack.top == old(stack.top)
    decreases files.Keys - vm.required, 2, 0
  {
    hide Consistent;
    ghost var pushed := Pushed(vm.Now(), path, marked);
    stack.Push(path);
    vm.frames := pushed.frames;
    vm.runs := pushed.runs;
    RunBody(files, stack, vm, path, files[path]);
    stack.Pop();
    vm.frames := vm.frames[..|vm.frames| - 1];
  }

  /** A body runs its requires in turn, each with the file's own entry on top of the stack: what
      require_relative and __dir__ look at. */
  method RunBody(files: Files, stack: LoadStack, vm: Interpreter, path: Path, needed: seq<Path>)
    requires Complete(files) && AllIn(files, needed)
    requires WellFormed(stack.top) && Consistent(vm.Now()) && Running(stack.top, vm.frames, path)
    modifies stack, vm
    ensures vm.Now() == RequireAll(files, old(vm.Now()), needed)
    ensures stack.top == old(stack.top)
    ensures Running(stack.top, vm.frames, path)
    decreases files.Keys - vm.required, 1, |needed|
  {
    hide Consistent, RequireAll, RequireFile, LoadFile;
    var i := 0;
    assert needed[0..] == needed;
    while i < |needed|
      invariant i <= |needed| && old(vm.required) <= vm.required
      invariant stack.top == old(stack.top) && vm.frames == old(vm.frames)
      invariant Consistent(vm.Now())
      invariant RequireAll(files, old(vm.Now()), needed) == RequireAll(files, vm.Now(), needed[i..])
    {
      RequiresFrom(files, vm.Now(), needed, i);
      var loaded := RequireAbsolute(files, stack, vm, needed[i]);
      i := i + 1;
    }
    RequiresFrom(files, vm.Now(), needed, i);
  }

  lemma FreshIsConsistent()
    ensures Consistent(FRESH)
  {
    assert InProgress(FRESH.frames) == [];
  }

  /** mrb_require_init_copy resets the target and requires the source's features from the last one
      to the first. */
  method InitCopy(files: Files, stack: LoadStack, source: Interpreter, target: Interpreter) returns (count: nat)
    requires Complete(files) && AllIn(files, source.features)
    requires WellFormed(stack.top) && source != target
    modifies stack, target
    ensures target.Now() == Replay(files, source.Now())
    ensures count == |source.features| && stack.top == old(stack.top)
  {
    hide Consistent, RequireAll, RequireFile, LoadFile, Elements, Idle;
    count := |source.features|;
    target.Init();
    ghost var order := Reversed(source.features);
    FreshIsConsistent();
    var index := count - 1;
    assert order[0..] == order;
    while index >= 0
      invariant -1 <= index < count
      invariant stack.top == old(stack.top) && Consistent(target.Now())
      invariant RequireAll(files, target.Now(), order[count - 1 - index..]) == Replay(files, source.Now())
    {
      RequiresFrom(files, target.Now(), order, count - 1 - index);
      var loaded := RequireAbsolute(files, stack, target, source.features[index]);
      index := index - 1;
    }
    RequiresFrom(files, target.Now(), order, count);
  }
}
