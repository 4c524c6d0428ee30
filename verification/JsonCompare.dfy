/** Equality and validation of JSON values (mrbgems/json-with-casing/src/parson.c, lines 1984-2114). */
module JsonCompare {
  import opened Bytes
  import opened Options
  import opened Entries
  import opened JsonTree

  // Both walk one object by index and look its names up in the other.

  // ---- Equality ----

  // The value of the i-th name, as json_object_get_value finds it: that of its first occurrence.
  function First(members: seq<Entry<Json>>, i: nat): (v: Json)
    requires i < |members|
    ensures exists k :: 0 <= k <= i && v == members[k].value
  {
    FoundUpTo(members, i);
    members[Find(members, members[i].name)].value
  }

  lemma FoundUpTo(members: seq<Entry<Json>>, i: nat)
    requires i < |members|
    ensures Find(members, members[i].name) <= i
  {
  }

  // json_value_equals
  predicate Equals(a: Json, b: Json)
    decreases a
  {
    match (a, b)
    case (Null, Null) => true
    case (Boolean(x), Boolean(y)) => x == y
    case (Fixed(x), Fixed(y)) => x == y
    case (String(x), String(y)) => x == y
    case (Array(x), Array(y)) => |x| == |y| && forall i | 0 <= i < |x| :: Equals(x[i], y[i])
    case (Object(x), Object(y)) => |x| == |y| && forall i | 0 <= i < |x| :: SameAt(x, y, i)
    case _ => false
  }

  // A step of the loop over the names of an object.
  predicate SameAt(x: seq<Entry<Json>>, y: seq<Entry<Json>>, i: nat)
    requires i < |x|
    decreases x
  {
    Has(y, x[i].name) && Equals(First(x, i), Lookup(y, x[i].name).value)
  }

  method JsonValueEquals(a: Json, b: Json) returns (r: bool)
    ensures r == Equals(a, b)
    decreases a
  {
    match (a, b)
    case (Null, Null) => r := true;
    case (Boolean(x), Boolean(y)) => r := x == y;
    case (Fixed(x), Fixed(y)) => r := x == y;
    case (String(x), String(y)) => r := x == y;
    case (Array(x), Array(y)) => r := ArraysAreEqual(x, y);
    case (Object(x), Object(y)) => r := ObjectsAreEqual(x, y);
    case _ => r := false;
  }

  method ArraysAreEqual(x: seq<Json>, y: seq<Json>) returns (r: bool)
    ensures r == Equals(Array(x), Array(y))
    decreases x
  {
    if |x| != |y| {
      return false;
    }
    var i := 0;
    while i < |x|
      invariant i <= |x|
      invariant forall k | 0 <= k < i :: Equals(x[k], y[k])
    {
      var same := JsonValueEquals(x[i], y[i]);
      if !same {
        return false;
      }
      i := i + 1;
    }
    r := true;
  }

  method ObjectsAreEqual(x: seq<Entry<Json>>, y: seq<Entry<Json>>) returns (r: bool)
    ensures r == Equals(Object(x), Object(y))
    decreases x
  {
    if |x| != |y| {
      return false;
    }
    var i := 0;
    while i < |x|
      invariant i <= |x|
      invariant forall k | 0 <= k < i :: SameAt(x, y, k)
    {
      var other := Lookup(y, x[i].name);
      if other.None? {
        assert !SameAt(x, y, i);
        return false;
      }
      var same := JsonValueEquals(First(x, i), other.value);
      if !same {
        assert !SameAt(x, y, i);
        return false;
      }
      i := i + 1;
    }
    r := true;
  }

  // What a value stands for: the members of an object are a map from names, without an order.
  datatype Meaning =
    | Nothing
    | Truth(b: bool)
    | Number(n: int64)
    | Words(s: CString)
    | List(items: seq<Meaning>)
    | Record(members: map<CString, Meaning>)

  ghost function Names(members: seq<Entry<Json>>): set<CString> {
    set i | 0 <= i < |members| :: members[i].name
  }

  ghost function MeaningOf(v: Json): Meaning {
    match v
    case Null => Nothing
    case Boolean(b) => Truth(b)
    case Fixed(n) => Number(n)
    case String(s) => Words(s)
    case Array(items) => List(seq(|items|, i requires 0 <= i < |items| => MeaningOf(items[i])))
    case Object(members) =>
      Record(map n | n in Names(members) && Has(members, n) :: MeaningOf(members[Find(members, n)].value))
  }

  lemma NamesAreFound(members: seq<Entry<Json>>, n: CString)
    ensures n in Names(members) <==> Has(members, n)
  {
    if n in Names(members) {
      var i :| 0 <= i < |members| && members[i].name == n;
    }
    if Has(members, n) {
      assert members[Find(members, n)].name == n;
    }
  }

  lemma {:induction false} DistinctNamesCounted(members: seq<Entry<Json>>)
    ensures |Names(members)| <= |members|
    ensures Distinct(members) ==> |Names(members)| == |members|
  {
    if members != [] {
      var last := |members| - 1;
      DistinctNamesCounted(members[..last]);
      assert Names(members) == Names(members[..last]) + {members[last].name};
    }
  }

  lemma {:induction false} SubsetIsSmaller<T>(a: set<T>, b: set<T>)
    requires a <= b
    ensures |a| <= |b| && (|a| == |b| ==> a == b)
  {
    if x :| x in a {
      SubsetIsSmaller(a - {x}, b - {x});
    }
  }

  // Objects of the same size with distinct names: if every name of one is in the other, they have
  // the same names.
  lemma SameSizeSameNames(x: seq<Entry<Json>>, y: seq<Entry<Json>>)
    requires Distinct(x) && Distinct(y) && |x| == |y|
    requires forall i | 0 <= i < |x| :: x[i].name in Names(y)
    ensures Names(x) == Names(y)
  {
    DistinctNamesCounted(x);
    DistinctNamesCounted(y);
    SubsetIsSmaller(Names(x), Names(y));
  }

  ghost function Members(members: seq<Entry<Json>>): map<CString, Meaning> {
    MeaningOf(Object(members)).members
  }

  lemma MembersAt(members: seq<Entry<Json>>, i: nat)
    requires i < |members|
    ensures members[i].name in Members(members)
    ensures Members(members)[members[i].name] == MeaningOf(First(members, i))
  {
    NamesAreFound(members, members[i].name);
  }

  lemma MembersNames(members: seq<Entry<Json>>)
    ensures Members(members).Keys == Names(members)
  {
    forall n
      ensures n in Members(members) <==> n in Names(members)
    {
      if n in Names(members) {
        NamesAreFound(members, n);
      }
    }
  }

  /** On values whose objects have distinct names, equality is equality of what they stand for; so
      it is an equivalence, and ignores the order of members. */
  lemma {:induction false} EqualsIsSameMeaning(a: Json, b: Json)
    requires DistinctNames(a) && DistinctNames(b)
    ensures Equals(a, b) <==> MeaningOf(a) == MeaningOf(b)
    decreases a
  {
    match (a, b)
    case (Array(x), Array(y)) => ArraysEqual(x, y);
    case (Object(x), Object(y)) => ObjectsEqual(x, y);
    case _ =>
  }

  lemma {:induction false} ArraysEqual(x: seq<Json>, y: seq<Json>)
    requires forall i | 0 <= i < |x| :: DistinctNames(x[i])
    requires forall i | 0 <= i < |y| :: DistinctNames(y[i])
    ensures Equals(Array(x), Array(y)) <==> MeaningOf(Array(x)) == MeaningOf(Array(y))
    decreases x, 0
  {
    var s, t := MeaningOf(Array(x)).items, MeaningOf(Array(y)).items;
    if |x| == |y| {
      forall i | 0 <= i < |x|
        ensures Equals(x[i], y[i]) <==> s[i] == t[i]
      {
        EqualsIsSameMeaning(x[i], y[i]);
      }
    }
  }

  lemma EqualObjectsAgreeAt(x: seq<Entry<Json>>, y: seq<Entry<Json>>, i: nat)
    requires Equals(Object(x), Object(y)) && i < |x|
    ensures |x| == |y| && SameAt(x, y, i)
  {
    hide SameAt;
  }

  lemma EqualObjectsHaveTheSameSize(x: seq<Entry<Json>>, y: seq<Entry<Json>>)
    requires Equals(Object(x), Object(y))
    ensures |x| == |y|
  {
  }

  lemma AgreeingObjectsAreEqual(x: seq<Entry<Json>>, y: seq<Entry<Json>>)
    requires |x| == |y| && forall i | 0 <= i < |x| :: SameAt(x, y, i)
    ensures Equals(Object(x), Object(y))
  {
    hide SameAt;
  }

  lemma SameAtUnfolds(x: seq<Entry<Json>>, y: seq<Entry<Json>>, i: nat)
    requires i < |x|
    ensures SameAt(x, y, i) <==> Has(y, x[i].name) && Equals(First(x, i), Lookup(y, x[i].name).value)
  {
  }

  lemma {:induction false} SameAtIsSameMember(x: seq<Entry<Json>>, y: seq<Entry<Json>>, i: nat)
    requires forall i | 0 <= i < |x| :: DistinctNames(x[i].value)
    requires forall i | 0 <= i < |y| :: DistinctNames(y[i].value)
    requires i < |x|
    ensures x[i].name in Members(x)
    ensures SameAt(x, y, i) <==>
            x[i].name in Members(y) && Members(x)[x[i].name] == Members(y)[x[i].name]
    decreases x, 0
  {
    hide Members, MeaningOf;
    SameAtUnfolds(x, y, i);
    MembersAt(x, i);
    MembersNames(y);
    NamesAreFound(y, x[i].name);
    if Has(y, x[i].name) {
      var k := Find(y, x[i].name);
      MembersAt(y, k);
      assert First(y, k) == y[k].value;
      EqualsIsSameMeaning(First(x, i), y[k].value);
    }
  }

  lemma {:induction false} ObjectsEqual(x: seq<Entry<Json>>, y: seq<Entry<Json>>)
    requires Distinct(x) && forall i | 0 <= i < |x| :: DistinctNames(x[i].value)
    requires Distinct(y) && forall i | 0 <= i < |y| :: DistinctNames(y[i].value)
    ensures Equals(Object(x), Object(y)) <==> Members(x) == Members(y)
    decreases x, 1
  {
    hide Members, MeaningOf, Equals, SameAt, Distinct, Find;
    MembersNames(x);
    MembersNames(y);
    forall i | 0 <= i < |x|
      ensures x[i].name in Members(x)
      ensures SameAt(x, y, i) <==>
              x[i].name in Members(y) && Members(x)[x[i].name] == Members(y)[x[i].name]
    {
      SameAtIsSameMember(x, y, i);
    }
    if Equals(Object(x), Object(y)) {
      EqualObjectsHaveTheSameSize(x, y);
      forall i | 0 <= i < |x|
        ensures SameAt(x, y, i) && x[i].name in Names(y)
      {
        EqualObjectsAgreeAt(x, y, i);
      }
      SameSizeSameNames(x, y);
      forall n | n in Members(x)
        ensures Members(x)[n] == Members(y)[n]
      {
        var i :| 0 <= i < |x| && x[i].name == n;
        assert SameAt(x, y, i);
      }
      assert Members(x) == Members(y);
    }
    if Members(x) == Members(y) {
      DistinctNamesCounted(x);
      DistinctNamesCounted(y);
      AgreeingObjectsAreEqual(x, y);
    }
  }

  lemma {:induction false} EqualsIsEquivalence(a: Json, b: Json, c: Json)
    requires DistinctNames(a) && DistinctNames(b) && DistinctNames(c)
    ensures Equals(a, a)
    ensures Equals(a, b) <==> Equals(b, a)
    ensures Equals(a, b) && Equals(b, c) ==> Equals(a, c)
  {
    EqualsIsSameMeaning(a, a);
    EqualsIsSameMeaning(a, b);
    EqualsIsSameMeaning(b, a);
    EqualsIsSameMeaning(b, c);
    EqualsIsSameMeaning(a, c);
  }

  /** With repeated names it would not even be symmetric. */
  lemma {:induction false} RepeatedNamesBreakSymmetry(v: Json, w: Json, n: CString, m: CString)
    requires n != m && DistinctNames(v)
    ensures var a, b := Object([Entry(n, v), Entry(n, v)]), Object([Entry(n, v), Entry(m, w)]);
            Equals(a, b) && !Equals(b, a)
  {
    EqualsIsSameMeaning(v, v);
    var x, y := [Entry(n, v), Entry(n, v)], [Entry(n, v), Entry(m, w)];
    assert Find(y, n) == 0 && Find(x, n) == 0;
    assert y[1].name == m;
    assert !Has(x, m);
    forall i | 0 <= i < |x|
      ensures SameAt(x, y, i)
    {
      assert x[i].name == n;
    }
    AgreeingObjectsAreEqual(x, y);
    assert !SameAt(y, x, 1);
    if Equals(Object(y), Object(x)) {
      EqualObjectsAgreeAt(y, x, 1);
    }
  }

  // ---- Validation ----

  predicate SameKind(a: Json, b: Json) {
    match a
    case Null => b.Null?
    case Boolean(_) => b.Boolean?
    case Fixed(_) => b.Fixed?
    case String(_) => b.String?
    case Array(_) => b.Array?
    case Object(_) => b.Object?
  }

  // json_validate
  predicate Accepts(schema: Json, v: Json)
    decreases schema
  {
    (SameKind(schema, v) || schema.Null?) &&
    match schema
    case Array(rules) => rules == [] || forall i | 0 <= i < |v.items| :: Accepts(rules[0], v.items[i])
    case Object(rules) =>
      |rules| == 0 ||
      (|rules| <= |v.members| && forall i | 0 <= i < |rules| :: AcceptsAt(rules, v.members, i))
    case _ => true
  }

  // A step of the loop over the names of a schema object.
  predicate AcceptsAt(rules: seq<Entry<Json>>, members: seq<Entry<Json>>, i: nat)
    requires i < |rules|
    decreases rules
  {
    Has(members, rules[i].name) && Accepts(First(rules, i), Lookup(members, rules[i].name).value)
  }

  method JsonValidate(schema: Json, v: Json) returns (ok: bool)
    ensures ok == Accepts(schema, v)
    decreases schema, 0
  {
    if !SameKind(schema, v) && !schema.Null? {
      return false;
    }
    match schema
    case Array(rules) =>
      if |rules| == 0 {
        return true;
      }
      ok := AllItemsValid(rules, v.items);
    case Object(rules) =>
      if |rules| == 0 {
        return true;
      } else if |v.members| < |rules| {
        return false;
      }
      ok := AllRulesHold(rules, v.members);
    case _ => ok := true;
  }

  method AllItemsValid(rules: seq<Json>, items: seq<Json>) returns (ok: bool)
    requires rules != []
    ensures ok == Accepts(Array(rules), Array(items))
    decreases rules
  {
    var i := 0;
    while i < |items|
      invariant i <= |items|
      invariant forall k | 0 <= k < i :: Accepts(rules[0], items[k])
    {
      var valid := JsonValidate(rules[0], items[i]);
      if !valid {
        return false;
      }
      i := i + 1;
    }
    ok := true;
  }

  method AllRulesHold(rules: seq<Entry<Json>>, members: seq<Entry<Json>>) returns (ok: bool)
    requires 0 < |rules| <= |members|
    ensures ok == Accepts(Object(rules), Object(members))
    decreases rules
  {
    var i := 0;
    while i < |rules|
      invariant i <= |rules|
      invariant forall k | 0 <= k < i :: AcceptsAt(rules, members, k)
    {
      var member := Lookup(members, rules[i].name);
      if member.None? {
        assert !AcceptsAt(rules, members, i);
        return false;
      }
      var valid := JsonValidate(First(rules, i), member.value);
      if !valid {
        assert !AcceptsAt(rules, members, i);
        return false;
      }
      i := i + 1;
    }
    ok := true;
  }

  // What validation means: null stands for anything, the first item of an array rules all items,
  // and every member of an object is required. There is no comparison of sizes.
  ghost predicate Conforms(schema: Meaning, v: Meaning)
    decreases schema
  {
    match schema
    case Nothing => true
    case Truth(_) => v.Truth?
    case Number(_) => v.Number?
    case Words(_) => v.Words?
    case List(rules) => v.List? && (rules == [] || forall i | 0 <= i < |v.items| :: Conforms(rules[0], v.items[i]))
    case Record(rules) => v.Record? && forall n | n in rules :: n in v.members && Conforms(rules[n], v.members[n])
  }

  /** json_validate decides conformance; the comparison of sizes rejects nothing by itself. */
  lemma {:induction false} AcceptsIffConforms(schema: Json, v: Json)
    requires DistinctNames(schema)
    ensures Accepts(schema, v) <==> Conforms(MeaningOf(schema), MeaningOf(v))
    decreases schema
  {
    if schema.Array? && schema.items != [] && v.Array? {
      ArrayAcceptsIffConforms(schema.items, v.items);
    } else if schema.Object? && v.Object? {
      ObjectAcceptsIffConforms(schema.members, v.members);
      RecordConforms(schema.members, v.members);
    }
  }

  lemma RecordConforms(rules: seq<Entry<Json>>, members: seq<Entry<Json>>)
    ensures Conforms(MeaningOf(Object(rules)), MeaningOf(Object(members))) <==>
            forall n | n in Members(rules) :: ConformsAt(Members(rules), Members(members), n)
  {
    var r, m := MeaningOf(Object(rules)), MeaningOf(Object(members));
    if Conforms(r, m) {
      forall n | n in Members(rules)
        ensures ConformsAt(Members(rules), Members(members), n)
      {
        assert n in r.members;
      }
    }
    if forall n | n in Members(rules) :: ConformsAt(Members(rules), Members(members), n) {
      forall n | n in r.members
        ensures n in m.members && Conforms(r.members[n], m.members[n])
      {
        assert ConformsAt(Members(rules), Members(members), n);
      }
    }
  }

  lemma {:induction false} ArrayAcceptsIffConforms(rules: seq<Json>, items: seq<Json>)
    requires rules != [] && DistinctNames(rules[0])
    ensures Accepts(Array(rules), Array(items)) <==> Conforms(MeaningOf(Array(rules)), MeaningOf(Array(items)))
    decreases rules
  {
    forall i | 0 <= i < |items|
      ensures Accepts(rules[0], items[i]) <==> Conforms(MeaningOf(rules[0]), MeaningOf(items[i]))
    {
      AcceptsIffConforms(rules[0], items[i]);
    }
    var r, m := MeaningOf(Array(rules)).items, MeaningOf(Array(items)).items;
    assert r[0] == MeaningOf(rules[0]);
    assert forall i | 0 <= i < |items| :: m[i] == MeaningOf(items[i]);
  }

  ghost predicate ConformsAt(rules: map<CString, Meaning>, members: map<CString, Meaning>, n: CString)
    requires n in rules
  {
    n in members && Conforms(rules[n], members[n])
  }

  lemma {:induction false} AcceptsAtIffConformsAt(rules: seq<Entry<Json>>, members: seq<Entry<Json>>, i: nat)
    requires i < |rules| && forall k | 0 <= k < |rules| :: DistinctNames(rules[k].value)
    ensures rules[i].name in Members(rules)
    ensures AcceptsAt(rules, members, i) <==> ConformsAt(Members(rules), Members(members), rules[i].name)
    decreases rules, 0
  {
    hide Members, MeaningOf;
    AcceptsAtUnfolds(rules, members, i);
    MembersAt(rules, i);
    MembersNames(members);
    NamesAreFound(members, rules[i].name);
    if Has(members, rules[i].name) {
      var k := Find(members, rules[i].name);
      MembersAt(members, k);
      AcceptsIffConforms(First(rules, i), members[k].value);
    }
  }

  lemma AcceptsAtUnfolds(rules: seq<Entry<Json>>, members: seq<Entry<Json>>, i: nat)
    requires i < |rules|
    ensures AcceptsAt(rules, members, i) <==>
            Has(members, rules[i].name) && Accepts(First(rules, i), Lookup(members, rules[i].name).value)
  {
  }

  lemma AcceptedObjectAt(rules: seq<Entry<Json>>, members: seq<Entry<Json>>, i: nat)
    requires Accepts(Object(rules), Object(members)) && i < |rules|
    ensures |rules| <= |members| && AcceptsAt(rules, members, i)
  {
    hide AcceptsAt;
  }

  lemma ObjectIsAccepted(rules: seq<Entry<Json>>, members: seq<Entry<Json>>)
    requires |rules| <= |members| && forall i | 0 <= i < |rules| :: AcceptsAt(rules, members, i)
    ensures Accepts(Object(rules), Object(members))
  {
    hide AcceptsAt;
  }

  // More rules than members: some rule has no member to hold for.
  lemma AllNamesNeedRoom(rules: seq<Entry<Json>>, members: seq<Entry<Json>>)
    requires Distinct(rules) && forall i | 0 <= i < |rules| :: rules[i].name in Names(members)
    ensures |rules| <= |members|
  {
    DistinctNamesCounted(rules);
    DistinctNamesCounted(members);
    SubsetIsSmaller(Names(rules), Names(members));
  }

  lemma {:induction false} ObjectAcceptsIffConforms(rules: seq<Entry<Json>>, members: seq<Entry<Json>>)
    requires Distinct(rules) && forall i | 0 <= i < |rules| :: DistinctNames(rules[i].value)
    ensures Accepts(Object(rules), Object(members)) <==>
            forall n | n in Members(rules) :: ConformsAt(Members(rules), Members(members), n)
    decreases rules, 1
  {
    hide Members, MeaningOf, Accepts, AcceptsAt, ConformsAt, Distinct, Find;
    MembersNames(rules);
    MembersNames(members);
    forall i | 0 <= i < |rules|
      ensures rules[i].name in Members(rules)
      ensures AcceptsAt(rules, members, i) <==> ConformsAt(Members(rules), Members(members), rules[i].name)
    {
      AcceptsAtIffConformsAt(rules, members, i);
    }
    if Accepts(Object(rules), Object(members)) {
      forall n | n in Members(rules)
        ensures ConformsAt(Members(rules), Members(members), n)
      {
        var i :| 0 <= i < |rules| && rules[i].name == n;
        AcceptedObjectAt(rules, members, i);
      }
    }
    if forall n | n in Members(rules) :: ConformsAt(Members(rules), Members(members), n) {
      forall i | 0 <= i < |rules|
        ensures AcceptsAt(rules, members, i) && rules[i].name in Names(members)
      {
        assert ConformsAt(Members(rules), Members(members), rules[i].name);
        ConformingNameIsThere(rules, members, rules[i].name);
      }
      AllNamesNeedRoom(rules, members);
      ObjectIsAccepted(rules, members);
    }
  }

  lemma ConformingNameIsThere(rules: seq<Entry<Json>>, members: seq<Entry<Json>>, n: CString)
    requires n in Members(rules) && ConformsAt(Members(rules), Members(members), n)
    ensures n in Names(members)
  {
    hide MeaningOf, Conforms;
    MembersNames(members);
  }

  /** With a repeated name in the schema the comparison of sizes does reject. */
  lemma {:induction false} RepeatedRuleRejects(n: CString)
    ensures var schema, v := Object([Entry(n, Null), Entry(n, Null)]), Object([Entry(n, Null)]);
            !Accepts(schema, v) && Conforms(MeaningOf(schema), MeaningOf(v))
  {
    var rules, members := [Entry(n, Null), Entry(n, Null)], [Entry(n, Null)];
    if Accepts(Object(rules), Object(members)) {
      AcceptedObjectAt(rules, members, 0);
    }
    MembersNames(rules);
    assert members[0].name in Names(members);
    MembersNames(members);
    forall m | m in Members(rules)
      ensures m in Members(members) && Conforms(Members(rules)[m], Members(members)[m])
    {
      MembersAt(rules, 0);
    }
  }

  // ---- When validation composes ----

  ghost predicate AcceptsAll(s: Json, us: seq<Json>) {
    forall i | 0 <= i < |us| :: Accepts(s, us[i])
  }

  // The values are of one kind, and that is not null.
  ghost predicate OneKind(us: seq<Json>) {
    && (forall i | 0 <= i < |us| :: !us[i].Null?)
    && forall i, j | 0 <= i < |us| && 0 <= j < |us| :: SameKind(us[i], us[j])
  }

  // All items of all arrays among xs.
  function ItemsOf(xs: seq<Json>): seq<Json> {
    if xs == [] then [] else (if xs[0].Array? then xs[0].items else []) + ItemsOf(xs[1..])
  }

  ghost predicate AllHold(xs: seq<Json>, name: CString) {
    forall k | 0 <= k < |xs| :: xs[k].Object? && Has(xs[k].members, name)
  }

  ghost function ValuesAt(xs: seq<Json>, name: CString): (vs: seq<Json>)
    requires AllHold(xs, name)
    ensures |vs| == |xs| && forall k | 0 <= k < |xs| :: vs[k] == Lookup(xs[k].members, name).value
  {
    seq(|xs|, k requires 0 <= k < |xs| => Lookup(xs[k].members, name).value)
  }

  // Validation does not go through x, where a rule for x has to accept all of xs too: somewhere in x,
  // reached by first items and by members, an empty array stands where everything else that the
  // rule for that place has to accept is an array, and all their items are of one kind, not null.
  ghost predicate Leaks(x: Json, xs: seq<Json>)
    decreases x
  {
    match x
    case Array(items) =>
      && (forall i | 0 <= i < |xs| :: xs[i].Array?)
      && var us := items + ItemsOf(xs);
         if items == [] then OneKind(us) else Leaks(items[0], us)
    case Object(members) => exists i :: 0 <= i < |members| && LeaksAt(members, xs, i)
    case _ => false
  }

  ghost predicate LeaksAt(members: seq<Entry<Json>>, xs: seq<Json>, i: nat)
    requires i < |members|
    decreases members
  {
    AllHold(xs, members[i].name) && Leaks(First(members, i), ValuesAt(xs, members[i].name))
  }

  lemma {:induction false} AcceptsItems(rules: seq<Json>, xs: seq<Json>)
    requires rules != [] && forall i | 0 <= i < |xs| :: xs[i].Array?
    ensures AcceptsAll(Array(rules), xs) <==> AcceptsAll(rules[0], ItemsOf(xs))
    decreases |xs|
  {
    if xs != [] {
      var head, tail := xs[0].items, ItemsOf(xs[1..]);
      AcceptsItems(rules, xs[1..]);
      AcceptsBoth(rules[0], head, tail);
      AcceptsBoth(Array(rules), [xs[0]], xs[1..]);
      assert xs == [xs[0]] + xs[1..];
      ArrayAcceptance(rules, head);
      assert xs[0] == Array(head);
      assert AcceptsAll(Array(rules), [xs[0]]) <==> Accepts(Array(rules), xs[0]) by {
        assert [xs[0]][0] == xs[0];
      }
    }
  }

  lemma ArrayAcceptance(rules: seq<Json>, items: seq<Json>)
    requires rules != []
    ensures Accepts(Array(rules), Array(items)) <==> AcceptsAll(rules[0], items)
  {
  }

  lemma AcceptsBoth(s: Json, a: seq<Json>, b: seq<Json>)
    ensures AcceptsAll(s, a + b) <==> AcceptsAll(s, a) && AcceptsAll(s, b)
  {
    hide Accepts;
    if AcceptsAll(s, a + b) {
      forall i | 0 <= i < |a|
        ensures Accepts(s, a[i])
      {
        assert (a + b)[i] == a[i];
      }
      forall i | 0 <= i < |b|
        ensures Accepts(s, b[i])
      {
        assert (a + b)[|a| + i] == b[i];
      }
    }
  }

  lemma AcceptedKind(s: Json, v: Json)
    requires Accepts(s, v)
    ensures s.Null? || SameKind(s, v)
  {
  }

  lemma NullAccepts(v: Json)
    ensures Accepts(Null, v)
  {
  }

  // A schema for values of more than one kind is null.
  lemma MixedNeedsNull(s: Json, us: seq<Json>)
    requires AcceptsAll(s, us) && !OneKind(us)
    ensures s == Null
  {
    hide Accepts;
    forall i | 0 <= i < |us|
      ensures s.Null? || SameKind(s, us[i])
    {
      AcceptedKind(s, us[i]);
    }
  }

  lemma {:induction false} NoLeakComposes(s: Json, x: Json, xs: seq<Json>, v: Json)
    requires Accepts(s, x) && AcceptsAll(s, xs) && Accepts(x, v) && !Leaks(x, xs)
    ensures Accepts(s, v)
    decreases x
  {
    match (s, x)
    case (Array(rules), Array(items)) =>
      if rules != [] {
        NoLeakInArray(rules, items, xs, v.items);
      }
    case (Object(rules), Object(members)) =>
      if rules != [] {
        NoLeakInObject(rules, members, xs, v.members);
      }
    case _ =>
  }

  lemma {:induction false} NoLeakInArray(rules: seq<Json>, items: seq<Json>, xs: seq<Json>, vs: seq<Json>)
    requires rules != [] && Accepts(Array(rules), Array(items)) && AcceptsAll(Array(rules), xs)
    requires Accepts(Array(items), Array(vs)) && !Leaks(Array(items), xs)
    ensures Accepts(Array(rules), Array(vs))
    decreases items
  {
    hide Accepts;
    forall i | 0 <= i < |xs|
      ensures xs[i].Array?
    {
      AcceptedKind(Array(rules), xs[i]);
    }
    var us := items + ItemsOf(xs);
    ArrayAcceptance(rules, items);
    AcceptsItems(rules, xs);
    AcceptsBoth(rules[0], items, ItemsOf(xs));
    ArrayAcceptance(rules, vs);
    if items == [] {
      MixedNeedsNull(rules[0], us);
      forall j | 0 <= j < |vs|
        ensures Accepts(rules[0], vs[j])
      {
        NullAccepts(vs[j]);
      }
    } else {
      ArrayAcceptance(items, vs);
      forall j | 0 <= j < |vs|
        ensures Accepts(rules[0], vs[j])
      {
        NoLeakComposes(rules[0], items[0], us, vs[j]);
      }
    }
  }

  lemma {:induction false} NoLeakInObject(rules: seq<Entry<Json>>, members: seq<Entry<Json>>, xs: seq<Json>,
                                          vs: seq<Entry<Json>>)
    requires rules != [] && Accepts(Object(rules), Object(members)) && AcceptsAll(Object(rules), xs)
    requires Accepts(Object(members), Object(vs)) && !Leaks(Object(members), xs)
    ensures Accepts(Object(rules), Object(vs))
    decreases members
  {
    hide Accepts, AcceptsAt, LeaksAt, Leaks;
    AcceptedObjectAt(rules, members, 0);
    AcceptedObjectAt(members, vs, 0);
    forall i | 0 <= i < |rules|
      ensures AcceptsAt(rules, vs, i)
    {
      var name := rules[i].name;
      AcceptedObjectAt(rules, members, i);
      AcceptsAtUnfolds(rules, members, i);
      var k := Find(members, name);
      AcceptedObjectAt(members, vs, k);
      AcceptsAtUnfolds(members, vs, k);
      AcceptedEverywhere(rules, xs, i);
      NoLeakAt(members, xs, k);
      LeaksAtUnfolds(members, xs, k);
      NoLeakComposes(First(rules, i), First(members, k), ValuesAt(xs, name), Lookup(vs, name).value);
      AcceptsAtUnfolds(rules, vs, i);
    }
    ObjectIsAccepted(rules, vs);
  }

  lemma LeaksAtUnfolds(members: seq<Entry<Json>>, xs: seq<Json>, i: nat)
    requires i < |members| && AllHold(xs, members[i].name)
    ensures LeaksAt(members, xs, i) <==> Leaks(First(members, i), ValuesAt(xs, members[i].name))
  {
  }

  lemma NoLeakAt(members: seq<Entry<Json>>, xs: seq<Json>, i: nat)
    requires !Leaks(Object(members), xs) && i < |members|
    ensures !LeaksAt(members, xs, i)
  {
    hide LeaksAt;
  }

  // What an object schema accepts holds its names, with accepted values.
  lemma AcceptedEverywhere(rules: seq<Entry<Json>>, xs: seq<Json>, i: nat)
    requires i < |rules| && AcceptsAll(Object(rules), xs)
    ensures AllHold(xs, rules[i].name) && AcceptsAll(First(rules, i), ValuesAt(xs, rules[i].name))
  {
    hide Accepts, AcceptsAt;
    forall k | 0 <= k < |xs|
      ensures xs[k].Object? && Has(xs[k].members, rules[i].name)
      ensures Accepts(First(rules, i), Lookup(xs[k].members, rules[i].name).value)
    {
      AcceptedKind(Object(rules), xs[k]);
      AcceptedObjectAt(rules, xs[k].members, i);
      AcceptsAtUnfolds(rules, xs[k].members, i);
    }
  }

  // A value of the kind that accepts and is accepted by most.
  function Bare(x: Json): Json {
    match x
    case Array(_) => Array([])
    case Object(_) => Object([])
    case _ => x
  }

  lemma BareAccepts(x: Json, v: Json)
    requires SameKind(x, v)
    ensures Accepts(Bare(x), v)
  {
  }

  // A value that x accepts.
  function Sample(x: Json): Json {
    match x
    case Array(_) => Array([])
    case Object(members) => Object(Samples(members))
    case _ => x
  }

  function Samples(members: seq<Entry<Json>>): (vs: seq<Entry<Json>>)
    ensures |vs| == |members|
    ensures forall i | 0 <= i < |vs| :: vs[i] == Entry(members[i].name, Sample(members[i].value))
  {
    seq(|members|, i requires 0 <= i < |members| => Entry(members[i].name, Sample(members[i].value)))
  }

  lemma {:induction false} SampleIsAccepted(x: Json)
    ensures Accepts(x, Sample(x))
    decreases x
  {
    if x.Object? {
      var members := x.members;
      forall i | 0 <= i < |members|
        ensures AcceptsAt(members, Samples(members), i)
      {
        SampleIsFound(members, i);
        SampleIsAccepted(First(members, i));
      }
      ObjectIsAccepted(members, Samples(members));
    }
  }

  lemma SampleIsFound(members: seq<Entry<Json>>, i: nat)
    requires i < |members|
    ensures Lookup(Samples(members), members[i].name) == Some(Sample(First(members, i)))
  {
    FindByNames(members, Samples(members), members[i].name);
  }

  // A sample of the object that holds w under one of its names.
  lemma SampleWith(members: seq<Entry<Json>>, i: nat, w: Json)
    requires i < |members| && Accepts(First(members, i), w)
    ensures var vs := Set(Samples(members), members[i].name, w);
            Accepts(Object(members), Object(vs)) && Lookup(vs, members[i].name) == Some(w)
  {
    hide Accepts, Set, Sample, AcceptsAt, Samples;
    var name, samples := members[i].name, Samples(members);
    var vs := Set(samples, name, w);
    SampleIsFound(members, i);
    LookupReplaced(samples, name, w, name);
    forall j | 0 <= j < |members|
      ensures AcceptsAt(members, vs, j)
    {
      SampleIsFound(members, j);
      SampleIsAccepted(First(members, j));
      LookupReplaced(samples, name, w, members[j].name);
      AcceptsAtUnfolds(members, vs, j);
    }
    SetLength(samples, name, w);
    ObjectIsAccepted(members, vs);
  }

  lemma SingleRule(name: CString, rule: Json, members: seq<Entry<Json>>)
    ensures Accepts(Object([Entry(name, rule)]), Object(members)) <==>
            Has(members, name) && Accepts(rule, Lookup(members, name).value)
  {
    var rules := [Entry(name, rule)];
    assert First(rules, 0) == rule;
    AcceptsAtUnfolds(rules, members, 0);
    if Accepts(Object(rules), Object(members)) {
      AcceptedObjectAt(rules, members, 0);
    }
    if Has(members, name) && Accepts(rule, Lookup(members, name).value) {
      ObjectIsAccepted(rules, members);
    }
  }

  lemma {:induction false} LeakShows(x: Json, xs: seq<Json>) returns (s: Json, v: Json)
    requires Leaks(x, xs)
    ensures Accepts(s, x) && AcceptsAll(s, xs) && Accepts(x, v) && !Accepts(s, v)
    decreases x
  {
    match x
    case Array(items) => s, v := LeakInArray(items, xs);
    case Object(members) => s, v := LeakInObject(members, xs);
  }

  lemma {:induction false} LeakInArray(items: seq<Json>, xs: seq<Json>) returns (s: Json, v: Json)
    requires Leaks(Array(items), xs)
    ensures Accepts(s, Array(items)) && AcceptsAll(s, xs) && Accepts(Array(items), v) && !Accepts(s, v)
    decreases items
  {
    var us := items + ItemsOf(xs);
    var rule, item: Json;
    if items == [] {
      rule, item := if us == [] then Boolean(true) else Bare(us[0]), Null;
      forall i | 0 <= i < |us|
        ensures Accepts(rule, us[i])
      {
        BareAccepts(us[0], us[i]);
      }
      assert !Accepts(rule, item);
    } else {
      rule, item := LeakShows(items[0], us);
    }
    hide Accepts, Leaks;
    s, v := Array([rule]), Array([item]);
    AcceptsBoth(rule, items, ItemsOf(xs));
    AcceptsItems([rule], xs);
    ArrayAcceptance([rule], items);
    ArrayAcceptance([rule], [item]);
    assert [item][0] == item;
    if items == [] {
      EmptyAccepts([item]);
    } else {
      ArrayAcceptance(items, [item]);
    }
  }

  lemma EmptyAccepts(items: seq<Json>)
    ensures Accepts(Array([]), Array(items))
  {
  }

  lemma {:induction false} LeakInObject(members: seq<Entry<Json>>, xs: seq<Json>) returns (s: Json, v: Json)
    requires Leaks(Object(members), xs)
    ensures Accepts(s, Object(members)) && AcceptsAll(s, xs) && Accepts(Object(members), v) && !Accepts(s, v)
    decreases members
  {
    var i :| 0 <= i < |members| && LeaksAt(members, xs, i);
    hide Accepts, Leaks, Samples, Set;
    var name := members[i].name;
    var rule, value := LeakShows(First(members, i), ValuesAt(xs, name));
    s, v := Object([Entry(name, rule)]), Object(Set(Samples(members), name, value));
    SampleWith(members, i, value);
    SingleRule(name, rule, v.members);
    FoundUpTo(members, i);
    SingleRule(name, rule, members);
    forall k | 0 <= k < |xs|
      ensures Accepts(s, xs[k])
    {
      SingleRule(name, rule, xs[k].members);
    }
  }

  /** What a schema accepts is itself a schema for less exactly when it does not leak. */
  lemma {:induction false} ComposesIff(t: Json)
    ensures (forall s, v | Accepts(s, t) && Accepts(t, v) :: Accepts(s, v)) <==> !Leaks(t, [])
  {
    hide Accepts, Leaks;
    if Leaks(t, []) {
      var s, v := LeakShows(t, []);
    } else {
      forall s, v | Accepts(s, t) && Accepts(t, v)
        ensures Accepts(s, v)
      {
        NoLeakComposes(s, t, [], v);
      }
    }
  }

  // ---- Values without empty arrays ----

  ghost predicate NoEmptyArray(v: Json) {
    match v
    case Array(items) => items != [] && forall i | 0 <= i < |items| :: NoEmptyArray(items[i])
    case Object(members) => forall i | 0 <= i < |members| :: NoEmptyArray(members[i].value)
    case _ => true
  }

  lemma {:induction false} OnlyEmptyArraysLeak(x: Json, xs: seq<Json>)
    requires NoEmptyArray(x)
    ensures !Leaks(x, xs)
    decreases x
  {
    match x
    case Array(items) => OnlyEmptyArraysLeak(items[0], items + ItemsOf(xs));
    case Object(members) =>
      forall i | 0 <= i < |members|
        ensures !LeaksAt(members, xs, i)
      {
        if AllHold(xs, members[i].name) {
          OnlyEmptyArraysLeak(First(members, i), ValuesAt(xs, members[i].name));
        }
      }
    case _ =>
  }

  /** In particular, validation composes through a value that contains no empty array. */
  lemma {:induction false} AcceptanceComposes(s: Json, t: Json, v: Json)
    requires Accepts(s, t) && Accepts(t, v) && NoEmptyArray(t)
    ensures Accepts(s, v)
  {
    hide Accepts, Leaks, NoEmptyArray;
    OnlyEmptyArraysLeak(t, []);
    NoLeakComposes(s, t, [], v);
  }

  /** An empty array accepts any items, and is accepted by every rule for items. */
  lemma {:induction false} EmptyArrayBreaksComposition(rule: Json, item: Json)
    requires !Accepts(rule, item)
    ensures Accepts(Array([rule]), Array([])) && Accepts(Array([]), Array([item]))
    ensures !Accepts(Array([rule]), Array([item]))
  {
    assert Accepts([rule][0], [item][0]) == Accepts(rule, item);
  }
}
