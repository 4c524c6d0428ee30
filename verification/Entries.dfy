/** The name/value pairs of a JSON object in their stored order, and the plain map they stand for. */
module Entries {
  import opened Bytes
  import opened Options

  datatype Entry<+V> = Entry(name: CString, value: V)

  // Index of the first entry with the given name, or the number of entries
  // (the loop of json_object_nget_value).
  function Find<V>(es: seq<Entry<V>>, name: Text): (i: nat)
    ensures i <= |es|
    ensures i < |es| ==> es[i].name == name
    ensures forall k | 0 <= k < i :: es[k].name != name
  {
    if es == [] then 0
    else if es[0].name == name then 0
    else 1 + Find(es[1..], name)
  }

  predicate Has<V>(es: seq<Entry<V>>, name: Text) {
    Find(es, name) < |es|
  }

  function Lookup<V>(es: seq<Entry<V>>, name: Text): Option<V> {
    if Has(es, name) then Some(es[Find(es, name)].value) else None
  }

  ghost predicate Distinct<V>(es: seq<Entry<V>>) {
    forall i, j | 0 <= i < j < |es| :: es[i].name != es[j].name
  }

  // json_object_add: a name that is already there is refused.
  function Add<V>(es: seq<Entry<V>>, name: CString, value: V): Option<seq<Entry<V>>> {
    if Has(es, name) then None else Some(es + [Entry(name, value)])
  }

  // json_object_set_value: overwrite in place, or add at the end.
  function Set<V>(es: seq<Entry<V>>, name: CString, value: V): seq<Entry<V>> {
    if Has(es, name) then es[Find(es, name) := Entry(name, value)] else es + [Entry(name, value)]
  }

  // json_object_remove: the last entry takes the place of the removed one.
  function Remove<V>(es: seq<Entry<V>>, name: Text): seq<Entry<V>>
    requires Has(es, name)
  {
    var last := |es| - 1;
    es[Find(es, name) := es[last]][..last]
  }

  ghost function AsMap<V>(es: seq<Entry<V>>): map<CString, V>
    requires Distinct(es)
  {
    map i | 0 <= i < |es| :: es[i].name := es[i].value
  }

  lemma FindAt<V>(es: seq<Entry<V>>, i: nat)
    requires Distinct(es) && i < |es|
    ensures Find(es, es[i].name) == i
  {
  }

  lemma MapAt<V>(es: seq<Entry<V>>, name: CString)
    requires Distinct(es)
    ensures name in AsMap(es) <==> Has(es, name)
    ensures Has(es, name) ==> AsMap(es)[name] == es[Find(es, name)].value
  {
    var i := Find(es, name);
    hide Find;
    if Has(es, name) {
      assert es[i].name in AsMap(es) && forall j | 0 <= j < |es| && es[j].name == name :: j == i;
    } else {
      assert forall j | 0 <= j < |es| :: es[j].name != name;
    }
  }

  /** Looking a name up by scanning the entries is looking it up in the map. */
  lemma {:induction false} LookupIsMap<V>(es: seq<Entry<V>>, name: CString)
    requires Distinct(es)
    ensures Lookup(es, name) == if name in AsMap(es) then Some(AsMap(es)[name]) else None
  {
    MapAt(es, name);
  }

  // Entries whose lookups are those of m stand for m.
  lemma LookupsGiveMap<V>(es: seq<Entry<V>>, m: map<CString, V>)
    requires Distinct(es)
    requires forall n: CString :: Lookup(es, n) == if n in m then Some(m[n]) else None
    ensures AsMap(es) == m
  {
    forall n: CString
      ensures n in AsMap(es) <==> n in m
      ensures n in m ==> AsMap(es)[n] == m[n]
    {
      LookupIsMap(es, n);
    }
  }

  lemma LookupAppended<V>(es: seq<Entry<V>>, e: Entry<V>, n: Text)
    requires !Has(es, e.name)
    ensures Lookup(es + [e], n) == if n == e.name then Some(e.value) else Lookup(es, n)
  {
    var es' := es + [e];
    if Has(es, n) {
      FoundEarlier(es, es', n);
    } else if n == e.name {
      assert es'[|es|].name == n;
    }
  }

  // Find stops at the first occurrence.
  lemma FoundEarlier<V>(es: seq<Entry<V>>, es': seq<Entry<V>>, n: Text)
    requires Find(es, n) < |es'| && es'[Find(es, n)].name == n
    requires forall i | 0 <= i < Find(es, n) :: es'[i].name == es[i].name
    ensures Find(es', n) == Find(es, n)
  {
  }

  lemma {:induction false} LookupReplaced<V>(es: seq<Entry<V>>, name: CString, value: V, n: Text)
    requires Has(es, name)
    ensures Lookup(Set(es, name, value), n) == if n == name then Some(value) else Lookup(es, n)
  {
    var es' := Set(es, name, value);
    assert forall i | 0 <= i < |es| :: es'[i].name == es[i].name;
    if Has(es, n) {
      FoundEarlier(es, es', n);
    }
  }

  lemma {:induction false} LookupRemoved<V>(es: seq<Entry<V>>, name: CString, n: Text)
    requires Has(es, name) && Distinct(es)
    ensures Lookup(Remove(es, name), n) == if n == name then None else Lookup(es, n)
  {
    var k, last, es' := Find(es, name), |es| - 1, Remove(es, name);
    if n != name && Has(es, n) {
      var i := Find(es, n);
      var i' := if i == last then k else i;
      assert es'[i'] == es[i];
      FindAt(es', i');
    }
  }

  lemma {:induction false} AddIsInsert<V>(es: seq<Entry<V>>, name: CString, value: V)
    requires Distinct(es)
    ensures Add(es, name, value).None? <==> name in AsMap(es)
    ensures name !in AsMap(es) ==>
              var es' := Add(es, name, value).value;
              Distinct(es') && AsMap(es') == AsMap(es)[name := value]
  {
    MapAt(es, name);
    if name !in AsMap(es) {
      var es' := es + [Entry(name, value)];
      forall n: CString
        ensures Lookup(es', n) ==
                var m := AsMap(es)[name := value]; if n in m then Some(m[n]) else None
      {
        LookupAppended(es, Entry(name, value), n);
        LookupIsMap(es, n);
      }
      LookupsGiveMap(es', AsMap(es)[name := value]);
    }
  }

  /** Overwriting or adding is updating the map. */
  lemma {:induction false} SetIsUpdate<V>(es: seq<Entry<V>>, name: CString, value: V)
    requires Distinct(es)
    ensures Distinct(Set(es, name, value))
    ensures AsMap(Set(es, name, value)) == AsMap(es)[name := value]
  {
    if Has(es, name) {
      var es' := Set(es, name, value);
      forall n: CString
        ensures Lookup(es', n) ==
                var m := AsMap(es)[name := value]; if n in m then Some(m[n]) else None
      {
        LookupReplaced(es, name, value, n);
        LookupIsMap(es, n);
      }
      LookupsGiveMap(es', AsMap(es)[name := value]);
    } else {
      MapAt(es, name);
      AddIsInsert(es, name, value);
    }
  }

  /** Moving the last entry into the hole removes exactly that name from the map. */
  lemma {:induction false} RemoveIsDelete<V>(es: seq<Entry<V>>, name: CString)
    requires Distinct(es) && Has(es, name)
    ensures Distinct(Remove(es, name))
    ensures AsMap(Remove(es, name)) == AsMap(es) - {name}
  {
    var es' := Remove(es, name);
    forall n: CString
      ensures Lookup(es', n) == var m := AsMap(es) - {name}; if n in m then Some(m[n]) else None
    {
      LookupRemoved(es, name, n);
      LookupIsMap(es, n);
    }
    LookupsGiveMap(es', AsMap(es) - {name});
  }

  /** The last entry takes the place of the removed one; the others stay where they are. */
  lemma {:induction false} RemoveSwapsLast<V>(es: seq<Entry<V>>, name: CString, i: nat)
    requires Distinct(es) && Has(es, name) && i < |es| - 1
    ensures |Remove(es, name)| == |es| - 1
    ensures Remove(es, name)[i] == if es[i].name == name then es[|es| - 1] else es[i]
  {
    FindAt(es, i);
  }

  lemma {:induction false} LookupSet<V>(es: seq<Entry<V>>, name: CString, value: V, n: Text)
    ensures Lookup(Set(es, name, value), n) == if n == name then Some(value) else Lookup(es, n)
  {
    if Has(es, name) {
      LookupReplaced(es, name, value, n);
    } else {
      LookupAppended(es, Entry(name, value), n);
    }
  }

  // ---- Entries with the same names ----

  lemma {:induction false} FindByNames<V, W>(es: seq<Entry<V>>, fs: seq<Entry<W>>, name: Text)
    requires |es| == |fs| && forall i | 0 <= i < |es| :: es[i].name == fs[i].name
    ensures Find(es, name) == Find(fs, name)
  {
    if es != [] && es[0].name != name {
      FindByNames(es[1..], fs[1..], name);
    }
  }

  lemma SameNamesSameHas<V, W>(es: seq<Entry<V>>, fs: seq<Entry<W>>, name: Text)
    requires |es| == |fs| && forall i | 0 <= i < |es| :: es[i].name == fs[i].name
    ensures Has(es, name) <==> Has(fs, name)
  {
    FindByNames(es, fs, name);
  }

  lemma SetLength<V>(es: seq<Entry<V>>, name: CString, v: V)
    ensures |Set(es, name, v)| == if Has(es, name) then |es| else |es| + 1
  {
  }

  lemma SetAt<V>(es: seq<Entry<V>>, name: CString, v: V, i: nat)
    requires i < |Set(es, name, v)|
    ensures i <= |es| && (i == |es| ==> Find(es, name) == i)
    ensures Set(es, name, v)[i] == if i == Find(es, name) then Entry(name, v) else es[i]
  {
  }
}
