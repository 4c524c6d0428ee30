/** The growable containers json_object_t and json_array_t
    (mrbgems/json-with-casing/src/parson.c, lines 343-468 and 1631-1982): arrays with spare
    capacity, a count, and in-place updates. The stored values are a parameter. */
module Tables {
  import opened Bytes
  import opened Options
  import opened Entries

  const STARTING_CAPACITY: nat := 16

  // A full table: twice the room, at least 16 slots.
  function Grown(capacity: nat): nat {
    if capacity < 8 then 16 else 2 * capacity
  }

  function Zip<V>(names: seq<CString>, values: seq<V>): (es: seq<Entry<V>>)
    requires |names| == |values|
    ensures |es| == |names|
    ensures forall i | 0 <= i < |es| :: es[i] == Entry(names[i], values[i])
  {
    seq(|names|, i requires 0 <= i < |names| => Entry(names[i], values[i]))
  }

  class ObjectTable<V> {
    var names: array?<CString>
    var values: array?<V>
    var count: nat
    var capacity: nat

    ghost function Repr(): set<object>
      reads this
    {
      {this} + (if names == null then {} else {names}) + (if values == null then {} else {values})
    }

    // Both arrays are absent or both have room for capacity entries, and the live entries have
    // pairwise distinct names.
    ghost predicate Valid()
      reads this, names, values
    {
      && Shaped()
      && Distinct(Members())
    }

    predicate Shaped()
      reads this, names, values
    {
      && (names == null <==> values == null)
      && (names == null ==> capacity == 0)
      && (names != null ==> names.Length == capacity)
      && (values != null ==> values.Length == capacity)
      && (names as object? != values as object? || names == null)
      && count <= capacity
    }

    function Members(): (es: seq<Entry<V>>)
      requires Shaped()
      reads this, names, values
      ensures |es| == count
    {
      if names == null || values == null then [] else Zip(names[..count], values[..count])
    }

    // json_object_init
    constructor ()
      ensures Valid() && Members() == [] && fresh(Repr()) && count == capacity == 0
    {
      names, values, count, capacity := null, null, 0, 0;
    }

    /** json_object_resize: new arrays of exactly the new capacity holding the same entries. Both
        callers ask for at least as much room as there are entries; zero is refused. What the unused
        slots hold does not matter. */
    method Resize(newCapacity: nat, filler: V) returns (ok: bool)
      requires Shaped() && count <= newCapacity
      modifies this
      ensures Shaped() && Members() == old(Members()) && fresh(Repr() - old(Repr()))
      ensures ok <==> newCapacity != 0
      ensures count == old(count) && (ok ==> capacity == newCapacity && names != null)
    {
      if newCapacity == 0 {
        return false;
      }
      var newNames := new CString[newCapacity];
      var newValues := new V[newCapacity](_ => filler);
      if names != null && values != null {
        forall i | 0 <= i < count {
          newNames[i] := names[i];
        }
        forall i | 0 <= i < count {
          newValues[i] := values[i];
        }
      }
      names, values, capacity := newNames, newValues, newCapacity;
      ok := true;
    }

    /** json_object_nget_value on the first n bytes of name. */
    method GetValue(name: Text, n: nat) returns (r: Option<V>)
      requires Valid() && n <= |name|
      ensures r == Lookup(Members(), name[..n])
    {
      var i := 0;
      while i < count
        invariant 0 <= i <= count
        invariant forall k | 0 <= k < i :: Members()[k].name != name[..n]
      {
        if |names[i]| == n && names[i] == name[..n] {
          assert Members()[i].name == name[..n];
          return Some(values[i]);
        }
        i := i + 1;
      }
      return None;
    }

    // The strcmp loop of json_object_set_value and json_object_remove.
    method IndexOf(name: CString) returns (i: nat)
      requires Valid()
      ensures i == Find(Members(), name)
    {
      i := 0;
      while i < count
        invariant 0 <= i <= count
        invariant forall k | 0 <= k < i :: Members()[k].name != name
      {
        if names[i] == name {
          assert Members()[i].name == name;
          return;
        }
        i := i + 1;
      }
    }

    // Storing an entry in the first free slot.
    method Append(name: CString, value: V)
      requires Shaped() && count < capacity
      modifies this, names, values
      ensures Shaped() && names == old(names) && values == old(values) && capacity == old(capacity)
      ensures Members() == old(Members()) + [Entry(name, value)]
    {
      names[count] := name;
      values[count] := value;
      count := count + 1;
      assert Members() == old(Members()) + [Entry(name, value)];
    }

    /** json_object_add: refuses a name that is present, grows the arrays when they are full. */
    method AddEntry(name: CString, value: V) returns (ok: bool)
      requires Valid()
      modifies Repr()
      ensures Valid() && fresh(Repr() - old(Repr()))
      ensures ok <==> Add(old(Members()), name, value).Some?
      ensures Members() == if ok then Add(old(Members()), name, value).value else old(Members())
      ensures capacity == if ok && old(count) == old(capacity) then Grown(old(capacity)) else old(capacity)
    {
      hide AsMap, Find;
      var present := GetValue(name, |name|);
      assert name[..|name|] == name;
      if present.Some? {
        return false;
      }
      if count >= capacity {
        var resized := Resize(if capacity * 2 > STARTING_CAPACITY then capacity * 2 else STARTING_CAPACITY, value);
      }
      Append(name, value);
      return true;
    }

    /** json_object_set_value: overwrites in place when the name is present, otherwise adds. */
    method SetEntry(name: CString, value: V)
      requires Valid()
      modifies Repr()
      ensures Valid() && fresh(Repr() - old(Repr()))
      ensures Members() == Set(old(Members()), name, value)
    {
      hide Distinct, AsMap, Find;
      var present := GetValue(name, |name|);
      assert name[..|name|] == name;
      if present.Some? {
        var i := IndexOf(name);
        SetIsUpdate(Members(), name, value);
        values[i] := value;
        assert Members() == Set(old(Members()), name, value);
        return;
      }
      var added := AddEntry(name, value);
    }

    // Moving the last entry into slot i.
    method TakeOut(i: nat)
      requires Shaped() && i < count
      modifies this, names, values
      ensures Shaped() && names == old(names) && values == old(values) && capacity == old(capacity)
      ensures Members() == old(Members()[i := Members()[count - 1]][..count - 1])
    {
      var last := count - 1;
      if i != last {
        names[i] := names[last];
        values[i] := values[last];
      }
      count := count - 1;
    }

    /** json_object_remove: the last entry is moved into the hole. */
    method RemoveEntry(name: CString) returns (ok: bool)
      requires Valid()
      modifies this, names, values
      ensures Valid() && names == old(names) && values == old(values) && capacity == old(capacity)
      ensures ok <==> Has(old(Members()), name)
      ensures Members() == if ok then Remove(old(Members()), name) else old(Members())
    {
      hide Distinct, AsMap, Find;
      var present := GetValue(name, |name|);
      assert name[..|name|] == name;
      if present.None? {
        return false;
      }
      RemoveIsDelete(Members(), name);
      var i := IndexOf(name);
      TakeOut(i);
      return true;
    }

    /** json_object_clear keeps the arrays and forgets the entries. */
    method Clear()
      requires Valid()
      modifies this
      ensures Valid() && Members() == []
      ensures names == old(names) && values == old(values) && capacity == old(capacity)
    {
      count := 0;
    }
  }

  class ArrayTable<V> {
    var items: array?<V>
    var count: nat
    var capacity: nat

    ghost function Repr(): set<object>
      reads this
    {
      {this} + (if items == null then {} else {items})
    }

    ghost predicate Valid()
      reads this, items
    {
      && (items == null ==> capacity == 0)
      && (items != null ==> items.Length == capacity)
      && count <= capacity
    }

    ghost function Items(): (s: seq<V>)
      requires Valid()
      reads this, items
      ensures |s| == count
    {
      if items == null then [] else items[..count]
    }

    // json_array_init
    constructor ()
      ensures Valid() && Items() == [] && fresh(Repr()) && count == capacity == 0
    {
      items, count, capacity := null, 0, 0;
    }

    /** json_array_resize */
    method Resize(newCapacity: nat, filler: V) returns (ok: bool)
      requires Valid() && count <= newCapacity
      modifies this
      ensures Valid() && Items() == old(Items()) && fresh(Repr() - old(Repr()))
      ensures ok <==> newCapacity != 0
      ensures count == old(count) && (ok ==> capacity == newCapacity && items != null)
    {
      if newCapacity == 0 {
        return false;
      }
      var newItems := new V[newCapacity](_ => filler);
      if items != null {
        forall i | 0 <= i < count {
          newItems[i] := items[i];
        }
      }
      items, capacity := newItems, newCapacity;
      ok := true;
    }

    /** json_array_add */
    method AddItem(value: V)
      requires Valid()
      modifies Repr()
      ensures Valid() && fresh(Repr() - old(Repr()))
      ensures Items() == old(Items()) + [value]
      ensures capacity == if old(count) == old(capacity) then Grown(old(capacity)) else old(capacity)
    {
      if count >= capacity {
        var resized := Resize(if capacity * 2 > STARTING_CAPACITY then capacity * 2 else STARTING_CAPACITY, value);
      }
      items[count] := value;
      count := count + 1;
    }

    /** json_array_remove: the items behind the removed one move down by one (memmove). */
    method RemoveItem(ix: nat) returns (ok: bool)
      requires Valid()
      modifies this, items
      ensures Valid() && items == old(items) && capacity == old(capacity)
      ensures ok <==> ix < old(count)
      ensures Items() == if ok then old(Items()[..ix] + Items()[ix + 1..]) else old(Items())
    {
      if ix >= count {
        return false;
      }
      forall i | ix <= i < count - 1 {
        items[i] := items[i + 1];
      }
      count := count - 1;
      ok := true;
    }

    /** json_array_replace_value */
    method ReplaceItem(ix: nat, value: V) returns (ok: bool)
      requires Valid()
      modifies items
      ensures Valid()
      ensures ok <==> ix < count
      ensures Items() == if ok then old(Items())[ix := value] else old(Items())
    {
      if ix >= count {
        return false;
      }
      items[ix] := value;
      ok := true;
    }

    /** json_array_clear */
    method Clear()
      requires Valid()
      modifies this
      ensures Valid() && Items() == [] && items == old(items) && capacity == old(capacity)
    {
      count := 0;
    }
  }
}
