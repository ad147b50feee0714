/** `LinkedMap`: a map kept as a linked list of entries. Lookups walk the
    list from its head and take the first entry with the key; `put` on an
    absent key appends, while the positional and first/last operations
    insert without looking for the key, so a key may occur more than once
    and then the earliest entry is the one the map shows. */
module LinkedMaps {
  import opened Outcomes
  import opened OrderList

  /** A `SimpleEntry`: a key (null is `None`) and its value. */
  datatype Mapping<K, V> = Mapping(key: Option<K>, value: V)

  /** The place of the first entry with key `key`, or the list's length
      when there is none. */
  function FirstMatch<K(==), V>(entries: seq<Mapping<K, V>>, key: Option<K>): (i: nat)
    ensures i <= |entries|
    ensures i < |entries| ==> entries[i].key == key
    ensures forall j :: 0 <= j < i ==> entries[j].key != key
  {
    if entries == [] then 0
    else if entries[0].key == key then 0
    else 1 + FirstMatch(entries[1..], key)
  }

  /** The value the map associates with `key`: that of its first entry. */
  function Lookup<K(==), V>(entries: seq<Mapping<K, V>>, key: Option<K>): (r: Option<V>)
    ensures r.None? <==> forall j :: 0 <= j < |entries| ==> entries[j].key != key
    ensures r.Some? ==> Mapping(key, r.value) in entries
  {
    var i := FirstMatch(entries, key);
    if i < |entries| then Some(entries[i].value) else None
  }

  /** The list after `put(key, value)`: the first entry with the key takes
      the value in place, or a new entry is appended. */
  function Assigned<K(==), V>(entries: seq<Mapping<K, V>>, key: Option<K>, value: V): (r: seq<Mapping<K, V>>)
    ensures |r| == |entries| + (if Lookup(entries, key).None? then 1 else 0)
  {
    var i := FirstMatch(entries, key);
    if i < |entries| then entries[i := Mapping(entries[i].key, value)] else entries + [Mapping(key, value)]
  }

  /** What `put` as written answers: having set the value on the found
      entry it reads it back, so it returns the new value, and null when
      the key was absent. */
  function PutAnswerAsWritten<K(==), V>(entries: seq<Mapping<K, V>>, key: Option<K>, value: V): (r: Option<V>)
    ensures r.Some? <==> Lookup(entries, key).Some?
    ensures r.Some? ==> r.value == value
  {
    if Lookup(entries, key).Some? then Some(value) else None
  }

  /** After `put(key, value)` the key maps to `value` and every other key
      to what it mapped to before. */
  lemma {:induction false} AssignedLookup<K, V>(entries: seq<Mapping<K, V>>, key: Option<K>, value: V, k: Option<K>)
    ensures Lookup(Assigned(entries, key, value), k) == if k == key then Some(value) else Lookup(entries, k)
  {
    var i, r := FirstMatch(entries, key), Assigned(entries, key, value);
    if i < |entries| {
      FirstMatchByKeys(r, entries, k);
    } else {
      LookupAfterAppend(entries, Mapping(key, value), k);
    }
  }

  /** The first match depends on the keys only. */
  lemma FirstMatchByKeys<K, V>(a: seq<Mapping<K, V>>, b: seq<Mapping<K, V>>, k: Option<K>)
    requires |a| == |b| && forall j :: 0 <= j < |a| ==> a[j].key == b[j].key
    ensures FirstMatch(a, k) == FirstMatch(b, k)
  {
    var f, g := FirstMatch(a, k), FirstMatch(b, k);
    assert f < |a| ==> b[f].key == k;
    assert g < |b| ==> a[g].key == k;
  }

  /** `putFirst` shadows: the new head entry is what the map shows for
      its key, and other keys are unaffected. */
  lemma LookupAfterPrepend<K, V>(entries: seq<Mapping<K, V>>, m: Mapping<K, V>, k: Option<K>)
    ensures Lookup([m] + entries, k) == if k == m.key then Some(m.value) else Lookup(entries, k)
  {
    var s := [m] + entries;
    if k != m.key {
      assert s[1..] == entries;
    }
  }

  /** `putLast` does not shadow: a key already present keeps its value,
      and only an absent key takes the new entry's. */
  lemma {:induction false} LookupAfterAppend<K, V>(entries: seq<Mapping<K, V>>, m: Mapping<K, V>, k: Option<K>)
    ensures Lookup(entries + [m], k) ==
      if Lookup(entries, k).Some? then Lookup(entries, k) else if k == m.key then Some(m.value) else None
  {
    var s := entries + [m];
    var g := FirstMatch(entries, k);
    assert forall j :: 0 <= j < |entries| ==> s[j] == entries[j];
    assert g < |entries| ==> s[g].key == k;
    if g == |entries| && k == m.key {
      assert s[|entries|].key == k;
    }
  }

  /** Dropping the head entry leaves every other key's value as it was. */
  lemma LookupAfterDropFirst<K, V>(entries: seq<Mapping<K, V>>, k: Option<K>)
    requires entries != [] && k != entries[0].key
    ensures Lookup(entries[1..], k) == Lookup(entries, k)
  {
  }

  /** Inserting at a place and removing from it again gives back the list
      and the inserted entry. */
  lemma InsertThenRemove<T>(s: seq<T>, i: int, x: T)
    requires 0 <= i <= |s|
    ensures Unlink(LinkBefore(s, i, x), i) == s && LinkBefore(s, i, x)[i] == x
  {
    assert Unlink(LinkBefore(s, i, x), i) == s[..i] + s[i..];
  }

  /** A concrete case where `put` as written answers with the new value
      although the key was mapped before, so the previous value is lost to
      the caller. */
  lemma PutAnswersNewValue()
    ensures var entries := [Mapping(Some(1), 'a')];
      PutAnswerAsWritten(entries, Some(1), 'b') == Some('b') && Lookup(entries, Some(1)) == Some('a')
  {
    var entries := [Mapping(Some(1), 'a')];
    assert FirstMatch(entries, Some(1)) == 0;
  }

  class LinkedMap<K(==), V(==)> {
    /** `entrieList`, from its first entry to its last. */
    var entries: seq<Mapping<K, V>>

    /** `LinkedMap()`: an empty list. */
    constructor ()
      ensures entries == []
    {
      entries := [];
    }

    /** `getEntry(key)`: walks the list from its head and stops at the
        first entry with the key. */
    method GetEntry(key: Option<K>) returns (r: Option<Mapping<K, V>>)
      ensures r.None? <==> Lookup(entries, key).None?
      ensures r.Some? ==> r.value == entries[FirstMatch(entries, key)]
    {
      var i := 0;
      while i < |entries|
        invariant 0 <= i <= |entries|
        invariant forall j :: 0 <= j < i ==> entries[j].key != key
      {
        if entries[i].key == key {
          assert FirstMatch(entries, key) == i;
          return Some(entries[i]);
        }
        i := i + 1;
      }
      return None;
    }

    /** `get(key)`: the value of the first entry with the key, or null. */
    method Get(key: Option<K>) returns (r: Option<V>)
      ensures r == Lookup(entries, key)
    {
      var e := GetEntry(key);
      r := if e.Some? then Some(e.value.value) else None;
    }

    /** `put(key, value)` as written: sets the value of the first entry
        with the key or appends a new entry, then answers with the value
        now stored there, or null when the key was absent. */
    method PutAsWritten(key: Option<K>, value: V) returns (r: Option<V>)
      modifies this
      ensures entries == Assigned(old(entries), key, value)
      ensures r == PutAnswerAsWritten(old(entries), key, value)
    {
      var e := GetEntry(key);
      if e.Some? {
        var i := FirstMatch(entries, key);
        entries := entries[i := Mapping(entries[i].key, value)];
        r := Some(value);
      } else {
        entries := entries + [Mapping(key, value)];
        r := None;
      }
    }

    /** `put(key, value)` answering as a map's `put` should: the value the
        key had before, or null. The list changes as in `PutAsWritten`. */
    method Put(key: Option<K>, value: V) returns (r: Option<V>)
      modifies this
      ensures entries == Assigned(old(entries), key, value)
      ensures r == old(Lookup(entries, key))
    {
      var e := GetEntry(key);
      if e.Some? {
        var i := FirstMatch(entries, key);
        r := Some(entries[i].value);
        entries := entries[i := Mapping(entries[i].key, value)];
      } else {
        entries := entries + [Mapping(key, value)];
        r := None;
      }
    }

    /** `putFirst` (`addFirstEntry`): a new entry at the head, whether or
        not the key is present. */
    method PutFirst(key: Option<K>, value: V)
      modifies this
      ensures entries == [Mapping(key, value)] + old(entries)
    {
      entries := [Mapping(key, value)] + entries;
    }

    /** `putLast` (`addLastEntry`): a new entry at the tail, whether or not
        the key is present. */
    method PutLast(key: Option<K>, value: V)
      modifies this
      ensures entries == old(entries) + [Mapping(key, value)]
    {
      entries := entries + [Mapping(key, value)];
    }

    /** `getFirstEntry`: the head entry; an empty list throws. */
    method GetFirstEntry() returns (r: Result<Mapping<K, V>>)
      ensures entries == [] ==> r == Throw(NoSuchElement)
      ensures entries != [] ==> r == Ok(entries[0])
    {
      if entries == [] {
        return Throw(NoSuchElement);
      }
      return Ok(entries[0]);
    }

    /** `getLastEntry`: the tail entry; an empty list throws. */
    method GetLastEntry() returns (r: Result<Mapping<K, V>>)
      ensures entries == [] ==> r == Throw(NoSuchElement)
      ensures entries != [] ==> r == Ok(entries[|entries| - 1])
    {
      if entries == [] {
        return Throw(NoSuchElement);
      }
      return Ok(entries[|entries| - 1]);
    }

    /** `getFirst`: the head entry's value. */
    method GetFirst() returns (r: Result<V>)
      ensures entries == [] ==> r == Throw(NoSuchElement)
      ensures entries != [] ==> r == Ok(entries[0].value)
    {
      var e := GetFirstEntry();
      r := if e.Ok? then Ok(e.value.value) else Throw(e.error);
    }

    /** `getLast`: the tail entry's value. */
    method GetLast() returns (r: Result<V>)
      ensures entries == [] ==> r == Throw(NoSuchElement)
      ensures entries != [] ==> r == Ok(entries[|entries| - 1].value)
    {
      var e := GetLastEntry();
      r := if e.Ok? then Ok(e.value.value) else Throw(e.error);
    }

    /** `removeFirstEntry`: unlinks and returns the head entry; an empty
        list throws and stays empty. */
    method RemoveFirstEntry() returns (r: Result<Mapping<K, V>>)
      modifies this
      ensures old(entries) == [] ==> r == Throw(NoSuchElement) && entries == []
      ensures old(entries) != [] ==> r == Ok(old(entries[0])) && entries == old(entries[1..])
    {
      if entries == [] {
        return Throw(NoSuchElement);
      }
      r := Ok(entries[0]);
      entries := entries[1..];
    }

    /** `removeLastEntry`: unlinks and returns the tail entry; an empty
        list throws and stays empty. */
    method RemoveLastEntry() returns (r: Result<Mapping<K, V>>)
      modifies this
      ensures old(entries) == [] ==> r == Throw(NoSuchElement) && entries == []
      ensures old(entries) != [] ==>
        r == Ok(old(entries[|entries| - 1])) && entries == old(entries[..|entries| - 1])
    {
      if entries == [] {
        return Throw(NoSuchElement);
      }
      r := Ok(entries[|entries| - 1]);
      entries := entries[..|entries| - 1];
    }

    /** `removeFirst`: the value of the unlinked head entry. */
    method RemoveFirst() returns (r: Result<V>)
      modifies this
      ensures old(entries) == [] ==> r == Throw(NoSuchElement) && entries == []
      ensures old(entries) != [] ==> r == Ok(old(entries[0].value)) && entries == old(entries[1..])
    {
      var e := RemoveFirstEntry();
      r := if e.Ok? then Ok(e.value.value) else Throw(e.error);
    }

    /** `removeLast`: the value of the unlinked tail entry. */
    method RemoveLast() returns (r: Result<V>)
      modifies this
      ensures old(entries) == [] ==> r == Throw(NoSuchElement) && entries == []
      ensures old(entries) != [] ==>
        r == Ok(old(entries[|entries| - 1].value)) && entries == old(entries[..|entries| - 1])
    {
      var e := RemoveLastEntry();
      r := if e.Ok? then Ok(e.value.value) else Throw(e.error);
    }

    /** `size()`: the number of entries, duplicates included. */
    method Size() returns (n: int)
      ensures n == |entries|
    {
      n := |entries|;
    }

    /** `clear()`. */
    method Clear()
      modifies this
      ensures entries == []
    {
      entries := [];
    }

    /** `get(index)`: the value at a place; a place outside the list
        throws. */
    method GetAt(index: int) returns (r: Result<V>)
      ensures 0 <= index < |entries| ==> r == Ok(entries[index].value)
      ensures !(0 <= index < |entries|) ==> r == Throw(IndexOutOfBounds)
    {
      if !(0 <= index < |entries|) {
        return Throw(IndexOutOfBounds);
      }
      return Ok(entries[index].value);
    }

    /** `set(index, key, value)`: a new entry replaces the one at a place
        and the old entry's value is returned; a place outside the list
        throws and changes nothing. */
    method Set(index: int, key: Option<K>, value: V) returns (r: Result<V>)
      modifies this
      ensures old(0 <= index < |entries|) ==>
        r == Ok(old(entries[index].value)) && entries == old(entries)[index := Mapping(key, value)]
      ensures old(!(0 <= index < |entries|)) ==> r == Throw(IndexOutOfBounds) && entries == old(entries)
    {
      if !(0 <= index < |entries|) {
        return Throw(IndexOutOfBounds);
      }
      r := Ok(entries[index].value);
      entries := entries[index := Mapping(key, value)];
    }

    /** `add(index, key, value)`: a new entry linked before place `index`
        (the tail when `index` is the size); any other place throws. */
    method Add(index: int, key: Option<K>, value: V) returns (r: Result<()>)
      modifies this
      ensures old(0 <= index <= |entries|) ==>
        r == Ok(()) && entries == LinkBefore(old(entries), index, Mapping(key, value))
      ensures old(!(0 <= index <= |entries|)) ==> r == Throw(IndexOutOfBounds) && entries == old(entries)
    {
      if !(0 <= index <= |entries|) {
        return Throw(IndexOutOfBounds);
      }
      entries := LinkBefore(entries, index, Mapping(key, value));
      r := Ok(());
    }

    /** `remove(index)`: unlinks the entry at a place, the later ones
        moving down, and returns its value; a place outside the list
        throws. */
    method RemoveAt(index: int) returns (r: Result<V>)
      modifies this
      ensures old(0 <= index < |entries|) ==>
        r == Ok(old(entries[index].value)) && entries == Unlink(old(entries), index)
      ensures old(!(0 <= index < |entries|)) ==> r == Throw(IndexOutOfBounds) && entries == old(entries)
    {
      if !(0 <= index < |entries|) {
        return Throw(IndexOutOfBounds);
      }
      r := Ok(entries[index].value);
      entries := Unlink(entries, index);
    }

    /** `indexOf(k)`: finds the key's first entry, then the first place
        holding an equal entry (same key and value), which is that same
        place; -1 when the key is absent. */
    method IndexOf(key: Option<K>) returns (r: int)
      ensures Lookup(entries, key).None? ==> r == -1
      ensures Lookup(entries, key).Some? ==> r == FirstMatch(entries, key)
    {
      var e := GetEntry(key);
      if e.None? {
        return -1;
      }
      ghost var f := FirstMatch(entries, key);
      var j := 0;
      while entries[j] != e.value
        invariant 0 <= j <= f
        decreases f - j
      {
        j := j + 1;
      }
      r := j;
    }
  }
}
