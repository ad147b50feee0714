/** The chained hash table and, folded into the same class, the overrides
    of its linked subclass: `kind` says which of the two an instance is, the
    way a virtual call on a `LinkedHashMap` reaches the overriding hook. */
module HashMaps {
  import opened Outcomes
  import opened Hashing
  import opened Chains
  import opened OrderList
  import opened MapStates

  /** `createEntryAtBefore`: a new entry is linked before the header (the
      field is null or the header) or before the entry with the given key. */
  datatype Anchor<K> = AtTail | Before(key: Option<K>)

  /** Where a new entry goes in the order list: at its end, or just before
      the anchor's key. */
  function PositionOf<K(==)>(order: seq<Option<K>>, anchor: Anchor<K>): (p: int)
    requires anchor.Before? ==> anchor.key in order
    ensures 0 <= p <= |order|
    ensures anchor.Before? ==> p < |order| && order[p] == anchor.key
  {
    if anchor.AtTail? then |order| else IndexOf(order, anchor.key)
  }

  /** `header.after` as an anchor: the first entry, or the header itself
      when the list is empty; either way a new entry becomes the first. */
  function FirstAnchor<K(==)>(order: seq<Option<K>>): (a: Anchor<K>)
    ensures a.Before? ==> a.key in order
    ensures PositionOf(order, a) == 0
  {
    if order == [] then AtTail else Before(order[0])
  }

  class HashMap<K(==,!new), V(==)> {
    /** The keys' `hashCode()`. */
    const hashCode: K -> bv32
    const loadFactor: real
    const kind: Kind
    /** The linked map's `removeFirstEntry(eldest)` hook, offered the eldest
        entry's key and value and the map's size; the class's own answer is
        always false. */
    const removeEldest: (Option<K>, V, int) -> bool

    var table: array<seq<Entry<K, V>>>
    var size: int
    var threshold: int
    var modCount: int
    /** The linked map's entries from `header.after` round to `header.before`;
        empty for a plain table. */
    var order: seq<Option<K>>
    var anchor: Anchor<K>

    /** The mappings the table stands for. */
    ghost var Contents: map<Option<K>, V>

    ghost predicate Valid()
      reads this, table
    {
      Inv(table[..], size, threshold, order, Contents, hashCode, loadFactor, kind)
    }

    /** The anchor names an entry of the order list, or the header. */
    ghost predicate AnchorOk()
      reads this
    {
      anchor.Before? ==> anchor.key in order
    }

    ghost function Layout(): seq<seq<Option<K>>>
      reads this, table
    {
      KeysOf(table[..])
    }

    /** The bucket of a key in the current table. */
    ghost function Bucket(key: Option<K>): int
      reads this, table
      requires ValidCapacity(table.Length)
    {
      BucketOf(hashCode, key, table.Length)
    }

    /** `HashMap(initialCapacity, loadFactor)`, and with `kind` a linked map
        (whose `init` starts an empty order list), once the arguments have
        passed the checks of `Create`. */
    constructor (initialCapacity: int, loadFactor: real, kind: Kind, hashCode: K -> bv32, removeEldest: (Option<K>, V, int) -> bool)
      requires initialCapacity >= 0 && loadFactor > 0.0
      ensures Valid() && Contents == map[]
      ensures IsLeastCapacity(table.Length, initialCapacity)
      ensures threshold == ThresholdFor(table.Length, loadFactor)
      ensures fresh(table) && modCount == 0 && order == [] && anchor == AtTail
      ensures this.loadFactor == loadFactor && this.kind == kind
      ensures this.hashCode == hashCode && this.removeEldest == removeEldest
    {
      var capacity := TableCapacity(if initialCapacity > MAXIMUM_CAPACITY then MAXIMUM_CAPACITY else initialCapacity);
      this.hashCode := hashCode;
      this.loadFactor := loadFactor;
      this.kind := kind;
      this.removeEldest := removeEldest;
      threshold := ThresholdFor(capacity, loadFactor);
      table := new seq<Entry<K, V>>[capacity](_ => []);
      size := 0;
      modCount := 0;
      order := [];
      anchor := AtTail;
      Contents := map[];
      new;
      InvClear(table[..], threshold, hashCode, loadFactor, kind);
    }

    /** `getEntry(key)`: the entry of `key` in its bucket, or null. */
    method GetEntry(key: Option<K>) returns (e: Option<Entry<K, V>>)
      requires Valid()
      ensures e.Some? <==> key in Contents
      ensures e.Some? ==> e.value == Entry(HashOf(hashCode, key), key, Contents[key])
    {
      var hash := HashOf(hashCode, key);
      var i := IndexFor(hash, table.Length);
      var found := Scan(table[i], e => Matches(e, hash, key));
      Lookup(table[..], hashCode, Contents, key);
      if found.Some? {
        e := Some(table[i][found.value]);
      } else {
        e := None;
      }
    }

    /** `getForNullKey()`: walks bucket 0 for the entry whose key is null. */
    method GetForNullKey() returns (r: Option<V>)
      requires Valid()
      ensures r.Some? <==> None in Contents
      ensures r.Some? ==> r.value == Contents[None]
    {
      NullKeyInBucketZero(hashCode, table.Length);
      var found := Scan(table[0], (e: Entry<K, V>) => e.key.None?);
      Lookup(table[..], hashCode, Contents, None);
      if found.Some? {
        r := Some(table[0][found.value].value);
      } else {
        r := None;
      }
    }

    /** `containsKey(key)`. */
    method ContainsKey(key: Option<K>) returns (r: bool)
      requires Valid()
      ensures r <==> key in Contents
    {
      var e := GetEntry(key);
      r := e.Some?;
    }

    /** `containsValue(value)` for a non-null value: walks every chain of
        every bucket; the linked map overrides the walk. */
    method ContainsValue(value: V) returns (r: bool)
      requires Valid()
      ensures r <==> exists k :: k in Contents && Contents[k] == value
    {
      if kind.Linked? {
        r := ContainsValueInOrder(value);
        return;
      }
      var t := table[..];
      assert Represents(t, hashCode, Contents);
      var i := 0;
      while i < |t|
        invariant 0 <= i <= |t|
        invariant forall i', j :: 0 <= i' < i && 0 <= j < |t[i']| ==> t[i'][j].value != value
      {
        var found := Scan(t[i], (e: Entry<K, V>) => e.value == value);
        if found.Some? {
          assert t[i][found.value].key in Contents;
          return true;
        }
        i := i + 1;
      }
      NoEntryHasValue(t, hashCode, Contents, value);
      return false;
    }

    /** `LinkedHashMap.containsValue(value)`: walks the order list from
        `header.after` round to the header. */
    method ContainsValueInOrder(value: V) returns (r: bool)
      requires Valid() && kind.Linked?
      ensures r <==> exists k :: k in Contents && Contents[k] == value
    {
      var p := 0;
      while p < |order|
        invariant 0 <= p <= |order|
        invariant forall q :: 0 <= q < p ==> order[q] in Contents && Contents[order[q]] != value
      {
        var e := GetEntry(order[p]);
        if e.value.value == value {
          return true;
        }
        p := p + 1;
      }
      forall k | k in Contents
        ensures Contents[k] != value
      {
        var q := IndexOf(order, k);
      }
      return false;
    }

    /** `transfer(newTable, false)`: moves every entry to the bucket its
        cached hash selects in the new table, pushing it on that bucket's
        head; the linked map overrides the walk. */
    method Transfer(newTable: array<seq<Entry<K, V>>>)
      requires Valid() && newTable != table && ValidCapacity(newTable.Length)
      requires forall i :: 0 <= i < newTable.Length ==> newTable[i] == []
      modifies newTable
      ensures Represents(newTable[..], hashCode, Contents)
    {
      if kind.Linked? {
        TransferInOrder(newTable);
      } else {
        TransferChains(newTable);
      }
    }

    /** The plain table's walk: the buckets in index order, each chain from
        its head. */
    method TransferChains(newTable: array<seq<Entry<K, V>>>)
      requires Valid() && newTable != table && ValidCapacity(newTable.Length)
      requires forall i :: 0 <= i < newTable.Length ==> newTable[i] == []
      modifies newTable
      ensures Represents(newTable[..], hashCode, Contents)
    {
      ghost var m := Contents;
      TransferStart(newTable[..], hashCode, m);
      ghost var moved: set<Option<K>> := {};
      var t := table[..];
      var i := 0;
      while i < |t|
        invariant 0 <= i <= |t|
        invariant Transferring(newTable[..], hashCode, m, moved)
        invariant Walked(t, moved, i, 0)
      {
        var chain := t[i];
        var j := 0;
        while j < |chain|
          invariant 0 <= j <= |chain|
          invariant Transferring(newTable[..], hashCode, m, moved)
          invariant Walked(t, moved, i, j)
        {
          var e := chain[j];
          var b := IndexFor(e.hash, newTable.Length);
          WalkStep(t, hashCode, moved, i, j);
          ghost var before, moved0 := newTable[..], moved;
          moved := moved + {e.key};
          newTable[b] := [e] + newTable[b];
          TransferStep(before, newTable[..], hashCode, m, moved0, moved, e);
          j := j + 1;
        }
        WalkNextBucket(t, moved, i);
        i := i + 1;
      }
      WalkEnd(t, hashCode, m, moved);
      TransferEnd(newTable[..], hashCode, m, moved);
    }

    /** The linked map's walk (`LinkedHashMap.transfer`): the order list from
        `header.after` round to the header. */
    method TransferInOrder(newTable: array<seq<Entry<K, V>>>)
      requires Valid() && kind.Linked? && newTable != table && ValidCapacity(newTable.Length)
      requires forall i :: 0 <= i < newTable.Length ==> newTable[i] == []
      modifies newTable
      ensures Represents(newTable[..], hashCode, Contents)
    {
      ghost var m := Contents;
      TransferStart(newTable[..], hashCode, m);
      ghost var moved: set<Option<K>> := {};
      var p := 0;
      while p < |order|
        invariant 0 <= p <= |order|
        invariant Transferring(newTable[..], hashCode, m, moved)
        invariant WalkedTo(order, moved, p)
      {
        // The entry the order list links to.
        var e := GetEntry(order[p]);
        var i := IndexFor(e.value.hash, newTable.Length);
        WalkOn(order, moved, p);
        ghost var before, moved0 := newTable[..], moved;
        moved := moved + {order[p]};
        p := p + 1;
        newTable[i] := [e.value] + newTable[i];
        TransferStep(before, newTable[..], hashCode, m, moved0, moved, e.value);
      }
      TransferEnd(newTable[..], hashCode, m, moved);
    }

    /** `resize(newCapacity)`: a table already at the maximum length stays
        and only its threshold becomes `Integer.MAX_VALUE`; otherwise the
        entries move to a new table of the asked length, whose threshold
        follows from it. */
    method Resize(newCapacity: int)
      requires Valid() && (table.Length < MAXIMUM_CAPACITY ==> ValidCapacity(newCapacity))
      modifies this
      ensures Valid() && Contents == old(Contents) && order == old(order)
      ensures size == old(size) && modCount == old(modCount) && anchor == old(anchor)
      ensures old(table.Length) == MAXIMUM_CAPACITY ==> table == old(table) && threshold == INTEGER_MAX_VALUE
      ensures old(table.Length) < MAXIMUM_CAPACITY ==>
        fresh(table) && table.Length == newCapacity && threshold == ThresholdFor(newCapacity, loadFactor)
    {
      if table.Length == MAXIMUM_CAPACITY {
        threshold := INTEGER_MAX_VALUE;
        return;
      }
      ghost var t, threshold0 := table[..], threshold;
      var newTable := new seq<Entry<K, V>>[newCapacity](_ => []);
      Transfer(newTable);
      table := newTable;
      threshold := ThresholdFor(newCapacity, loadFactor);
      InvResize(t, size, threshold0, order, Contents, table[..], threshold, hashCode, loadFactor, kind);
    }

    /** `HashMap.addEntry`: the table first doubles when the map has reached
        its threshold and the key's bucket is not empty, and the hash and the
        bucket are then worked out again in the grown table; `createEntry`
        follows. */
    method HashAddEntry(hash: bv32, key: Option<K>, value: V, bucketIndex: int)
      requires Valid() && AnchorOk() && key !in Contents
      requires hash == HashOf(hashCode, key) && ValidCapacity(table.Length) && bucketIndex == Bucket(key)
      modifies this, table
      ensures Valid() && AnchorOk() && anchor == old(anchor) && modCount == old(modCount)
      ensures table == old(table) || fresh(table)
      ensures Contents == old(Contents)[key := value]
      ensures order == OrderAfterInsert(old(order), PositionOf(old(order), old(anchor)), key, kind)
      ensures Grown(old(table), old(threshold), old(size >= threshold && table[bucketIndex] != []))
    {
      var h, b := hash, bucketIndex;
      if size >= threshold && table[b] != [] {
        if table.Length < MAXIMUM_CAPACITY {
          DoubledCapacity(table.Length);
        }
        Resize(2 * table.Length);
        h := HashOf(hashCode, key);
        b := IndexFor(h, table.Length);
      }
      CreateEntry(h, key, value, b);
    }

    /** The tail of `LinkedHashMap.addEntry`: the first entry of the order
        list is offered to `removeFirstEntry(eldest)` and removed by key when
        the hook answers true. */
    method EvictEldest()
      requires Valid() && kind.Linked? && order != []
      modifies this, table
      ensures Valid() && table == old(table) && threshold == old(threshold) && anchor == old(anchor)
      ensures Evicted(old(Contents), old(order), old(modCount))
    {
      var first := order[0];
      var eldest := GetEntry(first);
      if removeEldest(first, eldest.value.value, size) {
        var removed := RemoveEntryForKey(first);
      }
    }

    /** `addEntry` as a call reaches it: the plain table's, or the linked
        map's override, which adds the entry and then offers the eldest one
        for eviction. */
    method AddEntry(hash: bv32, key: Option<K>, value: V, bucketIndex: int)
      requires Valid() && AnchorOk() && key !in Contents
      requires hash == HashOf(hashCode, key) && ValidCapacity(table.Length) && bucketIndex == Bucket(key)
      modifies this, table
      ensures Valid() && anchor == old(anchor)
      ensures Added(old(Contents), old(order), old(modCount), key, value, PositionOf(old(order), old(anchor)))
      ensures Grown(old(table), old(threshold), old(size >= threshold && table[bucketIndex] != []))
    {
      HashAddEntry(hash, key, value, bucketIndex);
      if kind.Linked? {
        EvictEldest();
      }
    }

    /** Nothing the map is made of has changed. */
    twostate predicate Untouched()
      reads this, table
    {
      table == old(table) && table[..] == old(table[..]) && size == old(size) && threshold == old(threshold) &&
      modCount == old(modCount) && order == old(order) && Contents == old(Contents) && anchor == old(anchor)
    }

    /** The unlinking shared by `removeEntryForKey` and `removeMapping`: the
        entry at position `j` of bucket `i` leaves its chain (from the bucket
        head or from its predecessor), the size drops, the removal counts as
        a modification, and `recordRemoval` unlinks it from the linked map's
        order list. */
    method UnlinkEntry(i: int, j: int)
      requires Valid() && 0 <= i < table.Length && 0 <= j < |table[i]|
      modifies this, table
      ensures Valid() && table == old(table) && threshold == old(threshold) && anchor == old(anchor)
      ensures table[..] == old(table[..])[i := old(table[i][..j] + table[i][j + 1..])]
      ensures old(table[i][j].key in Contents) && Contents == old(Contents) - {old(table[i][j].key)}
      ensures kind.Linked? ==> old(table[i][j].key in order)
      ensures order == OrderAfterRemove(old(order), old(table[i][j].key), kind)
      ensures modCount == old(modCount) + 1
    {
      ghost var t, size0, order0, m0 := table[..], size, order, Contents;
      EntryKey(t, size, threshold, order, Contents, hashCode, loadFactor, kind, i, j);
      var key := table[i][j].key;
      var rest := table[i][..j] + table[i][j + 1..];
      modCount := modCount + 1;
      size := size - 1;
      order := OrderAfterRemove(order, key, kind);
      Contents := Contents - {key};
      table[i] := rest;
      assert table[..] == old(table[..])[i := old(table[i][..j] + table[i][j + 1..])];
      assert threshold == old(threshold) && anchor == old(anchor) && modCount == old(modCount) + 1;
      InvRemove(t, size0, threshold, order0, m0, table[..], size, order, Contents, hashCode, loadFactor, kind, i, j);
    }

    /** `removeEntryForKey(key)`: walks the key's chain for its entry; a
        present key's entry is unlinked and returned, an absent key leaves
        the map as it was and gives null. */
    method RemoveEntryForKey(key: Option<K>) returns (e: Option<Entry<K, V>>)
      requires Valid()
      modifies this, table
      ensures Valid() && anchor == old(anchor)
      ensures e.Some? <==> old(key in Contents)
      ensures e.Some? ==> e.value == Entry(HashOf(hashCode, key), key, old(Contents[key])) && Removed(key)
      ensures e.None? ==> Untouched()
    {
      var hash := HashOf(hashCode, key);
      var i := IndexFor(hash, table.Length);
      var found := Scan(table[i], x => Matches(x, hash, key));
      Lookup(table[..], hashCode, Contents, key);
      if found.None? {
        return None;
      }
      var j := found.value;
      e := Some(table[i][j]);
      DropAt(table[i], key, j);
      UnlinkEntry(i, j);
    }

    /** `removeMapping(entry)`: like `removeEntryForKey`, but an entry matches
        only when its key and its value both equal the given entry's
        (`Entry.equals`). */
    method RemoveMapping(key: Option<K>, value: V) returns (e: Option<Entry<K, V>>)
      requires Valid()
      modifies this, table
      ensures Valid() && anchor == old(anchor)
      ensures e.Some? <==> old(key in Contents && Contents[key] == value)
      ensures e.Some? ==> e.value == Entry(HashOf(hashCode, key), key, value) && Removed(key)
      ensures e.None? ==> Untouched()
    {
      var hash := HashOf(hashCode, key);
      var i := IndexFor(hash, table.Length);
      var found := Scan(table[i], (x: Entry<K, V>) => x.hash == hash && x.key == key && x.value == value);
      Lookup(table[..], hashCode, Contents, key);
      if found.None? {
        if key in Contents {
          var j :| 0 <= j < |table[i]| && Matches(table[i][j], hash, key);
        }
        return None;
      }
      var j := found.value;
      e := Some(table[i][j]);
      DropAt(table[i], key, j);
      UnlinkEntry(i, j);
    }

    /** `remove(key)`: the removed entry's value, or null. */
    method Remove(key: Option<K>) returns (r: Option<V>)
      requires Valid()
      modifies this, table
      ensures Valid() && anchor == old(anchor)
      ensures r == (if old(key in Contents) then Some(old(Contents[key])) else None)
      ensures old(key in Contents) ==> Removed(key)
      ensures old(key !in Contents) ==> Untouched()
      ensures Tracked()
    {
      var e := RemoveEntryForKey(key);
      r := if e.Some? then Some(e.value.value) else None;
    }

    /** `setValue` on the entry at position `j` of bucket `i`: its value is
        replaced in place and no key moves. */
    method SetValue(i: int, j: int, value: V)
      requires Valid() && 0 <= i < table.Length && 0 <= j < |table[i]|
      modifies this, table
      ensures Valid() && Contents == old(Contents)[old(table[i][j].key) := value]
      ensures table == old(table) && table[..] == old(table[..])[i := old(table[i][j := table[i][j].(value := value)])]
      ensures Layout() == old(Layout())
      ensures size == old(size) && threshold == old(threshold) && modCount == old(modCount)
      ensures order == old(order) && anchor == old(anchor)
    {
      ghost var t, m0 := table[..], Contents;
      var key := table[i][j].key;
      var chain := table[i][j := table[i][j].(value := value)];
      Contents := Contents[key := value];
      table[i] := chain;
      assert size == old(size) && threshold == old(threshold) && modCount == old(modCount);
      assert order == old(order) && anchor == old(anchor);
      ReplaceKeepsKeys(t, i, j, value);
      InvReplace(t, size, threshold, order, m0, table[..], Contents, hashCode, loadFactor, kind, i, j, value);
    }

    /** `recordAccess`: in access order the entry is unlinked and linked again
        before the header, at the end of the order list, which counts as a
        modification; otherwise nothing happens. */
    method RecordAccess(key: Option<K>)
      requires Valid() && key in Contents
      modifies this
      ensures Valid() && Contents == old(Contents) && table == old(table)
      ensures size == old(size) && threshold == old(threshold) && anchor == old(anchor)
      ensures kind == Linked(true) ==> old(key in order) && order == MoveToEnd(old(order), key) && modCount == old(modCount) + 1
      ensures kind != Linked(true) ==> order == old(order) && modCount == old(modCount)
    {
      if kind == Linked(true) {
        ghost var order0 := order;
        modCount := modCount + 1;
        order := MoveToEnd(order, key);
        assert Contents == old(Contents) && size == old(size) && threshold == old(threshold) && anchor == old(anchor);
        InvAccess(table[..], size, threshold, order0, Contents, order, hashCode, loadFactor, kind, key);
      }
    }

    /** `get(key)`: the value of a present key, null otherwise. The plain
        table sends the null key to `getForNullKey`; the linked map looks
        every key up with `getEntry` and runs `recordAccess` on a hit. */
    method Get(key: Option<K>) returns (r: Option<V>)
      requires Valid()
      modifies this
      ensures Valid() && Contents == old(Contents) && table == old(table)
      ensures size == old(size) && threshold == old(threshold) && anchor == old(anchor)
      ensures r == (if key in Contents then Some(Contents[key]) else None)
      ensures kind == Linked(true) && key in Contents ==> order == MoveToEnd(old(order), key) && modCount == old(modCount) + 1
      ensures !(kind == Linked(true) && key in Contents) ==> order == old(order) && modCount == old(modCount)
      ensures Tracked()
    {
      if kind.Linked? {
        var e := GetEntry(key);
        if e.None? {
          return None;
        }
        RecordAccess(key);
        return Some(e.value.value);
      }
      if key.None? {
        r := GetForNullKey();
        return;
      }
      var e := GetEntry(key);
      r := if e.Some? then Some(e.value.value) else None;
    }

    /** The hit in `put` and `putForNullKey`: the entry at position `j` of
        bucket `i`, whose key is `key`, takes the new value and
        `recordAccess` runs. */
    method Overwrite(i: int, j: int, key: Option<K>, value: V)
      requires Valid() && 0 <= i < table.Length && 0 <= j < |table[i]| && table[i][j].key == key
      modifies this, table
      ensures Valid() && anchor == old(anchor) && Replaced(old(Contents), old(order), old(modCount), key, value) && Kept()
    {
      SetValue(i, j, value);
      assert key in Contents;
      RecordAccess(key);
    }

    /** `put(key, value)`: a present key has its value replaced in place and
        `recordAccess` run, and its old value is returned; an absent key
        counts as a modification and goes through `addEntry`, and null is
        returned. The null key goes to `putForNullKey`. */
    method Put(key: Option<K>, value: V) returns (r: Option<V>)
      requires Valid() && AnchorOk()
      modifies this, table
      ensures Valid() && anchor == old(anchor)
      ensures r == (if old(key in Contents) then Some(old(Contents[key])) else None)
      ensures old(key in Contents) ==> Replaced(old(Contents), old(order), old(modCount), key, value) && Kept()
      ensures old(key !in Contents) ==>
        Added(old(Contents), old(order), old(modCount) + 1, key, value, PositionOf(old(order), old(anchor))) &&
        Grown(old(table), old(threshold), old(size >= threshold && table[Bucket(key)] != []))
      ensures Tracked()
    {
      if key.None? {
        NullKeyInBucketZero(hashCode, table.Length);
        r := PutForNullKey(value);
        return;
      }
      var hash := HashOf(hashCode, key);
      var i := IndexFor(hash, table.Length);
      assert i == Bucket(key);
      var found := Scan(table[i], x => Matches(x, hash, key));
      Lookup(table[..], hashCode, Contents, key);
      if found.Some? {
        r := Some(table[i][found.value].value);
        Overwrite(i, found.value, key, value);
        return;
      }
      modCount := modCount + 1;
      AddEntry(hash, key, value, i);
      r := None;
    }

    /** `putForNullKey(value)`: `put` for the null key, which always lives in
        bucket 0 under hash 0. */
    method PutForNullKey(value: V) returns (r: Option<V>)
      requires Valid() && AnchorOk()
      modifies this, table
      ensures Valid() && anchor == old(anchor)
      ensures r == (if old(None in Contents) then Some(old(Contents[None])) else None)
      ensures old(None in Contents) ==> Replaced(old(Contents), old(order), old(modCount), None, value) && Kept()
      ensures old(None !in Contents) ==>
        Added(old(Contents), old(order), old(modCount) + 1, None, value, PositionOf(old(order), old(anchor))) &&
        Grown(old(table), old(threshold), old(size >= threshold && table[0] != []))
      ensures Tracked()
    {
      NullKeyInBucketZero(hashCode, table.Length);
      var found := Scan(table[0], (x: Entry<K, V>) => x.key.None?);
      Lookup(table[..], hashCode, Contents, None);
      if found.Some? {
        r := Some(table[0][found.value].value);
        Overwrite(0, found.value, None, value);
        return;
      }
      modCount := modCount + 1;
      AddEntry(0, None, value, 0);
      r := None;
    }

    /** `clear()`: counts as a modification and empties every bucket and the
        size; the linked map also points its header back at itself. */
    method Clear()
      requires Valid()
      modifies this, table
      ensures Valid() && Contents == map[] && order == []
      ensures table == old(table) && threshold == old(threshold) && anchor == old(anchor)
      ensures modCount == old(modCount) + 1
      ensures Tracked()
    {
      ghost var t := table[..];
      assert ValidCapacity(|t|) && ThresholdOk(|t|, threshold, loadFactor);
      modCount := modCount + 1;
      EmptyBuckets(table);
      size := 0;
      if kind.Linked? {
        order := [];
      }
      Contents := map[];
      assert threshold == old(threshold) && anchor == old(anchor) && modCount == old(modCount) + 1;
      InvClear(table[..], threshold, hashCode, loadFactor, kind);
    }

    /** `size()`. */
    method Size() returns (n: int)
      requires Valid()
      ensures n == |Contents|
    {
      n := size;
    }

    /** `isEmpty()`. */
    method IsEmpty() returns (r: bool)
      requires Valid()
      ensures r <==> Contents == map[]
    {
      r := size == 0;
    }

    /** `getFirstEntry()`: the entry `header.after` links to; on an empty
        map that is the header itself, whose key and value are null, and
        here no entry. */
    method GetFirstEntry() returns (e: Option<Entry<K, V>>)
      requires Valid() && kind.Linked?
      ensures e.None? <==> order == []
      ensures e.Some? ==> order[0] in Contents && e.value == Entry(HashOf(hashCode, order[0]), order[0], Contents[order[0]])
    {
      if order == [] {
        return None;
      }
      e := GetEntry(order[0]);
    }

    /** `getLastEntry()`: the entry `header.before` links to, or none on an
        empty map. */
    method GetLastEntry() returns (e: Option<Entry<K, V>>)
      requires Valid() && kind.Linked?
      ensures e.None? <==> order == []
      ensures e.Some? ==> var last := order[|order| - 1];
        last in Contents && e.value == Entry(HashOf(hashCode, last), last, Contents[last])
    {
      if order == [] {
        return None;
      }
      e := GetEntry(order[|order| - 1]);
    }

    /** `getFirst()`: the first value in the order list; null on an empty
        map, the header's value. */
    method GetFirst() returns (r: Option<V>)
      requires Valid() && kind.Linked?
      ensures r == if order == [] then None else Some(Contents[order[0]])
    {
      var e := GetFirstEntry();
      r := if e.Some? then Some(e.value.value) else None;
    }

    /** `getLast()`: the last value in the order list, or null. */
    method GetLast() returns (r: Option<V>)
      requires Valid() && kind.Linked?
      ensures r == if order == [] then None else Some(Contents[order[|order| - 1]])
    {
      var e := GetLastEntry();
      r := if e.Some? then Some(e.value.value) else None;
    }

    /** `removeFirstEntry()`: the first entry goes through `removeMapping`
        (whose `recordRemoval` already unlinks it, so the second `remove()`
        changes nothing) and is returned. On an empty map nothing is removed
        and no entry is returned; the header keeps its links. */
    method RemoveFirstEntry() returns (e: Option<Entry<K, V>>)
      requires Valid() && kind.Linked?
      modifies this, table
      ensures Valid() && anchor == old(anchor)
      ensures e.None? <==> old(order) == []
      ensures e.Some? ==> e.value.key == old(order[0]) && e.value.value == old(Contents[order[0]])
      ensures e.Some? ==> Removed(e.value.key) && order == old(order[1..])
      ensures e.None? ==> Untouched()
    {
      var first := GetFirstEntry();
      if first.None? {
        return None;
      }
      e := RemoveMapping(first.value.key, first.value.value);
      assert IndexOf(old(order), old(order[0])) == 0;
    }

    /** `removeLastEntry()`: as `removeFirstEntry`, for the entry
        `header.before` links to. */
    method RemoveLastEntry() returns (e: Option<Entry<K, V>>)
      requires Valid() && kind.Linked?
      modifies this, table
      ensures Valid() && anchor == old(anchor)
      ensures e.None? <==> old(order) == []
      ensures e.Some? ==> e.value.key == old(order[|order| - 1]) && e.value.value == old(Contents[order[|order| - 1]])
      ensures e.Some? ==> Removed(e.value.key) && order == old(order[..|order| - 1])
      ensures e.None? ==> Untouched()
    {
      var last := GetLastEntry();
      if last.None? {
        return None;
      }
      ghost var order0 := order;
      e := RemoveMapping(last.value.key, last.value.value);
      assert IndexOf(order0, order0[|order0| - 1]) == |order0| - 1;
    }

    /** `removeFirst()`: the removed first entry's value; null on an empty
        map. */
    method RemoveFirst() returns (r: Option<V>)
      requires Valid() && kind.Linked?
      modifies this, table
      ensures Valid() && anchor == old(anchor)
      ensures r == if old(order) == [] then None else Some(old(Contents[order[0]]))
      ensures old(order) != [] ==> Removed(old(order[0])) && order == old(order[1..])
      ensures old(order) == [] ==> Untouched()
      ensures Tracked()
    {
      var e := RemoveFirstEntry();
      r := if e.Some? then Some(e.value.value) else None;
    }

    /** `removeLast()`: the removed last entry's value, or null. */
    method RemoveLast() returns (r: Option<V>)
      requires Valid() && kind.Linked?
      modifies this, table
      ensures Valid() && anchor == old(anchor)
      ensures r == if old(order) == [] then None else Some(old(Contents[order[|order| - 1]]))
      ensures old(order) != [] ==> Removed(old(order[|order| - 1])) && order == old(order[..|order| - 1])
      ensures old(order) == [] ==> Untouched()
      ensures Tracked()
    {
      var e := RemoveLastEntry();
      r := if e.Some? then Some(e.value.value) else None;
    }

    /** `putFirst(key, value)`: `put` with `createEntryAtBefore` pointing at
        `header.after`, so that a new entry becomes the first one (on an
        empty map `header.after` is the header); the field is reset after. A
        present key only has its value replaced. */
    method PutFirst(key: Option<K>, value: V)
      requires Valid() && kind.Linked?
      modifies this, table
      ensures Valid() && anchor == AtTail
      ensures old(key in Contents) ==> Replaced(old(Contents), old(order), old(modCount), key, value) && Kept()
      ensures old(key !in Contents) ==> Added(old(Contents), old(order), old(modCount) + 1, key, value, 0)
      ensures Tracked()
    {
      anchor := FirstAnchor(order);
      var _ := Put(key, value);
      anchor := AtTail;
    }

    /** `putLast(key, value)`: `put` with `createEntryAtBefore` pointing at
        the header, so that a new entry becomes the last one. */
    method PutLast(key: Option<K>, value: V)
      requires Valid() && kind.Linked?
      modifies this, table
      ensures Valid() && anchor == AtTail
      ensures old(key in Contents) ==> Replaced(old(Contents), old(order), old(modCount), key, value) && Kept()
      ensures old(key !in Contents) ==> Added(old(Contents), old(order), old(modCount) + 1, key, value, |old(order)|)
      ensures Tracked()
    {
      anchor := AtTail;
      var _ := Put(key, value);
    }

    /** What a fail-fast iterator relies on: `modCount` never goes down, and
        while it stays put the keys stay where they were, in the buckets and
        in the order list. */
    twostate predicate Tracked()
      reads this, table
    {
      old(modCount) <= modCount &&
      (modCount == old(modCount) ==> Layout() == old(Layout()) && order == old(order))
    }

    /** Whether the linked map's hook evicts the eldest entry once the
        mappings are `grown` and the order list is `linked`. */
    ghost function Evicts(grown: map<Option<K>, V>, linked: seq<Option<K>>): bool
      reads this
    {
      kind.Linked? && |linked| > 0 && linked[0] in grown &&
      removeEldest(linked[0], grown[linked[0]], |grown|)
    }

    /** What the linked map's eviction makes of mappings `m0` with order
        list `order0` and count `count0`: when the hook asks for it the first
        key of the list is removed, which counts as a modification; otherwise
        all stays as it was. */
    ghost predicate Evicted(m0: map<Option<K>, V>, order0: seq<Option<K>>, count0: int)
      reads this
    {
      if Evicts(m0, order0) then
        Contents == m0 - {order0[0]} && order == Unlink(order0, 0) && modCount == count0 + 1
      else
        Contents == m0 && order == order0 && modCount == count0
    }

    /** The effect of adding an absent key to mappings `m0` with order list
        `order0` and count `count0`: the mapping is added and linked before
        position `p` of the order list, and the eldest entry may then be
        evicted. */
    ghost predicate Added(m0: map<Option<K>, V>, order0: seq<Option<K>>, count0: int, key: Option<K>, value: V, p: int)
      reads this
      requires 0 <= p <= |order0|
    {
      Evicted(m0[key := value], OrderAfterInsert(order0, p, key, kind), count0)
    }

    /** The table after `addEntry`, given the one before, its threshold and
        whether the map had reached it with the key's bucket not empty: then
        the table doubles, unless it was at the maximum capacity already,
        where only the threshold moves; otherwise nothing changes. */
    ghost predicate Grown(table0: array<seq<Entry<K, V>>>, threshold0: int, full: bool)
      reads this
    {
      if !full then
        table == table0 && threshold == threshold0
      else if table0.Length == MAXIMUM_CAPACITY then
        table == table0 && threshold == INTEGER_MAX_VALUE
      else
        loadFactor > 0.0 && ValidCapacity(table.Length) && table.Length == 2 * table0.Length && threshold == ThresholdFor(table.Length, loadFactor)
    }

    /** The effect of `put` on a present key of mappings `m0` with order
        list `order0` and count `count0`: the value is replaced; only in
        access order does the key move to the end of the list, and that move
        counts as a modification. */
    ghost predicate Replaced(m0: map<Option<K>, V>, order0: seq<Option<K>>, count0: int, key: Option<K>, value: V)
      reads this
    {
      Contents == m0[key := value] &&
      if kind == Linked(true) then
        key in order0 && order == MoveToEnd(order0, key) && modCount == count0 + 1
      else
        order == order0 && modCount == count0
    }

    /** The same bucket array, with the same keys in the same places, and
        the same threshold. */
    twostate predicate Kept()
      reads this, table
    {
      table == old(table) && Layout() == old(Layout()) && threshold == old(threshold)
    }

    /** The effect of removing a present key: its entry leaves its chain and,
        in a linked map, the order list; the removal counts as a
        modification. */
    twostate predicate Removed(key: Option<K>)
      reads this, table
    {
      old(ValidCapacity(table.Length)) && table == old(table) && threshold == old(threshold) &&
      var b := BucketOf(hashCode, key, table.Length);
      table[..] == old(table[..])[b := Drop(old(table[b]), key)] &&
      Contents == old(Contents) - {key} && modCount == old(modCount) + 1 &&
      (kind.Linked? ==> old(key in order)) && order == OrderAfterRemove(old(order), key, kind) &&
      anchor == old(anchor)
    }

    /** `createEntry`: a new entry on the head of its bucket and, in a linked
        map, in the order list just before the anchor (`addBefore`). */
    method CreateEntry(hash: bv32, key: Option<K>, value: V, bucketIndex: int)
      requires Valid() && AnchorOk() && key !in Contents
      requires hash == HashOf(hashCode, key) && ValidCapacity(table.Length) && bucketIndex == Bucket(key)
      modifies this, table
      ensures Valid() && AnchorOk()
      ensures Contents == old(Contents)[key := value]
      ensures table == old(table) && table[..] == old(table[..])[bucketIndex := [Entry(hash, key, value)] + old(table[bucketIndex])]
      ensures order == OrderAfterInsert(old(order), PositionOf(old(order), old(anchor)), key, kind)
      ensures threshold == old(threshold) && modCount == old(modCount) && anchor == old(anchor)
    {
      ghost var t, size0, order0, m0 := table[..], size, order, Contents;
      var p := PositionOf(order, anchor);
      var chain := [Entry(hash, key, value)] + table[bucketIndex];
      order := OrderAfterInsert(order, p, key, kind);
      size := size + 1;
      Contents := Contents[key := value];
      table[bucketIndex] := chain;
      assert threshold == old(threshold) && modCount == old(modCount) && anchor == old(anchor);
      InvInsert(t, size0, threshold, order0, m0, table[..], size, order, Contents, hashCode, loadFactor, kind, key, value, p);
    }
  }

  /** The loop of `clear()`: every bucket of `tab`, from index 0 up, is set
      to the empty chain. */
  method EmptyBuckets<K, V>(tab: array<seq<Entry<K, V>>>)
    modifies tab
    ensures forall i :: 0 <= i < tab.Length ==> tab[i] == []
  {
    var i := 0;
    while i < tab.Length
      invariant 0 <= i <= tab.Length
      invariant forall i' :: 0 <= i' < i ==> tab[i'] == []
    {
      tab[i] := [];
      i := i + 1;
    }
  }

  /** The checks of `HashMap(initialCapacity, loadFactor)` before it builds
      the table: a negative capacity or a load factor that is not positive
      throws `IllegalArgumentException`. */
  method Create<K(==,!new), V(==)>(initialCapacity: int, loadFactor: real, kind: Kind, hashCode: K -> bv32, removeEldest: (Option<K>, V, int) -> bool)
    returns (r: Result<HashMap<K, V>>)
    ensures initialCapacity < 0 || loadFactor <= 0.0 <==> r == Throw(IllegalArgument)
    ensures r.Ok? ==> fresh(r.value) && fresh(r.value.table) && r.value.Valid() && r.value.Contents == map[]
    ensures r.Ok? ==> IsLeastCapacity(r.value.table.Length, initialCapacity)
  {
    if initialCapacity < 0 || loadFactor <= 0.0 {
      return Throw(IllegalArgument);
    }
    var m := new HashMap(initialCapacity, loadFactor, kind, hashCode, removeEldest);
    return Ok(m);
  }
}
