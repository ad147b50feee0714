/** The fail-fast iterators of the two maps. The hash iterator walks the
    buckets in index order and each chain from its head; the linked map's
    iterator walks the order list. Both remember the map's `modCount` and
    throw once it has moved under them. An iterator's `next` entry is kept
    as its place: in the chain of bucket `index - 1`, or in the order list. */
module Iterators {
  import opened Outcomes
  import opened Hashing
  import opened Chains
  import opened OrderList
  import opened MapStates
  import opened HashMaps

  /** The buckets' keys one after the other, each chain from its head. */
  ghost function Flatten<K>(layout: seq<seq<K>>): seq<K>
  {
    if layout == [] then [] else layout[0] + Flatten(layout[1..])
  }

  /** The keys a hash iterator still has to return: the rest of the chain
      of bucket `index - 1` from place `next` on (none when `next` is
      null), then the buckets from `index` on. */
  ghost function Pending<K>(layout: seq<seq<K>>, index: int, next: Option<nat>): seq<K>
    requires 0 <= index <= |layout|
    requires next.Some? ==> 0 < index && next.value <= |layout[index - 1]|
  {
    match next
    case None => Flatten(layout[index..])
    case Some(j) => layout[index - 1][j..] + Flatten(layout[index..])
  }

  /** Where a hash iterator stands: `next` is a place in the chain of bucket
      `index - 1`, the keys to come are the pending ones, and when `next`
      is null there are none left. */
  ghost predicate Walking<K>(layout: seq<seq<K>>, index: int, next: Option<nat>, remaining: seq<K>)
  {
    0 <= index <= |layout| &&
    (next.Some? ==> 0 < index && next.value < |layout[index - 1]|) &&
    remaining == Pending(layout, index, next) &&
    (next.None? ==> remaining == [])
  }

  /** The entry last returned, `key` at place `place` of bucket `at`, lies
      behind the next one. */
  ghost predicate Behind<K>(layout: seq<seq<K>>, index: int, next: Option<nat>, at: int, place: int, key: K)
  {
    0 <= at < index && at < |layout| && 0 <= place < |layout[at]| && layout[at][place] == key &&
    (at == index - 1 && next.Some? ==> place < next.value)
  }

  /** A hash iterator in step with its map: walking, and the entry last
      returned, if any, behind the next one. */
  ghost predicate Positioned<K>(layout: seq<seq<K>>, index: int, next: Option<nat>, remaining: seq<K>,
                                current: Option<K>, at: int, place: int)
  {
    Walking(layout, index, next, remaining) &&
    (current.Some? ==> Behind(layout, index, next, at, place, current.value))
  }

  /** Returning the next entry, at place `j` of bucket `index - 1`: it is
      the first key to come; the iterator stays positioned when the chain
      goes on, and otherwise stands at the chain's end with the rest of the
      buckets to come. */
  lemma StepOn<K>(layout: seq<seq<K>>, index: int, j: nat, remaining: seq<K>, current: Option<K>, at: int, place: int)
    requires Positioned(layout, index, Some(j), remaining, current, at, place)
    ensures remaining != [] && remaining[0] == layout[index - 1][j]
    ensures j + 1 < |layout[index - 1]| ==>
      Positioned(layout, index, Some(j + 1), remaining[1..], Some(layout[index - 1][j]), index - 1, j)
    ensures j + 1 == |layout[index - 1]| ==>
      remaining[1..] == Pending(layout, index, None) && Behind(layout, index, None, index - 1, j, layout[index - 1][j])
  {
    PendingStep(layout, index, j);
  }

  /** The buckets from `i` on are bucket `i`'s chain, then those from `i + 1` on. */
  lemma FlattenFrom<K>(layout: seq<seq<K>>, i: int)
    requires 0 <= i < |layout|
    ensures Flatten(layout[i..]) == layout[i] + Flatten(layout[i + 1..])
  {
    assert layout[i..][1..] == layout[i + 1..];
  }

  /** One step of the loop that looks for the next non-empty bucket. */
  lemma PendingSkip<K>(layout: seq<seq<K>>, index: int)
    requires 0 <= index < |layout|
    ensures layout[index] == [] ==> Pending(layout, index + 1, None) == Pending(layout, index, None)
    ensures layout[index] != [] ==> Pending(layout, index + 1, Some(0)) == Pending(layout, index, None)
  {
    FlattenFrom(layout, index);
    assert layout[index][0..] == layout[index];
  }

  /** Returning the entry at place `j` of bucket `index - 1` leaves the keys
      after it. */
  lemma PendingStep<K>(layout: seq<seq<K>>, index: int, j: nat)
    requires 0 < index <= |layout| && j < |layout[index - 1]|
    ensures Pending(layout, index, Some(j)) == [layout[index - 1][j]] + Pending(layout, index, Some(j + 1))
    ensures j + 1 == |layout[index - 1]| ==> Pending(layout, index, Some(j + 1)) == Pending(layout, index, None)
  {
    var c, rest := layout[index - 1], Flatten(layout[index..]);
    assert Pending(layout, index, Some(j)) == c[j..] + rest;
    assert Pending(layout, index, Some(j + 1)) == c[j + 1..] + rest;
    assert c[j..] == [c[j]] + c[j + 1..];
    if j + 1 == |c| {
      assert c[j + 1..] == [];
    }
  }

  /** Unlinking the entry last returned (at place `c` of bucket `b`) leaves
      the keys to come as they were; when it shared its chain with the
      next entry, that entry's place moves down by one. */
  lemma {:induction false} PendingAfterUnlink<K, V>(t: Table<K, V>, index: int, next: Option<nat>, b: int, c: int)
    requires 0 <= index <= |t| && (next.Some? ==> 0 < index && next.value < |t[index - 1]|)
    requires 0 <= b < index && 0 <= c < |t[b]| && (b == index - 1 && next.Some? ==> c < next.value)
    ensures var t' := t[b := t[b][..c] + t[b][c + 1..]];
      var next' := if next.Some? && b == index - 1 then Some(next.value - 1) else next;
      (next'.Some? ==> next'.value < |t'[index - 1]|) &&
      Pending(KeysOf(t'), index, next') == Pending(KeysOf(t), index, next)
  {
    var t' := t[b := t[b][..c] + t[b][c + 1..]];
    var l, l' := KeysOf(t), KeysOf(t');
    BucketsBeyond(t, index, b, c);
    assert Flatten(l'[index..]) == Flatten(l[index..]);
    if next.Some? && b == index - 1 {
      ChainShift(t, b, c, next.value);
      assert l'[index - 1][next.value - 1..] == l[index - 1][next.value..];
    } else if next.Some? {
      assert l'[index - 1] == l[index - 1];
    }
  }

  /** Unlinking from a bucket before `index` leaves the buckets from
      `index` on as they were. */
  lemma BucketsBeyond<K, V>(t: Table<K, V>, index: int, b: int, c: int)
    requires 0 <= b < index <= |t| && 0 <= c < |t[b]|
    ensures KeysOf(t[b := t[b][..c] + t[b][c + 1..]])[index..] == KeysOf(t)[index..]
  {
    var l, l' := KeysOf(t), KeysOf(t[b := t[b][..c] + t[b][c + 1..]]);
    assert forall i :: index <= i < |t| ==> l'[i] == l[i];
  }

  /** Unlinking place `c` of a chain moves every later key down by one. */
  lemma ChainShift<K, V>(t: Table<K, V>, b: int, c: int, j: int)
    requires 0 <= b < |t| && 0 <= c < j <= |t[b]|
    ensures KeysOf(t[b := t[b][..c] + t[b][c + 1..]])[b][j - 1..] == KeysOf(t)[b][j..]
  {
    var t' := t[b := t[b][..c] + t[b][c + 1..]];
    var l, l' := KeysOf(t), KeysOf(t');
    assert |l'[b][j - 1..]| == |l[b][j..]|;
    forall x | 0 <= x < |l[b][j..]|
      ensures l'[b][j - 1..][x] == l[b][j..][x]
    {
      assert t'[b][j - 1 + x] == t[b][j + x];
    }
  }

  /** The head of a chain whose keys are all mapped is mapped. */
  lemma HeadMapped<K, V>(c: seq<Entry<K, V>>, m: map<Option<K>, V>)
    requires forall j :: 0 <= j < |c| ==> c[j].key in m
    ensures c != [] ==> c[0].key in m
  {
  }

  /** Unlinking the entry last returned, key `current` at place `c` of
      bucket `b`: it is its key's bucket, and the iterator stays
      positioned over the table without it, the next entry's place moving
      down by one when it shared the chain. */
  lemma UnlinkReturned<K, V>(t: Table<K, V>, hashCode: K -> bv32, m: map<Option<K>, V>, index: int,
                             next: Option<nat>, remaining: seq<Option<K>>, current: Option<Option<K>>, b: int, c: int)
    requires Represents(t, hashCode, m) && current.Some?
    requires Positioned(KeysOf(t), index, next, remaining, current, b, c)
    ensures BucketOf(hashCode, current.value, |t|) == b
    ensures var t' := t[b := Drop(t[b], current.value)];
      var next' := if next.Some? && b == index - 1 then Some(next.value - 1) else next;
      Positioned(KeysOf(t'), index, next', remaining, None, b, c)
  {
    var k := current.value;
    assert t[b][c].key == k;
    assert PlacedAt(t[b][c], hashCode, |t|, b);
    assert forall c' :: 0 <= c' < c ==> t[b][c'].key != k;
    DropAt(t[b], k, c);
    PendingAfterUnlink(t, index, next, b, c);
  }

  /** A table with no mappings has nothing to walk. */
  lemma {:induction false} NothingToWalk<K, V>(t: Table<K, V>, hashCode: K -> bv32, m: map<Option<K>, V>)
    requires Represents(t, hashCode, m) && m == map[]
    ensures Flatten(KeysOf(t)) == []
  {
    var l := KeysOf(t);
    forall i | 0 <= i < |l|
      ensures l[i] == []
    {
      HeadMapped(t[i], m);
    }
    AllEmpty(l);
  }

  lemma {:induction false} AllEmpty<K>(l: seq<seq<K>>)
    requires forall i :: 0 <= i < |l| ==> l[i] == []
    ensures Flatten(l) == []
  {
    if l != [] {
      AllEmpty(l[1..]);
    }
  }

  /** A whole walk of a table returns exactly the keys of the map it stands
      for, none twice. */
  lemma WalkVisitsEveryKey<K, V>(t: Table<K, V>, hashCode: K -> bv32, m: map<Option<K>, V>)
    requires Represents(t, hashCode, m)
    ensures forall k :: k in Flatten(KeysOf(t)) <==> k in m
    ensures Distinct(Flatten(KeysOf(t)))
  {
    var l := KeysOf(t);
    forall k | k in m
      ensures k in Flatten(l)
    {
      var b := BucketOf(hashCode, k, |t|);
      var j := KeyIndex(t[b], k);
      FlattenHas(l, b, j);
    }
    forall k | k in Flatten(l)
      ensures k in m
    {
      var i, j := FlattenFind(l, k);
    }
    FlattenDistinct(t, hashCode, 0);
    assert t[0..] == t;
  }

  lemma {:induction false} FlattenHas<K>(l: seq<seq<K>>, i: int, j: int)
    requires 0 <= i < |l| && 0 <= j < |l[i]|
    ensures l[i][j] in Flatten(l)
  {
    if i == 0 {
      assert Flatten(l) == l[0] + Flatten(l[1..]);
    } else {
      FlattenHas(l[1..], i - 1, j);
    }
  }

  lemma {:induction false} FlattenFind<K>(l: seq<seq<K>>, k: K) returns (i: int, j: int)
    requires k in Flatten(l)
    ensures 0 <= i < |l| && 0 <= j < |l[i]| && l[i][j] == k
  {
    assert Flatten(l) == l[0] + Flatten(l[1..]);
    if k in l[0] {
      i := 0;
      j :| 0 <= j < |l[0]| && l[0][j] == k;
    } else {
      i, j := FlattenFind(l[1..], k);
      i := i + 1;
    }
  }

  /** The walk of the buckets from `i` on repeats no key: a chain repeats
      none, and a key found in a later bucket would sit in two buckets. */
  lemma {:induction false} FlattenDistinct<K, V>(t: Table<K, V>, hashCode: K -> bv32, i: int)
    requires Placed(t, hashCode) && DistinctInChains(t) && 0 <= i <= |t|
    ensures Distinct(Flatten(KeysOf(t[i..])))
    decreases |t| - i
  {
    var l := KeysOf(t[i..]);
    if i < |t| {
      FlattenDistinct(t, hashCode, i + 1);
      assert KeysOf(t[i..])[1..] == KeysOf(t[i + 1..]);
      var head, rest := l[0], Flatten(l[1..]);
      assert Flatten(l) == head + rest;
      forall x, y | 0 <= x < y < |head + rest|
        ensures (head + rest)[x] != (head + rest)[y]
      {
        if y < |head| {
          assert head[x] == t[i][x].key && head[y] == t[i][y].key;
        } else if x < |head| {
          var i', j' := FlattenFind(l[1..], rest[y - |head|]);
          assert l[1..][i'][j'] == t[i + 1 + i'][j'].key;
          assert PlacedAt(t[i][x], hashCode, |t|, i) && PlacedAt(t[i + 1 + i'][j'], hashCode, |t|, i + 1 + i');
        } else {
          assert rest[x - |head|] != rest[y - |head|];
        }
      }
    } else {
      assert l == [];
    }
  }

  /** The loop of `HashIterator`'s constructor and `nextEntry()`: runs from
      bucket `from` up to the next non-empty bucket and takes its head, or
      runs off the end of the table. The keys still to come are the same. */
  method NextBucket<K, V>(t: array<seq<Entry<K, V>>>, from: int) returns (i: int, n: Option<nat>)
    requires 0 <= from <= t.Length
    ensures from <= i <= t.Length
    ensures n.Some? ==> from < i && n.value == 0 && t[i - 1] != []
    ensures n.None? ==> i == t.Length
    ensures Pending(KeysOf(t[..]), i, n) == Pending(KeysOf(t[..]), from, None)
  {
    ghost var l := KeysOf(t[..]);
    i, n := from, None;
    while i < t.Length && n.None?
      invariant from <= i <= t.Length
      invariant n.Some? ==> from < i && n.value == 0 && t[i - 1] != []
      invariant Pending(l, i, n) == Pending(l, from, None)
    {
      PendingSkip(l, i);
      if t[i] != [] {
        n := Some(0);
      }
      i := i + 1;
    }
  }

  /** `HashIterator`: `next` is the place of the next entry in the chain
      of bucket `index - 1`, `current` the key of the entry last returned. */
  class HashIterator<K(==,!new), V(==)> {
    const owner: HashMap<K, V>
    var next: Option<nat>
    var expectedModCount: int
    var index: int
    var current: Option<Option<K>>
    /** The keys still to come, in walk order. */
    ghost var Remaining: seq<Option<K>>
    /** Where the entry last returned sits: bucket and place. */
    ghost var currentAt: int
    ghost var currentPlace: int

    ghost predicate Valid()
      reads this, owner, owner.table
    {
      owner.Valid() && expectedModCount <= owner.modCount &&
      (expectedModCount == owner.modCount ==>
        Positioned(owner.Layout(), index, next, Remaining, current, currentAt, currentPlace))
    }

    /** `HashIterator()`: remembers `modCount` and, when the map is not
        empty, moves to the first entry of the first non-empty bucket. */
    constructor (owner: HashMap<K, V>)
      requires owner.Valid()
      ensures Valid() && this.owner == owner && expectedModCount == owner.modCount && current.None?
      ensures Remaining == Flatten(owner.Layout())
    {
      this.owner := owner;
      expectedModCount := owner.modCount;
      index := 0;
      next := None;
      current := None;
      Remaining := Flatten(owner.Layout());
      new;
      assert owner.Layout()[0..] == owner.Layout();
      if owner.size > 0 {
        Advance();
      } else {
        NothingToWalk(owner.table[..], owner.hashCode, owner.Contents);
      }
    }

    /** The loop that runs `index` up to the next non-empty bucket and takes
        its head as the next entry, or off the end of the table. */
    method Advance()
      requires owner.Valid() && expectedModCount == owner.modCount && next.None?
      requires 0 <= index <= owner.table.Length && Remaining == Pending(owner.Layout(), index, None)
      requires current.Some? ==> Behind(owner.Layout(), index, next, currentAt, currentPlace, current.value)
      modifies this
      ensures Valid() && expectedModCount == old(expectedModCount) && Remaining == old(Remaining)
      ensures current == old(current) && currentAt == old(currentAt) && currentPlace == old(currentPlace)
    {
      ghost var l := owner.Layout();
      var i, n := NextBucket(owner.table, index);
      if n.None? {
        assert l[i..] == [];
      }
      index, next := i, n;
      assert Positioned(l, index, next, Remaining, current, currentAt, currentPlace);
    }

    /** `hasNext()`. */
    method HasNext() returns (r: bool)
      requires Valid()
      ensures r <==> next.Some?
      ensures expectedModCount == owner.modCount ==> (r <==> Remaining != [])
    {
      r := next.Some?;
    }

    /** `nextEntry()`: throws when `modCount` has moved or when the walk is
        over; otherwise returns the next entry and moves along its chain,
        or on to the next non-empty bucket at the chain's end. */
    method NextEntry() returns (r: Result<Entry<K, V>>)
      requires Valid()
      modifies this
      ensures Valid() && expectedModCount == old(expectedModCount)
      ensures old(owner.modCount != expectedModCount) ==>
        r == Throw(ConcurrentModification) && Remaining == old(Remaining) && current == old(current) && unchanged(this)
      ensures old(owner.modCount == expectedModCount && Remaining == []) ==>
        r == Throw(NoSuchElement) && Remaining == [] && current == old(current) && unchanged(this)
      ensures old(owner.modCount == expectedModCount && Remaining != []) ==>
        r.Ok? && r.value.key == old(Remaining[0]) && r.value.key in owner.Contents &&
        r.value.value == owner.Contents[r.value.key] &&
        Remaining == old(Remaining[1..]) && current == Some(r.value.key)
    {
      if owner.modCount != expectedModCount {
        return Throw(ConcurrentModification);
      }
      if next.None? {
        return Throw(NoSuchElement);
      }
      var e := Step();
      r := Ok(e);
    }

    /** The successful path of `nextEntry()`: returns the next entry and
        moves along its chain, or on to the next non-empty bucket at the
        chain's end. */
    method Step() returns (e: Entry<K, V>)
      requires Valid() && owner.modCount == expectedModCount && next.Some?
      modifies this
      ensures Valid() && expectedModCount == old(expectedModCount)
      ensures e.key == old(Remaining[0]) && e.key in owner.Contents && e.value == owner.Contents[e.key]
      ensures Remaining == old(Remaining[1..]) && current == Some(e.key)
    {
      ghost var l := owner.Layout();
      var i, j := index - 1, next.value;
      e := owner.table[i][j];
      StepOn(l, index, j, Remaining, current, currentAt, currentPlace);
      assert e.key == l[i][j];
      assert e.key in owner.Contents && owner.Contents[e.key] == e.value;
      if j + 1 < |owner.table[i]| {
        next, Remaining, current, currentAt, currentPlace := Some(j + 1), Remaining[1..], Some(e.key), i, j;
      } else {
        next, Remaining, current, currentAt, currentPlace := None, Remaining[1..], Some(e.key), i, j;
        Advance();
      }
    }

    /** `remove()`: throws when no entry was returned since the last removal
        or when `modCount` has moved; otherwise removes the entry last
        returned by its key and takes up the new `modCount`. */
    method Remove() returns (r: Result<()>)
      requires Valid()
      modifies this, owner, owner.table
      ensures Valid()
      ensures old(current).None? ==> r == Throw(IllegalState) && owner.Untouched() && current.None? && unchanged(this)
      ensures old(current).Some? && old(owner.modCount != expectedModCount) ==>
        r == Throw(ConcurrentModification) && owner.Untouched() && unchanged(this)
      ensures old(current).Some? && old(owner.modCount == expectedModCount) ==>
        r == Ok(()) && owner.Removed(old(current).value) && current.None? &&
        expectedModCount == owner.modCount && Remaining == old(Remaining)
    {
      if current.None? {
        return Throw(IllegalState);
      }
      if owner.modCount != expectedModCount {
        return Throw(ConcurrentModification);
      }
      RemoveCurrent();
      r := Ok(());
    }

    /** The successful path of `remove()`: the map unlinks the entry last
        returned. It lies behind the next one, so the keys to come stay
        the same; when it shared the next entry's chain, that entry's
        place moves down by one. */
    method RemoveCurrent()
      requires Valid() && current.Some? && owner.modCount == expectedModCount
      modifies this, owner, owner.table
      ensures Valid() && owner.Removed(old(current).value) && current.None?
      ensures expectedModCount == owner.modCount && Remaining == old(Remaining)
    {
      var k := current.value;
      UnlinkReturned(owner.table[..], owner.hashCode, owner.Contents, index, next, Remaining, current, currentAt, currentPlace);
      var shift := next.Some? && BucketOf(owner.hashCode, k, owner.table.Length) == index - 1;
      var _ := owner.RemoveEntryForKey(k);
      current, expectedModCount := None, owner.modCount;
      if shift {
        next := Some(next.value - 1);
      }
    }
  }

  /** A linked iterator in step with its map: `next` is a place in the
      order list, the keys to come are the ones from there on, and the key
      last returned, if any, is the one just before. */
  ghost predicate Following<K>(order: seq<K>, next: int, remaining: seq<K>, last: Option<K>)
  {
    0 <= next <= |order| && remaining == order[next..] &&
    (last.Some? ==> 0 < next && order[next - 1] == last.value)
  }

  /** Unlinking the key last returned, just before place `p + 1`, leaves
      the keys to come from place `p` on. */
  lemma UnlinkedBehind<K>(order: seq<K>, p: int, remaining: seq<K>)
    requires 0 <= p < |order| && remaining == order[p + 1..]
    ensures Following(Unlink(order, p), p, remaining, None)
  {
    assert Unlink(order, p)[p..] == order[p + 1..];
  }

  /** `LinkedHashIterator`: `next` is the place of `nextEntry` in the
      order list, where the end of the list is the header. */
  class LinkedHashIterator<K(==,!new), V(==)> {
    const owner: HashMap<K, V>
    var next: nat
    var lastReturned: Option<Option<K>>
    var expectedModCount: int
    /** The keys still to come, in list order. */
    ghost var Remaining: seq<Option<K>>

    ghost predicate Valid()
      reads this, owner, owner.table
    {
      owner.Valid() && owner.kind.Linked? && expectedModCount <= owner.modCount &&
      (expectedModCount == owner.modCount ==>
        Following(owner.order, next, Remaining, lastReturned))
    }

    /** The iterator starts at `header.after` with no entry returned. */
    constructor (owner: HashMap<K, V>)
      requires owner.Valid() && owner.kind.Linked?
      ensures Valid() && this.owner == owner && expectedModCount == owner.modCount && lastReturned.None?
      ensures Remaining == owner.order
    {
      this.owner := owner;
      next := 0;
      lastReturned := None;
      expectedModCount := owner.modCount;
      Remaining := owner.order;
    }

    /** `hasNext()`: `nextEntry != header`. It checks no `modCount`, so it
        may be asked after the map has changed; only then is its answer
        that of a stale position. */
    method HasNext() returns (r: bool)
      requires Valid()
      ensures expectedModCount == owner.modCount ==> (r <==> Remaining != [])
    {
      r := next != |owner.order|;
    }

    /** `nextEntry()`: throws when `modCount` has moved or when `nextEntry`
        is the header; otherwise returns it and follows its `after` link. */
    method NextEntry() returns (r: Result<Entry<K, V>>)
      requires Valid()
      modifies this
      ensures Valid() && expectedModCount == old(expectedModCount)
      ensures old(owner.modCount != expectedModCount) ==>
        r == Throw(ConcurrentModification) && Remaining == old(Remaining) && lastReturned == old(lastReturned) && unchanged(this)
      ensures old(owner.modCount == expectedModCount && Remaining == []) ==>
        r == Throw(NoSuchElement) && Remaining == [] && lastReturned == old(lastReturned) && unchanged(this)
      ensures old(owner.modCount == expectedModCount && Remaining != []) ==>
        r.Ok? && r.value.key == old(Remaining[0]) && r.value.key in owner.Contents &&
        r.value.value == owner.Contents[r.value.key] &&
        Remaining == old(Remaining[1..]) && lastReturned == Some(r.value.key)
    {
      if owner.modCount != expectedModCount {
        return Throw(ConcurrentModification);
      }
      if next == |owner.order| {
        return Throw(NoSuchElement);
      }
      var e := owner.GetEntry(owner.order[next]);
      lastReturned := Some(owner.order[next]);
      next := next + 1;
      Remaining := Remaining[1..];
      r := Ok(e.value);
    }

    /** `remove()`: throws when no entry was returned since the last removal
        or when `modCount` has moved; otherwise removes the entry last
        returned through the map's `remove` and takes up the new
        `modCount`. */
    method Remove() returns (r: Result<()>)
      requires Valid()
      modifies this, owner, owner.table
      ensures Valid()
      ensures old(lastReturned).None? ==> r == Throw(IllegalState) && owner.Untouched() && lastReturned.None? && unchanged(this)
      ensures old(lastReturned).Some? && old(owner.modCount != expectedModCount) ==>
        r == Throw(ConcurrentModification) && owner.Untouched() && unchanged(this)
      ensures old(lastReturned).Some? && old(owner.modCount == expectedModCount) ==>
        r == Ok(()) && owner.Removed(old(lastReturned).value) && lastReturned.None? &&
        expectedModCount == owner.modCount && Remaining == old(Remaining)
    {
      if lastReturned.None? {
        return Throw(IllegalState);
      }
      if owner.modCount != expectedModCount {
        return Throw(ConcurrentModification);
      }
      RemoveReturned();
      r := Ok(());
    }

    /** The successful path of `remove()`: the map's `remove` unlinks the
        entry last returned, which lies just before `nextEntry`. */
    method RemoveReturned()
      requires Valid() && lastReturned.Some? && owner.modCount == expectedModCount
      modifies this, owner, owner.table
      ensures Valid() && owner.Removed(old(lastReturned).value) && lastReturned.None?
      ensures expectedModCount == owner.modCount && Remaining == old(Remaining)
    {
      var k := lastReturned.value;
      ghost var order0, p, rem := owner.order, next - 1, Remaining;
      assert IndexOf(order0, k) == p;
      assert k in order0 && k in owner.Contents;
      UnlinkedBehind(order0, p, rem);
      var _ := owner.Remove(k);
      assert owner.Removed(k) && owner.order == Unlink(order0, p);
      ghost var order1 := owner.order;
      assert Following(order1, p, rem, None);
      // The list is one shorter before `nextEntry`.
      lastReturned, next, expectedModCount := None, next - 1, owner.modCount;
      assert owner.order == order1 && next == p && Remaining == rem;
      assert owner.Valid() && Following(owner.order, next, Remaining, lastReturned);
    }
  }

  /** The fail-fast promise for the other open iterators: a map call that
      keeps the map valid and `Tracked` (so it either bumps `modCount` or
      leaves every bucket as it was) keeps a valid iterator it did not touch
      valid, and in sync when it was in sync and `modCount` did not move. */
  twostate lemma HashIteratorStaysValid<K(!new), V>(it: HashIterator<K, V>)
    requires old(it.Valid()) && it.owner.Valid() && it.owner.Tracked() && unchanged(it)
    ensures it.Valid()
    ensures old(it.expectedModCount == it.owner.modCount) && it.owner.modCount == old(it.owner.modCount) ==>
      it.expectedModCount == it.owner.modCount
  {
  }

  /** The same promise for an iterator over the order list. */
  twostate lemma LinkedHashIteratorStaysValid<K(!new), V>(it: LinkedHashIterator<K, V>)
    requires old(it.Valid()) && it.owner.Valid() && it.owner.Tracked() && unchanged(it)
    ensures it.Valid()
    ensures old(it.expectedModCount == it.owner.modCount) && it.owner.modCount == old(it.owner.modCount) ==>
      it.expectedModCount == it.owner.modCount
  {
  }
}
