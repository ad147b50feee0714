/** The bucket table as values: each bucket is the chain of entries that
    `table[i]` heads, listed from the head along the `next` links, and the
    predicates that say when such a table stands for a map. */
module Chains {
  import opened Outcomes
  import opened Hashing

  /** A table entry: the hash cached when it was created, the key (`None`
      is the null key) and the value. The `next` link is the entry's place
      in its chain. */
  datatype Entry<K, V> = Entry(hash: bv32, key: Option<K>, value: V)

  type Table<K, V> = seq<seq<Entry<K, V>>>

  /** The test of every lookup loop: `e.hash == hash && (k == key || key.equals(k))`. */
  predicate Matches<K(==), V>(e: Entry<K, V>, hash: bv32, key: Option<K>)
  {
    e.hash == hash && e.key == key
  }

  /** Walks a chain from its head and stops at the first entry that passes
      the test, or runs off the end (the entry is null). */
  method Scan<K, V>(chain: seq<Entry<K, V>>, test: Entry<K, V> -> bool) returns (found: Option<nat>)
    ensures found.Some? ==> found.value < |chain| && test(chain[found.value])
    ensures found.Some? ==> forall j :: 0 <= j < found.value ==> !test(chain[j])
    ensures found.None? ==> forall j :: 0 <= j < |chain| ==> !test(chain[j])
  {
    var j := 0;
    while j < |chain|
      invariant 0 <= j <= |chain|
      invariant forall j' :: 0 <= j' < j ==> !test(chain[j'])
    {
      if test(chain[j]) {
        return Some(j);
      }
      j := j + 1;
    }
    return None;
  }

  /** Every entry caches its key's hash and sits in the bucket that hash
      selects. */
  ghost predicate Placed<K, V>(t: Table<K, V>, hashCode: K -> bv32)
  {
    ValidCapacity(|t|) &&
    forall i, j :: 0 <= i < |t| && 0 <= j < |t[i]| ==> PlacedAt(t[i][j], hashCode, |t|, i)
  }

  /** An entry with its key's hash, in the bucket `i` of a table of length `n`. */
  ghost predicate PlacedAt<K, V>(e: Entry<K, V>, hashCode: K -> bv32, n: int, i: int)
    requires ValidCapacity(n)
  {
    e.hash == HashOf(hashCode, e.key) && IndexFor(e.hash, n) == i
  }

  /** No key occurs twice in a chain. */
  ghost predicate DistinctInChains<K, V>(t: Table<K, V>)
  {
    forall i, j, j' :: 0 <= i < |t| && 0 <= j < j' < |t[i]| ==> t[i][j].key != t[i][j'].key
  }

  /** Every entry is a mapping of `m`. */
  ghost predicate Agree<K, V>(t: Table<K, V>, m: map<Option<K>, V>)
  {
    forall i, j :: 0 <= i < |t| && 0 <= j < |t[i]| ==> t[i][j].key in m && m[t[i][j].key] == t[i][j].value
  }

  ghost predicate InChain<K, V>(chain: seq<Entry<K, V>>, key: Option<K>)
  {
    exists j :: 0 <= j < |chain| && chain[j].key == key
  }

  /** Every key of `m` has an entry in its bucket. */
  ghost predicate Complete<K, V>(t: Table<K, V>, hashCode: K -> bv32, m: map<Option<K>, V>)
  {
    ValidCapacity(|t|) &&
    forall k {:trigger BucketOf(hashCode, k, |t|)} :: k in m ==> InChain(t[BucketOf(hashCode, k, |t|)], k)
  }

  /** The table holds exactly the mappings of `m`, one entry per key, each in
      its own bucket. */
  ghost predicate Represents<K, V>(t: Table<K, V>, hashCode: K -> bv32, m: map<Option<K>, V>)
  {
    Placed(t, hashCode) && DistinctInChains(t) && Agree(t, m) && Complete(t, hashCode, m)
  }

  /** The position of a key in a chain where it occurs. */
  ghost function KeyIndex<K, V>(chain: seq<Entry<K, V>>, key: Option<K>): (j: nat)
    requires InChain(chain, key)
    ensures j < |chain| && chain[j].key == key
    ensures forall j' :: 0 <= j' < j ==> chain[j'].key != key
  {
    if chain[0].key == key then 0
    else
      assert InChain(chain[1..], key) by {
        var j :| 0 <= j < |chain| && chain[j].key == key;
        assert chain[1..][j - 1].key == key;
      }
      1 + KeyIndex(chain[1..], key)
  }

  /** The keys of a table, bucket by bucket: what a fail-fast iterator
      relies on staying put while `modCount` does not move. */
  ghost function KeysOf<K, V>(t: Table<K, V>): (keys: seq<seq<Option<K>>>)
    ensures |keys| == |t|
    ensures forall i :: 0 <= i < |t| ==> |keys[i]| == |t[i]|
    ensures forall i, j :: 0 <= i < |t| && 0 <= j < |t[i]| ==> keys[i][j] == t[i][j].key
  {
    seq(|t|, i requires 0 <= i < |t| => seq(|t[i]|, j requires 0 <= j < |t[i]| => t[i][j].key))
  }

  /** An entry found by the lookup test in a key's bucket is that key's
      mapping; when the test finds nothing, the key is not mapped. */
  lemma Lookup<K, V>(t: Table<K, V>, hashCode: K -> bv32, m: map<Option<K>, V>, key: Option<K>)
    requires Represents(t, hashCode, m)
    ensures var b := BucketOf(hashCode, key, |t|);
      (key in m <==> exists j :: 0 <= j < |t[b]| && Matches(t[b][j], HashOf(hashCode, key), key)) &&
      forall j :: 0 <= j < |t[b]| && Matches(t[b][j], HashOf(hashCode, key), key) ==> m[key] == t[b][j].value
  {
    var b := BucketOf(hashCode, key, |t|);
    if key in m {
      var j :| 0 <= j < |t[b]| && t[b][j].key == key;
      assert Matches(t[b][j], HashOf(hashCode, key), key);
    }
  }

  /** A value no entry holds is the value of no key. */
  lemma NoEntryHasValue<K, V>(t: Table<K, V>, hashCode: K -> bv32, m: map<Option<K>, V>, value: V)
    requires Represents(t, hashCode, m)
    requires forall i, j :: 0 <= i < |t| && 0 <= j < |t[i]| ==> t[i][j].value != value
    ensures forall k :: k in m ==> m[k] != value
  {
    forall k | k in m
      ensures m[k] != value
    {
      var b := BucketOf(hashCode, k, |t|);
      var j :| 0 <= j < |t[b]| && t[b][j].key == k;
    }
  }

  /** Two entries with the same key sit at the same place of the table. */
  lemma KeysUnique<K, V>(t: Table<K, V>, hashCode: K -> bv32, i: int, j: int, i': int, j': int)
    requires Placed(t, hashCode) && DistinctInChains(t)
    requires 0 <= i < |t| && 0 <= j < |t[i]| && 0 <= i' < |t| && 0 <= j' < |t[i']|
    ensures t[i][j].key == t[i'][j'].key ==> i == i' && j == j'
  {
  }

  /** A table of empty buckets stands for the empty map. */
  lemma EmptyTable<K, V>(t: Table<K, V>, hashCode: K -> bv32)
    requires ValidCapacity(|t|) && forall i :: 0 <= i < |t| ==> t[i] == []
    ensures Represents(t, hashCode, map[])
  {
  }

  /** `createEntry`: a new entry pushed on the head of its key's bucket adds
      exactly that mapping. */
  lemma InsertHead<K, V>(t: Table<K, V>, hashCode: K -> bv32, m: map<Option<K>, V>, key: Option<K>, value: V)
    requires Represents(t, hashCode, m) && key !in m
    ensures var b := BucketOf(hashCode, key, |t|);
      Represents(t[b := [Entry(HashOf(hashCode, key), key, value)] + t[b]], hashCode, m[key := value])
  {
    var b := BucketOf(hashCode, key, |t|);
    var e := Entry(HashOf(hashCode, key), key, value);
    var m' := m[key := value];
    assert Agree(t, m');
    PushPlaces(t, hashCode, b, e);
    PushAgrees(t, m', b, e);
    PushCompletes(t, hashCode, m, b, e);
  }

  /** The entries after one is pushed on the head of bucket `b`. */
  lemma Pushed<K, V>(t: Table<K, V>, b: int, e: Entry<K, V>, i: int, j: int)
    requires 0 <= b < |t| && 0 <= i < |t| && 0 <= j < |t[i]| + (if i == b then 1 else 0)
    ensures var t' := t[b := [e] + t[b]];
      j < |t'[i]| && t'[i][j] == if i == b && j == 0 then e else t[i][if i == b then j - 1 else j]
  {
  }

  lemma PushPlaces<K, V>(t: Table<K, V>, hashCode: K -> bv32, b: int, e: Entry<K, V>)
    requires Placed(t, hashCode) && DistinctInChains(t) && 0 <= b < |t| && PlacedAt(e, hashCode, |t|, b)
    requires forall j :: 0 <= j < |t[b]| ==> t[b][j].key != e.key
    ensures Placed(t[b := [e] + t[b]], hashCode) && DistinctInChains(t[b := [e] + t[b]])
  {
    var t': Table<K, V> := t[b := [e] + t[b]];
    forall i, j | 0 <= i < |t'| && 0 <= j < |t'[i]|
      ensures PlacedAt(t'[i][j], hashCode, |t'|, i)
    {
      Pushed(t, b, e, i, j);
    }
    forall i, j, j' | 0 <= i < |t'| && 0 <= j < j' < |t'[i]|
      ensures t'[i][j].key != t'[i][j'].key
    {
      Pushed(t, b, e, i, j);
      Pushed(t, b, e, i, j');
    }
  }

  lemma PushAgrees<K, V>(t: Table<K, V>, m: map<Option<K>, V>, b: int, e: Entry<K, V>)
    requires Agree(t, m) && 0 <= b < |t| && e.key in m && m[e.key] == e.value
    ensures Agree(t[b := [e] + t[b]], m)
  {
    var t': Table<K, V> := t[b := [e] + t[b]];
    forall i, j | 0 <= i < |t'| && 0 <= j < |t'[i]|
      ensures t'[i][j].key in m && m[t'[i][j].key] == t'[i][j].value
    {
      Pushed(t, b, e, i, j);
    }
  }

  /** After a push every key that had an entry in its bucket still has one,
      and so has the pushed key. */
  lemma PushCompletes<K, V>(t: Table<K, V>, hashCode: K -> bv32, m: map<Option<K>, V>, b: int, e: Entry<K, V>)
    requires Complete(t, hashCode, m) && 0 <= b < |t| && BucketOf(hashCode, e.key, |t|) == b
    ensures Complete(t[b := [e] + t[b]], hashCode, m[e.key := e.value])
  {
    var t': Table<K, V> := t[b := [e] + t[b]];
    forall k | k in m[e.key := e.value]
      ensures InChain(t'[BucketOf(hashCode, k, |t'|)], k)
    {
      var bk := BucketOf(hashCode, k, |t|);
      if k == e.key {
        Pushed(t, b, e, bk, 0);
      } else {
        var j :| 0 <= j < |t[bk]| && t[bk][j].key == k;
        if bk == b {
          Pushed(t, b, e, bk, j + 1);
          assert t'[bk][j + 1].key == k;
        } else {
          Pushed(t, b, e, bk, j);
          assert t'[bk][j].key == k;
        }
      }
    }
  }

  /** `setValue` on an entry: the table now maps that entry's key to the new
      value and nothing else changes. */
  lemma ReplaceValue<K, V>(t: Table<K, V>, hashCode: K -> bv32, m: map<Option<K>, V>, b: int, j: int, value: V)
    requires Represents(t, hashCode, m) && 0 <= b < |t| && 0 <= j < |t[b]|
    ensures Represents(t[b := t[b][j := t[b][j].(value := value)]], hashCode, m[t[b][j].key := value])
  {
    var t': Table<K, V> := t[b := t[b][j := t[b][j].(value := value)]];
    ReplaceKeepsPlaces(t, hashCode, b, j, value);
    ReplaceAgrees(t, hashCode, m, b, j, value);
    ReplaceCompletes(t, hashCode, m, b, j, value);
  }

  lemma ReplaceCompletes<K, V>(t: Table<K, V>, hashCode: K -> bv32, m: map<Option<K>, V>, b: int, j: int, value: V)
    requires Complete(t, hashCode, m) && 0 <= b < |t| && 0 <= j < |t[b]| && t[b][j].key in m
    ensures Complete(t[b := t[b][j := t[b][j].(value := value)]], hashCode, m[t[b][j].key := value])
  {
    var t': Table<K, V> := t[b := t[b][j := t[b][j].(value := value)]];
    forall k | k in m[t[b][j].key := value]
      ensures InChain(t'[BucketOf(hashCode, k, |t'|)], k)
    {
      var bk := BucketOf(hashCode, k, |t|);
      var j' :| 0 <= j' < |t[bk]| && t[bk][j'].key == k;
      assert t'[bk][j'].key == k;
    }
  }

  lemma ReplaceKeepsPlaces<K, V>(t: Table<K, V>, hashCode: K -> bv32, b: int, j: int, value: V)
    requires Placed(t, hashCode) && DistinctInChains(t) && 0 <= b < |t| && 0 <= j < |t[b]|
    ensures var t' := t[b := t[b][j := t[b][j].(value := value)]];
      Placed(t', hashCode) && DistinctInChains(t')
  {
    var t': Table<K, V> := t[b := t[b][j := t[b][j].(value := value)]];
    assert forall i, j' :: 0 <= i < |t'| && 0 <= j' < |t'[i]| ==> t'[i][j'].key == t[i][j'].key && t'[i][j'].hash == t[i][j'].hash;
  }

  lemma ReplaceAgrees<K, V>(t: Table<K, V>, hashCode: K -> bv32, m: map<Option<K>, V>, b: int, j: int, value: V)
    requires Placed(t, hashCode) && DistinctInChains(t) && Agree(t, m) && 0 <= b < |t| && 0 <= j < |t[b]|
    ensures Agree(t[b := t[b][j := t[b][j].(value := value)]], m[t[b][j].key := value])
  {
    var t': Table<K, V> := t[b := t[b][j := t[b][j].(value := value)]];
    var m': map<Option<K>, V> := m[t[b][j].key := value];
    forall i, j' | 0 <= i < |t'| && 0 <= j' < |t'[i]|
      ensures t'[i][j'].key in m' && m'[t'[i][j'].key] == t'[i][j'].value
    {
      KeysUnique(t, hashCode, i, j', b, j);
    }
  }

  /** Unlinking an entry from its chain removes exactly its key. */
  lemma RemoveAt<K, V>(t: Table<K, V>, hashCode: K -> bv32, m: map<Option<K>, V>, b: int, j: int)
    requires Represents(t, hashCode, m) && 0 <= b < |t| && 0 <= j < |t[b]|
    ensures t[b][j].key in m
    ensures Represents(t[b := t[b][..j] + t[b][j + 1..]], hashCode, m - {t[b][j].key})
  {
    RemoveKeepsPlaces(t, hashCode, b, j);
    RemoveAgrees(t, hashCode, m, b, j);
    RemoveCompletes(t, hashCode, m, b, j);
  }

  /** The entries left after unlinking one, with their old positions. */
  lemma Unlinked<K, V>(t: Table<K, V>, b: int, j: int, i: int, j': int)
    requires 0 <= b < |t| && 0 <= j < |t[b]|
    requires 0 <= i < |t| && 0 <= j' < |t[i]| - (if i == b then 1 else 0)
    ensures var t' := t[b := t[b][..j] + t[b][j + 1..]];
      j' < |t'[i]| && t'[i][j'] == t[i][if i == b && j' >= j then j' + 1 else j']
  {
  }

  lemma RemoveKeepsPlaces<K, V>(t: Table<K, V>, hashCode: K -> bv32, b: int, j: int)
    requires Placed(t, hashCode) && DistinctInChains(t) && 0 <= b < |t| && 0 <= j < |t[b]|
    ensures var t' := t[b := t[b][..j] + t[b][j + 1..]];
      Placed(t', hashCode) && DistinctInChains(t')
  {
    var t': Table<K, V> := t[b := t[b][..j] + t[b][j + 1..]];
    forall i, j' | 0 <= i < |t'| && 0 <= j' < |t'[i]|
      ensures PlacedAt(t'[i][j'], hashCode, |t'|, i)
    {
      Unlinked(t, b, j, i, j');
    }
    forall i, j1, j2 | 0 <= i < |t'| && 0 <= j1 < j2 < |t'[i]|
      ensures t'[i][j1].key != t'[i][j2].key
    {
      Unlinked(t, b, j, i, j1);
      Unlinked(t, b, j, i, j2);
    }
  }

  lemma RemoveAgrees<K, V>(t: Table<K, V>, hashCode: K -> bv32, m: map<Option<K>, V>, b: int, j: int)
    requires Placed(t, hashCode) && DistinctInChains(t) && Agree(t, m) && 0 <= b < |t| && 0 <= j < |t[b]|
    ensures Agree(t[b := t[b][..j] + t[b][j + 1..]], m - {t[b][j].key})
  {
    var t': Table<K, V> := t[b := t[b][..j] + t[b][j + 1..]];
    var m': map<Option<K>, V> := m - {t[b][j].key};
    forall i, j' | 0 <= i < |t'| && 0 <= j' < |t'[i]|
      ensures t'[i][j'].key in m' && m'[t'[i][j'].key] == t'[i][j'].value
    {
      Unlinked(t, b, j, i, j');
      KeysUnique(t, hashCode, i, if i == b && j' >= j then j' + 1 else j', b, j);
    }
  }

  lemma RemoveCompletes<K, V>(t: Table<K, V>, hashCode: K -> bv32, m: map<Option<K>, V>, b: int, j: int)
    requires Complete(t, hashCode, m) && 0 <= b < |t| && 0 <= j < |t[b]|
    ensures Complete(t[b := t[b][..j] + t[b][j + 1..]], hashCode, m - {t[b][j].key})
  {
    var t': Table<K, V> := t[b := t[b][..j] + t[b][j + 1..]];
    forall k | k in m - {t[b][j].key}
      ensures InChain(t'[BucketOf(hashCode, k, |t'|)], k)
    {
      var bk := BucketOf(hashCode, k, |t|);
      var j' :| 0 <= j' < |t[bk]| && t[bk][j'].key == k;
      if bk == b && j' > j {
        Unlinked(t, b, j, bk, j' - 1);
        assert t'[bk][j' - 1].key == k;
      } else {
        Unlinked(t, b, j, bk, j');
        assert t'[bk][j'].key == k;
      }
    }
  }

  /** The chain once its first entry with `key` is unlinked: the entries
      after it move up by one. */
  function Drop<K(==), V>(chain: seq<Entry<K, V>>, key: Option<K>): (r: seq<Entry<K, V>>)
    ensures |r| <= |chain|
  {
    if chain == [] then []
    else if chain[0].key == key then chain[1..]
    else [chain[0]] + Drop(chain[1..], key)
  }

  /** Unlinking the entry a lookup loop stopped at is dropping its key. */
  lemma {:induction false} DropAt<K, V>(chain: seq<Entry<K, V>>, key: Option<K>, j: int)
    requires 0 <= j < |chain| && chain[j].key == key
    requires forall j' :: 0 <= j' < j ==> chain[j'].key != key
    ensures Drop(chain, key) == chain[..j] + chain[j + 1..]
    decreases j
  {
    if j > 0 {
      DropAt(chain[1..], key, j - 1);
      assert chain[1..][..j - 1] + chain[1..][j..] == chain[1..j] + chain[j + 1..];
      assert [chain[0]] + (chain[1..j] + chain[j + 1..]) == chain[..j] + chain[j + 1..];
    }
  }

  /** Replacing a value leaves every key where it was. */
  lemma ReplaceKeepsKeys<K, V>(t: Table<K, V>, b: int, j: int, value: V)
    requires 0 <= b < |t| && 0 <= j < |t[b]|
    ensures KeysOf(t[b := t[b][j := t[b][j].(value := value)]]) == KeysOf(t)
  {
    var t': Table<K, V> := t[b := t[b][j := t[b][j].(value := value)]];
    var k, k' := KeysOf(t), KeysOf(t');
    forall i | 0 <= i < |t|
      ensures k'[i] == k[i]
    {
      assert |k'[i]| == |k[i]|;
      forall j' | 0 <= j' < |t[i]|
        ensures k'[i][j'] == k[i][j']
      {
      }
    }
  }

  /** A table being filled by `transfer`: it holds, each in its bucket, an
      entry for every key moved so far (`moved`) and for no other key. */
  ghost predicate Transferring<K, V>(t: Table<K, V>, hashCode: K -> bv32, m: map<Option<K>, V>, moved: set<Option<K>>)
  {
    Placed(t, hashCode) && DistinctInChains(t) && Agree(t, m) &&
    (forall k :: k in moved ==> k in m && InChain(t[BucketOf(hashCode, k, |t|)], k)) &&
    (forall i, j :: 0 <= i < |t| && 0 <= j < |t[i]| ==> t[i][j].key in moved)
  }

  lemma TransferStart<K, V>(t: Table<K, V>, hashCode: K -> bv32, m: map<Option<K>, V>)
    requires ValidCapacity(|t|) && forall i :: 0 <= i < |t| ==> t[i] == []
    ensures Transferring(t, hashCode, m, {})
  {
  }

  /** One step of `transfer`: an entry of `m` not moved yet is pushed on the
      head of the bucket its cached hash selects in the new table. */
  lemma TransferStep<K, V>(t: Table<K, V>, t': Table<K, V>, hashCode: K -> bv32, m: map<Option<K>, V>,
                           moved: set<Option<K>>, moved': set<Option<K>>, e: Entry<K, V>)
    requires Transferring(t, hashCode, m, moved)
    requires e.key in m && m[e.key] == e.value && e.hash == HashOf(hashCode, e.key) && e.key !in moved
    requires t' == t[IndexFor(e.hash, |t|) := [e] + t[IndexFor(e.hash, |t|)]] && moved' == moved + {e.key}
    ensures Transferring(t', hashCode, m, moved')
  {
    var b := IndexFor(e.hash, |t|);
    PushPlaces(t, hashCode, b, e);
    PushAgrees(t, m, b, e);
    PushMoved(t, moved, b, e);
    PushFinds(t, hashCode, moved, b, e);
  }

  lemma PushMoved<K, V>(t: Table<K, V>, moved: set<Option<K>>, b: int, e: Entry<K, V>)
    requires 0 <= b < |t|
    requires forall i, j :: 0 <= i < |t| && 0 <= j < |t[i]| ==> t[i][j].key in moved
    ensures var t' := t[b := [e] + t[b]];
      forall i, j :: 0 <= i < |t'| && 0 <= j < |t'[i]| ==> t'[i][j].key in moved + {e.key}
  {
    var t': Table<K, V> := t[b := [e] + t[b]];
    forall i, j | 0 <= i < |t'| && 0 <= j < |t'[i]|
      ensures t'[i][j].key in moved + {e.key}
    {
      Pushed(t, b, e, i, j);
    }
  }

  lemma PushFinds<K, V>(t: Table<K, V>, hashCode: K -> bv32, moved: set<Option<K>>, b: int, e: Entry<K, V>)
    requires ValidCapacity(|t|) && b == BucketOf(hashCode, e.key, |t|)
    requires forall k :: k in moved ==> InChain(t[BucketOf(hashCode, k, |t|)], k)
    ensures var t' := t[b := [e] + t[b]];
      forall k :: k in moved + {e.key} ==> InChain(t'[BucketOf(hashCode, k, |t'|)], k)
  {
    var t': Table<K, V> := t[b := [e] + t[b]];
    forall k | k in moved + {e.key}
      ensures InChain(t'[BucketOf(hashCode, k, |t'|)], k)
    {
      var bk := BucketOf(hashCode, k, |t|);
      if k == e.key {
        Pushed(t, b, e, bk, 0);
      } else {
        var j :| 0 <= j < |t[bk]| && t[bk][j].key == k;
        if bk == b {
          Pushed(t, b, e, bk, j + 1);
          assert t'[bk][j + 1].key == k;
        } else {
          Pushed(t, b, e, bk, j);
          assert t'[bk][j].key == k;
        }
      }
    }
  }

  /** Once every key is moved, the new table stands for the same map. */
  lemma TransferEnd<K, V>(t: Table<K, V>, hashCode: K -> bv32, m: map<Option<K>, V>, moved: set<Option<K>>)
    requires Transferring(t, hashCode, m, moved) && forall k :: k in m ==> k in moved
    ensures Represents(t, hashCode, m)
  {
  }

  /** Position `(i', j')` comes before position `(i, j)` in the walk over
      the buckets in index order, each from its head. */
  predicate Before(i': int, j': int, i: int, j: int)
  {
    i' < i || (i' == i && j' < j)
  }

  /** The walk over the old table has reached `(i, j)`: the keys before it
      are moved and the rest are not. */
  ghost predicate Walked<K, V>(t: Table<K, V>, moved: set<Option<K>>, i: int, j: int)
  {
    (forall i', j' :: 0 <= i' < |t| && 0 <= j' < |t[i']| && Before(i', j', i, j) ==> t[i'][j'].key in moved) &&
    (forall i', j' :: 0 <= i' < |t| && 0 <= j' < |t[i']| && !Before(i', j', i, j) ==> t[i'][j'].key !in moved)
  }

  lemma WalkStep<K, V>(t: Table<K, V>, hashCode: K -> bv32, moved: set<Option<K>>, i: int, j: int)
    requires Placed(t, hashCode) && DistinctInChains(t) && Walked(t, moved, i, j)
    requires 0 <= i < |t| && 0 <= j < |t[i]|
    ensures t[i][j].key !in moved
    ensures Walked(t, moved + {t[i][j].key}, i, j + 1)
  {
    forall i', j' | 0 <= i' < |t| && 0 <= j' < |t[i']| && !Before(i', j', i, j + 1)
      ensures t[i'][j'].key != t[i][j].key
    {
      KeysUnique(t, hashCode, i', j', i, j);
    }
  }

  lemma WalkNextBucket<K, V>(t: Table<K, V>, moved: set<Option<K>>, i: int)
    requires 0 <= i < |t| && Walked(t, moved, i, |t[i]|)
    ensures Walked(t, moved, i + 1, 0)
  {
  }

  /** A walk over every bucket of a table that stands for `m` moves every
      key of `m`. */
  lemma WalkEnd<K, V>(t: Table<K, V>, hashCode: K -> bv32, m: map<Option<K>, V>, moved: set<Option<K>>)
    requires Represents(t, hashCode, m) && Walked(t, moved, |t|, 0)
    ensures forall k :: k in m ==> k in moved
  {
    forall k | k in m
      ensures k in moved
    {
      var b := BucketOf(hashCode, k, |t|);
      var j :| 0 <= j < |t[b]| && t[b][j].key == k;
      assert Before(b, j, |t|, 0);
    }
  }

  /** Adding an absent key grows a map by one; dropping a present key
      shrinks it by one. */
  lemma SizeAfterInsert<K, V>(m: map<Option<K>, V>, key: Option<K>, value: V)
    requires key !in m
    ensures |m[key := value]| == |m| + 1
  {
    assert m[key := value].Keys == m.Keys + {key};
  }

  lemma SizeAfterRemove<K, V>(m: map<Option<K>, V>, key: Option<K>)
    requires key in m
    ensures |m - {key}| == |m| - 1
  {
    assert (m - {key}).Keys == m.Keys - {key};
  }
}
