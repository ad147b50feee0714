/** The fields of the hash table taken as values: the invariant that ties
    the bucket array, the size, the threshold and the linked map's order list
    to the mappings they stand for, and, for each way the methods change
    those fields, the lemma that the change keeps it. */
module MapStates {
  import opened Outcomes
  import opened Hashing
  import opened Chains
  import opened OrderList

  /** `HashMap`, or `LinkedHashMap` with its `accessOrder` flag. */
  datatype Kind = Plain | Linked(accessOrder: bool)

  /** The threshold of a table of length `n`: `capacity * loadFactor` capped
      at 2^30, or `Integer.MAX_VALUE` once a table of the maximum length
      was asked to grow. */
  ghost predicate ThresholdOk(n: int, threshold: int, loadFactor: real)
  {
    n >= 1 && loadFactor > 0.0 &&
    (threshold == ThresholdFor(n, loadFactor) || (n == MAXIMUM_CAPACITY && threshold == INTEGER_MAX_VALUE))
  }

  /** The order list of a linked map lists every mapped key exactly once; a
      plain table keeps none. */
  ghost predicate OrderOk<K(!new), V>(order: seq<Option<K>>, m: map<Option<K>, V>, kind: Kind)
  {
    if kind.Linked? then Distinct(order) && |order| == |m| && (forall k :: k in order <==> k in m)
    else order == []
  }

  /** The invariant of the table: the buckets stand for `m`, `size` counts
      its keys, the threshold fits the length, and the order list (of a
      linked map) holds the same keys. */
  ghost predicate Inv<K(!new), V>(t: Table<K, V>, size: int, threshold: int, order: seq<Option<K>>,
                                  m: map<Option<K>, V>, hashCode: K -> bv32, loadFactor: real, kind: Kind)
  {
    Represents(t, hashCode, m) && size == |m| && ThresholdOk(|t|, threshold, loadFactor) && OrderOk(order, m, kind)
  }

  /** The order list once a new key is linked before position `p`. */
  function OrderAfterInsert<K>(order: seq<Option<K>>, p: int, key: Option<K>, kind: Kind): seq<Option<K>>
    requires 0 <= p <= |order|
  {
    if kind.Linked? then LinkBefore(order, p, key) else order
  }

  /** The order list once `recordRemoval` has unlinked a key. */
  function OrderAfterRemove<K(==)>(order: seq<Option<K>>, key: Option<K>, kind: Kind): seq<Option<K>>
    requires kind.Linked? ==> key in order
  {
    if kind.Linked? then Unlink(order, IndexOf(order, key)) else order
  }

  /** `createEntry`: a table with the new entry pushed on its bucket's
      head, one more in the size and the key linked before position `p` of
      the order list keeps the invariant, for the map with the new mapping. */
  lemma InvInsert<K(!new), V>(t: Table<K, V>, size: int, threshold: int, order: seq<Option<K>>, m: map<Option<K>, V>,
                              t': Table<K, V>, size': int, order': seq<Option<K>>, m': map<Option<K>, V>,
                              hashCode: K -> bv32, loadFactor: real, kind: Kind, key: Option<K>, value: V, p: int)
    requires Inv(t, size, threshold, order, m, hashCode, loadFactor, kind) && key !in m && 0 <= p <= |order|
    requires t' == t[BucketOf(hashCode, key, |t|) := [Entry(HashOf(hashCode, key), key, value)] + t[BucketOf(hashCode, key, |t|)]]
    requires size' == size + 1 && order' == OrderAfterInsert(order, p, key, kind) && m' == m[key := value]
    ensures Inv(t', size', threshold, order', m', hashCode, loadFactor, kind)
  {
    InsertHead(t, hashCode, m, key, value);
    SizeAfterInsert(m, key, value);
    if kind.Linked? {
      LinkDistinct(order, p, key);
    }
  }

  /** `removeEntryForKey`/`removeMapping`: a table with any one entry
      unlinked from its chain, one less in the size and its key unlinked
      from the order list keeps the invariant, for the map without that key. */
  lemma InvRemove<K(!new), V>(t: Table<K, V>, size: int, threshold: int, order: seq<Option<K>>, m: map<Option<K>, V>,
                              t': Table<K, V>, size': int, order': seq<Option<K>>, m': map<Option<K>, V>,
                              hashCode: K -> bv32, loadFactor: real, kind: Kind, b: int, j: int)
    requires Inv(t, size, threshold, order, m, hashCode, loadFactor, kind) && 0 <= b < |t| && 0 <= j < |t[b]|
    requires t' == t[b := t[b][..j] + t[b][j + 1..]] && size' == size - 1 && m' == m - {t[b][j].key}
    requires kind.Linked? ==> t[b][j].key in order
    requires order' == OrderAfterRemove(order, t[b][j].key, kind)
    ensures Inv(t', size', threshold, order', m', hashCode, loadFactor, kind)
  {
    var key := t[b][j].key;
    RemoveAt(t, hashCode, m, b, j);
    SizeAfterRemove(m, key);
    if kind.Linked? {
      UnlinkDistinct(order, IndexOf(order, key));
    }
  }

  /** Under the invariant an entry's key is mapped and, in a linked map, in
      the order list. */
  lemma EntryKey<K(!new), V>(t: Table<K, V>, size: int, threshold: int, order: seq<Option<K>>, m: map<Option<K>, V>,
                             hashCode: K -> bv32, loadFactor: real, kind: Kind, b: int, j: int)
    requires Inv(t, size, threshold, order, m, hashCode, loadFactor, kind) && 0 <= b < |t| && 0 <= j < |t[b]|
    ensures t[b][j].key in m && m[t[b][j].key] == t[b][j].value
    ensures kind.Linked? ==> t[b][j].key in order
  {
  }

  /** `setValue`: a table with the value of any one entry replaced keeps the
      invariant, for the map that maps its key to the new value. */
  lemma InvReplace<K(!new), V>(t: Table<K, V>, size: int, threshold: int, order: seq<Option<K>>, m: map<Option<K>, V>,
                               t': Table<K, V>, m': map<Option<K>, V>,
                               hashCode: K -> bv32, loadFactor: real, kind: Kind, b: int, j: int, value: V)
    requires Inv(t, size, threshold, order, m, hashCode, loadFactor, kind) && 0 <= b < |t| && 0 <= j < |t[b]|
    requires t' == t[b := t[b][j := t[b][j].(value := value)]] && m' == m[t[b][j].key := value]
    ensures Inv(t', size, threshold, order, m', hashCode, loadFactor, kind)
  {
    var key := t[b][j].key;
    ReplaceValue(t, hashCode, m, b, j, value);
    assert m[key := value].Keys == m.Keys;
  }

  /** `recordAccess` in access order: an order list with a mapped key moved
      to its end keeps the invariant. */
  lemma InvAccess<K(!new), V>(t: Table<K, V>, size: int, threshold: int, order: seq<Option<K>>, m: map<Option<K>, V>,
                              order': seq<Option<K>>, hashCode: K -> bv32, loadFactor: real, kind: Kind, key: Option<K>)
    requires Inv(t, size, threshold, order, m, hashCode, loadFactor, kind) && kind.Linked? && key in order
    requires order' == MoveToEnd(order, key)
    ensures Inv(t, size, threshold, order', m, hashCode, loadFactor, kind)
  {
    MoveToEndDistinct(order, key);
  }

  /** `resize`: a new table that stands for the same map, with the threshold
      of its length, keeps the invariant. */
  lemma InvResize<K(!new), V>(t: Table<K, V>, size: int, threshold: int, order: seq<Option<K>>, m: map<Option<K>, V>,
                              t': Table<K, V>, threshold': int, hashCode: K -> bv32, loadFactor: real, kind: Kind)
    requires Inv(t, size, threshold, order, m, hashCode, loadFactor, kind) && Represents(t', hashCode, m)
    requires ThresholdOk(|t'|, threshold', loadFactor)
    ensures Inv(t', size, threshold', order, m, hashCode, loadFactor, kind)
  {
  }

  /** `clear`: a table of empty buckets of the same length, no size and no
      order list stand for the empty map. */
  lemma InvClear<K(!new), V>(t: Table<K, V>, threshold: int, hashCode: K -> bv32, loadFactor: real, kind: Kind)
    requires ValidCapacity(|t|) && ThresholdOk(|t|, threshold, loadFactor)
    requires forall i :: 0 <= i < |t| ==> t[i] == []
    ensures Inv(t, 0, threshold, [], map[], hashCode, loadFactor, kind)
  {
    EmptyTable(t, hashCode);
  }
}
