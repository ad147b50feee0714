/** The header of the linked map's order list, as `removeFirstEntry()` and
    `removeLastEntry()` are written. On an empty map `header.after` and
    `header.before` are the header itself, so those methods take the header
    as the entry to remove, unlink it from itself and then set its links to
    null; every later insertion dereferences `header.before` and throws.
    `Ring` keeps only what that needs: the keys from `header.after` to
    `header.before` and whether the header's links are still set. */
module HeaderLinks {
  import opened Outcomes

  datatype Ring<K> = Ring(order: seq<K>, linked: bool)

  /** `removeFirstEntry()` as written: `getFirstEntry()` is `header.after`
      (null once the links are gone, and `remove()` on it throws); on an
      empty ring that is the header, whose key is null and whose links end
      up null; otherwise the first entry leaves the ring. */
  function RemoveFirstEntryAsWritten<K>(h: Ring<K>): (r: Result<(Ring<K>, Option<K>)>)
    ensures r.Throw? <==> !h.linked
    ensures r.Ok? ==> (r.value.1.None? <==> h.order == [])
    ensures r.Ok? && h.order != [] ==> r.value == (Ring(h.order[1..], true), Some(h.order[0]))
    ensures r.Ok? && h.order == [] ==> !r.value.0.linked
  {
    if !h.linked then Throw(NullPointer)
    else if h.order == [] then Ok((Ring([], false), None))
    else Ok((Ring(h.order[1..], true), Some(h.order[0])))
  }

  /** `removeFirstEntry()` as the map's own model has it: an empty ring
      gives no entry and keeps its links. */
  function RemoveFirstEntry<K>(h: Ring<K>): (r: Result<(Ring<K>, Option<K>)>)
    ensures r.Throw? <==> !h.linked
    ensures r.Ok? ==> r.value.0.linked
    ensures r.Ok? ==> (r.value.1.None? <==> h.order == [])
    ensures r.Ok? ==> r.value.0.order == if h.order == [] then [] else h.order[1..]
  {
    if !h.linked then Throw(NullPointer)
    else if h.order == [] then Ok((h, None))
    else Ok((Ring(h.order[1..], true), Some(h.order[0])))
  }

  /** `removeLastEntry()` as written: the same as `removeFirstEntry()`,
      from `header.before`. */
  function RemoveLastEntryAsWritten<K>(h: Ring<K>): (r: Result<(Ring<K>, Option<K>)>)
    ensures r.Throw? <==> !h.linked
    ensures r.Ok? ==> (r.value.1.None? <==> h.order == [])
    ensures r.Ok? && h.order != [] ==> r.value == (Ring(h.order[..|h.order| - 1], true), Some(h.order[|h.order| - 1]))
    ensures r.Ok? && h.order == [] ==> !r.value.0.linked
  {
    if !h.linked then Throw(NullPointer)
    else if h.order == [] then Ok((Ring([], false), None))
    else Ok((Ring(h.order[..|h.order| - 1], true), Some(h.order[|h.order| - 1])))
  }

  /** `removeLastEntry()` as the map's own model has it. */
  function RemoveLastEntry<K>(h: Ring<K>): (r: Result<(Ring<K>, Option<K>)>)
    ensures r.Throw? <==> !h.linked
    ensures r.Ok? ==> r.value.0.linked
    ensures r.Ok? ==> (r.value.1.None? <==> h.order == [])
    ensures r.Ok? ==> r.value.0.order == if h.order == [] then [] else h.order[..|h.order| - 1]
  {
    if !h.linked then Throw(NullPointer)
    else if h.order == [] then Ok((h, None))
    else Ok((Ring(h.order[..|h.order| - 1], true), Some(h.order[|h.order| - 1])))
  }

  /** `addBefore(header)`, the insertion at the end of the order list that
      `createEntry` performs: it reads `header.before.after`, which throws
      once the links are null. */
  function AddLast<K>(h: Ring<K>, key: K): (r: Result<Ring<K>>)
    ensures r.Throw? <==> !h.linked
    ensures r.Ok? ==> r.value.order == h.order + [key] && r.value.linked
  {
    if !h.linked then Throw(NullPointer) else Ok(Ring(h.order + [key], true))
  }

  /** `clear()` (and `init()`): the header is linked to itself again. */
  function Clear<K>(h: Ring<K>): (r: Ring<K>)
    ensures r.order == [] && r.linked
  {
    Ring([], true)
  }

  /** As written: removing the first entry of an empty map, then putting a
      new key, throws `NullPointerException`. */
  lemma EmptyRemovalBreaksPut<K>(h: Ring<K>, key: K)
    requires h == Ring([], true)
    ensures var removed := RemoveFirstEntryAsWritten(h);
      removed.Ok? && removed.value.1.None? && AddLast(removed.value.0, key) == Throw(NullPointer)
    ensures var removed := RemoveLastEntryAsWritten(h);
      removed.Ok? && removed.value.1.None? && AddLast(removed.value.0, key) == Throw(NullPointer)
  {
  }

  /** The damage lasts: every later removal and insertion throws until
      `clear()`. */
  lemma BrokenUntilClear<K>(h: Ring<K>, key: K)
    requires !h.linked
    ensures RemoveFirstEntryAsWritten(h).Throw? && RemoveLastEntryAsWritten(h).Throw?
    ensures AddLast(h, key).Throw?
    ensures AddLast(Clear(h), key).Ok?
  {
  }

  /** Corrected: on a linked ring, a removal followed by an insertion
      always succeeds, and the insertion lands at the end of what is left. */
  lemma RemovalThenPut<K>(h: Ring<K>, key: K)
    requires h.linked
    ensures var removed := RemoveFirstEntry(h);
      removed.Ok? && AddLast(removed.value.0, key).Ok? &&
      AddLast(removed.value.0, key).value.order ==
        (if h.order == [] then [] else h.order[1..]) + [key]
    ensures var removed := RemoveLastEntry(h);
      removed.Ok? && AddLast(removed.value.0, key).Ok? &&
      AddLast(removed.value.0, key).value.order ==
        (if h.order == [] then [] else h.order[..|h.order| - 1]) + [key]
  {
  }
}
