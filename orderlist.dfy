/** The circular `before`/`after` list of the linked map, read from
    `header.after` round to `header.before`: a sequence of keys, each the key
    of one entry (keys are unique, so a key names its entry). */
module OrderList {

  /** No element occurs twice. */
  ghost predicate Distinct<T>(s: seq<T>)
  {
    forall i, j :: 0 <= i < j < |s| ==> s[i] != s[j]
  }

  /** The position of an element in the list, the entry a reference points to. */
  function IndexOf<T(==)>(s: seq<T>, x: T): (i: nat)
    requires x in s
    ensures i < |s| && s[i] == x
    ensures forall j :: 0 <= j < i ==> s[j] != x
  {
    if s[0] == x then 0 else 1 + IndexOf(s[1..], x)
  }

  /** `remove()`: the entry at `i` is unlinked, its neighbours now point at each other. */
  function Unlink<T>(s: seq<T>, i: int): (r: seq<T>)
    requires 0 <= i < |s|
    ensures |r| == |s| - 1
    ensures forall j :: 0 <= j < i ==> r[j] == s[j]
    ensures forall j :: i <= j < |r| ==> r[j] == s[j + 1]
  {
    s[..i] + s[i + 1..]
  }

  /** `addBefore(existing)`: `x` is linked just before position `i`; `i == |s|`
      is the header, so the entry becomes the last one. */
  function LinkBefore<T>(s: seq<T>, i: int, x: T): (r: seq<T>)
    requires 0 <= i <= |s|
    ensures |r| == |s| + 1 && r[i] == x
    ensures forall j :: 0 <= j < i ==> r[j] == s[j]
    ensures forall j :: i < j < |r| ==> r[j] == s[j - 1]
  {
    s[..i] + [x] + s[i..]
  }

  /** Unlinking keeps the rest of a list of distinct elements and drops
      exactly the unlinked one. */
  lemma UnlinkDistinct<T>(s: seq<T>, i: int)
    requires Distinct(s) && 0 <= i < |s|
    ensures Distinct(Unlink(s, i))
    ensures forall y :: y in Unlink(s, i) <==> y in s && y != s[i]
  {
    var r := Unlink(s, i);
    forall y | y in s && y != s[i]
      ensures y in r
    {
      var j :| 0 <= j < |s| && s[j] == y;
      if j < i {
        assert r[j] == y;
      } else {
        assert r[j - 1] == y;
      }
    }
    forall j, j' | 0 <= j < j' < |r|
      ensures r[j] != r[j']
    {
      var a := if j < i then j else j + 1;
      var a' := if j' < i then j' else j' + 1;
      assert r[j] == s[a] && r[j'] == s[a'];
    }
  }

  /** Linking a new element keeps the list distinct and adds exactly it. */
  lemma LinkDistinct<T>(s: seq<T>, i: int, x: T)
    requires Distinct(s) && 0 <= i <= |s| && x !in s
    ensures Distinct(LinkBefore(s, i, x))
    ensures forall y :: y in LinkBefore(s, i, x) <==> y in s || y == x
  {
    var r := LinkBefore(s, i, x);
    forall y | y in s
      ensures y in r
    {
      var j :| 0 <= j < |s| && s[j] == y;
      if j < i {
        assert r[j] == y;
      } else {
        assert r[j + 1] == y;
      }
    }
    forall y | y in r
      ensures y in s || y == x
    {
      var j :| 0 <= j < |r| && r[j] == y;
      if j < i {
        assert s[j] == y;
      } else if j > i {
        assert s[j - 1] == y;
      }
    }
    forall j, j' | 0 <= j < j' < |r|
      ensures r[j] != r[j']
    {
      if j != i && j' != i {
        var a := if j < i then j else j - 1;
        var a' := if j' < i then j' else j' - 1;
        assert r[j] == s[a] && r[j'] == s[a'];
      } else if j == i {
        assert r[j'] == s[j' - 1];
      } else {
        assert r[j] == s[j];
      }
    }
  }

  /** `recordAccess` in access order: the entry moves to the end, just
      before the header. */
  function MoveToEnd<T(==)>(s: seq<T>, x: T): (r: seq<T>)
    requires x in s
    ensures |r| == |s| && r[|r| - 1] == x
  {
    Unlink(s, IndexOf(s, x)) + [x]
  }

  /** Moving an element to the end keeps the same distinct elements. */
  lemma MoveToEndDistinct<T>(s: seq<T>, x: T)
    requires Distinct(s) && x in s
    ensures Distinct(MoveToEnd(s, x))
    ensures forall y :: y in MoveToEnd(s, x) <==> y in s
  {
    var u := Unlink(s, IndexOf(s, x));
    UnlinkDistinct(s, IndexOf(s, x));
    LinkDistinct(u, |u|, x);
    assert MoveToEnd(s, x) == LinkBefore(u, |u|, x);
  }

  /** A walk along the list has reached position `p`: the elements before it
      are in `visited` and the rest are not. */
  ghost predicate WalkedTo<T>(s: seq<T>, visited: set<T>, p: int)
  {
    (forall q :: 0 <= q < p && q < |s| ==> s[q] in visited) &&
    (forall q :: p <= q < |s| && 0 <= q ==> s[q] !in visited)
  }

  lemma WalkOn<T>(s: seq<T>, visited: set<T>, p: int)
    requires Distinct(s) && WalkedTo(s, visited, p) && 0 <= p < |s|
    ensures s[p] !in visited && WalkedTo(s, visited + {s[p]}, p + 1)
  {
  }
}
