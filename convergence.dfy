/** Order independence of the CRDT: replicas that receive the same inserts
    in different orders end with the same `struct`, hence the same text, as
    long as distinct items have distinct ids and distinct `(pos, siteId)`
    keys. With equal keys the order of arrival decides. */
module Convergence {
  import opened JsStrings
  import opened Crdt

  /** `remoteInsert` of every item of `xs`, front to back. */
  function ApplyAll(s: seq<Item>, xs: seq<Item>): seq<Item>
    decreases |xs|
  {
    if xs == [] then s else ApplyAll(Inserted(s, xs[0]), xs[1..])
  }

  /** Distinct items of `u` never share an id or a key. */
  ghost predicate Coherent(u: set<Item>)
  {
    forall a, b :: a in u && b in u && a != b ==> a.id != b.id && !SameKey(a, b)
  }

  ghost predicate StrictlySorted(s: seq<Item>)
  {
    forall i, j :: 0 <= i < j < |s| ==> KeyLess(s[i], s[j])
  }

  /** The elements after `apply` are the old ones plus the item. */
  lemma {:induction false} InsertedMembers(s: seq<Item>, x: Item)
    ensures forall y :: y in Inserted(s, x) <==> y in s || (y == x && x.id !in Ids(s))
  {
    if x.id !in Ids(s) {
      var k := LowerBound(s, x);
      assert s == s[..k] + s[k..];
    }
  }

  /** Applying items of a coherent universe keeps the struct sorted with
      unique ids and collects exactly the applied items. */
  lemma {:induction false} ApplyAllCollects(s: seq<Item>, xs: seq<Item>, u: set<Item>)
    requires Sorted(s) && UniqueIds(s) && Coherent(u)
    requires forall y :: y in s ==> y in u
    requires forall y :: y in xs ==> y in u
    ensures var t := ApplyAll(s, xs);
      && Sorted(t) && UniqueIds(t)
      && forall y :: y in t <==> y in s || y in xs
    decreases |xs|
  {
    if xs != [] {
      var x := xs[0];
      var s' := Inserted(s, x);
      InsertedMembers(s, x);
      if x.id in Ids(s) {
        var y :| y in s && y.id == x.id;
        assert y == x;
      } else {
        InsertedSorted(s, x);
        InsertedUnique(s, x);
      }
      assert forall y :: y in xs ==> y == x || y in xs[1..];
      ApplyAllCollects(s', xs[1..], u);
    }
  }

  /** Sorted with unique ids inside a coherent universe means strictly
      sorted: no two elements share a key. */
  lemma {:induction false} UniqueSortedStrict(t: seq<Item>, u: set<Item>)
    requires Sorted(t) && UniqueIds(t) && Coherent(u)
    requires forall y :: y in t ==> y in u
    ensures StrictlySorted(t)
  {
    forall i, j | 0 <= i < j < |t|
      ensures KeyLess(t[i], t[j])
    {
      KeyTrichotomy(t[i], t[j]);
    }
  }

  /** Two non-empty strictly sorted sequences with the same elements start
      with the same element: each head is the other's least element. */
  lemma {:induction false} StrictlySortedSameHead(a: seq<Item>, b: seq<Item>)
    requires StrictlySorted(a) && StrictlySorted(b) && a != [] && b != []
    requires forall y :: y in a <==> y in b
    ensures a[0] == b[0]
  {
    assert a[0] in b && b[0] in a;
    var i :| 0 <= i < |a| && a[i] == b[0];
    var j :| 0 <= j < |b| && b[j] == a[0];
    KeyLessIrreflexive(a[0]);
    if j > 0 {
      KeyLessAsymmetric(b[0], a[0]);
    }
  }

  /** With equal heads, the tails have the same elements too. */
  lemma {:induction false} StrictlySortedSameTail(a: seq<Item>, b: seq<Item>)
    requires StrictlySorted(a) && StrictlySorted(b) && a != [] && b != [] && a[0] == b[0]
    requires forall y :: y in a <==> y in b
    ensures forall y :: y in a[1..] <==> y in b[1..]
  {
    forall y | y in a[1..]
      ensures y in b[1..]
    {
      var m :| 1 <= m < |a| && a[m] == y;
      KeyLessIrreflexive(y);
      assert y in b;
      var n :| 0 <= n < |b| && b[n] == y;
      assert b[1..][n - 1] == y;
    }
    forall y | y in b[1..]
      ensures y in a[1..]
    {
      var n :| 1 <= n < |b| && b[n] == y;
      KeyLessIrreflexive(y);
      assert y in a;
      var m :| 0 <= m < |a| && a[m] == y;
      assert a[1..][m - 1] == y;
    }
  }

  /** Two strictly sorted sequences with the same elements are equal. */
  lemma {:induction false} StrictlySortedUnique(a: seq<Item>, b: seq<Item>)
    requires StrictlySorted(a) && StrictlySorted(b)
    requires forall y :: y in a <==> y in b
    ensures a == b
  {
    assert a != [] ==> a[0] in b;
    assert b != [] ==> b[0] in a;
    if a != [] && b != [] {
      StrictlySortedSameHead(a, b);
      StrictlySortedSameTail(a, b);
      StrictlySortedUnique(a[1..], b[1..]);
      assert a == [a[0]] + a[1..] && b == [b[0]] + b[1..];
    }
  }

  /** Two replicas that start empty and apply the same items, in any order
      and with any repetitions, end with the same struct and the same
      text, provided distinct items have distinct ids and keys. */
  lemma {:induction false} Converge(xs: seq<Item>, ys: seq<Item>)
    requires Coherent(set y | y in xs)
    requires forall y :: y in xs <==> y in ys
    ensures ApplyAll([], xs) == ApplyAll([], ys)
    ensures Text(ApplyAll([], xs)) == Text(ApplyAll([], ys))
  {
    var u := set y | y in xs;
    ApplyAllCollects([], xs, u);
    ApplyAllCollects([], ys, u);
    UniqueSortedStrict(ApplyAll([], xs), u);
    UniqueSortedStrict(ApplyAll([], ys), u);
    StrictlySortedUnique(ApplyAll([], xs), ApplyAll([], ys));
  }

  /** Two sites that each insert a character at 0 into an empty document
      and then exchange their items agree on the text. Both positions are
      the same, so the site ids break the tie. */
  lemma {:induction false} ConcurrentFirstInserts(siteA: SiteId, siteB: SiteId, c: CodeUnit, d: CodeUnit, idA: ItemId, idB: ItemId)
    requires siteA != siteB && idA != idB
    ensures NewItem([], siteA, c, 0, idA).Some? && NewItem([], siteB, d, 0, idB).Some?
    ensures var a := NewItem([], siteA, c, 0, idA).value;
      var b := NewItem([], siteB, d, 0, idB).value;
      Text(Inserted(Inserted([], a), b)) == Text(Inserted(Inserted([], b), a))
  {
    var a := NewItem([], siteA, c, 0, idA).value;
    var b := NewItem([], siteB, d, 0, idB).value;
    assert ApplyAll([], [a, b]) == Inserted(Inserted([], a), b) by {
      assert [a, b][1..] == [b] && [b][1..] == [];
      assert ApplyAll([], [a, b]) == ApplyAll(Inserted([], a), [b]);
      assert ApplyAll(Inserted([], a), [b]) == ApplyAll(Inserted(Inserted([], a), b), []);
    }
    assert ApplyAll([], [b, a]) == Inserted(Inserted([], b), a) by {
      assert [b, a][1..] == [a] && [a][1..] == [];
      assert ApplyAll([], [b, a]) == ApplyAll(Inserted([], b), [a]);
      assert ApplyAll(Inserted([], b), [a]) == ApplyAll(Inserted(Inserted([], b), a), []);
    }
    Converge([a, b], [b, a]);
  }

  /** With equal keys the arrival order decides: applying the same two
      items in the two orders gives `"BA"` and `"AB"`. */
  lemma {:induction false} EqualKeysOrderByArrival()
    ensures var x := Item(65, [79], [97], [49], false);
      var y := Item(66, [79], [97], [50], false);
      && SameKey(x, y)
      && Text(Inserted(Inserted([], x), y)) == [66, 65]
      && Text(Inserted(Inserted([], y), x)) == [65, 66]
  {
    var x := Item(65, [79], [97], [49], false);
    var y := Item(66, [79], [97], [50], false);
    KeyLessIrreflexive(x);
    assert LowerBound([x], y) == 0;
    assert LowerBound([y], x) == 0;
    assert Inserted(Inserted([], x), y) == [y, x];
    assert Inserted(Inserted([], y), x) == [x, y];
    assert Visible([y, x]) == [y, x] by {
      assert [y, x][1..] == [x];
      assert [x][1..] == [];
    }
    assert Visible([x, y]) == [x, y] by {
      assert [x, y][1..] == [y];
      assert [y][1..] == [];
    }
  }

  /** Lookup by id only looks at the ids. */
  lemma {:induction false} FindIdSameIds(s: seq<Item>, t: seq<Item>, id: ItemId)
    requires |s| == |t| && forall j :: 0 <= j < |s| ==> t[j].id == s[j].id
    ensures FindId(t, id) == FindId(s, id)
  {
    if s != [] && s[0].id != id {
      FindIdSameIds(s[1..], t[1..], id);
    }
  }

  /** Tombstoning leaves every id where it was. */
  lemma {:induction false} FindIdTombstone(s: seq<Item>, k: nat, id: ItemId)
    requires k < |s|
    ensures FindId(Tombstone(s, k), id) == FindId(s, id)
  {
    FindIdSameIds(s, Tombstone(s, k), id);
  }

  /** Remote deletes commute, so deletes may arrive in any order. */
  lemma {:induction false} DeletesCommute(s: seq<Item>, a: ItemId, b: ItemId)
    ensures RemoteDeleted(RemoteDeleted(s, a), b) == RemoteDeleted(RemoteDeleted(s, b), a)
  {
    var fa, fb := FindId(s, a), FindId(s, b);
    if fa.Some? {
      FindIdTombstone(s, fa.value, b);
    }
    if fb.Some? {
      FindIdTombstone(s, fb.value, a);
    }
  }
}
