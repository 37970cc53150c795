/** The character-sequence CRDT of one replica (`class CRDT`): every element
    ever created, tombstones included, kept sorted by `(pos, siteId)`, with
    the visible text being the characters of the non-deleted elements. */
module Crdt {
  import opened JsStrings
  import opened PosAlloc

  type SiteId = JsString
  type ItemId = JsString

  /** One entry of `struct`: `{char, pos, siteId, id, deleted}`. */
  datatype Item = Item(ch: CodeUnit, pos: JsString, siteId: SiteId, id: ItemId, deleted: bool)

  /** An operation as it travels between replicas: `{type:'insert', item,
      siteId}` as the editor glue builds it, `{id, type:'delete'}` as
      `localDelete` returns it (without a `siteId`), or any other payload,
      which replicas ignore. */
  datatype Op =
    | InsertOp(item: Item, sender: Option<SiteId>)
    | DeleteOp(id: ItemId)
    | OtherOp

  /** The `siteId` field of an operation, absent on deletes. */
  function OpSiteId(op: Op): Option<SiteId>
  {
    if op.InsertOp? then op.sender else None
  }

  // ---------------------------------------------------------------------
  // The sort key (pos, siteId)

  /** `compare(a, b) < 0`. */
  predicate KeyLess(a: Item, b: Item)
  {
    Less(a.pos, b.pos) || (a.pos == b.pos && Less(a.siteId, b.siteId))
  }

  predicate SameKey(a: Item, b: Item)
  {
    a.pos == b.pos && a.siteId == b.siteId
  }

  lemma {:induction false} KeyLessIrreflexive(a: Item)
    ensures !KeyLess(a, a)
  {
    LessIrreflexive(a.pos);
    LessIrreflexive(a.siteId);
  }

  lemma {:induction false} KeyLessTransitive(a: Item, b: Item, c: Item)
    requires KeyLess(a, b) && KeyLess(b, c)
    ensures KeyLess(a, c)
  {
    if Less(a.pos, b.pos) && Less(b.pos, c.pos) {
      LessTransitive(a.pos, b.pos, c.pos);
    } else if a.pos == b.pos == c.pos {
      LessTransitive(a.siteId, b.siteId, c.siteId);
    }
  }

  lemma {:induction false} KeyTrichotomy(a: Item, b: Item)
    ensures KeyLess(a, b) || KeyLess(b, a) || SameKey(a, b)
  {
    LessTrichotomy(a.pos, b.pos);
    LessTrichotomy(a.siteId, b.siteId);
  }

  lemma {:induction false} KeyLessAsymmetric(a: Item, b: Item)
    requires KeyLess(a, b)
    ensures !KeyLess(b, a)
  {
    if KeyLess(b, a) {
      KeyLessTransitive(a, b, a);
      KeyLessIrreflexive(a);
    }
  }

  /** `a <= b <= c` under the key, written with negations of `KeyLess`. */
  lemma {:induction false} KeyLeTransitive(a: Item, b: Item, c: Item)
    requires !KeyLess(b, a) && !KeyLess(c, b)
    ensures !KeyLess(c, a)
  {
    KeyTrichotomy(a, b);
    KeyTrichotomy(b, c);
    if KeyLess(c, a) {
      if KeyLess(a, b) {
        KeyLessTransitive(c, a, b);
      }
    }
  }

  /** `a <= b < c` gives `a < c`. */
  lemma {:induction false} KeyLeLessTransitive(a: Item, b: Item, c: Item)
    requires !KeyLess(b, a) && KeyLess(b, c)
    ensures KeyLess(a, c)
  {
    KeyTrichotomy(a, b);
    if KeyLess(a, b) {
      KeyLessTransitive(a, b, c);
    }
  }

  /** A key-ordered pair has ordered positions. */
  lemma {:induction false} KeyLePos(a: Item, b: Item)
    requires !KeyLess(b, a)
    ensures LessEq(a.pos, b.pos)
  {
    LessTrichotomy(a.pos, b.pos);
  }

  /** `compare`: position first, then site id; 0 only on equal keys. */
  function Compare(a: Item, b: Item): (c: int)
    ensures c == -1 || c == 0 || c == 1
    ensures c == -1 <==> KeyLess(a, b)
    ensures c == 1 <==> KeyLess(b, a)
    ensures c == 0 <==> SameKey(a, b)
  {
    KeyTrichotomy(a, b);
    LessIrreflexive(a.pos);
    LessIrreflexive(a.siteId);
    if Less(a.pos, b.pos) then
      LessAsymmetric(a.pos, b.pos);
      -1
    else if Less(b.pos, a.pos) then 1
    else if Less(a.siteId, b.siteId) then
      LessAsymmetric(a.siteId, b.siteId);
      -1
    else if Less(b.siteId, a.siteId) then 1
    else 0
  }

  /** `struct` is in non-decreasing key order. */
  ghost predicate Sorted(s: seq<Item>)
  {
    forall i, j :: 0 <= i < j < |s| ==> !KeyLess(s[j], s[i])
  }

  function Ids(s: seq<Item>): set<ItemId>
  {
    set x | x in s :: x.id
  }

  function TombIds(s: seq<Item>): set<ItemId>
  {
    set x | x in s && x.deleted :: x.id
  }

  ghost predicate UniqueIds(s: seq<Item>)
  {
    forall i, j :: 0 <= i < j < |s| ==> s[i].id != s[j].id
  }

  // ---------------------------------------------------------------------
  // The visible view

  /** `struct.filter(i => !i.deleted)`. */
  function Visible(s: seq<Item>): (v: seq<Item>)
    ensures |v| <= |s|
  {
    if s == [] then []
    else (if s[0].deleted then [] else [s[0]]) + Visible(s[1..])
  }

  /** Every visible element is a non-deleted element of the struct. */
  lemma {:induction false} VisibleMembers(s: seq<Item>)
    ensures forall m :: 0 <= m < |Visible(s)| ==> Visible(s)[m] in s && !Visible(s)[m].deleted
  {
    if s != [] {
      VisibleMembers(s[1..]);
      var v := Visible(s);
      var rest := Visible(s[1..]);
      forall m | 0 <= m < |v|
        ensures v[m] in s && !v[m].deleted
      {
        if s[0].deleted || m > 0 {
          var m' := if s[0].deleted then m else m - 1;
          assert v[m] == rest[m'];
          assert rest[m'] in s[1..];
        }
      }
    }
  }

  /** The visible elements are exactly the non-deleted ones. */
  lemma {:induction false} VisibleContains(s: seq<Item>)
    ensures forall x :: x in Visible(s) <==> x in s && !x.deleted
  {
    if s != [] {
      VisibleContains(s[1..]);
      assert forall x :: x in s <==> x == s[0] || x in s[1..];
    }
  }

  /** A non-deleted element at struct index `k` is the visible element
      number `|Visible(s[..k])|`, and the visible view splits around it. */
  lemma {:induction false} VisibleAt(s: seq<Item>, k: nat)
    requires k < |s| && !s[k].deleted
    ensures var i := |Visible(s[..k])|; var v := Visible(s);
      && i < |v| && v[i] == s[k]
      && v[..i] == Visible(s[..k]) && v[i + 1..] == Visible(s[k + 1..])
  {
    assert s == s[..k] + [s[k]] + s[k + 1..];
    VisibleSplice(s[..k], s[k], s[k + 1..]);
  }

  function Chars(v: seq<Item>): (t: JsString)
    ensures |t| == |v|
  {
    seq(|v|, k requires 0 <= k < |v| => v[k].ch)
  }

  /** `getText()`. */
  function Text(s: seq<Item>): JsString
  {
    Chars(Visible(s))
  }

  lemma {:induction false} VisibleAppend(a: seq<Item>, b: seq<Item>)
    ensures Visible(a + b) == Visible(a) + Visible(b)
  {
    if a != [] {
      assert (a + b)[1..] == a[1..] + b;
      VisibleAppend(a[1..], b);
    } else {
      assert a + b == b;
    }
  }

  lemma {:induction false} CharsAppend(a: seq<Item>, b: seq<Item>)
    ensures Chars(a + b) == Chars(a) + Chars(b)
  {
  }

  lemma {:induction false} CharsSlice(v: seq<Item>, i: nat, j: nat)
    requires i <= j <= |v|
    ensures Chars(v[i..j]) == Chars(v)[i..j]
  {
  }

  /** Key order carries over to the visible subsequence. */
  lemma {:induction false} SortedVisible(s: seq<Item>)
    requires Sorted(s)
    ensures Sorted(Visible(s))
  {
    if s != [] {
      assert Sorted(s[1..]);
      SortedVisible(s[1..]);
      var rest := Visible(s[1..]);
      VisibleMembers(s[1..]);
      forall m | 0 <= m < |rest|
        ensures !KeyLess(rest[m], s[0])
      {
        var j :| 0 <= j < |s[1..]| && s[1..][j] == rest[m];
        assert s[j + 1] == rest[m];
      }
    }
  }

  /** The struct index of the `i`-th visible element. */
  function StructIndex(s: seq<Item>, i: nat): (k: nat)
    requires i < |Visible(s)|
    ensures k < |s| && !s[k].deleted && |Visible(s[..k])| == i
  {
    if !s[0].deleted && i == 0 then
      assert s[..0] == [];
      0
    else
      var i' := if s[0].deleted then i else i - 1;
      var k' := StructIndex(s[1..], i');
      assert s[..k' + 1] == [s[0]] + s[1..][..k'];
      VisibleAppend([s[0]], s[1..][..k']);
      1 + k'
  }

  // ---------------------------------------------------------------------
  // apply: duplicate check, lower bound, splice

  /** The first index whose element is not below `x` under `compare`. */
  function LowerBound(s: seq<Item>, x: Item): (k: nat)
    ensures k <= |s|
    ensures forall j :: 0 <= j < k ==> KeyLess(s[j], x)
    ensures k < |s| ==> !KeyLess(s[k], x)
  {
    if s == [] || !KeyLess(s[0], x) then 0 else 1 + LowerBound(s[1..], x)
  }

  /** In a sorted struct every element from the lower bound on is not below `x`. */
  lemma {:induction false} LowerBoundSorted(s: seq<Item>, x: Item)
    requires Sorted(s)
    ensures forall j :: LowerBound(s, x) <= j < |s| ==> !KeyLess(s[j], x)
  {
    var k := LowerBound(s, x);
    forall j | k <= j < |s|
      ensures !KeyLess(s[j], x)
    {
      if j > k {
        KeyLeTransitive(x, s[k], s[j]);
      }
    }
  }

  /** The binary search of `apply`: `mid = (low + high) >>> 1` is the floor
      midpoint for the array lengths a JavaScript array can have. */
  method FindInsertionPoint(s: seq<Item>, x: Item) returns (low: nat)
    requires Sorted(s)
    ensures low <= |s|
    ensures forall j :: 0 <= j < low ==> KeyLess(s[j], x)
    ensures forall j :: low <= j < |s| ==> !KeyLess(s[j], x)
    ensures low == LowerBound(s, x)
  {
    LowerBoundSorted(s, x);
    low := 0;
    var high := |s|;
    while low < high
      invariant 0 <= low <= LowerBound(s, x) <= high <= |s|
    {
      var mid := (low + high) / 2;
      var c := Compare(s[mid], x);
      if c < 0 {
        low := mid + 1;
      } else {
        high := mid;
      }
    }
  }

  /** `apply(item)`: no change if the id is present, otherwise `item` is
      spliced in at the lower bound. */
  function Inserted(s: seq<Item>, x: Item): seq<Item>
  {
    if x.id in Ids(s) then s
    else var k := LowerBound(s, x); s[..k] + [x] + s[k..]
  }

  /** Apply of an item whose id is present leaves `struct` unchanged, so a
      second apply of the same item changes nothing. */
  lemma {:induction false} InsertedIdempotent(s: seq<Item>, x: Item)
    ensures x.id in Ids(s) ==> Inserted(s, x) == s
    ensures Inserted(Inserted(s, x), x) == Inserted(s, x)
  {
    var t := Inserted(s, x);
    if x.id !in Ids(s) {
      var k := LowerBound(s, x);
      assert t[k] == x;
    }
    assert x.id in Ids(t);
  }

  /** The elements of `s[..k] + [x] + s[k..]` by index. */
  lemma {:induction false} SpliceIndex(s: seq<Item>, k: nat, x: Item)
    requires k <= |s|
    ensures var t := s[..k] + [x] + s[k..];
      && |t| == |s| + 1 && t[k] == x
      && (forall j :: 0 <= j < k ==> t[j] == s[j])
      && (forall j :: k < j < |t| ==> t[j] == s[j - 1])
  {
  }

  /** Apply of a fresh item keeps `struct` sorted. */
  lemma {:induction false} InsertedSorted(s: seq<Item>, x: Item)
    requires Sorted(s) && x.id !in Ids(s)
    ensures Sorted(Inserted(s, x))
  {
    var k := LowerBound(s, x);
    var t := Inserted(s, x);
    SpliceIndex(s, k, x);
    LowerBoundSorted(s, x);
    forall i, j | 0 <= i < j < |t|
      ensures !KeyLess(t[j], t[i])
    {
      if j == k {
        KeyLessAsymmetric(t[i], x);
      } else if i != k {
        var i' := if i < k then i else i - 1;
        var j' := if j < k then j else j - 1;
        assert t[i] == s[i'] && t[j] == s[j'];
      }
    }
  }

  /** Apply of a fresh item keeps ids unique. */
  lemma {:induction false} InsertedUnique(s: seq<Item>, x: Item)
    requires UniqueIds(s) && x.id !in Ids(s)
    ensures UniqueIds(Inserted(s, x))
  {
    var k := LowerBound(s, x);
    var t := Inserted(s, x);
    SpliceIndex(s, k, x);
    forall i, j | 0 <= i < j < |t|
      ensures t[i].id != t[j].id
    {
      if i != k && j != k {
        var i' := if i < k then i else i - 1;
        var j' := if j < k then j else j - 1;
        assert t[i] == s[i'] && t[j] == s[j'];
      } else if i == k {
        assert t[j] == s[j - 1];
        assert s[j - 1] in s;
      } else {
        assert t[i] == s[i];
        assert s[i] in s;
      }
    }
  }

  /** Apply of a fresh item adds its id, and adds it to the tombstones only
      when the item arrives already deleted. */
  lemma {:induction false} InsertedIds(s: seq<Item>, x: Item)
    ensures Ids(Inserted(s, x)) == Ids(s) + {x.id}
    ensures x.id !in Ids(s) ==>
      TombIds(Inserted(s, x)) == TombIds(s) + (if x.deleted then {x.id} else {})
  {
    if x.id !in Ids(s) {
      var k := LowerBound(s, x);
      var t := Inserted(s, x);
      assert s == s[..k] + s[k..];
      assert forall y :: y in t <==> y in s || y == x;
    }
  }

  /** Apply of a fresh item: it lands at the first index whose element is
      not below it and the other elements keep their relative order. */
  lemma {:induction false} InsertedFresh(s: seq<Item>, x: Item)
    requires x.id !in Ids(s)
    ensures var t := Inserted(s, x); var k := LowerBound(s, x);
      |t| == |s| + 1 && t[k] == x && t[..k] + t[k + 1..] == s
  {
    var k := LowerBound(s, x);
    var t := Inserted(s, x);
    assert t[..k] == s[..k] && t[k + 1..] == s[k..];
    assert s == s[..k] + s[k..];
  }

  /** The visible view of a one-element sequence. */
  lemma {:induction false} VisibleSingleton(x: Item)
    ensures Visible([x]) == if x.deleted then [] else [x]
  {
    assert [x][1..] == [];
  }

  lemma {:induction false} VisibleSplit(s: seq<Item>, k: nat)
    requires k <= |s|
    ensures Visible(s) == Visible(s[..k]) + Visible(s[k..])
  {
    assert s == s[..k] + s[k..];
    VisibleAppend(s[..k], s[k..]);
  }

  /** Visible view after splicing a visible item in at struct index `k`. */
  lemma {:induction false} VisibleSplice(a: seq<Item>, x: Item, b: seq<Item>)
    requires !x.deleted
    ensures Visible(a + [x] + b) == Visible(a) + [x] + Visible(b)
  {
    VisibleAppend(a + [x], b);
    VisibleAppend(a, [x]);
    VisibleSingleton(x);
  }

  // ---------------------------------------------------------------------
  // Tombstones and lookup by id

  /** `item.deleted = true` on the element at struct index `k`. */
  function Tombstone(s: seq<Item>, k: nat): seq<Item>
    requires k < |s|
  {
    s[k := s[k].(deleted := true)]
  }

  lemma {:induction false} TombstoneKeeps(s: seq<Item>, k: nat)
    requires k < |s|
    ensures var t := Tombstone(s, k);
      && |t| == |s|
      && (Sorted(s) ==> Sorted(t))
      && (UniqueIds(s) ==> UniqueIds(t))
      && Ids(t) == Ids(s)
      && TombIds(t) == TombIds(s) + {s[k].id}
  {
    TombstoneOrder(s, k);
    TombstoneIds(s, k);
  }

  /** Tombstoning keeps every key and every id in place. */
  lemma {:induction false} TombstoneOrder(s: seq<Item>, k: nat)
    requires k < |s|
    ensures var t := Tombstone(s, k);
      && |t| == |s|
      && (Sorted(s) ==> Sorted(t))
      && (UniqueIds(s) ==> UniqueIds(t))
  {
    var t := Tombstone(s, k);
    assert forall j :: 0 <= j < |s| ==> t[j].pos == s[j].pos && t[j].siteId == s[j].siteId && t[j].id == s[j].id;
  }

  /** Tombstoning keeps the ids and adds the element's id to the tombstoned ones. */
  lemma {:induction false} TombstoneIds(s: seq<Item>, k: nat)
    requires k < |s|
    ensures var t := Tombstone(s, k);
      && Ids(t) == Ids(s)
      && TombIds(t) == TombIds(s) + {s[k].id}
  {
    var t := Tombstone(s, k);
    forall y | y in s
      ensures y.id in Ids(t)
    {
      var j :| 0 <= j < |s| && s[j] == y;
      assert t[j] in t;
    }
    forall y | y in t
      ensures y.id in Ids(s)
    {
      var j :| 0 <= j < |t| && t[j] == y;
      assert s[j] in s;
    }
    forall y | y in s && y.deleted
      ensures y.id in TombIds(t)
    {
      var j :| 0 <= j < |s| && s[j] == y;
      assert t[j] in t && t[j].deleted;
    }
    forall y | y in t && y.deleted
      ensures y.id in TombIds(s) + {s[k].id}
    {
      var j :| 0 <= j < |t| && t[j] == y;
      if j != k {
        assert s[j] in s;
      }
    }
    assert t[k] in t;
  }

  /** `struct.find(i => i.id === id)`: the first index with that id. */
  function FindId(s: seq<Item>, id: ItemId): (r: Option<nat>)
    ensures r.None? <==> id !in Ids(s)
    ensures r.Some? ==>
      r.value < |s| && s[r.value].id == id && forall j :: 0 <= j < r.value ==> s[j].id != id
  {
    if s == [] then None
    else if s[0].id == id then Some(0)
    else match FindId(s[1..], id)
      case None =>
        assert forall y :: y in s ==> y == s[0] || y in s[1..];
        None
      case Some(j) =>
        assert s[1..][j] in s;
        Some(j + 1)
  }

  /** `remoteDelete(id)`: tombstone the element with that id, if any. */
  function RemoteDeleted(s: seq<Item>, id: ItemId): seq<Item>
  {
    match FindId(s, id)
    case None => s
    case Some(k) => Tombstone(s, k)
  }

  /** A delete applied twice equals the delete applied once; a delete for an
      unknown id changes nothing. */
  lemma {:induction false} RemoteDeleteIdempotent(s: seq<Item>, id: ItemId)
    ensures id !in Ids(s) ==> RemoteDeleted(s, id) == s
    ensures RemoteDeleted(RemoteDeleted(s, id), id) == RemoteDeleted(s, id)
  {
    match FindId(s, id)
    case None =>
    case Some(k) =>
      var t := Tombstone(s, k);
      TombstoneKeeps(s, k);
      var k' := FindId(t, id);
      assert k'.Some?;
      assert t[k].id == id;
      assert k'.value == k by {
        assert forall j :: 0 <= j < |t| ==> t[j].id == s[j].id;
      }
      assert Tombstone(t, k) == t;
  }

  /** Removing one character from the text. */
  lemma {:induction false} CharsRemove(v: seq<Item>, i: nat)
    requires i < |v|
    ensures Chars(v[..i] + v[i + 1..]) == Chars(v)[..i] + Chars(v)[i + 1..]
  {
    var u := v[..i] + v[i + 1..];
    assert forall m :: 0 <= m < |u| ==> u[m] == if m < i then v[m] else v[m + 1];
  }

  /** Tombstoning a visible element removes exactly it from the visible view. */
  lemma {:induction false} TombstoneVisible(s: seq<Item>, k: nat)
    requires k < |s| && !s[k].deleted
    ensures var i0 := |Visible(s[..k])|; var v := Visible(s);
      i0 < |v| && Visible(Tombstone(s, k)) == v[..i0] + v[i0 + 1..]
  {
    VisibleAt(s, k);
    var t := Tombstone(s, k);
    var a, b := s[..k], s[k + 1..];
    assert t == a + [t[k]] + b;
    VisibleAppend(a + [t[k]], b);
    VisibleAppend(a, [t[k]]);
    VisibleSingleton(t[k]);
  }

  /** Deleting the `i`-th visible element tombstones exactly that element,
      so it removes exactly the `i`-th character of the text; the struct
      keeps its length. */
  lemma {:induction false} DeleteVisible(s: seq<Item>, i: nat)
    requires i < |Visible(s)|
    ensures var k := StructIndex(s, i); var t := Tombstone(s, k); var v := Visible(s);
      && s[k] == v[i]
      && Visible(t) == v[..i] + v[i + 1..]
      && Text(t) == Text(s)[..i] + Text(s)[i + 1..]
  {
    var k := StructIndex(s, i);
    var v, t := Visible(s), Tombstone(s, k);
    assert s[k] == v[i] by {
      VisibleAt(s, k);
    }
    assert Visible(t) == v[..i] + v[i + 1..] by {
      TombstoneVisible(s, k);
    }
    assert Text(t) == Chars(v)[..i] + Chars(v)[i + 1..] by {
      CharsRemove(v, i);
    }
  }

  // ---------------------------------------------------------------------
  // localInsert: neighbours from the visible view

  /** The `(prevPos, nextPos)` pair `localInsert` hands to `allocPos`, or
      `None` where the source dereferences `undefined` and throws: a negative
      index, or an index above 0 on an empty visible list. */
  function Neighbours(s: seq<Item>, index: int): Option<(JsString, JsString)>
  {
    var v := Visible(s);
    if index == 0 then Some(([], if |v| > 0 then v[0].pos else []))
    else if index >= |v| then
      (if |v| == 0 then None else Some((v[|v| - 1].pos, [])))
    else if index < 0 then None
    else Some((v[index - 1].pos, v[index].pos))
  }

  /** The item `localInsert` builds, before `apply`. */
  function NewItem(s: seq<Item>, site: SiteId, c: CodeUnit, index: int, id: ItemId): Option<Item>
  {
    match Neighbours(s, index)
    case None => None
    case Some((p, n)) => Some(Item(c, Alloc(p, n), site, id, false))
  }

  /** Where the new character shows up: `index`, clamped to the end. */
  function Clamp(index: nat, len: nat): nat
  {
    if index >= len then len else index
  }

  /** The neighbour condition under which `localInsert` places its
      character at `index`: the source does not throw, and when there is a
      right neighbour `allocPos` is guaranteed to land strictly between. */
  ghost predicate GapOk(s: seq<Item>, index: int)
  {
    var v := Visible(s);
    && 0 <= index
    && (index == 0 || |v| > 0)
    && (index < |v| ==>
         AllocBelowNext(if index == 0 then [] else v[index - 1].pos, v[index].pos))
    && (index > 0 ==> InAlphabet(v[Clamp(index, |v|) - 1].pos))
  }

  /** Visible positions are well formed and strictly increasing. */
  ghost predicate DistinctPositions(v: seq<Item>)
  {
    && (forall j :: 0 <= j < |v| ==> WellFormedPos(v[j].pos))
    && (forall j, m :: 0 <= j < m < |v| ==> Less(v[j].pos, v[m].pos))
  }

  /** The document-level form of the neighbour condition. Local inserts and
      deletes keep it; remote inserts from concurrent sites may break it. */
  ghost predicate DistinctVisiblePositions(s: seq<Item>)
  {
    DistinctPositions(Visible(s))
  }

  /** With distinct visible positions, every non-throwing index has a good gap. */
  lemma {:induction false} DistinctGapOk(s: seq<Item>, index: int)
    requires DistinctVisiblePositions(s)
    requires 0 <= index && (index == 0 || |Visible(s)| > 0)
    ensures GapOk(s, index)
  {
  }

  /** The lower bound of `x` in a sequence ordered around index `i` is `i`. */
  lemma {:induction false} LowerBoundExact(v: seq<Item>, x: Item, i: nat)
    requires i <= |v|
    requires forall m :: 0 <= m < i ==> KeyLess(v[m], x)
    requires i < |v| ==> !KeyLess(v[i], x)
    ensures LowerBound(v, x) == i
  {
    if i > 0 {
      assert KeyLess(v[0], x);
      LowerBoundExact(v[1..], x, i - 1);
    }
  }

  /** When the first element is not below `x`, no visible element is. */
  lemma {:induction false} VisibleNoneBelow(s: seq<Item>, x: Item)
    requires Sorted(s) && s != [] && !KeyLess(s[0], x)
    ensures LowerBound(Visible(s), x) == 0
  {
    var v := Visible(s);
    if v != [] {
      VisibleMembers(s);
      var j :| 0 <= j < |s| && s[j] == v[0];
      if j > 0 {
        KeyLeTransitive(x, s[0], s[j]);
      }
    }
  }

  /** The visible lower bound after a leading element below `x`. */
  lemma {:induction false} VisibleConsBelow(s: seq<Item>, x: Item)
    requires s != [] && KeyLess(s[0], x)
    ensures var v, r := Visible(s), Visible(s[1..]);
      v[..LowerBound(v, x)] == Visible([s[0]]) + r[..LowerBound(r, x)]
  {
    var v, r := Visible(s), Visible(s[1..]);
    var lb := LowerBound(r, x);
    VisibleSingleton(s[0]);
    if s[0].deleted {
      assert v == r;
    } else {
      assert v == [s[0]] + r;
      assert v[0] == s[0] && v[1..] == r;
      assert LowerBound(v, x) == 1 + lb;
      assert v[..lb + 1] == [s[0]] + r[..lb];
    }
  }

  /** Cutting a sorted struct at the lower bound of `x` cuts its visible
      view at the lower bound of `x` as well. */
  lemma {:induction false} VisibleBelow(s: seq<Item>, x: Item)
    requires Sorted(s)
    ensures Visible(s[..LowerBound(s, x)]) == Visible(s)[..LowerBound(Visible(s), x)]
  {
    if s != [] {
      if !KeyLess(s[0], x) {
        VisibleNoneBelow(s, x);
        assert s[..0] == [];
      } else {
        assert Sorted(s[1..]);
        VisibleBelow(s[1..], x);
        var k' := LowerBound(s[1..], x);
        assert s[..k' + 1] == [s[0]] + s[1..][..k'];
        VisibleAppend([s[0]], s[1..][..k']);
        VisibleConsBelow(s, x);
      }
    }
  }

  /** Under the neighbour condition the new position is well formed and
      strictly between the positions of the visible elements before and
      from `Clamp(index)` on. */
  lemma {:induction false} NewItemBetween(s: seq<Item>, site: SiteId, c: CodeUnit, index: int, id: ItemId)
    requires Sorted(s) && GapOk(s, index)
    ensures NewItem(s, site, c, index, id).Some?
    ensures var r := NewItem(s, site, c, index, id).value.pos;
      var v := Visible(s); var i := Clamp(index, |v|);
      && WellFormedPos(r)
      && (forall m :: 0 <= m < i ==> Less(v[m].pos, r))
      && (forall m :: i <= m < |v| ==> Less(r, v[m].pos))
  {
    var v := Visible(s);
    var i := Clamp(index, |v|);
    var (p, n) := Neighbours(s, index).value;
    var r := Alloc(p, n);
    assert p == (if i == 0 then [] else v[i - 1].pos);
    assert n == (if i < |v| then v[i].pos else []);
    AllocAbove(p, n);
    AllocWellFormed(p, n);
    if i < |v| {
      AllocBelow(p, n);
    }
    SortedVisible(s);
    forall m | 0 <= m < i
      ensures Less(v[m].pos, r)
    {
      if m < i - 1 {
        KeyLePos(v[m], v[i - 1]);
      }
      LessLessEqTransitive(v[m].pos, p, r);
    }
    forall m | i <= m < |v|
      ensures Less(r, v[m].pos)
    {
      if m > i {
        KeyLePos(v[i], v[m]);
      }
      LessLessEqTransitive(r, n, v[m].pos);
    }
  }

  /** An item whose position lies strictly between the visible elements
      before `i` and those from `i` on becomes the `i`-th visible element. */
  lemma {:induction false} InsertedVisible(s: seq<Item>, x: Item, i: nat)
    requires Sorted(s) && x.id !in Ids(s) && !x.deleted
    requires i <= |Visible(s)|
    requires forall m :: 0 <= m < i ==> Less(Visible(s)[m].pos, x.pos)
    requires forall m :: i <= m < |Visible(s)| ==> Less(x.pos, Visible(s)[m].pos)
    ensures Visible(Inserted(s, x)) == Visible(s)[..i] + [x] + Visible(s)[i..]
  {
    var v := Visible(s);
    var k := LowerBound(s, x);
    forall m | i <= m < |v|
      ensures !KeyLess(v[m], x)
    {
      LessAsymmetric(x.pos, v[m].pos);
      LessIrreflexive(x.pos);
    }
    LowerBoundExact(v, x, i);
    VisibleBelow(s, x);
    VisibleSplit(s, k);
    assert v == v[..i] + v[i..];
    assert Visible(s[k..]) == v[i..];
    VisibleSplice(s[..k], x, s[k..]);
  }

  /** Inserting one character into the text. */
  lemma {:induction false} CharsSplice(v: seq<Item>, i: nat, x: Item)
    requires i <= |v|
    ensures Chars(v[..i] + [x] + v[i..]) == Chars(v)[..i] + [x.ch] + Chars(v)[i..]
  {
    var u := v[..i] + [x] + v[i..];
    assert forall m :: 0 <= m < |u| ==> u[m] == if m < i then v[m] else if m == i then x else v[m - 1];
  }

  /** A well-formed position strictly between its neighbours keeps the
      visible positions distinct. */
  lemma {:induction false} SpliceDistinct(v: seq<Item>, i: nat, x: Item)
    requires DistinctPositions(v) && WellFormedPos(x.pos) && i <= |v|
    requires forall m :: 0 <= m < i ==> Less(v[m].pos, x.pos)
    requires forall m :: i <= m < |v| ==> Less(x.pos, v[m].pos)
    ensures DistinctPositions(v[..i] + [x] + v[i..])
  {
    var u := v[..i] + [x] + v[i..];
    assert forall m :: 0 <= m < |u| ==> u[m] == if m < i then v[m] else if m == i then x else v[m - 1];
    forall j, m | 0 <= j < m < |u|
      ensures Less(u[j].pos, u[m].pos)
    {
      if j < i && m > i {
        LessTransitive(u[j].pos, x.pos, u[m].pos);
      }
    }
  }

  /** Removing an element keeps the visible positions distinct. */
  lemma {:induction false} RemoveDistinct(v: seq<Item>, i: nat)
    requires DistinctPositions(v) && i < |v|
    ensures DistinctPositions(v[..i] + v[i + 1..])
  {
    var u := v[..i] + v[i + 1..];
    assert forall m :: 0 <= m < |u| ==> u[m] == if m < i then v[m] else v[m + 1];
  }

  /** `localInsert(c, index)` under the neighbour condition: the new item is
      the `Clamp(index)`-th visible element, so the text is the old text with
      `c` spliced in there, and distinct visible positions stay distinct. */
  lemma {:induction false} LocalInsertText(s: seq<Item>, site: SiteId, c: CodeUnit, index: int, id: ItemId)
    requires Sorted(s) && id !in Ids(s) && GapOk(s, index)
    ensures NewItem(s, site, c, index, id).Some?
    ensures var x := NewItem(s, site, c, index, id).value;
      var v := Visible(s); var i := Clamp(index, |v|);
      && Visible(Inserted(s, x)) == v[..i] + [x] + v[i..]
      && Text(Inserted(s, x)) == Text(s)[..i] + [c] + Text(s)[i..]
      && (DistinctVisiblePositions(s) ==> DistinctVisiblePositions(Inserted(s, x)))
  {
    NewItemBetween(s, site, c, index, id);
    var x := NewItem(s, site, c, index, id).value;
    var v := Visible(s);
    var i := Clamp(index, |v|);
    InsertedVisible(s, x, i);
    CharsSplice(v, i, x);
    if DistinctVisiblePositions(s) {
      SpliceDistinct(v, i, x);
    }
  }

  /** `localInsert` takes its neighbours from the visible elements only,
      so after a replica deletes its only character, its next insert at 0
      gets the very position of the tombstone: the two items have equal
      `(pos, siteId)` keys, and the new one is placed before the old. */
  lemma {:induction false} LocalInsertReusesTombstoneKey(site: SiteId, c: CodeUnit, d: CodeUnit, id1: ItemId, id2: ItemId)
    requires id1 != id2
    ensures NewItem([], site, c, 0, id1).Some?
    ensures var x1 := NewItem([], site, c, 0, id1).value;
      var s1 := Tombstone(Inserted([], x1), 0);
      && Text(s1) == []
      && NewItem(s1, site, d, 0, id2).Some?
      && var x2 := NewItem(s1, site, d, 0, id2).value;
         SameKey(x1, x2) && x1.pos == [79] && Inserted(s1, x2) == [x2, s1[0]]
  {
    assert AllocFrom([], [], 0) == [79];
    var x1 := NewItem([], site, c, 0, id1).value;
    var s1 := Tombstone(Inserted([], x1), 0);
    assert s1 == [x1.(deleted := true)];
    assert Visible(s1) == [] by {
      assert s1[1..] == [];
    }
    var x2 := NewItem(s1, site, d, 0, id2).value;
    assert x2.pos == [79];
    KeyLessIrreflexive(x2);
    assert LowerBound(s1, x2) == 0;
  }

  /** One remote operation as `init` replays it and as a live `op` applies
      it: an insert goes through `apply`, a delete tombstones by id, any
      other payload is ignored. */
  function ApplyOp(s: seq<Item>, op: Op): seq<Item>
  {
    match op
    case InsertOp(item, _) => Inserted(s, item)
    case DeleteOp(id) => RemoteDeleted(s, id)
    case OtherOp => s
  }

  /** No operation removes an element or clears a tombstone: ids and
      tombstoned ids only grow, and so does the struct. */
  lemma {:induction false} ApplyOpGrows(s: seq<Item>, op: Op)
    ensures |s| <= |ApplyOp(s, op)|
    ensures Ids(s) <= Ids(ApplyOp(s, op))
    ensures TombIds(s) <= TombIds(ApplyOp(s, op))
  {
    match op
    case InsertOp(item, _) =>
      InsertedIds(s, item);
      if item.id !in Ids(s) {
        InsertedFresh(s, item);
      }
    case DeleteOp(id) =>
      var found := FindId(s, id);
      if found.Some? {
        TombstoneKeeps(s, found.value);
      }
    case OtherOp =>
  }

  // ---------------------------------------------------------------------
  // The replica object

  /** One replica: its site id and its `struct` array. */
  class Replica {
    const siteId: SiteId
    var struct: seq<Item>

    /** `struct` is in key order and holds each id at most once. */
    ghost predicate Valid()
      reads this
    {
      Sorted(struct) && UniqueIds(struct)
    }

    constructor (siteId: SiteId)
      ensures Valid()
      ensures this.siteId == siteId && struct == []
    {
      this.siteId := siteId;
      struct := [];
    }

    /** `getText()`: the characters of the non-deleted elements, in order. */
    function GetText(): (t: JsString)
      reads this
      ensures |t| == |Visible(struct)|
      ensures forall k :: 0 <= k < |t| ==> t[k] == Visible(struct)[k].ch
    {
      Text(struct)
    }

    /** `apply(item)`. */
    method Apply(item: Item)
      requires Valid()
      modifies this
      ensures Valid()
      ensures struct == Inserted(old(struct), item)
      ensures item.id in old(Ids(struct)) ==> struct == old(struct)
      ensures Ids(struct) == old(Ids(struct)) + {item.id}
    {
      InsertedIds(struct, item);
      if item.id in Ids(struct) {
        return;
      }
      var low := FindInsertionPoint(struct, item);
      InsertedSorted(struct, item);
      InsertedUnique(struct, item);
      struct := struct[..low] + [item] + struct[low..];
    }

    /** `localInsert(char, index)` with the generated id passed in. `None`
        is the TypeError the source throws; then nothing changes. */
    method LocalInsert(c: CodeUnit, index: int, id: ItemId) returns (r: Option<Item>)
      requires Valid()
      modifies this
      ensures Valid()
      ensures r == NewItem(old(struct), siteId, c, index, id)
      ensures r.None? <==> index < 0 || (index > 0 && |Visible(old(struct))| == 0)
      ensures r.None? ==> struct == old(struct)
      ensures r.Some? ==> && r.value.ch == c && r.value.siteId == siteId
                          && r.value.id == id && !r.value.deleted
                          && struct == Inserted(old(struct), r.value)
      ensures r.Some? ==> Ids(struct) == old(Ids(struct)) + {id}
      ensures r.Some? && id !in old(Ids(struct)) && GapOk(old(struct), index) ==>
        GetText() == old(GetText())[..Clamp(index, |old(GetText())|)] + [c]
                     + old(GetText())[Clamp(index, |old(GetText())|)..]
      ensures (r.Some? && id !in old(Ids(struct)) && GapOk(old(struct), index) &&
               DistinctVisiblePositions(old(struct))) ==>
              DistinctVisiblePositions(struct)
    {
      var v := Visible(struct);
      var prevPos: JsString := [];
      var nextPos: JsString := [];
      if index == 0 {
        prevPos := [];
        nextPos := if |v| > 0 then v[0].pos else [];
      } else if index >= |v| {
        if |v| == 0 {
          return None;
        }
        prevPos := v[|v| - 1].pos;
        nextPos := [];
      } else if index < 0 {
        return None;
      } else {
        prevPos := v[index - 1].pos;
        nextPos := v[index].pos;
      }
      var newPos := AllocPos(prevPos, nextPos);
      var item := Item(c, newPos, siteId, id, false);
      if id !in Ids(struct) && GapOk(struct, index) {
        LocalInsertText(struct, siteId, c, index, id);
      }
      Apply(item);
      r := Some(item);
    }

    /** `localDelete(index)`: tombstones the `index`-th visible element and
        returns its delete operation, or `None` (`null`) out of range. */
    method LocalDelete(index: int) returns (r: Option<Op>)
      requires Valid()
      modifies this
      ensures Valid()
      ensures |struct| == |old(struct)|
      ensures r.None? <==> !(0 <= index < |Visible(old(struct))|)
      ensures r.None? ==> struct == old(struct)
      ensures r.Some? ==>
        && r.value == DeleteOp(Visible(old(struct))[index].id)
        && struct == Tombstone(old(struct), StructIndex(old(struct), index))
        && GetText() == old(GetText())[..index] + old(GetText())[index + 1..]
      ensures Ids(struct) == old(Ids(struct))
      ensures old(TombIds(struct)) <= TombIds(struct)
      ensures DistinctVisiblePositions(old(struct)) ==> DistinctVisiblePositions(struct)
    {
      var v := Visible(struct);
      if index < 0 || index >= |v| {
        return None;
      }
      var k := StructIndex(struct, index);
      DeleteVisible(struct, index);
      TombstoneKeeps(struct, k);
      if DistinctVisiblePositions(struct) {
        RemoveDistinct(v, index);
      }
      struct := struct[k := struct[k].(deleted := true)];
      r := Some(DeleteOp(v[index].id));
    }

    /** `remoteInsert(item)`. */
    method RemoteInsert(item: Item)
      requires Valid()
      modifies this
      ensures Valid()
      ensures struct == Inserted(old(struct), item)
    {
      Apply(item);
    }

    /** `remoteDelete(id)`: tombstones the element with that id, if any. */
    method RemoteDelete(id: ItemId)
      requires Valid()
      modifies this
      ensures Valid()
      ensures struct == RemoteDeleted(old(struct), id)
      ensures |struct| == |old(struct)| && Ids(struct) == old(Ids(struct))
      ensures TombIds(struct) == old(TombIds(struct)) + (if id in old(Ids(struct)) then {id} else {})
    {
      var found := FindId(struct, id);
      if found.Some? {
        TombstoneKeeps(struct, found.value);
        struct := struct[found.value := struct[found.value].(deleted := true)];
      }
    }
  }
}
