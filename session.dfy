/** The editor page's glue (`app.js`): editor changes become CRDT
    operations, operations go out at once or wait in an offline queue while
    the socket is not open, and incoming server messages are applied to the
    replica and mirrored into the editor text. The editor itself
    (CodeMirror) is reduced to its text. */
module Session {
  import opened JsStrings
  import opened Crdt

  /** The separator of `join('\n')`. */
  const NEWLINE: CodeUnit := 10

  /** The server messages the page reacts to; everything else is ignored. */
  datatype Incoming =
    | InitMsg(ops: seq<Op>)
    | OpMsg(op: Op)
    | IgnoredMsg

  function Min(a: int, b: int): int
  {
    if a <= b then a else b
  }

  /** `getVisibleIndex(id)`: the index of `id` among the non-deleted
      elements, or -1 when it is absent or deleted. */
  function VisibleIndex(s: seq<Item>, id: ItemId): (r: int)
    ensures -1 <= r < |Visible(s)|
    ensures r == -1 <==> forall x :: x in s && x.id == id ==> x.deleted
    ensures r >= 0 ==> Visible(s)[r].id == id && forall j :: 0 <= j < r ==> Visible(s)[j].id != id
  {
    VisibleContains(s);
    match FindId(Visible(s), id)
    case None => -1
    case Some(i) => i
  }

  /** What `init` does to the replica: every op in order. */
  function Replay(s: seq<Item>, ops: seq<Op>): seq<Item>
    decreases |ops|
  {
    if ops == [] then s else ApplyOp(Replay(s, ops[..|ops| - 1]), ops[|ops| - 1])
  }

  lemma {:induction false} ReplaySnoc(s: seq<Item>, ops: seq<Op>, op: Op)
    ensures Replay(s, ops + [op]) == ApplyOp(Replay(s, ops), op)
  {
    assert (ops + [op])[..|ops|] == ops;
  }

  /** Replay never removes an element or clears a tombstone. */
  lemma {:induction false} ReplayGrows(s: seq<Item>, ops: seq<Op>)
    ensures Ids(s) <= Ids(Replay(s, ops)) && TombIds(s) <= TombIds(Replay(s, ops))
    decreases |ops|
  {
    if ops != [] {
      ReplayGrows(s, ops[..|ops| - 1]);
      ApplyOpGrows(Replay(s, ops[..|ops| - 1]), ops[|ops| - 1]);
    }
  }

  /** The text after `n` deletes at `index`: each delete removes the
      character at `index` while there is one. */
  function Cut(t: JsString, index: nat, n: nat): (c: JsString)
    ensures |c| <= |t|
  {
    if index >= |t| then t else t[..index] + t[Min(index + n, |t|)..]
  }

  /** The text after a whole change: `n` deletes at `index`, then the
      inserted text at `index`, clamped to the end. */
  function Spliced(t: JsString, index: nat, n: nat, ins: JsString): JsString
  {
    var c := Cut(t, index, n);
    var p := Min(index, |c|);
    c[..p] + ins + c[p..]
  }

  /** For a change inside the text, the result is the old text with the
      `n` characters at `index` replaced by the inserted text. */
  lemma {:induction false} SplicedInRange(t: JsString, index: nat, n: nat, ins: JsString)
    requires index + n <= |t|
    ensures Spliced(t, index, n, ins) == t[..index] + ins + t[index + n..]
  {
    if index < |t| {
      var c := Cut(t, index, n);
      assert c[..index] == t[..index] && c[index..] == t[index + n..];
    }
  }

  /** One more delete at `index`. */
  lemma {:induction false} CutStep(t: JsString, index: nat, i: nat)
    ensures var c := Cut(t, index, i);
      Cut(t, index, i + 1) == if index < |c| then c[..index] + c[index + 1..] else c
  {
    var c := Cut(t, index, i);
    if index < |t| {
      var m := Min(index + i, |t|);
      assert c[..index] == t[..index];
      if m < |t| {
        assert c[index + 1..] == t[m + 1..];
      }
    }
  }

  /** One more inserted character right after the previous ones. */
  lemma {:induction false} InsertStep(c: JsString, p: nat, text: JsString, i: nat)
    requires p <= |c| && i < |text|
    ensures var t := c[..p] + text[..i] + c[p..];
      t[..p + i] + [text[i]] + t[p + i..] == c[..p] + text[..i + 1] + c[p..]
  {
    var t := c[..p] + text[..i] + c[p..];
    assert t[..p + i] == c[..p] + text[..i];
    assert t[p + i..] == c[p..];
    assert text[..i + 1] == text[..i] + [text[i]];
  }

  /** Appending one op after `a + b` extends `b` by it. */
  lemma {:induction false} AppendSnoc(a: seq<Op>, b: seq<Op>, x: Op)
    ensures (a + b) + [x] == a + (b + [x])
  {
  }

  /** The condition under which a local change edits the text as intended:
      visible positions are distinct (the CRDT's neighbour condition) and
      the generated ids are fresh and pairwise distinct. */
  ghost predicate FreshChange(s: seq<Item>, text: JsString, ids: seq<ItemId>)
  {
    && |ids| >= |text|
    && DistinctVisiblePositions(s)
    && (forall k :: 0 <= k < |text| ==> ids[k] !in Ids(s))
    && (forall j, k :: 0 <= j < k < |text| ==> ids[j] != ids[k])
  }

  /** The `{type:'insert', item, siteId}` op for the `k`-th inserted character. */
  predicate InsertOpFor(op: Op, c: CodeUnit, id: ItemId, user: SiteId)
  {
    && op.InsertOp? && op.sender == Some(user)
    && op.item.ch == c && op.item.id == id && op.item.siteId == user && !op.item.deleted
  }

  /** No visible element carries an id that is absent from the struct. */
  lemma {:induction false} VisibleIdsAbsent(s: seq<Item>, id: ItemId)
    requires id !in Ids(s)
    ensures forall j :: 0 <= j < |Visible(s)| ==> Visible(s)[j].id != id
  {
    VisibleMembers(s);
  }

  /** The first visible element with id `id` fixes `VisibleIndex`. */
  lemma {:induction false} VisibleIndexIs(t: seq<Item>, id: ItemId, i: nat)
    requires i < |Visible(t)| && Visible(t)[i].id == id
    requires forall j :: 0 <= j < i ==> Visible(t)[j].id != id
    ensures VisibleIndex(t, id) == i
  {
    VisibleMembers(t);
    var r := VisibleIndex(t, id);
    assert Visible(t)[i] in t && !Visible(t)[i].deleted;
    assert r != -1;
  }

  /** The visible view splits at the lower bound of `x`. */
  lemma {:induction false} VisibleAtLowerBound(s: seq<Item>, x: Item)
    ensures var k := LowerBound(s, x); var i0 := |Visible(s[..k])|; var v := Visible(s);
      && i0 <= |v| && v[..i0] == Visible(s[..k]) && v[i0..] == Visible(s[k..])
  {
    var k := LowerBound(s, x);
    var va, vb := Visible(s[..k]), Visible(s[k..]);
    VisibleSplit(s, k);
    assert (va + vb)[..|va|] == va && (va + vb)[|va|..] == vb;
  }

  /** Where a fresh item shows up in the visible view after `apply`. */
  lemma {:induction false} InsertedVisibleAt(s: seq<Item>, x: Item)
    requires x.id !in Ids(s)
    ensures var k := LowerBound(s, x); var i0 := |Visible(s[..k])|; var v := Visible(s);
      && i0 <= |v| && v[..i0] == Visible(s[..k])
      && Visible(Inserted(s, x)) == if x.deleted then v else v[..i0] + [x] + v[i0..]
  {
    var k := LowerBound(s, x);
    var a, b := s[..k], s[k..];
    var v, va, vb := Visible(s), Visible(a), Visible(b);
    var i0 := |va|;
    assert i0 <= |v| && v[..i0] == va && v[i0..] == vb by {
      VisibleAtLowerBound(s, x);
    }
    assert Visible(Inserted(s, x)) == va + Visible([x]) + vb by {
      assert Inserted(s, x) == a + [x] + b;
      VisibleAppend(a + [x], b);
      VisibleAppend(a, [x]);
    }
    VisibleSingleton(x);
    if x.deleted {
      assert va + [] + vb == v[..i0] + v[i0..] == v;
    }
  }

  /** A fresh visible item shows up at the count of visible elements below
      its key, and its character is inserted there. */
  lemma {:induction false} RemoteInsertVisible(s: seq<Item>, x: Item)
    requires x.id !in Ids(s) && !x.deleted
    ensures var t := Inserted(s, x); var i0 := |Visible(s[..LowerBound(s, x)])|;
      && VisibleIndex(t, x.id) == i0 && i0 <= |Text(s)|
      && Text(t) == Text(s)[..i0] + [x.ch] + Text(s)[i0..]
  {
    var t := Inserted(s, x);
    var v := Visible(s);
    var i0 := |Visible(s[..LowerBound(s, x)])|;
    assert i0 <= |v| by {
      InsertedVisibleAt(s, x);
    }
    var vt := v[..i0] + [x] + v[i0..];
    assert Visible(t) == vt by {
      InsertedVisibleAt(s, x);
    }
    assert VisibleIndex(t, x.id) == i0 by {
      VisibleIdsAbsent(s, x.id);
      assert forall j :: 0 <= j < i0 ==> vt[j] == v[j];
      assert vt[i0] == x;
      VisibleIndexIs(t, x.id, i0);
    }
    assert Text(t) == Chars(v)[..i0] + [x.ch] + Chars(v)[i0..] by {
      CharsSplice(v, i0, x);
    }
  }

  /** Inserting a remote item: when it is fresh, the editor inserts its
      character exactly where it became visible, or does nothing when it
      arrived already deleted. */
  lemma {:induction false} RemoteInsertEditor(s: seq<Item>, x: Item)
    requires x.id !in Ids(s)
    ensures var t := Inserted(s, x); var i := VisibleIndex(t, x.id);
      && (i == -1 ==> Text(t) == Text(s))
      && (i != -1 ==> i <= |Text(s)| && Text(t) == Text(s)[..i] + [x.ch] + Text(s)[i..])
  {
    var t := Inserted(s, x);
    if x.deleted {
      assert Visible(t) == Visible(s) by {
        InsertedVisibleAt(s, x);
      }
      assert VisibleIndex(t, x.id) == -1 by {
        VisibleIdsAbsent(s, x.id);
      }
      assert Text(t) == Text(s);
    } else {
      RemoteInsertVisible(s, x);
    }
  }

  /** A remote delete of a tombstoned element: nothing visible has that id
      and the struct does not change. */
  lemma {:induction false} RemoteDeleteTombstoned(s: seq<Item>, id: ItemId, k: nat)
    requires UniqueIds(s) && k < |s| && s[k].id == id && s[k].deleted
    ensures VisibleIndex(s, id) == -1 && Tombstone(s, k) == s
  {
    forall y | y in s && y.id == id
      ensures y.deleted
    {
      var j :| 0 <= j < |s| && s[j] == y;
      assert j == k;
    }
  }

  /** A remote delete of a visible element: its visible index is the count
      of visible elements before it, and the text loses that character. */
  lemma {:induction false} RemoteDeleteVisible(s: seq<Item>, id: ItemId, k: nat)
    requires UniqueIds(s) && k < |s| && s[k].id == id && !s[k].deleted
    ensures var i := VisibleIndex(s, id);
      && i == |Visible(s[..k])|
      && Text(Tombstone(s, k)) == Text(s)[..i] + Text(s)[i + 1..]
  {
    VisibleAt(s, k);
    var v := Visible(s);
    var i0 := |Visible(s[..k])|;
    VisibleMembers(s[..k]);
    forall j | 0 <= j < i0
      ensures v[j].id != id
    {
      assert v[j] == Visible(s[..k])[j];
      var m :| 0 <= m < k && s[m] == v[j];
    }
    VisibleIndexIs(s, id, i0);
    TombstoneVisible(s, k);
    CharsRemove(v, i0);
  }

  /** Deleting remotely: the editor removes exactly the character at the
      visible index computed before the tombstone, or nothing when that
      index is -1, in which case the text does not change. */
  lemma {:induction false} RemoteDeleteEditor(s: seq<Item>, id: ItemId)
    requires UniqueIds(s)
    ensures var t := RemoteDeleted(s, id); var i := VisibleIndex(s, id);
      && (i == -1 ==> Text(t) == Text(s))
      && (i != -1 ==> i < |Text(s)| && Text(t) == Text(s)[..i] + Text(s)[i + 1..])
  {
    var f := FindId(s, id);
    if f.Some? {
      if s[f.value].deleted {
        RemoteDeleteTombstoned(s, id, f.value);
      } else {
        RemoteDeleteVisible(s, id, f.value);
      }
    } else {
      VisibleIdsAbsent(s, id);
    }
  }

  /** `posFromIndex` clamps to the document, then `replaceRange(c, pos, pos)`. */
  function InsertAt(e: JsString, idx: nat, c: CodeUnit): JsString
  {
    var p := Min(idx, |e|);
    e[..p] + [c] + e[p..]
  }

  /** `replaceRange('', posFromIndex(idx), posFromIndex(idx + 1))`. */
  function RemoveAt(e: JsString, idx: nat): JsString
  {
    if idx < |e| then e[..idx] + e[idx + 1..] else e
  }

  /** The client state of one open editor page. */
  class Session {
    const userId: SiteId
    const crdt: Replica
    /** `ws.readyState === 1`. */
    var socketOpen: bool
    var offlineQueue: seq<Op>
    /** The ops written to the socket, in order. */
    var wire: seq<Op>
    /** Every op handed to `sendOp`, in order. */
    ghost var issued: seq<Op>
    /** The editor's text. */
    var editor: JsString

    /** The replica is the user's, the queue is empty while the socket is
        open, and nothing handed to `sendOp` is lost or reordered. */
    ghost predicate Valid()
      reads this, crdt
    {
      && crdt.Valid() && crdt.siteId == userId
      && (socketOpen ==> offlineQueue == [])
      && wire + offlineQueue == issued
    }

    constructor (userId: SiteId)
      ensures Valid() && fresh(crdt)
      ensures this.userId == userId && crdt.struct == [] && !socketOpen
      ensures offlineQueue == [] && wire == [] && issued == [] && editor == []
    {
      this.userId := userId;
      crdt := new Replica(userId);
      socketOpen := false;
      offlineQueue := [];
      wire := [];
      issued := [];
      editor := [];
    }

    /** `sendOp(op)`: written to the socket when it is open, else queued. */
    method SendOp(op: Op)
      requires Valid()
      modifies this
      ensures Valid()
      ensures issued == old(issued) + [op]
      ensures unchanged(this`socketOpen, this`editor)
      ensures old(socketOpen) ==> wire == old(wire) + [op] && offlineQueue == old(offlineQueue)
      ensures !old(socketOpen) ==> offlineQueue == old(offlineQueue) + [op] && wire == old(wire)
    {
      if socketOpen {
        wire := wire + [op];
      } else {
        offlineQueue := offlineQueue + [op];
      }
      issued := issued + [op];
    }

    /** `ws.onopen`: drains the queue front to back. */
    method OnOpen()
      requires Valid()
      modifies this
      ensures Valid() && socketOpen
      ensures wire == old(wire) + old(offlineQueue) && offlineQueue == []
      ensures unchanged(this`issued, this`editor)
    {
      socketOpen := true;
      while |offlineQueue| > 0
        invariant socketOpen && editor == old(editor) && issued == old(issued)
        invariant wire + offlineQueue == old(wire) + old(offlineQueue)
        decreases |offlineQueue|
      {
        var op := offlineQueue[0];
        offlineQueue := offlineQueue[1..];
        wire := wire + [op];
      }
    }

    /** `ws.onclose`: the socket is no longer open. */
    method OnClose()
      requires Valid()
      modifies this
      ensures Valid() && !socketOpen
      ensures unchanged(this`wire, this`offlineQueue)
      ensures unchanged(this`issued, this`editor)
    {
      socketOpen := false;
    }

    /** One round of the delete loop: `localDelete(index)` and, when it
        returns an op, `sendOp` of it. */
    method DeleteOne(index: nat) returns (op: Option<Op>)
      requires Valid()
      modifies this, crdt
      ensures Valid() && unchanged(this`socketOpen, this`editor)
      ensures op.Some? <==> index < |old(crdt.GetText())|
      ensures op.Some? ==> op.value.DeleteOp? && issued == old(issued) + [op.value]
      ensures op.None? ==> issued == old(issued)
      ensures var t := old(crdt.GetText());
        crdt.GetText() == if index < |t| then t[..index] + t[index + 1..] else t
      ensures Ids(crdt.struct) == old(Ids(crdt.struct))
      ensures DistinctVisiblePositions(old(crdt.struct)) ==> DistinctVisiblePositions(crdt.struct)
    {
      op := crdt.LocalDelete(index);
      if op.Some? {
        SendOp(op.value);
      }
    }

    /** The delete loop of `handleLocalChange`: `n` times
        `localDelete(index)`, sending each non-null result. */
    method DeleteRun(index: nat, n: nat) returns (emitted: seq<Op>)
      requires Valid()
      modifies this, crdt
      ensures Valid() && unchanged(this`socketOpen, this`editor)
      ensures issued == old(issued) + emitted
      ensures crdt.GetText() == Cut(old(crdt.GetText()), index, n)
      ensures |emitted| == |old(crdt.GetText())| - |crdt.GetText()|
      ensures forall k :: 0 <= k < |emitted| ==> emitted[k].DeleteOp?
      ensures Ids(crdt.struct) == old(Ids(crdt.struct))
      ensures DistinctVisiblePositions(old(crdt.struct)) ==> DistinctVisiblePositions(crdt.struct)
    {
      ghost var t0 := crdt.GetText();
      emitted := [];
      var i := 0;
      while i < n
        invariant 0 <= i <= n
        invariant Valid() && unchanged(this`socketOpen, this`editor)
        invariant issued == old(issued) + emitted
        invariant crdt.GetText() == Cut(t0, index, i)
        invariant |emitted| == |t0| - |Cut(t0, index, i)|
        invariant forall k :: 0 <= k < |emitted| ==> emitted[k].DeleteOp?
        invariant Ids(crdt.struct) == old(Ids(crdt.struct))
        invariant DistinctVisiblePositions(old(crdt.struct)) ==> DistinctVisiblePositions(crdt.struct)
      {
        CutStep(t0, index, i);
        var op := DeleteOne(index);
        if op.Some? {
          emitted := emitted + [op.value];
        }
        i := i + 1;
      }
    }

    /** One round of the insert loop: `localInsert(ch, at)` and, when it
        does not throw, `sendOp` of the insert op. */
    method InsertOne(ch: CodeUnit, at: nat, id: ItemId) returns (thrown: bool, op: Op)
      requires Valid()
      modifies this, crdt
      ensures Valid() && unchanged(this`socketOpen, this`editor)
      ensures thrown <==> at > 0 && |old(crdt.GetText())| == 0
      ensures thrown ==> issued == old(issued) && crdt.struct == old(crdt.struct)
      ensures !thrown ==> issued == old(issued) + [op] && InsertOpFor(op, ch, id, userId)
      ensures !thrown ==> Ids(crdt.struct) == old(Ids(crdt.struct)) + {id}
      ensures (!thrown && id !in old(Ids(crdt.struct)) && DistinctVisiblePositions(old(crdt.struct))) ==>
        && DistinctVisiblePositions(crdt.struct)
        && crdt.GetText() == old(crdt.GetText())[..Clamp(at, |old(crdt.GetText())|)] + [ch]
                             + old(crdt.GetText())[Clamp(at, |old(crdt.GetText())|)..]
    {
      if DistinctVisiblePositions(crdt.struct) && (at == 0 || |Visible(crdt.struct)| > 0) {
        DistinctGapOk(crdt.struct, at);
      }
      var item := crdt.LocalInsert(ch, at, id);
      if item.None? {
        return true, OtherOp;
      }
      op := InsertOp(item.value, Some(userId));
      SendOp(op);
      thrown := false;
    }

    /** The insert loop of `handleLocalChange`: `localInsert(text[k],
        index + k)` for each character, sending each item as an insert op.
        `thrown` is the TypeError that abandons the loop. */
    method InsertRun(index: nat, text: JsString, freshIds: seq<ItemId>) returns (thrown: bool, emitted: seq<Op>)
      requires Valid() && |freshIds| >= |text|
      modifies this, crdt
      ensures Valid() && unchanged(this`socketOpen, this`editor)
      ensures issued == old(issued) + emitted
      ensures |emitted| <= |text| && (!thrown ==> |emitted| == |text|)
      ensures forall k :: 0 <= k < |emitted| ==> InsertOpFor(emitted[k], text[k], freshIds[k], userId)
      ensures FreshChange(old(crdt.struct), text, freshIds) ==>
        var c := old(crdt.GetText()); var p := Min(index, |c|);
        && (thrown <==> |c| == 0 && index > 0 && |text| > 0)
        && crdt.GetText() == if thrown then c else c[..p] + text + c[p..]
    {
      ghost var good := FreshChange(crdt.struct, text, freshIds);
      ghost var c := crdt.GetText();
      ghost var p := Min(index, |c|);
      assert c[..p] + text[..0] + c[p..] == c;
      emitted := [];
      thrown := false;
      var i := 0;
      while i < |text|
        invariant 0 <= i <= |text|
        invariant Valid() && unchanged(this`socketOpen, this`editor)
        invariant issued == old(issued) + emitted
        invariant |emitted| == i
        invariant forall k :: 0 <= k < i ==> InsertOpFor(emitted[k], text[k], freshIds[k], userId)
        invariant good ==> DistinctVisiblePositions(crdt.struct)
        invariant good ==> forall k :: i <= k < |text| ==> freshIds[k] !in Ids(crdt.struct)
        invariant good ==> crdt.GetText() == c[..p] + text[..i] + c[p..]
        invariant good && i > 0 ==> !(|c| == 0 && index > 0)
      {
        ghost var before := crdt.GetText();
        var op;
        thrown, op := InsertOne(text[i], index + i, freshIds[i]);
        if thrown {
          if good {
            assert |before| == |c| + i;
          }
          return;
        }
        if good {
          assert crdt.GetText() == c[..p] + text[..i + 1] + c[p..] by {
            assert |before| == |c| + i;
            assert Clamp(index + i, |before|) == p + i;
            InsertStep(c, p, text, i);
          }
        }
        ghost var prev := emitted;
        emitted := emitted + [op];
        assert forall k :: 0 <= k < i ==> emitted[k] == prev[k];
        assert emitted[i] == op;
        AppendSnoc(old(issued), prev, op);
        i := i + 1;
      }
      assert text[..i] == text;
    }

    /** The replica side of `handleLocalChange`: `removedLen` deletes at
        `index`, then one insert per character of `text` at `index + k`;
        each op goes through `sendOp`. `freshIds` stands for the generated
        ids; `thrown` is the TypeError of an insert on an empty document
        above index 0, which abandons the rest of the change. */
    method ChangeReplica(index: nat, removedLen: nat, text: JsString, freshIds: seq<ItemId>)
      returns (thrown: bool, emitted: seq<Op>)
      requires Valid()
      requires |freshIds| >= |text|
      modifies this, crdt
      ensures Valid()
      ensures unchanged(this`socketOpen, this`editor)
      ensures issued == old(issued) + emitted
      ensures var nd := |old(crdt.GetText())| - |Cut(old(crdt.GetText()), index, removedLen)|;
        && nd <= |emitted| <= nd + |text|
        && (forall k :: 0 <= k < nd ==> emitted[k].DeleteOp?)
        && (forall k :: nd <= k < |emitted| ==>
              InsertOpFor(emitted[k], text[k - nd], freshIds[k - nd], userId))
        && (!thrown ==> |emitted| == nd + |text|)
      ensures var cut := Cut(old(crdt.GetText()), index, removedLen);
        FreshChange(old(crdt.struct), text, freshIds) ==>
          && (thrown <==> |cut| == 0 && index > 0 && |text| > 0)
          && crdt.GetText() == if thrown then cut else Spliced(old(crdt.GetText()), index, removedLen, text)
    {
      ghost var t0, s0 := crdt.GetText(), crdt.struct;
      var deletes := DeleteRun(index, removedLen);
      ghost var s1 := crdt.struct;
      assert FreshChange(s0, text, freshIds) ==> FreshChange(s1, text, freshIds);
      var inserts;
      thrown, inserts := InsertRun(index, text, freshIds);
      emitted := deletes + inserts;
      assert forall k :: |deletes| <= k < |emitted| ==> emitted[k] == inserts[k - |deletes|];
    }

    /** `handleLocalChange(change)`: the removed and inserted lines are
        joined with line breaks and the change goes to the replica. The
        editor's `'change'` event fires after the edit, so the editor
        already holds the spliced text; when the editor matched the CRDT
        text before and the change completes, the two match again. */
    method HandleLocalChange(index: nat, removed: seq<JsString>, inserted: seq<JsString>, freshIds: seq<ItemId>)
      returns (thrown: bool, emitted: seq<Op>)
      requires Valid()
      requires |freshIds| >= |Join(inserted, NEWLINE)|
      modifies this, crdt
      ensures Valid()
      ensures unchanged(this`socketOpen)
      ensures editor == Spliced(old(editor), index, |Join(removed, NEWLINE)|, Join(inserted, NEWLINE))
      ensures issued == old(issued) + emitted
      ensures var text := Join(inserted, NEWLINE);
        var nd := |old(crdt.GetText())| - |Cut(old(crdt.GetText()), index, |Join(removed, NEWLINE)|)|;
        && nd <= |emitted| <= nd + |text|
        && (forall k :: 0 <= k < nd ==> emitted[k].DeleteOp?)
        && (forall k :: nd <= k < |emitted| ==>
              InsertOpFor(emitted[k], text[k - nd], freshIds[k - nd], userId))
        && (!thrown ==> |emitted| == nd + |text|)
      ensures var text := Join(inserted, NEWLINE);
        var n := |Join(removed, NEWLINE)|;
        var cut := Cut(old(crdt.GetText()), index, n);
        FreshChange(old(crdt.struct), text, freshIds) ==>
          && (thrown <==> |cut| == 0 && index > 0 && |text| > 0)
          && crdt.GetText() == if thrown then cut else Spliced(old(crdt.GetText()), index, n, text)
      ensures (FreshChange(old(crdt.struct), Join(inserted, NEWLINE), freshIds) && !thrown &&
               old(editor) == old(crdt.GetText())) ==> editor == crdt.GetText()
    {
      var removedLen := |Join(removed, NEWLINE)|;
      var text := Join(inserted, NEWLINE);
      editor := Spliced(editor, index, removedLen, text);
      thrown, emitted := ChangeReplica(index, removedLen, text, freshIds);
    }

    /** The `init` branch of `handleMessage`: replays the room's ops in order,
        then `refreshEditor()`. */
    method ApplyInit(ops: seq<Op>)
      requires Valid()
      modifies this, crdt
      ensures Valid()
      ensures unchanged(this`socketOpen, this`offlineQueue)
      ensures unchanged(this`wire, this`issued)
      ensures crdt.struct == Replay(old(crdt.struct), ops) && editor == crdt.GetText()
    {
      ghost var s0 := crdt.struct;
      var i := 0;
      while i < |ops|
        invariant 0 <= i <= |ops|
        invariant crdt.Valid()
        invariant crdt.struct == Replay(s0, ops[..i])
        modifies crdt
      {
        assert ops[..i + 1] == ops[..i] + [ops[i]];
        ReplaySnoc(s0, ops[..i], ops[i]);
        match ops[i] {
          case InsertOp(item, _) => crdt.RemoteInsert(item);
          case DeleteOp(id) => crdt.RemoteDelete(id);
          case OtherOp =>
        }
        i := i + 1;
      }
      assert ops[..|ops|] == ops;
      editor := crdt.GetText();
    }

    /** The `op` branch of `handleMessage`: the echo of the page's own op is
        ignored; a remote insert is applied and its character put into the
        editor at its visible index; for a remote delete the visible index
        is taken before the tombstone and that character removed. */
    method ApplyRemoteOp(op: Op)
      requires Valid()
      modifies this, crdt
      ensures Valid()
      ensures unchanged(this`socketOpen, this`offlineQueue)
      ensures unchanged(this`wire, this`issued)
      ensures OpSiteId(op) == Some(userId) ==> crdt.struct == old(crdt.struct) && editor == old(editor)
      ensures OpSiteId(op) != Some(userId) ==> crdt.struct == ApplyOp(old(crdt.struct), op)
      ensures old(editor) == old(crdt.GetText()) &&
              !(op.InsertOp? && op.item.id in old(Ids(crdt.struct))) ==>
              editor == crdt.GetText()
    {
      if OpSiteId(op) == Some(userId) {
        return;
      }
      match op {
        case InsertOp(item, _) => RemoteInsertOp(item);
        case DeleteOp(id) => RemoteDeleteOp(id);
        case OtherOp =>
      }
    }

    /** A remote insert: `remoteInsert(item)`, then the character goes into
        the editor at the item's visible index, if it has one. */
    method RemoteInsertOp(item: Item)
      requires Valid()
      modifies this, crdt
      ensures Valid()
      ensures unchanged(this`socketOpen, this`offlineQueue)
      ensures unchanged(this`wire, this`issued)
      ensures crdt.struct == Inserted(old(crdt.struct), item)
      ensures old(editor) == old(crdt.GetText()) && item.id !in old(Ids(crdt.struct)) ==>
              editor == crdt.GetText()
    {
      ghost var s0 := crdt.struct;
      if item.id !in Ids(s0) {
        RemoteInsertEditor(s0, item);
      }
      crdt.RemoteInsert(item);
      var idx := VisibleIndex(crdt.struct, item.id);
      if idx != -1 {
        editor := InsertAt(editor, idx, item.ch);
      }
    }

    /** A remote delete: the visible index is taken before `remoteDelete(id)`,
        then that character leaves the editor. */
    method RemoteDeleteOp(id: ItemId)
      requires Valid()
      modifies this, crdt
      ensures Valid()
      ensures unchanged(this`socketOpen, this`offlineQueue)
      ensures unchanged(this`wire, this`issued)
      ensures crdt.struct == RemoteDeleted(old(crdt.struct), id)
      ensures old(editor) == old(crdt.GetText()) ==> editor == crdt.GetText()
    {
      var idx := VisibleIndex(crdt.struct, id);
      RemoteDeleteEditor(crdt.struct, id);
      crdt.RemoteDelete(id);
      if idx != -1 {
        editor := RemoveAt(editor, idx);
      }
    }

    /** `handleMessage(msg)` for the messages the page acts on. */
    method HandleMessage(msg: Incoming)
      requires Valid()
      modifies this, crdt
      ensures Valid()
      ensures unchanged(this`socketOpen, this`offlineQueue)
      ensures unchanged(this`wire, this`issued)
      ensures msg.InitMsg? ==>
        crdt.struct == Replay(old(crdt.struct), msg.ops) && editor == crdt.GetText()
      ensures msg.OpMsg? && OpSiteId(msg.op) == Some(userId) ==>
        crdt.struct == old(crdt.struct) && editor == old(editor)
      ensures msg.OpMsg? && OpSiteId(msg.op) != Some(userId) ==>
        crdt.struct == ApplyOp(old(crdt.struct), msg.op)
      ensures msg.IgnoredMsg? ==> crdt.struct == old(crdt.struct) && editor == old(editor)
      ensures old(editor) == old(crdt.GetText()) &&
              !(msg.OpMsg? && msg.op.InsertOp? && msg.op.item.id in old(Ids(crdt.struct))) ==>
              editor == crdt.GetText()
    {
      match msg {
        case InitMsg(ops) => ApplyInit(ops);
        case OpMsg(op) => ApplyRemoteOp(op);
        case IgnoredMsg =>
      }
    }
  }
}
