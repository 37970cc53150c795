/** The CRDT's dense position allocator (`allocPos`): a fractional-index
    string strictly above `prev` and, under conditions stated below, strictly
    below `next`, over the printable code units 32..126. */
module PosAlloc {
  import opened JsStrings

  /** Lowest code unit of the alphabet, the space character. */
  const MIN: int := 32
  /** Highest code unit of the alphabet, `~`. */
  const MAX: int := 126

  /** `s.charCodeAt(i) || dflt`: past the end `charCodeAt` is NaN, and a code
      unit 0 is falsy too, so both fall back to the default. */
  function CodeAt(s: JsString, i: nat, dflt: CodeUnit): (c: CodeUnit)
    ensures i < |s| && s[i] != 0 ==> c == s[i]
    ensures (i >= |s| || s[i] == 0) ==> c == dflt
  {
    if i < |s| && s[i] != 0 then s[i] else dflt
  }

  /** Every code unit of `s` lies in the alphabet 32..126. */
  predicate InAlphabet(s: JsString)
  {
    forall k :: 0 <= k < |s| ==> MIN <= s[k] <= MAX
  }

  /** A position the allocator can produce: non-empty, over the alphabet and
      not ending in a space. */
  predicate WellFormedPos(s: JsString)
  {
    |s| > 0 && InAlphabet(s) && s[|s| - 1] != MIN
  }

  function MaxLen(p: JsString, n: JsString): nat
  {
    if |p| < |n| then |n| else |p|
  }

  /** The characters `allocPos` emits from index `i` on: the code unit of
      `prev` while the two effective code units are adjacent or not ordered,
      and the floor midpoint once they are more than one apart. */
  function AllocFrom(p: JsString, n: JsString, i: nat): (r: JsString)
    decreases MaxLen(p, n) - i
  {
    var cp := CodeAt(p, i, MIN);
    var cn := CodeAt(n, i, MAX + 1);
    if cn - cp > 1 then [(cp + cn) / 2]
    else
      assert i < MaxLen(p, n);
      [cp] + AllocFrom(p, n, i + 1)
  }

  /** `allocPos(prev, next)`, the function the method below computes. */
  function Alloc(prev: JsString, next: JsString): JsString
  {
    AllocFrom(prev, next, 0)
  }

  /** `allocPos`: extends `res` one code unit per round until it finds a gap. */
  method AllocPos(prev: JsString, next: JsString) returns (res: JsString)
    ensures res == Alloc(prev, next)
    ensures Less(prev, res)
    ensures InAlphabet(prev) && InAlphabet(next) ==> WellFormedPos(res)
    ensures AllocBelowNext(prev, next) ==> Less(res, next)
  {
    res := [];
    var i: nat := 0;
    while true
      invariant |res| == i
      invariant res + AllocFrom(prev, next, i) == Alloc(prev, next)
      decreases MaxLen(prev, next) - i
    {
      var cp: int := CodeAt(prev, i, MIN);
      var cn: int := CodeAt(next, i, MAX + 1);
      ghost var rest := AllocFrom(prev, next, i);
      if cn - cp > 1 {
        var mid := (cp + cn) / 2;
        assert rest == [mid];
        res := res + [mid];
        assert res == Alloc(prev, next);
        AllocAbove(prev, next);
        if InAlphabet(prev) && InAlphabet(next) {
          AllocWellFormed(prev, next);
        }
        if AllocBelowNext(prev, next) {
          AllocBelow(prev, next);
        }
        return;
      } else if cn - cp == 1 {
        assert rest == [cp] + AllocFrom(prev, next, i + 1);
        assert res + rest == (res + [cp]) + AllocFrom(prev, next, i + 1);
        res := res + [cp];
      } else {
        assert rest == [cp] + AllocFrom(prev, next, i + 1);
        assert res + rest == (res + [cp]) + AllocFrom(prev, next, i + 1);
        res := res + [cp];
      }
      i := i + 1;
    }
  }

  /** The conditions under which the result is below `next`: `next` is a
      real bound above `prev`, both are over the alphabet, and `next` does
      not end in a space. */
  predicate AllocBelowNext(prev: JsString, next: JsString)
  {
    && next != []
    && Less(prev, next)
    && InAlphabet(prev)
    && InAlphabet(next)
    && next[|next| - 1] != MIN
  }

  lemma {:induction false} AboveFrom(p: JsString, n: JsString, i: nat)
    requires i <= |p|
    ensures Less(p[i..], AllocFrom(p, n, i))
    decreases |p| - i
  {
    var r := AllocFrom(p, n, i);
    if i < |p| {
      var cp: int := CodeAt(p, i, MIN);
      var cn: int := CodeAt(n, i, MAX + 1);
      if cn - cp <= 1 && cp == p[i] {
        AboveFrom(p, n, i + 1);
        assert p[i..][1..] == p[i + 1..];
        assert r[1..] == AllocFrom(p, n, i + 1);
      }
    }
  }

  /** The result is always strictly above `prev`, whatever `next` is. */
  lemma {:induction false} AllocAbove(prev: JsString, next: JsString)
    ensures Less(prev, Alloc(prev, next))
  {
    AboveFrom(prev, next, 0);
    assert prev[0..] == prev;
  }

  lemma {:induction false} RangeFrom(p: JsString, n: JsString, i: nat)
    requires InAlphabet(p) && InAlphabet(n)
    ensures var r := AllocFrom(p, n, i);
      |r| > 0 && InAlphabet(r) && r[|r| - 1] > MIN
    decreases MaxLen(p, n) - i
  {
    var cp: int := CodeAt(p, i, MIN);
    var cn: int := CodeAt(n, i, MAX + 1);
    if cn - cp <= 1 {
      RangeFrom(p, n, i + 1);
    }
  }

  /** Over the alphabet, the result is over the alphabet and its last code
      unit is above the space, so it can itself serve as `next` later. */
  lemma {:induction false} AllocWellFormed(prev: JsString, next: JsString)
    requires InAlphabet(prev) && InAlphabet(next)
    ensures WellFormedPos(Alloc(prev, next))
  {
    RangeFrom(prev, next, 0);
  }

  function Suffix(s: JsString, i: nat): JsString
  {
    if i <= |s| then s[i..] else []
  }

  lemma {:induction false} BelowFrom(p: JsString, n: JsString, i: nat)
    requires i < |n|
    requires InAlphabet(p) && InAlphabet(n) && n[|n| - 1] != MIN
    requires Less(Suffix(p, i), n[i..])
    ensures Less(AllocFrom(p, n, i), n[i..])
    decreases |n| - i
  {
    var cp: int := CodeAt(p, i, MIN);
    var cn: int := CodeAt(n, i, MAX + 1);
    var ps := Suffix(p, i);
    assert n[i..][0] == n[i];
    if i < |p| {
      assert ps[0] == p[i] && ps[1..] == Suffix(p, i + 1);
    }
    if cn - cp <= 1 {
      if cn < cp {
        assert false;
      } else if cn == cp {
        assert n[i..][1..] == n[i + 1..];
        assert i + 1 < |n|;
        BelowFrom(p, n, i + 1);
      }
    }
  }

  /** The result is strictly below `next` when `AllocBelowNext` holds. */
  lemma {:induction false} AllocBelow(prev: JsString, next: JsString)
    requires AllocBelowNext(prev, next)
    ensures Less(Alloc(prev, next), next)
  {
    assert Suffix(prev, 0) == prev && next[0..] == next;
    BelowFrom(prev, next, 0);
  }

  /** Without the last condition the "between" promise fails: for
      `allocPos('A', 'A ')` the result is `'A O'`, which is above `'A '`. */
  lemma {:induction false} AllocNotBelowNextEndingInSpace()
    ensures Less([65], [65, 32])
    ensures Alloc([65], [65, 32]) == [65, 32, 79]
    ensures Less([65, 32], Alloc([65], [65, 32]))
  {
    assert AllocFrom([65], [65, 32], 2) == [79];
    assert AllocFrom([65], [65, 32], 1) == [32, 79];
  }

  /** No string over the alphabet lies strictly between `'A'` and `'A '`,
      so the failure above is a missing precondition, not a fixable choice. */
  lemma {:induction false} NothingBetweenPrefixAndSpace(s: JsString)
    requires InAlphabet(s)
    ensures !(Less([65], s) && Less(s, [65, 32]))
  {
    var lo: JsString := [65];
    var hi: JsString := [65, 32];
    if |s| > 0 && s[0] == 65 {
      assert Less(lo, s) == Less(lo[1..], s[1..]);
      assert Less(s, hi) == Less(s[1..], hi[1..]);
      if |s| > 1 {
        var t, u := s[1..], hi[1..];
        assert t[0] == s[1] >= MIN && u == [32];
        if t[0] == 32 {
          assert Less(t, u) == Less(t[1..], u[1..]);
          assert u[1..] == [];
        }
      }
    }
  }
}
