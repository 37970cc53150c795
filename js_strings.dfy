/** JavaScript strings as the CRDT and the sync layer see them: sequences of
    UTF-16 code units, compared with the built-in `<` (code-unit
    lexicographic order, a proper prefix being smaller). */
module JsStrings {

  /** One UTF-16 code unit, what `charCodeAt` returns for an index in range. */
  type CodeUnit = x: int | 0 <= x < 0x1_0000

  type JsString = seq<CodeUnit>

  /** `null`/`undefined` versus a present value. */
  datatype Option<T> = None | Some(value: T)

  /** `lines.join(sep)` for a one-character separator. */
  function Join<T>(lines: seq<seq<T>>, sep: T): (r: seq<T>)
  {
    if |lines| == 0 then []
    else if |lines| == 1 then lines[0]
    else lines[0] + [sep] + Join(lines[1..], sep)
  }

  /** `a < b` on two JavaScript strings. */
  predicate Less(a: JsString, b: JsString)
  {
    if |a| == 0 then |b| > 0
    else if |b| == 0 then false
    else if a[0] != b[0] then a[0] < b[0]
    else Less(a[1..], b[1..])
  }

  /** `a <= b` on two JavaScript strings. */
  predicate LessEq(a: JsString, b: JsString)
  {
    a == b || Less(a, b)
  }

  lemma {:induction false} LessIrreflexive(a: JsString)
    ensures !Less(a, a)
  {
    if |a| > 0 {
      LessIrreflexive(a[1..]);
    }
  }

  lemma {:induction false} LessTransitive(a: JsString, b: JsString, c: JsString)
    requires Less(a, b) && Less(b, c)
    ensures Less(a, c)
  {
    if |a| > 0 && |b| > 0 && |c| > 0 && a[0] == b[0] == c[0] {
      LessTransitive(a[1..], b[1..], c[1..]);
    }
  }

  /** The order is total: two strings are equal or one is below the other. */
  lemma {:induction false} LessTrichotomy(a: JsString, b: JsString)
    ensures a == b || Less(a, b) || Less(b, a)
  {
    if |a| > 0 && |b| > 0 && a[0] == b[0] {
      LessTrichotomy(a[1..], b[1..]);
      if a[1..] == b[1..] {
        assert a == [a[0]] + a[1..] && b == [b[0]] + b[1..];
      }
    }
  }

  lemma {:induction false} LessAsymmetric(a: JsString, b: JsString)
    requires Less(a, b)
    ensures !Less(b, a)
  {
    if Less(b, a) {
      LessTransitive(a, b, a);
      LessIrreflexive(a);
    }
  }

  lemma {:induction false} LessEqTransitive(a: JsString, b: JsString, c: JsString)
    requires LessEq(a, b) && LessEq(b, c)
    ensures LessEq(a, c)
  {
    if Less(a, b) && Less(b, c) {
      LessTransitive(a, b, c);
    }
  }

  lemma {:induction false} LessLessEqTransitive(a: JsString, b: JsString, c: JsString)
    requires (Less(a, b) && LessEq(b, c)) || (LessEq(a, b) && Less(b, c))
    ensures Less(a, c)
  {
    if Less(a, b) && Less(b, c) {
      LessTransitive(a, b, c);
    }
  }
}
