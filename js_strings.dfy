/**
 * JavaScript strings and values as the client sees them.
 *
 * A JavaScript string is a sequence of UTF-16 code units; a lone surrogate is
 * a legal string.  String comparison (what `Array.prototype.sort` uses when it
 * is given no comparator) is lexicographic on code units.
 */
module JsStrings {

  newtype CodeUnit = x: int | 0 <= x < 0x1_0000

  type JsString = seq<CodeUnit>

  /** The code units of an ASCII string literal. */
  function Lit(s: string): (r: JsString)
    requires forall i :: 0 <= i < |s| ==> s[i] as int < 0x80
    ensures |r| == |s|
    ensures forall i :: 0 <= i < |s| ==> r[i] as int == s[i] as int
  {
    seq(|s|, i requires 0 <= i < |s| => s[i] as int as CodeUnit)
  }

  predicate IsHighSurrogate(c: CodeUnit) { 0xD800 <= c <= 0xDBFF }

  predicate IsLowSurrogate(c: CodeUnit) { 0xDC00 <= c <= 0xDFFF }

  /** No lone surrogate: every high surrogate is followed by a low one and every low one follows a high one. */
  predicate WellFormed(s: JsString)
    decreases |s|
  {
    if s == [] then true
    else if IsLowSurrogate(s[0]) then false
    else if IsHighSurrogate(s[0]) then |s| >= 2 && IsLowSurrogate(s[1]) && WellFormed(s[2..])
    else WellFormed(s[1..])
  }

  /**
   * A property value.  `Other` stands for every non-string value (a number,
   * an object, null, ...) and carries what `String(v)` gives for it and
   * whether it is truthy.
   */
  datatype Value = Str(s: JsString) | Undefined | Other(shown: JsString, truthy: bool)

  /** `String(v)`, as `encodeURIComponent` and `new Error` apply it to their argument. */
  function ToStr(v: Value): JsString
  {
    match v
    case Str(s) => s
    case Undefined => Lit("undefined")
    case Other(shown, _) => shown
  }

  /** JavaScript truthiness. */
  predicate Truthy(v: Value)
  {
    match v
    case Str(s) => s != []
    case Undefined => false
    case Other(_, t) => t
  }

  /** A property read `o.k`: a missing property reads as `undefined`. */
  function Get(o: map<JsString, Value>, k: JsString): (v: Value)
    ensures k !in o ==> v == Undefined
    ensures k in o ==> v == o[k]
  {
    if k in o then o[k] else Undefined
  }

  /** `a < b` on JavaScript strings. */
  predicate Less(a: JsString, b: JsString)
    decreases |a|
  {
    if a == [] then b != []
    else if b == [] then false
    else if a[0] != b[0] then a[0] < b[0]
    else Less(a[1..], b[1..])
  }

  lemma {:induction false} LessIrreflexive(a: JsString)
    ensures !Less(a, a)
    decreases |a|
  {
    if a != [] {
      LessIrreflexive(a[1..]);
    }
  }

  lemma {:induction false} LessTransitive(a: JsString, b: JsString, c: JsString)
    requires Less(a, b) && Less(b, c)
    ensures Less(a, c)
    decreases |a|
  {
    if a != [] && b != [] && c != [] && a[0] == b[0] && b[0] == c[0] {
      LessTransitive(a[1..], b[1..], c[1..]);
    }
  }

  lemma {:induction false} LessTotal(a: JsString, b: JsString)
    requires a != b
    ensures Less(a, b) || Less(b, a)
    decreases |a|
  {
    if a != [] && b != [] && a[0] == b[0] {
      assert a == [a[0]] + a[1..] && b == [b[0]] + b[1..];
      LessTotal(a[1..], b[1..]);
    }
  }
}
