/**
 * What the handlers assume of the document store and of Mongoose's casting:
 * filter values that may be scalars or query operators, the String cast,
 * `findOne` as the first match in natural (insertion) order, and removal of
 * one document.
 */
module DocumentStore {
  import opened Wrappers
  import opened JsValue

  /** A document's `_id`. */
  type Id = nat

  /** The regular-expression engine, left uninterpreted: (pattern, ignore case, subject) -> matches. */
  type RegexEngine = (string, bool, string) -> bool

  /** A filter value on a string field, after casting: an equality or a query operator. */
  datatype Filter = Lit(value: string) | Gt(bound: string) | Ne(excluded: string) | Regex(pattern: string)

  /** Binary string order (code point by code point, a proper prefix first), as the store compares strings. */
  predicate StrLess(a: string, b: string)
    decreases |a|
  {
    if a == [] then b != []
    else if b == [] then false
    else a[0] < b[0] || (a[0] == b[0] && StrLess(a[1..], b[1..]))
  }

  lemma {:induction false} StrLessIrreflexive(a: string)
    ensures !StrLess(a, a)
  {
    if a != [] {
      StrLessIrreflexive(a[1..]);
    }
  }

  lemma {:induction false} StrLessTransitive(a: string, b: string, c: string)
    requires StrLess(a, b) && StrLess(b, c)
    ensures StrLess(a, c)
    decreases |a|
  {
    if a != [] && a[0] == b[0] && b[0] == c[0] {
      StrLessTransitive(a[1..], b[1..], c[1..]);
    }
  }

  lemma {:induction false} StrLessTotal(a: string, b: string)
    ensures a == b || StrLess(a, b) || StrLess(b, a)
    decreases |a|
  {
    if a != [] && b != [] && a[0] == b[0] {
      StrLessTotal(a[1..], b[1..]);
      assert a == [a[0]] + a[1..] && b == [b[0]] + b[1..];
    }
  }

  /** Whether a stored string field satisfies a filter value. */
  predicate Matches(f: Filter, v: string, re: RegexEngine) {
    match f
    case Lit(x) => v == x
    case Gt(x) => StrLess(x, v)
    case Ne(x) => v != x
    case Regex(p) => re(p, false, v)
  }

  /** `{$gt: x}` matches exactly the strings that are neither `x` nor below it. */
  lemma GtMatchesExactlyAbove(x: string, v: string, re: RegexEngine)
    ensures Matches(Gt(x), v, re) <==> v != x && !StrLess(v, x)
  {
    StrLessTotal(x, v);
    StrLessIrreflexive(x);
    if StrLess(x, v) && StrLess(v, x) {
      StrLessTransitive(x, v, x);
    }
  }

  /** The strings `{$gt: x}` matches are closed upward: anything above a match matches too. */
  lemma GtMatchesUpward(x: string, v: string, w: string, re: RegexEngine)
    requires Matches(Gt(x), v, re) && StrLess(v, w)
    ensures Matches(Gt(x), w, re)
  {
    StrLessTransitive(x, v, w);
  }

  /** `{$gt: ""}` and `{$ne: ""}` both match exactly the non-empty strings. */
  lemma EmptyBoundMatchesNonEmpty(v: string, re: RegexEngine)
    ensures Matches(Gt(""), v, re) <==> v != ""
    ensures Matches(Ne(""), v, re) <==> v != ""
  {
  }

  /** Mongoose's cast of a value to a String path: booleans and numbers become their
      string form, a string stays as it is, an object with a non-empty string `_id` becomes
      that `_id`, anything else is a cast error (None). Null and undefined never get here:
      the handlers reject falsy values first. */
  function CastToString(v: Json): (r: Option<string>)
    ensures v.Str? ==> r == Some(v.s)
    ensures r.Some? <==> v.Bool? || v.Num? || v.Str? || (v.IdObject? && v.id != "")
    ensures Truthy(v) && r.Some? ==> r.value != ""
  {
    match v
    case Bool(b) => Some(if b then "true" else "false")
    case Num(n) => Some(IntToString(n))
    case Str(s) => Some(s)
    case IdObject(id) => if id != "" then Some(id) else None
    case _ => None
  }

  /** The strings the cast gives for numbers, booleans and `_id` objects: the integer's numeral,
      "true", "false", and the `_id` itself. */
  lemma CastScalarForms(v: Json)
    ensures v.Num? ==> CastToString(v) == Some(IntToString(v.n))
    ensures v == Bool(true) ==> CastToString(v) == Some("true")
    ensures v == Bool(false) ==> CastToString(v) == Some("false")
    ensures v.IdObject? && v.id != "" ==> CastToString(v) == Some(v.id)
  {
  }

  /** A request value placed in a filter with no coercion: a scalar becomes an equality on its
      String cast, an operator object stays an operator. None is a cast error. */
  function CastFilter(v: Json): (r: Option<Filter>)
    ensures v.Str? ==> r == Some(Lit(v.s))
    ensures v.Num? || v.Bool? ==> r == Some(Lit(CastToString(v).value))
    ensures v.Operator? && v.op == GtOp ==> r == Some(Gt(v.operand))
    ensures v.Operator? && v.op == NeOp ==> r == Some(Ne(v.operand))
    ensures v.Operator? && v.op == RegexOp ==> r == Some(Regex(v.operand))
    ensures v.IdObject? && v.id != "" ==> r == Some(Lit(v.id))
    ensures v.Object? || v.Null? || v.Undefined? || v == IdObject("") ==> r.None?
  {
    match v
    case Operator(GtOp, x) => Some(Gt(x))
    case Operator(NeOp, x) => Some(Ne(x))
    case Operator(RegexOp, x) => Some(Regex(x))
    case _ =>
      match CastToString(v)
      case Some(s) => Some(Lit(s))
      case None => None
  }

  /** `findOne`: the position of the first document, in natural order, that satisfies `p`. */
  function FirstIndex<T>(s: seq<T>, p: T -> bool): (r: Option<nat>)
    ensures r.Some? ==> r.value < |s| && p(s[r.value])
    ensures r.Some? ==> forall j :: 0 <= j < r.value ==> !p(s[j])
    ensures r.None? ==> forall j :: 0 <= j < |s| ==> !p(s[j])
  {
    if s == [] then None
    else if p(s[0]) then Some(0)
    else match FirstIndex(s[1..], p)
      case None => None
      case Some(k) => Some(k + 1)
  }

  /** The collection with the document at position `i` deleted and the others kept in order. */
  function RemoveAt<T>(s: seq<T>, i: nat): (r: seq<T>)
    requires i < |s|
    ensures |r| == |s| - 1
    ensures forall j :: 0 <= j < i ==> r[j] == s[j]
    ensures forall j :: i <= j < |r| ==> r[j] == s[j + 1]
    ensures multiset(r) == multiset(s) - multiset{s[i]}
  {
    assert s == s[..i] + [s[i]] + s[i + 1..];
    s[..i] + s[i + 1..]
  }

  /** Only the deleted document leaves the collection. */
  lemma RemovedIsAt<T>(s: seq<T>, i: nat, x: T)
    requires i < |s| && x in s
    ensures x == s[i] || x in RemoveAt(s, i)
  {
    var k :| 0 <= k < |s| && s[k] == x;
    if k < i {
      assert RemoveAt(s, i)[k] == x;
    } else if k > i {
      assert RemoveAt(s, i)[k - 1] == x;
    }
  }

  /** Replacing the document at position `i` changes nothing else. */
  lemma ReplacedIsAt<T>(s: seq<T>, i: nat, v: T, x: T)
    requires i < |s|
    ensures x in s[i := v] ==> x == v || x in s
    ensures x in s ==> x == s[i] || x in s[i := v]
  {
    if x in s[i := v] {
      var k :| 0 <= k < |s| && s[i := v][k] == x;
      if k != i {
        assert s[k] == x;
      }
    }
    if x in s {
      var k :| 0 <= k < |s| && s[k] == x;
      if k != i {
        assert s[i := v][k] == x;
      }
    }
  }
}
