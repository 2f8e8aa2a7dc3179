/**
 * JSON values as the Express body parser hands them to a route handler, and
 * JavaScript truthiness over them (what `!x` tests in the handlers).
 */
module JsValue {

  /** The query operators this model represents where a scalar is expected: {"$gt": s},
      {"$ne": s} and {"$regex": s}, each with a string operand. */
  datatype OperatorName = GtOp | NeOp | RegexOp

  /** A field of a parsed JSON request body. Numbers are modelled as integers. */
  datatype Json =
    | Undefined                                   // the field is missing from the body
    | Null
    | Bool(b: bool)
    | Num(n: int)
    | Str(s: string)
    | Operator(op: OperatorName, operand: string)   // an object holding one query operator
    | IdObject(id: string)                        // an object with a string `_id` and no operator key
    | Object                                      // any other object with no query-operator key, {} included

  /** JavaScript truthiness: undefined, null, false, 0 and "" are falsy; every object is truthy. */
  predicate Truthy(v: Json) {
    match v
    case Undefined => false
    case Null => false
    case Bool(b) => b
    case Num(n) => n != 0
    case Str(s) => s != ""
    case Operator(_, _) => true
    case IdObject(_) => true
    case Object => true
  }

  function DigitChar(d: nat): (c: char)
    requires d < 10
    ensures '0' <= c <= '9'
  {
    ('0' as int + d) as char
  }

  /** The number a string of decimal digits denotes, most significant digit first. */
  function DecimalValue(s: string): nat
    requires forall i :: 0 <= i < |s| ==> '0' <= s[i] <= '9'
  {
    if s == [] then 0 else 10 * DecimalValue(s[..|s| - 1]) + (s[|s| - 1] as int - '0' as int)
  }

  /** The plain decimal numeral of a natural number: no sign, no leading zero, and it denotes `n`.
      This is what Number.prototype.toString writes for integers below 10^21; from 10^21 on
      JavaScript switches to exponent form ("1e+21"), which is not modelled. */
  function NatToDecimal(n: nat): (r: string)
    ensures |r| >= 1
    ensures forall i :: 0 <= i < |r| ==> '0' <= r[i] <= '9'
    ensures r[0] == '0' ==> r == "0"
    ensures DecimalValue(r) == n
  {
    if n < 10 then [DigitChar(n)]
    else
      var p := NatToDecimal(n / 10);
      var r := p + [DigitChar(n % 10)];
      assert r[..|r| - 1] == p;
      r
  }

  /** The string a JavaScript integer converts to: an optional minus sign before the numeral of
      its magnitude. */
  function IntToString(n: int): (r: string)
    ensures r != ""
    ensures r[0] == '-' <==> n < 0
    ensures n >= 0 ==> (forall i :: 0 <= i < |r| ==> '0' <= r[i] <= '9') && DecimalValue(r) == n
    ensures n >= 0 ==> (r[0] == '0' ==> r == "0")
    ensures n < 0 ==> |r| >= 2 && r[1] != '0'
    ensures n < 0 ==> (forall i :: 1 <= i < |r| ==> '0' <= r[i] <= '9') && DecimalValue(r[1..]) == -n
  {
    if n < 0 then
      var d := NatToDecimal(-n);
      assert ("-" + d)[1..] == d;
      "-" + d
    else NatToDecimal(n)
  }
}
