/** Parsed JSON values and the numeric coercion `round(float(v), 3)`. */
module Json {

  /** A value produced by `json.loads`. Numbers are exact reals; see README for what that leaves out. */
  datatype Json =
    | JNull
    | JBool(b: bool)
    | JInt(i: int)
    | JFloat(x: real)
    | JStr(s: string)
    | JArray(elems: seq<Json>)
    | JObject(fields: seq<(string, Json)>)

  /** `isinstance(v, (int, float))`: Python's `bool` is a subclass of `int`, so booleans pass. */
  predicate IsNumber(v: Json)
  {
    v.JInt? || v.JFloat? || v.JBool?
  }

  /** `float(v)` for a number. */
  function ToReal(v: Json): real
    requires IsNumber(v)
  {
    match v
    case JInt(i) => i as real
    case JFloat(x) => x
    case JBool(b) => if b then 1.0 else 0.0
  }

  /** Round half to even, to an integer. */
  function RoundHalfEven(y: real): (n: int)
    ensures -0.5 <= n as real - y <= 0.5
    ensures (n as real - y == 0.5 || y - n as real == 0.5) ==> n % 2 == 0
  {
    var f := y.Floor;
    var frac := y - f as real;
    if frac < 0.5 then f
    else if frac > 0.5 then f + 1
    else if f % 2 == 0 then f
    else f + 1
  }

  /** A real with at most three decimal places. */
  predicate IsMilli(x: real)
  {
    (x * 1000.0).Floor as real == x * 1000.0
  }

  /** `round(x, 3)`: the nearest multiple of 0.001, ties to the even multiple. */
  function Round3(x: real): (r: real)
    ensures IsMilli(r)
    ensures -0.0005 <= r - x <= 0.0005
  {
    var y := x * 1000.0;
    var n := RoundHalfEven(y);
    var r := n as real / 1000.0;
    assert r * 1000.0 == n as real;
    assert r - x == (n as real - y) / 1000.0;
    r
  }

  /** Rounding a value that already has three decimals changes nothing, so rounding is idempotent. */
  lemma Round3Exact(x: real)
    requires IsMilli(x)
    ensures Round3(x) == x
  {
    var k := (x * 1000.0).Floor;
    assert RoundHalfEven(x * 1000.0) == k;
  }

  lemma Round3Idempotent(x: real)
    ensures Round3(Round3(x)) == Round3(x)
  {
    Round3Exact(Round3(x));
  }

  /** The value `check_data` stores for a numeric entry: `round(float(v), 3)`. */
  function Rounded(v: Json): (r: Json)
    requires IsNumber(v)
    ensures r.JFloat? && IsMilli(r.x)
    ensures -0.0005 <= r.x - ToReal(v) <= 0.0005
  {
    JFloat(Round3(ToReal(v)))
  }
}
