/**
 * The JavaScript values the ingestion pass handles: every value JSON.parse can
 * produce, and raw file text (a JavaScript string).  Numbers are integers here.
 */
module Values {

  datatype Value =
    | Null
    | Bool(b: bool)
    | Number(n: int)
    | Str(s: string)
    | Array(items: seq<Value>)
    | Object(fields: map<string, Value>)

  /** JavaScript truthiness: `false`, `0`, `""` and `null` are falsy, everything else is truthy. */
  function Truthy(v: Value): (truthy: bool)
    ensures truthy <==> v !in {Null, Bool(false), Number(0), Str("")}
  {
    match v
    case Null => false
    case Bool(b) => b
    case Number(n) => n != 0
    case Str(s) => s != ""
    case Array(_) => true
    case Object(_) => true
  }

  function Digit(d: int): (c: char)
    requires 0 <= d < 10
    ensures '0' <= c <= '9'
  {
    "0123456789"[d]
  }

  /** Decimal notation of a natural number, most significant digit first. */
  function NatToDecimal(n: nat): (s: string)
    ensures |s| > 0
    ensures forall i :: 0 <= i < |s| ==> '0' <= s[i] <= '9'
    ensures s[0] == '0' <==> n == 0
    decreases n
  {
    if n < 10 then [Digit(n)] else NatToDecimal(n / 10) + [Digit(n % 10)]
  }

  /** The value a string of decimal digits denotes (inverse of NatToDecimal). */
  function DecimalValue(s: string): int
    decreases |s|
  {
    if s == [] then 0 else 10 * DecimalValue(s[..|s| - 1]) + (s[|s| - 1] as int - '0' as int)
  }

  lemma {:induction false} DecimalRoundTrip(n: nat)
    ensures DecimalValue(NatToDecimal(n)) == n
    decreases n
  {
    if n >= 10 {
      DecimalRoundTrip(n / 10);
      var s := NatToDecimal(n / 10) + [Digit(n % 10)];
      assert s[..|s| - 1] == NatToDecimal(n / 10);
    }
  }

  /** JavaScript's Number-to-String conversion restricted to integers. */
  function IntToDecimal(n: int): string
  {
    if n < 0 then "-" + NatToDecimal(-n) else NatToDecimal(n)
  }

  /**
   * The property key a value becomes when it is used as `obj[name]`
   * (JavaScript's ToPropertyKey, i.e. ToString for these values).
   */
  function PropertyKey(v: Value): (key: string)
    ensures v.Str? ==> key == v.s
    ensures v.Number? ==> key == IntToDecimal(v.n)
    ensures v.Null? ==> key == "null"
    ensures v.Bool? ==> key == (if v.b then "true" else "false")
    ensures v.Object? ==> key == "[object Object]"
    ensures v.Array? && v.items == [] ==> key == ""
    decreases v, 1, 0
  {
    match v
    case Null => "null"
    case Bool(b) => if b then "true" else "false"
    case Number(n) => IntToDecimal(n)
    case Str(s) => s
    case Array(_) => JoinKeys(v, 0)
    case Object(_) => "[object Object]"
  }

  /** `Array.prototype.join(",")` from index i on: null elements become the empty string. */
  function JoinKeys(v: Value, i: nat): string
    requires v.Array? && i <= |v.items|
    decreases v, 0, |v.items| - i
  {
    if i == |v.items| then ""
    else
      var item := v.items[i];
      assert item in v.items;
      (if i == 0 then "" else ",") + (if item.Null? then "" else PropertyKey(item)) + JoinKeys(v, i + 1)
  }

  /** The integer a string of an optional minus sign and decimal digits denotes. */
  function SignedDecimalValue(s: string): int
  {
    if |s| > 0 && s[0] == '-' then -DecimalValue(s[1..]) else DecimalValue(s)
  }

  lemma IntDecimalRoundTrip(n: int)
    ensures SignedDecimalValue(IntToDecimal(n)) == n
  {
    var d := NatToDecimal(if n < 0 then -n else n);
    DecimalRoundTrip(if n < 0 then -n else n);
    if n < 0 {
      var s := "-" + d;
      assert s[0] == '-' && s[1..] == d;
      assert SignedDecimalValue(s) == -DecimalValue(d);
    } else {
      assert '0' <= d[0] <= '9';
      assert SignedDecimalValue(d) == DecimalValue(d);
    }
  }

  /** Distinct integers have distinct notations. */
  lemma IntToDecimalInjective(m: int, n: int)
    requires IntToDecimal(m) == IntToDecimal(n)
    ensures m == n
  {
    IntDecimalRoundTrip(m);
    IntDecimalRoundTrip(n);
  }

  /** Two integer values name the same property exactly when they are equal. */
  lemma NumberKeysInjective(m: int, n: int)
    ensures PropertyKey(Number(m)) == PropertyKey(Number(n)) <==> m == n
  {
    if PropertyKey(Number(m)) == PropertyKey(Number(n)) {
      IntToDecimalInjective(m, n);
    }
  }
}
