/** The parsed manifest: a value-shaped TOML document and the two read-only
    operations the tool uses on it, `get` by key and `Display`. */
module Toml {
  import opened Wrappers

  /** A TOML value. Tables map keys to values; their key order is not modelled. */
  datatype Value =
    | String(s: string)
    | Integer(i: int)
    | Boolean(b: bool)
    | Array(items: seq<Value>)
    | Table(entries: map<string, Value>)

  function Digit(d: nat): (c: char)
    requires d < 10
    ensures '0' <= c <= '9'
  {
    "0123456789"[d]
  }

  /** Decimal notation of a natural number, most significant digit first. */
  function NatToString(n: nat): (r: string)
    ensures |r| > 0
    ensures forall k :: 0 <= k < |r| ==> '0' <= r[k] <= '9'
    decreases n
  {
    if n < 10 then [Digit(n)] else NatToString(n / 10) + [Digit(n % 10)]
  }

  /** The items of a sequence of texts separated by `sep`. */
  function Join(parts: seq<string>, sep: string): string
  {
    if |parts| == 0 then ""
    else if |parts| == 1 then parts[0]
    else parts[0] + sep + Join(parts[1..], sep)
  }

  /** The text `to_string()` gives for a value. A string is shown in basic
      double-quoted form (escaping is not modelled), an array in brackets, and
      a table abstractly, as braces. Whatever the kind, the first character
      tells whether the value is a string, and never is the letter `U`. */
  function Display(v: Value): (r: string)
    ensures |r| > 0
    ensures r[0] == '"' <==> v.String?
    ensures r[0] != 'U'
    decreases v
  {
    match v
    case String(s) => "\"" + s + "\""
    case Integer(i) => if i < 0 then "-" + NatToString(-i) else NatToString(i)
    case Boolean(b) => if b then "true" else "false"
    case Array(items) =>
      "[" + Join(seq(|items|, k requires 0 <= k < |items| => Display(items[k])), ", ") + "]"
    case Table(_) => "{...}"
  }

  /** `Value::get` with a string key: a lookup in a table, nothing otherwise. */
  function Get(v: Value, key: string): (r: Option<Value>)
    ensures r.Some? <==> v.Table? && key in v.entries
    ensures r.Some? ==> r.value == v.entries[key]
  {
    if v.Table? && key in v.entries then Some(v.entries[key]) else None
  }
}
