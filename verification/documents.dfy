/** The stores' files, as values.

    Reading a file gives one of three things: there is no file, the file is
    not JSON, or it is a JSON object. Each store keeps its list under one key
    of that object, as a list of flat records. The JSON text itself and the
    `open` / `json.load` / `json.dump` calls are not modelled. */
module Documents {
  import Dates

  /** A scalar field value: an id as the caller passed it, or a record field
      as JSON holds it. Only numbers and strings are distinguished. */
  datatype Val = IntV(n: int) | StrV(s: string)

  /** One flat record of a document, keyed by field name. */
  type Entry = map<string, Val>

  /** The record holds key `k` with a string value. */
  predicate HasText(e: Entry, k: string) {
    k in e && e[k].StrV?
  }

  datatype Doc =
    | NoFile                                  // `open` raises FileNotFoundError
    | NotJson                                 // `json.load` raises JSONDecodeError
    | Json(root: map<string, seq<Entry>>)     // the top-level JSON object

  /** The number a string of decimal digits denotes. */
  function DecimalValue(t: string): (n: nat)
    requires forall i :: 0 <= i < |t| ==> Dates.IsDigit(t[i])
  {
    if t == [] then 0 else DecimalValue(t[..|t| - 1]) * 10 + Dates.DigitValue(t[|t| - 1])
  }

  /** `t` is how Python writes the natural number `n`: decimal digits with
      no leading zero. */
  predicate IsDecimalOf(t: string, n: nat) {
    && |t| >= 1
    && (forall i :: 0 <= i < |t| ==> Dates.IsDigit(t[i]))
    && DecimalValue(t) == n
    && (t[0] == '0' ==> t == "0")
  }

  /** The decimal digits of a natural number. */
  function NatText(n: nat): (t: string)
    ensures IsDecimalOf(t, n)
    decreases n
  {
    var d := [Dates.DigitChar(n % 10)];
    if n < 10 then d
    else
      var high := NatText(n / 10);
      assert (high + d)[..|high|] == high;
      high + d
  }

  /** `str(v)`, as an f-string shows a value: a string as itself, an integer
      in decimal with a leading "-" when negative. */
  function Show(v: Val): (t: string)
    ensures v.StrV? ==> t == v.s
    ensures v.IntV? && v.n >= 0 ==> IsDecimalOf(t, v.n)
    ensures v.IntV? && v.n < 0 ==> |t| >= 2 && t[0] == '-' && IsDecimalOf(t[1..], -v.n)
  {
    match v
    case StrV(s) => s
    case IntV(n) => if n < 0 then "-" + NatText(-n) else NatText(n)
  }
}
