/** The few JavaScript value rules the interface code leans on, for the
    values a match row carries: a text column is `null` or a string, the deck
    column is `null` or a number. */
module JsValues {
  import opened Wrappers
  import opened Strings

  /** A text value is truthy unless it is `null` or the empty string. */
  predicate Truthy(v: Option<string>)
  {
    v.Some? && v.value != ""
  }

  /** `v || fallback` */
  function Or(v: Option<string>, fallback: string): (r: string)
    ensures Truthy(v) ==> r == v.value
    ensures !Truthy(v) ==> r == fallback
  {
    if Truthy(v) then v.value else fallback
  }

  /** A number is truthy unless it is `null` or `0`. */
  predicate TruthyNumber(v: Option<int>)
  {
    v.Some? && v.value != 0
  }

  /** `String(v)` for `null` or a number. */
  function NumberText(v: Option<int>): (r: string)
    ensures v.None? ==> r == "null"
    ensures v.Some? ==> r == IntToString(v.value)
  {
    match v
    case None => "null"
    case Some(n) => IntToString(n)
  }

  /** `String(v) === String(n)` holds exactly when `v` is the number `n`. */
  lemma {:induction false} NumberTextMatches(v: Option<int>, n: int)
    ensures NumberText(v) == IntToString(n) <==> v == Some(n)
  {
    var t := IntToString(n);
    if v.None? {
      assert "null"[0] == 'n';
      assert t[0] == '-' || IsDigit(t[0]);
    } else {
      IntToStringInjective(v.value, n);
    }
  }
}
