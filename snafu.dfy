/** Balanced base-5 ("SNAFU") numbers: digits '2', '1', '0', '-' (minus one) and '=' (minus two). */
module Snafu {

  datatype Option<T> = None | Some(value: T)

  predicate IsSnafuDigit(c: char)
  {
    c == '2' || c == '1' || c == '0' || c == '-' || c == '='
  }

  /** The value of one digit, or None for a character that is not a digit (the source panics). */
  function DigitValue(c: char): (r: Option<int>)
    ensures r.Some? <==> IsSnafuDigit(c)
    ensures r.Some? ==> -2 <= r.value <= 2
  {
    match c
    case '2' => Some(2)
    case '1' => Some(1)
    case '0' => Some(0)
    case '-' => Some(-1)
    case '=' => Some(-2)
    case _ => None
  }

  /** Folds the digits from the left in base 5: each step multiplies the value so far by 5
      and adds the next digit. Any non-digit character makes the whole conversion fail. */
  function FromSnafu(s: string): (r: Option<int>)
    ensures r.Some? <==> forall i :: 0 <= i < |s| ==> IsSnafuDigit(s[i])
  {
    if s == [] then Some(0)
    else
      match (FromSnafu(s[..|s| - 1]), DigitValue(s[|s| - 1]))
      case (Some(acc), Some(d)) => Some(acc * 5 + d)
      case _ => None
  }

  /** Converts a non-negative number to SNAFU, least significant digit found first. A negative
      number makes the source reach its "invalid number" panic, so it is excluded. */
  function ToSnafu(n: int): (s: string)
    requires n >= 0
    ensures n == 0 <==> s == ""
    ensures forall i :: 0 <= i < |s| ==> IsSnafuDigit(s[i])
    ensures s != "" ==> s[0] == '1' || s[0] == '2'
    decreases n
  {
    if n == 0 then ""
    else
      match n % 5
      case 0 => ToSnafu(n / 5) + "0"
      case 1 => ToSnafu(n / 5) + "1"
      case 2 => ToSnafu(n / 5) + "2"
      case 3 => ToSnafu(n / 5 + 1) + "="
      case 4 => ToSnafu(n / 5 + 1) + "-"
  }

  /** Reading back what ToSnafu wrote gives the original number. */
  lemma {:induction false} FromToSnafu(n: int)
    requires n >= 0
    ensures FromSnafu(ToSnafu(n)) == Some(n)
    decreases n
  {
    if n != 0 {
      var s := ToSnafu(n);
      var q := if n % 5 <= 2 then n / 5 else n / 5 + 1;
      FromToSnafu(q);
      assert s[..|s| - 1] == ToSnafu(q);
    }
  }
}
