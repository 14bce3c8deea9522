/**
 * Decimal text for Java ints: the printer behind `String.format("%d", v)` and
 * the parser `Integer.parseInt(s)`, which accepts an optional leading `-` or
 * `+` followed by at least one digit, and refuses anything else or a value
 * outside the int range (a `NumberFormatException`, here `None`).
 */
module Decimal {
  import opened Options
  import opened JavaInt

  predicate IsDigit(c: char) {
    '0' <= c <= '9'
  }

  predicate AllDigits(s: string) {
    forall i :: 0 <= i < |s| ==> IsDigit(s[i])
  }

  function DigitChar(d: nat): (c: char)
    requires d < 10
    ensures IsDigit(c) && c as int - '0' as int == d
  {
    ('0' as int + d) as char
  }

  /** The digits of `n`, most significant first, without leading zeros. */
  function Digits(n: nat): string {
    if n < 10 then [DigitChar(n)] else Digits(n / 10) + [DigitChar(n % 10)]
  }

  /** The digits are a non-empty digit string that starts with `0` only for zero itself. */
  lemma {:induction false} DigitsShape(n: nat)
    ensures |Digits(n)| >= 1 && AllDigits(Digits(n))
    ensures Digits(n)[0] == '0' ==> n == 0
  {
    if n >= 10 {
      DigitsShape(n / 10);
    }
  }

  /**
   * The number a string of digits denotes, read left to right; `None` as
   * soon as a character is not a digit.
   */
  function ValueOf(s: string): Option<nat> {
    if s == [] then Some(0)
    else
      match ValueOf(s[..|s| - 1])
      case None => None
      case Some(v) =>
        var c := s[|s| - 1];
        if IsDigit(c) then Some(v * 10 + (c as int - '0' as int)) else None
  }

  /** The scan fails exactly on a string with a non-digit in it. */
  lemma {:induction false} ValueOfDefined(s: string)
    ensures ValueOf(s).Some? <==> AllDigits(s)
  {
    if s != [] {
      var n := |s| - 1;
      ValueOfDefined(s[..n]);
      if !AllDigits(s) && AllDigits(s[..n]) {
        assert !IsDigit(s[n]);
      }
      if AllDigits(s) {
        assert forall i :: 0 <= i < n ==> s[..n][i] == s[i];
      }
    }
  }

  lemma {:induction false} DigitsValue(n: nat)
    ensures ValueOf(Digits(n)) == Some(n)
  {
    if n >= 10 {
      var s := Digits(n);
      assert s[..|s| - 1] == Digits(n / 10);
      DigitsValue(n / 10);
    }
  }

  /** `String.format("%d", v)`: an optional minus sign, then the digits of `|v|`. */
  function FormatInt(v: int): string {
    if v < 0 then "-" + Digits(-v) else Digits(v)
  }

  /** The printed form is a digit string, with a leading minus sign exactly for negatives. */
  lemma FormatIntChars(v: int)
    ensures |FormatInt(v)| >= 1
    ensures forall i :: 0 <= i < |FormatInt(v)| ==> IsDigit(FormatInt(v)[i]) || (i == 0 && FormatInt(v)[i] == '-')
    ensures FormatInt(v)[0] == '-' <==> v < 0
  {
    DigitsShape(if v < 0 then -v else v);
  }

  /** `Integer.parseInt(s)`; `None` stands for the `NumberFormatException`. */
  function ParseInt(s: string): Option<int32> {
    if |s| == 0 then None
    else
      var body := if s[0] == '-' || s[0] == '+' then s[1..] else s;
      if |body| == 0 then None
      else
        match ValueOf(body)
        case None => None
        case Some(m) =>
          var v := if s[0] == '-' then 0 - m else m;
          if MIN_VALUE <= v <= MAX_VALUE then Some(v) else None
  }

  /** Every int survives printing and parsing back. */
  lemma ParseFormat(v: int32)
    ensures ParseInt(FormatInt(v)) == Some(v)
  {
    var s := FormatInt(v);
    DigitsShape(if v < 0 then -(v as int) else v);
    if v < 0 {
      assert s[1..] == Digits(-(v as int));
      DigitsValue(-(v as int));
    } else {
      DigitsValue(v);
    }
  }

  /** Distinct ints print differently. */
  lemma FormatInjective(a: int32, b: int32)
    requires FormatInt(a) == FormatInt(b)
    ensures a == b
  {
    ParseFormat(a);
    ParseFormat(b);
  }

  /**
   * A character that is neither a digit nor a leading sign makes the parse
   * fail, and so does an empty string or a lone sign.
   */
  lemma ParseRejects(s: string)
    requires |s| == 0 || s == "-" || s == "+" ||
             exists i :: 0 <= i < |s| && !IsDigit(s[i]) && !(i == 0 && (s[0] == '-' || s[0] == '+'))
    ensures ParseInt(s) == None
  {
    if |s| > 0 && s != "-" && s != "+" {
      var i :| 0 <= i < |s| && !IsDigit(s[i]) && !(i == 0 && (s[0] == '-' || s[0] == '+'));
      var body := if s[0] == '-' || s[0] == '+' then s[1..] else s;
      if s[0] == '-' || s[0] == '+' {
        assert !IsDigit(body[i - 1]);
      } else {
        assert !IsDigit(body[i]);
      }
      ValueOfDefined(body);
    }
  }
}
