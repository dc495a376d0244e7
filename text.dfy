/** The two pieces of `std::fmt` the ASCII renderer uses: `{}` on an unsigned integer and `{:^3}`. */
module Text {

  predicate IsDigit(c: char)
  {
    '0' <= c <= '9'
  }

  function DigitValue(c: char): nat
    requires IsDigit(c)
  {
    c as int - '0' as int
  }

  /** The value of a string of decimal digits, most significant first. */
  function DecimalValue(s: string): nat
    requires forall i :: 0 <= i < |s| ==> IsDigit(s[i])
  {
    if s == [] then 0 else DecimalValue(s[..|s| - 1]) * 10 + DigitValue(s[|s| - 1])
  }

  /** `format!("{}", n)`: the shortest decimal spelling of `n`. */
  function Decimal(n: nat): (r: string)
    ensures |r| >= 1
    ensures forall i :: 0 <= i < |r| ==> IsDigit(r[i])
    ensures r[0] == '0' ==> r == "0"
    decreases n
  {
    if n < 10 then [('0' as int + n) as char]
    else Decimal(n / 10) + [('0' as int + n % 10) as char]
  }

  /** Reading the decimal spelling back gives the number. */
  lemma {:induction false} DecimalRoundTrip(n: nat)
    ensures DecimalValue(Decimal(n)) == n
    decreases n
  {
    var r := Decimal(n);
    if n >= 10 {
      DecimalRoundTrip(n / 10);
      assert r[..|r| - 1] == Decimal(n / 10);
    }
  }

  /** Different numbers are spelled differently. */
  lemma DecimalInjective(m: nat, n: nat)
    requires Decimal(m) == Decimal(n)
    ensures m == n
  {
    DecimalRoundTrip(m);
    DecimalRoundTrip(n);
  }

  /** One digit below 10, two below 100, three below 1000, and more from 1000 on. */
  lemma {:induction false} DecimalWidth(n: nat)
    ensures n < 10 <==> |Decimal(n)| == 1
    ensures 10 <= n < 100 <==> |Decimal(n)| == 2
    ensures 100 <= n < 1000 <==> |Decimal(n)| == 3
    decreases n
  {
    if n >= 10 {
      DecimalWidth(n / 10);
    }
  }

  /** `{}` on a signed integer: a minus sign before the digits of a negative number. */
  function SignedDecimal(i: int): (r: string)
    ensures |r| >= 1
    ensures r[0] == '-' <==> i < 0
    ensures forall k :: 1 <= k < |r| ==> IsDigit(r[k])
  {
    if i < 0 then "-" + Decimal(-i) else Decimal(i)
  }

  /** The value of an optionally signed string of decimal digits. */
  function SignedValue(s: string): int
    requires |s| >= 1 && forall k :: 1 <= k < |s| ==> IsDigit(s[k])
    requires s[0] != '-' ==> IsDigit(s[0])
  {
    if s[0] == '-' then -(DecimalValue(s[1..]) as int) else DecimalValue(s)
  }

  /** Reading the signed spelling back gives the number. */
  lemma SignedRoundTrip(i: int)
    ensures SignedValue(SignedDecimal(i)) == i
  {
    if i < 0 {
      DecimalRoundTrip(-i);
      assert SignedDecimal(i)[1..] == Decimal(-i);
    } else {
      DecimalRoundTrip(i);
    }
  }

  function Spaces(n: nat): (r: string)
    ensures |r| == n && forall i :: 0 <= i < n ==> r[i] == ' '
  {
    if n == 0 then "" else " " + Spaces(n - 1)
  }

  /**
   * `format!("{:^w}", s)`: `s` centred in `w` columns with spaces, the odd space
   * going to the right; a string at least `w` long is left as it is.
   */
  function Center(s: string, w: nat): (r: string)
    ensures |s| >= w ==> r == s
    ensures |s| < w ==>
      var left := (w - |s|) / 2;
      && |r| == w
      && r[left..left + |s|] == s
      && (forall i :: 0 <= i < left ==> r[i] == ' ')
      && (forall i :: left + |s| <= i < w ==> r[i] == ' ')
      && left <= w - |s| - left <= left + 1
  {
    if |s| >= w then s
    else
      var left := (w - |s|) / 2;
      Spaces(left) + s + Spaces(w - |s| - left)
  }

  /** `format!("{:^3}", n)`: one digit sits between two blanks, two digits take the odd blank on their right, and three or more fill the field. */
  lemma CenteredNumber(n: nat)
    ensures n < 10 ==> Center(Decimal(n), 3) == " " + Decimal(n) + " "
    ensures 10 <= n < 100 ==> Center(Decimal(n), 3) == Decimal(n) + " "
    ensures 100 <= n ==> Center(Decimal(n), 3) == Decimal(n)
  {
    DecimalWidth(n);
  }
}
