/** Decimal rendering of book ids, as JavaScript's template literal writes an
    integer into the not-found message, and the parse that reads it back. */
module IdText {

  predicate IsDigit(c: char) {
    '0' <= c <= '9'
  }

  predicate AllDigits(s: string) {
    forall i :: 0 <= i < |s| ==> IsDigit(s[i])
  }

  function DigitChar(d: nat): (c: char)
    requires d < 10
    ensures IsDigit(c) && DigitValue(c) == d
  {
    ['0', '1', '2', '3', '4', '5', '6', '7', '8', '9'][d]
  }

  function DigitValue(c: char): nat
    requires IsDigit(c)
  {
    (c as int - '0' as int) as nat
  }

  /** The shortest decimal digit string of n (no leading zeros). */
  function Digits(n: nat): (s: string)
    ensures |s| > 0 && AllDigits(s)
    ensures |s| > 1 ==> s[0] != '0'
    decreases n
  {
    if n < 10 then [DigitChar(n)] else Digits(n / 10) + [DigitChar(n % 10)]
  }

  /** The value of a decimal digit string, most significant digit first. */
  function DigitsValue(s: string): nat
    requires AllDigits(s)
    decreases |s|
  {
    if s == [] then 0 else DigitsValue(s[..|s| - 1]) * 10 + DigitValue(s[|s| - 1])
  }

  /** How an integer id appears inside a message: a minus sign for negative ids. */
  function Render(id: int): (s: string)
    ensures |s| > 0
    ensures s[0] == '-' <==> id < 0
  {
    if id < 0 then "-" + Digits(-id) else Digits(id)
  }

  /** Reads back an optionally signed decimal string. */
  function Parse(s: string): (v: int)
    requires |s| > 0
    requires s[0] == '-' ==> AllDigits(s[1..])
    requires s[0] != '-' ==> AllDigits(s)
  {
    if s[0] == '-' then -(DigitsValue(s[1..]) as int) else DigitsValue(s)
  }

  lemma {:induction false} DigitsRoundTrip(n: nat)
    ensures DigitsValue(Digits(n)) == n
    decreases n
  {
    var s := Digits(n);
    if n >= 10 {
      DigitsRoundTrip(n / 10);
      assert s[..|s| - 1] == Digits(n / 10);
    }
  }

  /** Parsing the rendered id gives the id back. */
  lemma RenderRoundTrip(id: int)
    ensures var s := Render(id);
            (s[0] == '-' ==> AllDigits(s[1..])) && (s[0] != '-' ==> AllDigits(s)) &&
            Parse(s) == id
  {
    if id < 0 {
      var d := Digits(-id);
      assert Render(id) == "-" + d;
      assert ("-" + d)[1..] == d;
      DigitsRoundTrip(-id);
    } else {
      var d := Digits(id);
      assert Render(id) == d && d[0] != '-';
      DigitsRoundTrip(id);
    }
  }

  /** Two ids render alike only when they are the same id. */
  lemma RenderInjective(a: int, b: int)
    requires Render(a) == Render(b)
    ensures a == b
  {
    RenderRoundTrip(a);
    RenderRoundTrip(b);
  }
}
