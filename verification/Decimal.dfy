/**
  Integers as decimal text: Python's str(n), and int(text) for ASCII text.
 */
module Decimal {
  import opened Text

  datatype Parsed = NotANumber | Number(value: int)

  predicate IsDigit(c: char) {
    '0' <= c <= '9'
  }

  function Digit(d: nat): (c: char)
    requires d < 10
    ensures IsDigit(c) && DigitValue(c) == d
  {
    ('0' as int + d) as char
  }

  function DigitValue(c: char): (d: nat)
    requires IsDigit(c)
    ensures d < 10
  {
    c as int - '0' as int
  }

  function NatText(n: nat): (s: string)
    ensures s != ""
  {
    if n < 10 then [Digit(n)] else NatText(n / 10) + [Digit(n % 10)]
  }

  function IntText(n: int): string {
    if n < 0 then "-" + NatText(-n) else NatText(n)
  }

  /** Digits, with single underscores between them. */
  function ParseDigits(s: string): Parsed {
    if s == "" || !IsDigit(s[|s| - 1]) then NotANumber
    else
      var n := |s| - 1;
      if n == 0 then Number(DigitValue(s[n]))
      else
        match ParseDigits(if s[n - 1] == '_' then s[..n - 1] else s[..n])
        case NotANumber => NotANumber
        case Number(v) => Number(10 * v + DigitValue(s[n]))
  }

  function ParseInt(s: string): Parsed {
    var t := Trim(s);
    if t != "" && t[0] == '-' then
      match ParseDigits(t[1..])
      case NotANumber => NotANumber
      case Number(v) => Number(-v)
    else ParseDigits(if t != "" && t[0] == '+' then t[1..] else t)
  }

  predicate AllDigits(s: string) {
    forall i | 0 <= i < |s| :: IsDigit(s[i])
  }

  lemma {:induction false} NatTextDigits(n: nat)
    ensures AllDigits(NatText(n)) && ParseDigits(NatText(n)) == Number(n)
  {
    if n >= 10 {
      NatTextDigits(n / 10);
      var front, s := NatText(n / 10), NatText(n);
      assert s[..|s| - 1] == front;
      assert IsDigit(s[|s| - 2]) by { assert s[|s| - 2] == front[|front| - 1]; }
    }
  }

  /** int(str(n)) is n. */
  lemma IntTextParses(n: int)
    ensures ParseInt(IntText(n)) == Number(n)
    ensures forall c :: c in IntText(n) ==> IsDigit(c) || c == '-'
  {
    var s, t := NatText(if n < 0 then -n else n), IntText(n);
    NatTextDigits(if n < 0 then -n else n);
    assert n < 0 ==> t[1..] == s;
    assert IsDigit(s[0]) && IsDigit(s[|s| - 1]);
    assert t[|t| - 1] == s[|s| - 1];
    TrimIs(t);
  }

  predicate StartsWithDigit(s: string) {
    s != "" && IsDigit(s[0])
  }

  /** Two runs of digits that are followed by something else agree when the texts agree. */
  lemma {:induction false} DigitRunUnique(a: string, b: string, x: string, y: string)
    requires AllDigits(a) && AllDigits(b) && !StartsWithDigit(x) && !StartsWithDigit(y)
    requires a + x == b + y
    ensures a == b && x == y
  {
    assert a != "" ==> (a + x)[0] == a[0];
    assert b != "" ==> (b + y)[0] == b[0];
    assert a == "" ==> a + x == x;
    assert b == "" ==> b + y == y;
    if a != "" && b != "" {
      assert (a + x)[1..] == a[1..] + x && (b + y)[1..] == b[1..] + y;
      DigitRunUnique(a[1..], b[1..], x, y);
      assert a == [a[0]] + a[1..] && b == [b[0]] + b[1..];
    }
  }

  lemma IntTextStarts(n: int, x: string)
    ensures (IntText(n) + x)[0] == '-' <==> n < 0
    ensures n < 0 ==> (IntText(n) + x)[1..] == NatText(-n) + x
  {
    if n >= 0 {
      NatTextDigits(n);
    }
  }

  lemma NatTextUnique(m: nat, n: nat, x: string, y: string)
    requires !StartsWithDigit(x) && !StartsWithDigit(y)
    requires NatText(m) + x == NatText(n) + y
    ensures m == n && x == y
  {
    NatTextDigits(m);
    NatTextDigits(n);
    DigitRunUnique(NatText(m), NatText(n), x, y);
  }

  /** A number and what follows it can be read off the text. */
  lemma IntTextUnique(m: int, n: int, x: string, y: string)
    requires !StartsWithDigit(x) && !StartsWithDigit(y)
    requires IntText(m) + x == IntText(n) + y
    ensures m == n && x == y
  {
    hide NatText;
    IntTextStarts(m, x);
    IntTextStarts(n, y);
    if m < 0 {
      NatTextUnique(-m, -n, x, y);
    } else {
      NatTextUnique(m, n, x, y);
    }
  }

  /** Digits, and single underscores between two of them. */
  predicate Grouped(s: string) {
    && s != "" && IsDigit(s[0]) && IsDigit(s[|s| - 1])
    && (forall i | 0 <= i < |s| :: IsDigit(s[i]) || s[i] == '_')
    && (forall i | 0 <= i < |s| - 1 :: s[i] != '_' || s[i + 1] != '_')
  }

  /** Nothing else parses. */
  lemma {:induction false} ParseDigitsExactly(s: string)
    ensures ParseDigits(s).Number? <==> Grouped(s)
    decreases |s|
  {
    if s != "" && IsDigit(s[|s| - 1]) && |s| > 1 {
      var n := |s| - 1;
      var front := if s[n - 1] == '_' then s[..n - 1] else s[..n];
      ParseDigitsExactly(front);
      if Grouped(front) {
        assert forall i | 0 <= i < |s| :: i < |front| ==> s[i] == front[i];
      }
      if Grouped(s) {
        assert s[n - 1] == '_' ==> n - 1 > 0 && s[n - 2] != '_';
        assert forall i | 0 <= i < |front| :: front[i] == s[i];
      }
    }
  }

  /** No leading zeros. */
  lemma {:induction false} NatTextStarts(n: nat)
    ensures NatText(n)[0] == '0' <==> n == 0
  {
    if n >= 10 {
      NatTextStarts(n / 10);
    }
  }
}
