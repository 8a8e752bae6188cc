/** Decimal numerals as Go's strconv reads and writes them in base 10. */
module Decimal {
  import opened Prelude

  predicate IsDigit(c: char)
  {
    '0' <= c <= '9'
  }

  predicate AllDigits(s: string)
  {
    forall i :: 0 <= i < |s| ==> IsDigit(s[i])
  }

  function ValueOf(s: string): nat
    requires AllDigits(s)
  {
    if s == "" then 0 else 10 * ValueOf(Front(s)) + (Last(s) as int - '0' as int)
  }

  /** The shortest numeral of a natural number. */
  function Format(n: nat): (s: string)
    ensures s != "" && AllDigits(s)
  {
    if n < 10 then [Digit(n)] else Format(n / 10) + [Digit(n % 10)]
  }

  function Digit(d: nat): (c: char)
    requires d < 10
    ensures IsDigit(c) && c as int - '0' as int == d
  {
    '0' + d as char
  }

  lemma {:induction false} ValueOfFormat(n: nat)
    ensures ValueOf(Format(n)) == n
  {
    if n < 10 {
      assert Front([Digit(n)]) == "";
    } else {
      ValueOfFormat(n / 10);
      assert Front(Format(n / 10) + [Digit(n % 10)]) == Format(n / 10);
    }
  }

  /** strconv.ParseUint(s, 10, 64), errors as None. */
  function ParseUint(s: string): Option<uint64>
  {
    if s == "" || !AllDigits(s) || ValueOf(s) >= TWO64 then None else Some(ValueOf(s))
  }

  /** strconv.Atoi on a 64-bit platform, errors as None. */
  function Atoi(s: string): Option<int>
  {
    if s != "" && s[0] == '-' then
      if s[1..] == "" || !AllDigits(s[1..]) || ValueOf(s[1..]) > TWO63 then None else Some(0 - ValueOf(s[1..]) as int)
    else
      var digits := if s != "" && s[0] == '+' then s[1..] else s;
      if digits == "" || !AllDigits(digits) || ValueOf(digits) >= TWO63 then None else Some(ValueOf(digits))
  }

  /** %d */
  function FormatInt(n: int): string
  {
    if n < 0 then "-" + Format(-n) else Format(n)
  }

  lemma AtoiFormat(n: int)
    requires -TWO63 <= n < TWO63
    ensures Atoi(FormatInt(n)) == Some(n)
  {
    ValueOfFormat(if n < 0 then -n else n);
    if n < 0 {
      assert FormatInt(n)[1..] == Format(-n);
    } else {
      assert IsDigit(Format(n)[0]);
    }
  }

  // ---- What the readers accept

  /** The value of digits read from left to right, with `acc` read already. */
  function Positional(s: string, acc: int): int
  {
    if s == "" then acc else Positional(s[1..], 10 * acc + (s[0] as int - 48))
  }

  ghost predicate Digits(s: string)
  {
    s != "" && forall i :: 0 <= i < |s| ==> '0' <= s[i] <= '9'
  }

  /** An unsigned 64-bit numeral: digits only, leading zeros allowed, below 2^64. */
  ghost predicate Numeral(s: string)
  {
    Digits(s) && Positional(s, 0) < 0x1_0000_0000_0000_0000
  }

  ghost predicate Unsigned(s: string, v: int)
  {
    Numeral(s) && v == Positional(s, 0)
  }

  /** A signed one: at most one sign, then digits, within 64 bits of two's complement. */
  ghost predicate Signed(s: string, v: int)
  {
    && (|| (Digits(s) && v == Positional(s, 0))
        || (s != "" && s[0] == '+' && Digits(s[1..]) && v == Positional(s[1..], 0))
        || (s != "" && s[0] == '-' && Digits(s[1..]) && v == -Positional(s[1..], 0)))
    && -0x8000_0000_0000_0000 <= v < 0x8000_0000_0000_0000
  }

  lemma {:induction false} PositionalLast(s: string, acc: int)
    requires s != ""
    ensures Positional(s, acc) == 10 * Positional(Front(s), acc) + (Last(s) as int - 48)
  {
    if |s| > 1 {
      PositionalLast(s[1..], 10 * acc + (s[0] as int - 48));
      assert Front(s[1..]) == Front(s)[1..];
    } else {
      assert s[1..] == "" && Front(s) == "";
    }
  }

  lemma {:induction false} ValueIsPositional(s: string)
    requires AllDigits(s)
    ensures ValueOf(s) == Positional(s, 0)
  {
    if s != "" {
      ValueIsPositional(Front(s));
      PositionalLast(s, 0);
    }
  }

  lemma DigitsAre(s: string)
    ensures s != "" && AllDigits(s) <==> Digits(s)
    ensures AllDigits(s) ==> ValueOf(s) == Positional(s, 0)
  {
    if AllDigits(s) {
      ValueIsPositional(s);
    } else {
      var i :| 0 <= i < |s| && !IsDigit(s[i]);
      assert !('0' <= s[i] <= '9');
    }
  }

  /** ParseUint accepts exactly the unsigned numerals, and gives their values. */
  lemma ParseUintMeaning(s: string)
    ensures ParseUint(s).Some? <==> Numeral(s)
    ensures ParseUint(s).Some? ==> Unsigned(s, ParseUint(s).value)
  {
    DigitsAre(s);
  }

  /** Atoi accepts exactly the signed numerals, and gives their values. */
  lemma AtoiMeaning(s: string, v: int)
    ensures Atoi(s) == Some(v) <==> Signed(s, v)
  {
    DigitsAre(s);
    if s != "" {
      DigitsAre(s[1..]);
      assert Digits(s) ==> '0' <= s[0] <= '9';
    }
  }

  /** A formatted number is written the one way that has no leading zero and no sign but a needed minus. */
  lemma {:induction false} FormatIsShortest(n: nat)
    ensures |Format(n)| > 1 ==> Format(n)[0] != '0'
    ensures FormatInt(n) == Format(n) && FormatInt(0 - n as int) == (if n == 0 then "0" else "-" + Format(n))
    ensures n > 0 ==> Format(n)[0] != '0'
  {
    if n >= 10 {
      FormatIsShortest(n / 10);
    }
  }
}
