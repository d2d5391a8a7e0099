/**
 * The 32-bit decimal conversions of java.lang.Integer that the driver relies on:
 * `Integer.parseInt(String)` (used for the `age` property and the `cassport`
 * setting) and, as its inverse, `Integer.toString(int)`.
 * Only the ASCII digits '0'..'9' are modelled as digits.
 */
module JavaInt {
  import opened Wrappers

  const MinInt: int := -0x8000_0000
  const MaxInt: int := 0x7fff_ffff

  predicate InRange(n: int) { MinInt <= n <= MaxInt }

  predicate IsDigit(c: char) { '0' <= c <= '9' }

  predicate IsDigits(s: string) { forall i :: 0 <= i < |s| ==> IsDigit(s[i]) }

  predicate IsSign(c: char) { c == '-' || c == '+' }

  function DigitValue(c: char): (d: nat)
    requires IsDigit(c)
    ensures d < 10
  {
    (c as int) - ('0' as int)
  }

  function DigitChar(d: nat): (c: char)
    requires d < 10
    ensures IsDigit(c) && DigitValue(c) == d
  {
    ('0' as int + d) as char
  }

  /** The value of a string of decimal digits, most significant first. */
  function DigitsValue(s: string): nat
    requires IsDigits(s)
    decreases |s|
  {
    if s == [] then 0 else DigitsValue(s[..|s| - 1]) * 10 + DigitValue(s[|s| - 1])
  }

  /**
   * Integer.parseInt: an optional leading '+' or '-' followed by at least one
   * decimal digit, whose value lies in the 32-bit range. Anything else throws
   * NumberFormatException, modelled as None.
   */
  function ParseInt(s: string): (r: Option<int>)
    ensures r.Some? ==> InRange(r.value)
    ensures r.Some? ==> |s| > 0 && (IsDigit(s[0]) || (IsSign(s[0]) && |s| > 1))
    ensures r.Some? ==> forall i :: 0 < i < |s| ==> IsDigit(s[i])
  {
    if |s| == 0 then None
    else
      var digits := if IsSign(s[0]) then s[1..] else s;
      if digits == [] || !IsDigits(digits) then None
      else
        var magnitude: int := DigitsValue(digits);
        var v := if s[0] == '-' then -magnitude else magnitude;
        if InRange(v) then Some(v) else None
  }

  /** The decimal digits of a natural number, without leading zeros. */
  function NatDigits(m: nat): (s: string)
    ensures |s| > 0
    decreases m
  {
    if m < 10 then [DigitChar(m)] else NatDigits(m / 10) + [DigitChar(m % 10)]
  }

  /** Integer.toString: a '-' for negative numbers, then the digits of the magnitude. */
  function IntToString(n: int): string
  {
    if n < 0 then "-" + NatDigits(-n) else NatDigits(n)
  }

  lemma {:induction false} NatDigitsValue(m: nat)
    ensures IsDigits(NatDigits(m)) && DigitsValue(NatDigits(m)) == m
    decreases m
  {
    if m >= 10 {
      NatDigitsValue(m / 10);
      var s := NatDigits(m);
      assert s[..|s| - 1] == NatDigits(m / 10);
    }
  }

  /** Parsing what Integer.toString prints gives back the number, for every 32-bit value. */
  lemma ParseIntToString(n: int)
    requires InRange(n)
    ensures ParseInt(IntToString(n)) == Some(n)
  {
    var m: nat := if n < 0 then -n else n;
    NatDigitsValue(m);
    var s := IntToString(n);
    if n < 0 {
      assert s[1..] == NatDigits(m);
    } else {
      assert s == NatDigits(m);
      assert !IsSign(s[0]);
    }
  }

  /**
   * The accepted forms: an optional sign followed by one or more digits is
   * parsed to its signed value exactly when that value fits in 32 bits.
   */
  lemma ParseIntSignedDigits(sign: string, digits: string)
    requires sign == "" || sign == "+" || sign == "-"
    requires digits != [] && IsDigits(digits)
    ensures var v: int := if sign == "-" then -(DigitsValue(digits) as int) else DigitsValue(digits);
            ParseInt(sign + digits) == if InRange(v) then Some(v) else None
  {
    var s := sign + digits;
    if sign == "" {
      assert s == digits;
      assert !IsSign(s[0]);
    } else {
      assert s[1..] == digits;
    }
  }

  /**
   * Every rejected form: a character that is neither a digit nor a leading
   * sign followed by more characters makes Integer.parseInt throw.
   */
  lemma ParseIntRejects(s: string, i: nat)
    requires i < |s| && !IsDigit(s[i])
    requires !(i == 0 && IsSign(s[0]) && |s| > 1)
    ensures ParseInt(s) == None
  {
    if IsSign(s[0]) && i > 0 {
      assert s[1..][i - 1] == s[i];
    }
  }

  /** The empty string and a lone sign are rejected too. */
  lemma ParseIntRejectsEmpty(s: string)
    requires s == "" || s == "+" || s == "-"
    ensures ParseInt(s) == None
  {
  }

  /** The default Cassandra port string parses to 9042. */
  lemma ParseIntDefaultPort()
    ensures ParseInt("9042") == Some(9042)
  {
    ParseIntSignedDigits("", "9042");
    assert DigitsValue("9042") == 9042 by {
      assert "9042"[..3] == "904" && "904"[..2] == "90" && "90"[..1] == "9" && "9"[..0] == "";
    }
  }

  /** An age written with or without a sign, and with leading zeros. */
  lemma ParseIntAgeExamples()
    ensures ParseInt("30") == Some(30) && ParseInt("+30") == Some(30) && ParseInt("-30") == Some(-30)
    ensures ParseInt("007") == Some(7)
  {
    assert DigitsValue("30") == 30 by { assert "30"[..1] == "3" && "3"[..0] == ""; }
    assert DigitsValue("007") == 7 by { assert "007"[..2] == "00" && "00"[..1] == "0" && "0"[..0] == ""; }
    ParseIntSignedDigits("", "30");
    ParseIntSignedDigits("+", "30");
    ParseIntSignedDigits("-", "30");
    ParseIntSignedDigits("", "007");
  }

  /** Words and embedded blanks are rejected. */
  lemma ParseIntWordExamples()
    ensures ParseInt("thirty") == None && ParseInt(" 30") == None && ParseInt("3 0") == None
  {
    ParseIntRejects("thirty", 0);
    ParseIntRejects(" 30", 0);
    ParseIntRejects("3 0", 1);
  }
}
