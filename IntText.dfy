/**
 * Decimal text of 32-bit integers: the parser that stands for java.lang.Integer.parseInt
 * (restricted to ASCII digits) and the formatting that Java's string concatenation applies
 * to an int.
 */
module IntText {
  import opened Wrappers

  const INT_MIN: int := -0x8000_0000
  const INT_MAX: int := 0x7fff_ffff

  predicate IsInt32(n: int) {
    INT_MIN <= n <= INT_MAX
  }

  predicate IsDigit(c: char) {
    '0' <= c <= '9'
  }

  predicate AllDigits(s: string) {
    forall i :: 0 <= i < |s| ==> IsDigit(s[i])
  }

  function DigitValue(c: char): (d: nat)
    requires IsDigit(c)
    ensures d < 10
  {
    c as int - '0' as int
  }

  function DigitChar(d: nat): (c: char)
    requires d < 10
    ensures IsDigit(c) && DigitValue(c) == d
  {
    ('0' as int + d) as char
  }

  /** The value of a string of decimal digits, most significant digit first. */
  function DigitsValue(s: string): nat
    requires AllDigits(s)
  {
    if s == [] then 0 else 10 * DigitsValue(s[..|s| - 1]) + DigitValue(s[|s| - 1])
  }

  /** The shape Integer.parseInt accepts: an optional '+' or '-', then one or more digits. */
  predicate IsNumeral(s: string) {
    if |s| > 0 && (s[0] == '-' || s[0] == '+') then |s| > 1 && AllDigits(s[1..])
    else |s| > 0 && AllDigits(s)
  }

  /**
   * Integer.parseInt(s) in base 10: None stands for the NumberFormatException that is thrown
   * for an empty string, a lone sign, any other character, or a value outside the int range.
   */
  function ParseInt(s: string): (r: Option<int>)
    ensures r.Some? ==> IsNumeral(s) && IsInt32(r.value)
    ensures r.Some? && s[0] == '-' ==> r.value <= 0
    ensures r.Some? && s[0] != '-' ==> r.value >= 0
  {
    if |s| == 0 then None
    else
      var digits := if s[0] == '-' || s[0] == '+' then s[1..] else s;
      if |digits| == 0 || !AllDigits(digits) then None
      else
        var m: int := if s[0] == '-' then -(DigitsValue(digits) as int) else DigitsValue(digits);
        if IsInt32(m) then Some(m) else None
  }

  /** Parses every string in order; None as soon as one of them does not parse. */
  function ParseAll(ss: seq<string>): (r: Option<seq<int>>)
    ensures r.Some? <==> forall k :: 0 <= k < |ss| ==> ParseInt(ss[k]).Some?
    ensures r.Some? ==> |r.value| == |ss|
    ensures r.Some? ==> forall k :: 0 <= k < |ss| ==> ParseInt(ss[k]) == Some(r.value[k])
  {
    if ss == [] then Some([])
    else
      match ParseAll(ss[..|ss| - 1])
      case None => None
      case Some(init) =>
        match ParseInt(ss[|ss| - 1])
        case None => None
        case Some(d) => Some(init + [d])
  }

  /** ParseAll is determined by what ParseInt gives for each string. */
  lemma ParseAllPointwise(ss: seq<string>, values: seq<int>)
    requires |ss| == |values|
    requires forall k :: 0 <= k < |ss| ==> ParseInt(ss[k]) == Some(values[k])
    ensures ParseAll(ss) == Some(values)
  {
    var r := ParseAll(ss);
    assert r.Some?;
    assert r.value == values;
  }

  /** Decimal digits of n, without leading zeros. */
  function NatToString(n: nat): (s: string)
    ensures |s| > 0 && AllDigits(s) && DigitsValue(s) == n
    ensures s[0] == '0' ==> s == "0"
  {
    if n < 10 then [DigitChar(n)]
    else
      var t := NatToString(n / 10);
      var s := t + [DigitChar(n % 10)];
      assert s[..|s| - 1] == t;
      s
  }

  /** The decimal text of n as Java prints an int: a '-' for negative values, then the digits. */
  function IntToString(n: int): (s: string)
    ensures |s| > 0 && IsDigit(s[|s| - 1])
    ensures (s[0] == '-') == (n < 0)
  {
    if n < 0 then "-" + NatToString(-n) else NatToString(n)
  }

  /** Every character of the text is a digit, except a leading minus sign. */
  lemma IntToStringChars(n: int)
    ensures forall i :: 0 <= i < |IntToString(n)| ==> IsDigit(IntToString(n)[i]) || (i == 0 && IntToString(n)[i] == '-')
  {
  }

  /** Formatting then parsing gives back exactly the int values, and rejects every other integer. */
  lemma ParseIntToString(n: int)
    ensures ParseInt(IntToString(n)) == if IsInt32(n) then Some(n) else None
  {
    var s := IntToString(n);
    if n < 0 {
      assert s[1..] == NatToString(-n);
    } else {
      assert !(s[0] == '-' || s[0] == '+');
    }
  }

  /** A leading zero never changes the value of a digit string. */
  lemma {:induction false} LeadingZeroValue(s: string)
    requires AllDigits(s)
    ensures AllDigits("0" + s) && DigitsValue("0" + s) == DigitsValue(s)
  {
    var t := "0" + s;
    if s != [] {
      assert t[..|t| - 1] == "0" + s[..|s| - 1];
      LeadingZeroValue(s[..|s| - 1]);
    }
  }

  /** As with Integer.parseInt, leading zeros after the sign are accepted and ignored. */
  lemma ParseIntLeadingZero(sign: string, s: string)
    requires sign == "" || sign == "+" || sign == "-"
    requires |s| > 0 && AllDigits(s)
    ensures ParseInt(sign + "0" + s) == ParseInt(sign + s)
  {
    LeadingZeroValue(s);
    assert (sign + "0" + s)[|sign|..] == "0" + s;
    assert (sign + s)[|sign|..] == s;
    if sign != "" {
      assert (sign + "0" + s)[1..] == "0" + s;
      assert (sign + s)[1..] == s;
    }
  }

  /** Digits alone are read as their value, when it fits in 32 bits. */
  lemma ParseIntDigits(s: string)
    requires |s| > 0 && AllDigits(s)
    ensures DigitsValue(s) <= INT_MAX ==> ParseInt(s) == Some(DigitsValue(s) as int)
    ensures DigitsValue(s) > INT_MAX ==> ParseInt(s) == None
  {
    assert IsDigit(s[0]);
  }

  /** A '-' then digits is read as the negated value, when it fits in 32 bits. */
  lemma ParseIntMinus(s: string)
    requires |s| > 0 && AllDigits(s)
    ensures DigitsValue(s) <= -INT_MIN ==> ParseInt("-" + s) == Some(-(DigitsValue(s) as int))
    ensures DigitsValue(s) > -INT_MIN ==> ParseInt("-" + s) == None
  {
    assert ("-" + s)[1..] == s;
  }

  /** An explicit '+' is accepted and changes nothing. */
  lemma ParseIntPlus(s: string)
    requires |s| > 0 && AllDigits(s)
    ensures ParseInt("+" + s) == ParseInt(s)
  {
    assert ("+" + s)[1..] == s;
  }

  /** Negative zero reads as zero. */
  lemma ParseIntNegativeZero()
    ensures ParseInt("-0") == Some(0)
  {
    assert "-0"[1..] == "0";
    assert DigitsValue("0") == 0 by { assert "0"[..0] == ""; }
  }

  /** Examples of inputs that Integer.parseInt rejects with a NumberFormatException. */
  lemma ParseIntRejects()
    ensures ParseInt("") == None && ParseInt("-") == None && ParseInt("+") == None
    ensures ParseInt(" 7") == None && ParseInt("7 ") == None && ParseInt("+-7") == None
  {
    assert !AllDigits(" 7") by { assert !IsDigit(" 7"[0]); }
    assert !AllDigits("7 ") by { assert !IsDigit("7 "[1]); }
    assert "+-7"[1..] == "-7";
    assert !AllDigits("-7") by { assert !IsDigit("-7"[0]); }
  }
}
