/** String helpers shared by the request builder and the store: decimal
    rendering of numbers (JavaScript's `Number.prototype.toString` on
    integers) with its parser, and the first-occurrence search and removal
    that `String.prototype.replace` performs with a string pattern. */
module Text {
  import opened Wrappers

  predicate IsDigit(c: char) {
    '0' <= c <= '9'
  }

  function DigitChar(d: int): (c: char)
    requires 0 <= d < 10
    ensures IsDigit(c)
  {
    ('0' as int + d) as char
  }

  function DigitValue(c: char): (d: int)
    requires IsDigit(c)
    ensures 0 <= d < 10
  {
    c as int - '0' as int
  }

  /** Value of a non-empty run of decimal digits, most significant first. */
  function DigitsValue(s: string): nat
    requires forall i :: 0 <= i < |s| ==> IsDigit(s[i])
    decreases |s|
  {
    if |s| == 0 then 0 else DigitsValue(s[..|s| - 1]) * 10 + DigitValue(s[|s| - 1])
  }

  /** A numeral as `toString` prints a natural number: one or more digits,
      with no leading zero unless the number is zero itself. */
  predicate IsNumeral(s: string) {
    && |s| >= 1
    && (forall i :: 0 <= i < |s| ==> IsDigit(s[i]))
    && (|s| > 1 ==> s[0] != '0')
  }

  /** A numeral as `toString` prints an integer: a natural numeral, or a
      minus sign followed by the numeral of a positive number. */
  predicate IsIntNumeral(s: string) {
    if |s| > 0 && s[0] == '-' then IsNumeral(s[1..]) && s[1] != '0' else IsNumeral(s)
  }

  /** Decimal rendering of a natural number, without leading zeros; the
      parser reads the number back. */
  function NatToDecimal(n: nat): (s: string)
    ensures IsNumeral(s)
    ensures DigitsValue(s) == n
    ensures ParseNat(s) == Some(n)
    decreases n
  {
    if n < 10 then [DigitChar(n)]
    else
      var t := NatToDecimal(n / 10);
      var s := t + [DigitChar(n % 10)];
      assert s[..|s| - 1] == t;
      s
  }

  /** Parser for unsigned decimal numerals: the partner of NatToDecimal. */
  function ParseNat(s: string): Option<nat> {
    if |s| > 0 && forall i :: 0 <= i < |s| ==> IsDigit(s[i]) then Some(DigitsValue(s)) else None
  }

  /** The decimal rendering of an integer, as JavaScript prints an integral
      Number; the parser reads the integer back. */
  function IntToDecimal(n: int): (s: string)
    ensures |s| >= 1
    ensures n < 0 <==> s[0] == '-'
    ensures IsIntNumeral(s)
    ensures ParseInt(s) == Some(n)
  {
    if n < 0 then
      var t := NatToDecimal(-n);
      assert ("-" + t)[1..] == t;
      assert t != "0" by { assert DigitsValue(t) == -n; }
      "-" + t
    else NatToDecimal(n)
  }

  /** Parser for optionally negative decimal numerals: the partner of IntToDecimal. */
  function ParseInt(s: string): Option<int> {
    if |s| > 0 && s[0] == '-' then
      match ParseNat(s[1..])
      case Some(n) => Some(0 - n as int)
      case None => None
    else
      match ParseNat(s)
      case Some(n) => Some(n as int)
      case None => None
  }

  /** A numeral that begins with a non-zero digit has a positive value. */
  lemma {:induction false} LeadingDigitPositive(s: string)
    requires |s| >= 1 && (forall i :: 0 <= i < |s| ==> IsDigit(s[i])) && s[0] != '0'
    ensures DigitsValue(s) >= 1
    decreases |s|
  {
    if |s| > 1 {
      LeadingDigitPositive(s[..|s| - 1]);
    }
  }

  /** Every numeral is the rendering of its own value: the rendering is the
      only numeral that parses to a given number. */
  lemma {:induction false} NumeralIsNatToDecimal(s: string)
    requires IsNumeral(s)
    ensures s == NatToDecimal(DigitsValue(s))
    decreases |s|
  {
    if |s| > 1 {
      var t := s[..|s| - 1];
      var c := s[|s| - 1];
      LeadingDigitPositive(t);
      NumeralIsNatToDecimal(t);
      var q, d := DigitsValue(t), DigitValue(c);
      var n := DigitsValue(s);
      assert n == q * 10 + d;
      LastDigit(q, d);
      assert n >= 10;
      assert DigitChar(d) == c;
      assert NatToDecimal(n) == NatToDecimal(q) + [c];
      assert s == t + [c];
    }
  }

  /** Dividing by ten splits off the last digit. */
  lemma LastDigit(q: int, d: int)
    requires 0 <= d < 10
    ensures (q * 10 + d) / 10 == q && (q * 10 + d) % 10 == d
  {
  }

  /** The same for integers: an integer numeral is the rendering of the
      number it parses to, so no other text parses to that number. */
  lemma IntNumeralIsIntToDecimal(s: string)
    requires IsIntNumeral(s)
    ensures ParseInt(s).Some? && s == IntToDecimal(ParseInt(s).value)
  {
    if s[0] == '-' {
      var t := s[1..];
      NumeralIsNatToDecimal(t);
      assert t[0] != '0';
      LeadingDigitPositive(t);
      assert s == "-" + t;
    } else {
      NumeralIsNatToDecimal(s);
    }
  }

  /** Position of the first occurrence of `c` in `s`, if any. */
  function IndexOf(s: string, c: char): (r: Option<nat>)
    ensures r.None? <==> c !in s
    ensures r.Some? ==> r.value < |s| && s[r.value] == c && c !in s[..r.value]
    decreases |s|
  {
    if |s| == 0 then None
    else if s[0] == c then Some(0)
    else
      match IndexOf(s[1..], c)
      case None => None
      case Some(k) =>
        assert s[..k + 1] == [s[0]] + s[1..][..k];
        Some(k + 1)
  }

  /** When `c` does not occur in `a`, the first `c` of `a + [c] + b` is the one after `a`. */
  lemma IndexOfAfterPrefix(a: string, c: char, b: string)
    requires c !in a
    ensures IndexOf(a + [c] + b, c) == Some(|a|)
    ensures (a + [c] + b)[..|a|] == a && (a + [c] + b)[|a| + 1..] == b
  {
    var s := a + [c] + b;
    assert s[|a|] == c;
    assert s[..|a|] == a;
  }

  /** The string with its first occurrence of `c` removed, scanning left to
      right as `String.prototype.replace(c, "")` does; unchanged when `c`
      does not occur. */
  function RemoveFirst(s: string, c: char): (r: string)
    ensures c !in s ==> r == s
    ensures c in s ==> |r| == |s| - 1
    ensures c in s ==> r == s[..IndexOf(s, c).value] + s[IndexOf(s, c).value + 1..]
    decreases |s|
  {
    if |s| == 0 then s
    else if s[0] == c then s[1..]
    else
      RemoveFirstStep(s, c);
      [s[0]] + RemoveFirst(s[1..], c)
  }

  /** Past a first character other than `c`, the first `c` of `s` is one
      further on than that of `s[1..]`, and the pieces around it shift by one. */
  lemma RemoveFirstStep(s: string, c: char)
    requires |s| > 0 && s[0] != c
    ensures c in s[1..] ==> c in s && IndexOf(s, c).value == IndexOf(s[1..], c).value + 1
    ensures c in s[1..] ==> var k := IndexOf(s[1..], c).value;
      [s[0]] + (s[1..][..k] + s[1..][k + 1..]) == s[..k + 1] + s[k + 2..]
    ensures c in s <==> c in s[1..]
  {
    assert s == [s[0]] + s[1..];
    if c in s[1..] {
      DropShift(s, IndexOf(s[1..], c).value);
    }
  }

  /** Dropping position `k + 1` of `s` is keeping its head and dropping
      position `k` of its tail. */
  lemma DropShift(s: string, k: nat)
    requires k + 1 < |s|
    ensures [s[0]] + (s[1..][..k] + s[1..][k + 1..]) == s[..k + 1] + s[k + 2..]
  {
    var a, b := s[1..][..k], s[1..][k + 1..];
    assert s[..k + 1] == [s[0]] + a;
    assert s[k + 2..] == b;
  }
}
