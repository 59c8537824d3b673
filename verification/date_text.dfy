/**
 * The text pieces both timestamp patterns share: fixed-width decimal fields
 * and the US English month abbreviations (Locale.US).
 */
module DateText {

  import opened Optional

  /** Short month names of Locale.US, January first. */
  const MonthAbbreviations: seq<string> :=
    ["Jan", "Feb", "Mar", "Apr", "May", "Jun", "Jul", "Aug", "Sep", "Oct", "Nov", "Dec"]

  /** The printed token of month m (1 = January). */
  function MonthToken(m: int): (t: string)
    requires 1 <= m <= 12
    ensures |t| == 3
    ensures t in MonthAbbreviations
  {
    MonthAbbreviations[m - 1]
  }

  /** Looks t up in the month table from index i on. */
  function FindMonth(t: string, i: nat): (r: Option<int>)
    requires i <= 12
    ensures r.Some? <==> t in MonthAbbreviations[i..]
    ensures r.Some? ==> i < r.value <= 12 && MonthToken(r.value) == t
    decreases 12 - i
  {
    if i == 12 then None
    else if MonthAbbreviations[i] == t then Some(i + 1)
    else
      assert MonthAbbreviations[i..] == [MonthAbbreviations[i]] + MonthAbbreviations[i + 1..];
      FindMonth(t, i + 1)
  }

  /** The month a three-letter token names; only the exact table entries are accepted. */
  function ParseMonth(t: string): (r: Option<int>)
    ensures r.Some? <==> t in MonthAbbreviations
    ensures r.Some? ==> 1 <= r.value <= 12 && MonthToken(r.value) == t
  {
    FindMonth(t, 0)
  }

  /** Each month's token reads back as that month. */
  lemma MonthTokenRoundTrip(m: int)
    requires 1 <= m <= 12
    ensures ParseMonth(MonthToken(m)) == Some(m)
  {
    FindMonthOf(m, 0);
  }

  lemma {:induction false} FindMonthOf(m: int, i: nat)
    requires 1 <= m <= 12 && i < m
    ensures FindMonth(MonthToken(m), i) == Some(m)
    decreases m - i
  {
    if i < m - 1 {
      assert MonthAbbreviations[i] != MonthAbbreviations[m - 1];
      FindMonthOf(m, i + 1);
    }
  }

  predicate IsDigit(c: char) {
    '0' <= c <= '9'
  }

  predicate AllDigits(s: string) {
    forall i :: 0 <= i < |s| ==> IsDigit(s[i])
  }

  function DigitValue(c: char): (n: int)
    requires IsDigit(c)
    ensures 0 <= n < 10
  {
    c as int - '0' as int
  }

  function DigitChar(n: int): (c: char)
    requires 0 <= n < 10
    ensures IsDigit(c) && DigitValue(c) == n
  {
    ('0' as int + n) as char
  }

  function Pow10(n: nat): (p: int)
    ensures p >= 1
  {
    if n == 0 then 1 else 10 * Pow10(n - 1)
  }

  /** The number a string of decimal digits spells, most significant digit first. */
  function DecimalValue(s: string): (n: int)
    requires AllDigits(s)
    ensures 0 <= n < Pow10(|s|)
  {
    if s == [] then 0
    else DecimalValue(s[..|s| - 1]) * 10 + DigitValue(s[|s| - 1])
  }

  /** n printed with two digits, zero-padded. */
  function TwoDigits(n: int): (s: string)
    requires 0 <= n < 100
    ensures |s| == 2 && AllDigits(s)
    ensures DecimalValue(s) == n
  {
    var s := [DigitChar(n / 10), DigitChar(n % 10)];
    assert s[..1] == [s[0]];
    assert s[..0] == [];
    s
  }

  /** Any two-digit field is the zero-padded print of the number it spells. */
  lemma TwoDigitsRoundTrip(s: string)
    requires |s| == 2 && AllDigits(s)
    ensures TwoDigits(DecimalValue(s)) == s
  {
    var n := DecimalValue(s);
    assert s[..1] == [s[0]];
    assert s[..1][..0] == [];
    assert DecimalValue(s[..1]) == DigitValue(s[0]);
    assert n == DigitValue(s[0]) * 10 + DigitValue(s[1]);
    assert DigitChar(DigitValue(s[0])) == s[0];
    assert DigitChar(DigitValue(s[1])) == s[1];
  }
}
