/**
 * The weights of the answer key. The key file holds them as decimal numerals
 * (written with Python's `str` of a JSON number, read back with `float`).
 * The model keeps the numeral exactly and computes with its exact value.
 */
module Decimals {
  import opened Wrappers
  import opened Text

  /** A decimal numeral: an optional minus sign, the digits before the point and those after it. */
  datatype Decimal = Decimal(negative: bool, whole: string, frac: string)

  predicate AllDigits(s: string) {
    forall i :: 0 <= i < |s| ==> IsDigitChar(s[i])
  }

  /** A numeral with at least one digit and nothing but digits on either side of the point. */
  predicate WellFormed(d: Decimal) {
    AllDigits(d.whole) && AllDigits(d.frac) && |d.whole| + |d.frac| > 0
  }

  /** n / 10^k, divided by ten one digit at a time. */
  function Shift(n: real, k: nat): real {
    if k == 0 then n else Shift(n, k - 1) / 10.0
  }

  /** The exact number a well-formed numeral denotes. */
  function Value(d: Decimal): real
    requires WellFormed(d)
  {
    var magnitude := DigitsValue(d.whole) as real + Shift(DigitsValue(d.frac) as real, |d.frac|);
    if d.negative then -magnitude else magnitude
  }

  /** The digits and the point of a numeral, without its sign. */
  function Body(d: Decimal): string {
    d.whole + (if d.frac == [] then "" else "." + d.frac)
  }

  /** `str(v)` of the number, as the key-file writer puts it in the file. */
  function Format(d: Decimal): string {
    (if d.negative then "-" else "") + Body(d)
  }

  /**
   * `float(s)` on the numerals above: surrounding whitespace, an optional
   * sign, digits with at most one point and at least one digit in all.
   */
  function ParseFloat(s: string): (r: Option<Decimal>)
    ensures r.Some? ==> WellFormed(r.value)
  {
    var t := Strip(s);
    var signed := t != [] && (t[0] == '-' || t[0] == '+');
    var negative := signed && t[0] == '-';
    var body := if signed then t[1..] else t;
    var parts := Split(body, '.');
    if |parts| == 1 && AllDigits(parts[0]) && parts[0] != [] then
      Some(Decimal(negative, parts[0], []))
    else if |parts| == 2 && AllDigits(parts[0]) && AllDigits(parts[1]) && |parts[0]| + |parts[1]| > 0 then
      Some(Decimal(negative, parts[0], parts[1]))
    else None
  }

  /** A written numeral holds only digits, the point and the minus sign. */
  lemma FormatChars(d: Decimal)
    requires WellFormed(d)
    ensures Format(d) != []
    ensures forall i :: 0 <= i < |Format(d)| ==> IsDigitChar(Format(d)[i]) || Format(d)[i] in ".-"
  {
    var f := Format(d);
    forall i | 0 <= i < |f| ensures IsDigitChar(f[i]) || f[i] in ".-" {
      var sign := if d.negative then "-" else "";
      if i >= |sign| + |d.whole| + 1 {
        assert f[i] == d.frac[i - |sign| - |d.whole| - 1];
      }
    }
  }

  /** A character that is no digit, no point and no minus sign is not in a written numeral. */
  lemma NotInFormat(d: Decimal, c: char)
    requires WellFormed(d) && !IsDigitChar(c) && c != '.' && c != '-'
    ensures c !in Format(d)
  {
    FormatChars(d);
  }

  lemma DigitsHaveNoPoint(s: string)
    requires AllDigits(s)
    ensures '.' !in s
  {
    forall i | 0 <= i < |s| ensures s[i] != '.' {
      assert IsDigitChar(s[i]);
    }
  }

  lemma FormatStripped(d: Decimal)
    requires WellFormed(d)
    ensures Strip(Format(d)) == Format(d)
  {
    var f := Format(d);
    FormatChars(d);
    assert IsDigitChar(f[0]) || f[0] in ".-";
    assert IsDigitChar(f[|f| - 1]);
    StripUnchanged(f);
  }

  /** Reading back a written numeral gives the same numeral. */
  lemma ParseFormat(d: Decimal)
    requires WellFormed(d)
    ensures ParseFloat(Format(d)) == Some(d)
  {
    FormatStripped(d);
    FormatSign(d);
    BodySplits(d);
  }

  /** A written numeral starts with '-' exactly when it is negative; the rest is its body. */
  lemma FormatSign(d: Decimal)
    requires WellFormed(d)
    ensures var f := Format(d);
      && f != []
      && (f[0] == '-' || f[0] == '+' <==> d.negative)
      && (if d.negative then f[0] == '-' && f[1..] == Body(d) else f == Body(d))
  {
    var f := Format(d);
    if d.negative {
      assert f == "-" + Body(d);
    } else {
      assert f == Body(d);
      if d.whole != [] {
        assert f[0] == d.whole[0] && IsDigitChar(d.whole[0]);
      } else {
        assert f[0] == '.';
      }
    }
  }

  /** The body splits at its point into the whole and the fractional digits. */
  lemma BodySplits(d: Decimal)
    requires WellFormed(d)
    ensures Split(Body(d), '.') == if d.frac == [] then [d.whole] else [d.whole, d.frac]
  {
    DigitsHaveNoPoint(d.whole);
    DigitsHaveNoPoint(d.frac);
    var parts := if d.frac == [] then [d.whole] else [d.whole, d.frac];
    assert Body(d) == Join(parts, '.');
    SplitJoin(parts, '.');
  }
}
