/** The difference percentage: `((diffCount / totalPixels) * 100).toFixed(2)`
    on the engine side and `parseFloat(percentage) <= maxDiff` on the
    filtering side. Values are kept exactly, as a count of hundredths of a
    percent, or as NaN, which is what `parseFloat` gives for a text that is
    not a number. */
module Percent {
  import opened Decimal

  datatype Percentage = NaN | Hundredths(h: nat)

  /** `10000 * count / total` rounded to the nearest integer, halves upwards. */
  function RoundedHundredths(count: nat, total: nat): (h: nat)
    requires total > 0
    ensures 2 * total * h <= 20000 * count + total < 2 * total * (h + 1)
  {
    (20000 * count + total) / (2 * total)
  }

  lemma ScaleBelow(a: int, b: int, t: nat)
    requires t > 0 && t * a < t * b
    ensures a < b
  {
  }

  /** The percentage of `diffCount` flagged pixels among `totalPixels`; the
      engine divides only by the pixel count of a canvas with positive area,
      so the quotient is always a number. */
  function OfCounts(diffCount: nat, totalPixels: nat): (p: Percentage)
    requires totalPixels > 0
    ensures p.Hundredths?
  {
    Hundredths(RoundedHundredths(diffCount, totalPixels))
  }

  /** A share of the pixels is a percentage between 0.00 and 100.00, with the
      two ends reached exactly by none and by all of them. */
  lemma OfCountsRange(diffCount: nat, totalPixels: nat)
    requires diffCount <= totalPixels && totalPixels > 0
    ensures OfCounts(diffCount, totalPixels).h <= 10000
    ensures diffCount == 0 ==> OfCounts(diffCount, totalPixels) == Hundredths(0)
    ensures diffCount == totalPixels ==> OfCounts(diffCount, totalPixels) == Hundredths(10000)
  {
    var h := RoundedHundredths(diffCount, totalPixels);
    ScaleBelow(2 * h, 20002, totalPixels);
    if diffCount == 0 {
      ScaleBelow(2 * h, 2, totalPixels);
    }
    if diffCount == totalPixels {
      ScaleBelow(20000, 2 * h + 2, totalPixels);
    }
  }

  /** More flagged pixels never give a smaller percentage. */
  lemma OfCountsMonotone(c1: nat, c2: nat, total: nat)
    requires c1 <= c2 && total > 0
    ensures OfCounts(c1, total).h <= OfCounts(c2, total).h
  {
    var h1, h2 := RoundedHundredths(c1, total), RoundedHundredths(c2, total);
    ScaleBelow(2 * h1, 2 * h2 + 2, total);
  }

  /** `Number.prototype.toFixed(2)` on the percentage. */
  function ToFixed2(p: Percentage): (s: string)
  {
    match p
    case NaN => "NaN"
    case Hundredths(h) => NatToString(h / 100) + "." + [Digit(h / 10 % 10), Digit(h % 10)]
  }

  /** `parseFloat` on the texts that `ToFixed2` produces: an integer part,
      a point and two digits; every other text reads as NaN. */
  function ParseFloat(s: string): Percentage
  {
    if |s| >= 4 && AllDigits(s[..|s| - 3]) && s[|s| - 3] == '.'
       && IsDigit(s[|s| - 2]) && IsDigit(s[|s| - 1])
    then Hundredths(100 * ParseNat(s[..|s| - 3]) + 10 * DigitValue(s[|s| - 2]) + DigitValue(s[|s| - 1]))
    else NaN
  }

  /** The text stored in a result reads back as exactly the percentage that
      was formatted. */
  lemma ParseToFixed2(p: Percentage)
    ensures ParseFloat(ToFixed2(p)) == p
  {
    if p.Hundredths? {
      var h := p.h;
      var s := ToFixed2(p);
      assert s[..|s| - 3] == NatToString(h / 100);
      ParseNatToString(h / 100);
      assert h == 100 * (h / 100) + 10 * (h / 10 % 10) + h % 10;
    }
  }

  /** `parseFloat(text) <= limit` for an integer `limit`: NaN compares false. */
  predicate AtMost(p: Percentage, limit: int) {
    p.Hundredths? && p.h <= 100 * limit
  }

  /** A text that reads as a number is digits and one point, so it holds no
      line break and no double quote. */
  lemma ParsedPlain(s: string)
    requires ParseFloat(s).Hundredths?
    ensures '\n' !in s && '"' !in s
  {
    var ip := s[..|s| - 3];
    assert s == ip + [s[|s| - 3], s[|s| - 2], s[|s| - 1]];
    assert forall i :: 0 <= i < |ip| ==> IsDigit(ip[i]);
  }
}
