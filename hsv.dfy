/**
 * `GetOpenCvHsvColor`: maps a "standard" HSV triple (hue in degrees 0..360,
 * saturation and value in percent 0..100) onto the 0..255 scale the program
 * thresholds with, by `x * 255 / full` in C# `int` arithmetic.
 */
module HsvConversion {
  import opened CSharp

  const HueFull: int := 360
  const PercentFull: int := 100
  const ChannelMax: int := 255

  /** The three integers of the `InputArray` the program builds. */
  datatype HsvColor = HsvColor(h: int, s: int, v: int)

  /** One channel: C# `x * 255 / full`, the product wrapping like a C# `int`. */
  function Scale(x: Int32, full: int): (r: int)
    requires full > 0
  {
    TruncDiv(Mul32(x, ChannelMax), full)
  }

  /** `GetOpenCvHsvColor(h, s, v)` (CountObjects/Program.cs). */
  function GetOpenCvHsvColor(h: Int32, s: Int32, v: Int32): (c: HsvColor) {
    HsvColor(Scale(h, HueFull), Scale(s, PercentFull), Scale(v, PercentFull))
  }

  /** `x * 255` does not overflow a C# `int`. */
  predicate Fits(x: int) {
    InInt32(x * ChannelMax)
  }

  predicate StandardHsv(h: int, s: int, v: int) {
    0 <= h <= HueFull && 0 <= s <= PercentFull && 0 <= v <= PercentFull
  }

  /** Channel-wise `a <= b`, the condition `Cv2.InRange` needs of a lower and an upper bound. */
  predicate ChannelsLessEq(a: HsvColor, b: HsvColor) {
    a.h <= b.h && a.s <= b.s && a.v <= b.v
  }

  /** Without overflow, one channel is the exact quotient of `x * 255` by `full`, rounded toward zero. */
  lemma ScaleQuotient(x: Int32, full: int)
    requires full > 0 && Fits(x)
    ensures x >= 0 ==> Scale(x, full) * full <= x * ChannelMax < Scale(x, full) * full + full
    ensures x < 0 ==> Scale(x, full) * full - full < x * ChannelMax <= Scale(x, full) * full
  {
  }

  /** For non-negative inputs that do not overflow, truncating division is floor division. */
  lemma ConvertIsFloorDivision(h: Int32, s: Int32, v: Int32)
    requires 0 <= h && 0 <= s && 0 <= v && Fits(h) && Fits(s) && Fits(v)
    ensures GetOpenCvHsvColor(h, s, v) == HsvColor(h * 255 / 360, s * 255 / 100, v * 255 / 100)
  {
  }

  /** A standard input gives channels in 0..255. */
  lemma {:induction false} ScaleInChannelRange(x: Int32, full: int)
    requires 0 < full <= HueFull && 0 <= x <= full
    ensures 0 <= Scale(x, full) <= ChannelMax
  {
    assert x * ChannelMax <= full * ChannelMax;
  }

  lemma ConvertInChannelRange(h: Int32, s: Int32, v: Int32)
    requires StandardHsv(h, s, v)
    ensures var c := GetOpenCvHsvColor(h, s, v);
      0 <= c.h <= ChannelMax && 0 <= c.s <= ChannelMax && 0 <= c.v <= ChannelMax
  {
    ScaleInChannelRange(h, HueFull);
    ScaleInChannelRange(s, PercentFull);
    ScaleInChannelRange(v, PercentFull);
  }

  /** The ends of the standard scale land on the ends of the 0..255 scale. */
  lemma ConvertEndpoints()
    ensures GetOpenCvHsvColor(0, 0, 0) == HsvColor(0, 0, 0)
    ensures GetOpenCvHsvColor(HueFull, PercentFull, PercentFull) == HsvColor(ChannelMax, ChannelMax, ChannelMax)
  {
  }

  /** A larger input never gives a smaller channel, as long as neither product overflows. */
  lemma ScaleMonotone(a: Int32, b: Int32, full: int)
    requires a <= b && full > 0 && Fits(a) && Fits(b)
    ensures Scale(a, full) <= Scale(b, full)
  {
    assert a * ChannelMax <= b * ChannelMax;
    TruncDivMonotone(a * ChannelMax, b * ChannelMax, full);
  }

  lemma ConvertMonotone(h1: Int32, s1: Int32, v1: Int32, h2: Int32, s2: Int32, v2: Int32)
    requires h1 <= h2 && s1 <= s2 && v1 <= v2
    requires Fits(h1) && Fits(s1) && Fits(v1) && Fits(h2) && Fits(s2) && Fits(v2)
    ensures ChannelsLessEq(GetOpenCvHsvColor(h1, s1, v1), GetOpenCvHsvColor(h2, s2, v2))
  {
    ScaleMonotone(h1, h2, HueFull);
    ScaleMonotone(s1, s2, PercentFull);
    ScaleMonotone(v1, v2, PercentFull);
  }

  /**
   * A hue of 8421505 overflows `h * 255` and wraps to a negative channel,
   * below the channel of hue 0: the conversion is monotone only where it fits.
   */
  lemma OverflowWraps()
    ensures !Fits(8421505)
    ensures GetOpenCvHsvColor(8421505, 0, 0).h == -5965232 < GetOpenCvHsvColor(0, 0, 0).h
  {
  }
}
