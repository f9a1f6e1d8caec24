/**
 * The formatting helpers of the traffic overlay (nezha/traffic-progress.js, the
 * `utils` module): byte-unit scaling, a percentage that survives huge operands,
 * and the green-orange-red colour of the progress bar.
 *
 * JavaScript numbers are modelled as exact reals: the strings `toFixed` would
 * produce are represented by the real value and the number of decimals asked for.
 */
module TrafficFormat {

  /** The unit labels, smallest first. */
  const Units: seq<string> := ["B", "KB", "MB", "GB", "TB", "PB"]

  /** 1024 raised to the power k. */
  function Pow1024(k: nat): (r: real)
    ensures r >= 1.0
  {
    if k == 0 then 1.0 else 1024.0 * Pow1024(k - 1)
  }

  lemma Pow1024Values()
    ensures Pow1024(1) == 1024.0 && Pow1024(2) == 1048576.0 && Pow1024(3) == 1073741824.0
    ensures Pow1024(4) == 1099511627776.0 && Pow1024(5) == 1125899906842624.0
    ensures Pow1024(6) == 1152921504606846976.0
  {
  }

  /**
   * The index into Units at which a byte count is displayed, written out as a
   * table of thresholds; counts below 1024 (negative ones too) stay in bytes.
   */
  function UnitIndex(bytes: real): (k: nat)
    ensures k < |Units|
    ensures k == 0 || bytes >= Pow1024(k)
    ensures k == |Units| - 1 || bytes < Pow1024(k + 1)
  {
    Pow1024Values();
    if bytes < 1024.0 then 0
    else if bytes < 1048576.0 then 1
    else if bytes < 1073741824.0 then 2
    else if bytes < 1099511627776.0 then 3
    else if bytes < 1125899906842624.0 then 4
    else 5
  }

  /** The unit chosen is the largest one whose threshold the count reaches. */
  lemma UnitIndexIsLargest(bytes: real, j: nat)
    requires j < |Units| && (j == 0 || bytes >= Pow1024(j))
    ensures j <= UnitIndex(bytes)
  {
    Pow1024Values();
  }

  /** A scaled size: the number, its unit label and how many decimals are printed. */
  datatype Scaled = Scaled(value: real, unit: string, decimals: nat)

  /** The result `formatFileSize` is specified to have. */
  function ScaleBytes(bytes: real): (r: Scaled)
    ensures r.unit in Units
    ensures r.decimals == (if r.unit == "B" then 0 else 2)
  {
    if bytes == 0.0 then Scaled(0.0, "B", 0)
    else
      var k := UnitIndex(bytes);
      Scaled(bytes / Pow1024(k), Units[k], if k == 0 then 0 else 2)
  }

  /**
   * `formatFileSize`: divide by 1024 while the size is at least 1024 and a
   * larger unit remains.
   */
  method FormatFileSize(bytes: real) returns (r: Scaled)
    ensures bytes == 0.0 ==> r == Scaled(0.0, "B", 0)
    ensures bytes != 0.0 ==>
              var k := UnitIndex(bytes);
              r.unit == Units[k] && r.value * Pow1024(k) == bytes && r.decimals == (if k == 0 then 0 else 2)
    ensures r == ScaleBytes(bytes)
  {
    if bytes == 0.0 {
      return Scaled(0.0, "B", 0);
    }
    var size := bytes;
    var unitIndex := 0;
    while size >= 1024.0 && unitIndex < |Units| - 1
      invariant 0 <= unitIndex < |Units|
      invariant size * Pow1024(unitIndex) == bytes
      invariant unitIndex == 0 || bytes >= Pow1024(unitIndex)
      decreases |Units| - unitIndex
    {
      ScaleStep(size, unitIndex, bytes);
      size := size / 1024.0;
      unitIndex := unitIndex + 1;
    }
    if unitIndex < |Units| - 1 {
      BelowNextUnit(size, unitIndex, bytes);
    }
    UnitIndexUnique(bytes, unitIndex);
    assert size == bytes / Pow1024(unitIndex);
    r :=Scaled(size, Units[unitIndex], if unitIndex == 0 then 0 else 2);
  }

  /** One turn of the loop keeps `size * 1024^k == bytes` and the lower threshold. */
  lemma ScaleStep(size: real, k: nat, bytes: real)
    requires size * Pow1024(k) == bytes && size >= 1024.0
    ensures (size / 1024.0) * Pow1024(k + 1) == bytes && bytes >= Pow1024(k + 1)
  {
    var scale := Pow1024(k);
    assert Pow1024(k + 1) == 1024.0 * scale;
    assert (size - 1024.0) * scale >= 0.0;
  }

  /** Leaving the loop early means the count is below the next unit's threshold. */
  lemma BelowNextUnit(size: real, k: nat, bytes: real)
    requires size * Pow1024(k) == bytes && size < 1024.0
    ensures bytes < Pow1024(k + 1)
  {
    var scale := Pow1024(k);
    assert (1024.0 - size) * scale > 0.0;
  }

  /** Any index meeting both thresholds is UnitIndex. */
  lemma UnitIndexUnique(bytes: real, k: nat)
    requires k < |Units|
    requires k == 0 || bytes >= Pow1024(k)
    requires k == |Units| - 1 || bytes < Pow1024(k + 1)
    ensures k == UnitIndex(bytes)
  {
    Pow1024Values();
  }

  lemma ScaleBytesExamples()
    ensures ScaleBytes(0.0) == Scaled(0.0, "B", 0)
    ensures ScaleBytes(1536.0) == Scaled(1.5, "KB", 2)
    ensures ScaleBytes(1073741824.0) == Scaled(1.0, "GB", 2)
    ensures ScaleBytes(500.0) == Scaled(500.0, "B", 0)
  {
    Pow1024Values();
  }

  /** Above this, both operands of a percentage are scaled down first. */
  const LargeOperand: real := 1000000000000000.0
  /** The common divisor applied to large operands. */
  const ScaleDown: real := 10000000000.0

  /**
   * `calculatePercentage`: 0 when the total is 0; otherwise used / total as a
   * percentage. The large-number scaling divides both operands by the same
   * constant, so in exact arithmetic it never changes the ratio.
   */
  function Percentage(used: real, total: real): (r: real)
    ensures total == 0.0 ==> r == 0.0
    ensures total != 0.0 ==> r == used / total * 100.0
  {
    var scaled := used > LargeOperand || total > LargeOperand;
    var u := if scaled then used / ScaleDown else used;
    var t := if scaled then total / ScaleDown else total;
    assert t == 0.0 <==> total == 0.0;
    if t == 0.0 then 0.0
    else
      assert u / t == used / total by {
        if scaled {
          assert u * ScaleDown == used && t * ScaleDown == total;
          assert (u / t) * total == (u / t) * (t * ScaleDown);
        }
      }
      u / t * 100.0
  }

  lemma PercentageExamples()
    ensures Percentage(50.0, 200.0) == 25.0
    ensures Percentage(2000000000000000.0, 4000000000000000.0) == 50.0
    ensures Percentage(500.0, 1000.0) == 50.0
  {
  }

  /** A colour in hue/saturation/lightness coordinates. */
  datatype Hsl = Hsl(h: real, s: real, l: real)

  function Clamp(v: real, lo: real, hi: real): real
    requires lo <= hi
  {
    if v < lo then lo else if v > hi then hi else v
  }

  function Lerp(start: real, end: real, t: real): real
  {
    start + (end - start) * t
  }

  /** Green (142) to orange (32) over [0, 35]. */
  function GreenToOrange(p: real): Hsl
  {
    var t := p / 35.0;
    Hsl(Lerp(142.0, 32.0, t), Lerp(69.0, 85.0, t), Lerp(45.0, 55.0, t))
  }

  /** Orange (32) to red (0) over (35, 85]. */
  function OrangeToRed(p: real): Hsl
  {
    var t := (p - 35.0) / 50.0;
    Hsl(Lerp(32.0, 0.0, t), Lerp(85.0, 75.0, t), Lerp(55.0, 50.0, t))
  }

  /** Red deepening over (85, 100]. */
  function DeepRed(p: real): Hsl
  {
    var t := (p - 85.0) / 15.0;
    Hsl(0.0, 75.0, Lerp(50.0, 45.0, t))
  }

  /** `getHslGradientColor`: clamp to [0, 100], then one of three linear segments. */
  function GradientColor(percentage: real): (c: Hsl)
    ensures 0.0 <= c.h <= 142.0 && 69.0 <= c.s <= 85.0 && 45.0 <= c.l <= 55.0
  {
    var p := Clamp(percentage, 0.0, 100.0);
    if p <= 35.0 then GreenToOrange(p)
    else if p <= 85.0 then OrangeToRed(p)
    else DeepRed(p)
  }

  /** Inputs outside [0, 100] get the colour of the nearest end. */
  lemma GradientClamped(p: real)
    ensures p <= 0.0 ==> GradientColor(p) == Hsl(142.0, 69.0, 45.0)
    ensures p >= 100.0 ==> GradientColor(p) == Hsl(0.0, 75.0, 45.0)
    ensures 0.0 <= p <= 100.0 ==> GradientColor(p) == GradientColor(Clamp(p, 0.0, 100.0))
  {
  }

  /** Neighbouring segments meet at 35 and at 85, so the colour has no jump. */
  lemma SegmentsMeet()
    ensures GreenToOrange(35.0) == OrangeToRed(35.0) == Hsl(32.0, 85.0, 55.0)
    ensures OrangeToRed(85.0) == DeepRed(85.0) == Hsl(0.0, 75.0, 50.0)
  {
  }

  /** The hue never rises as the percentage grows. */
  lemma HueNonIncreasing(p: real, q: real)
    requires p <= q
    ensures GradientColor(q).h <= GradientColor(p).h
  {
  }

  /** A full bar is darker than one at 85%. */
  lemma FullIsDarkest()
    ensures GradientColor(100.0).l < GradientColor(85.0).l
  {
  }
}
