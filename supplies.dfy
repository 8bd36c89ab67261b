/**
  The supplies panel: from the actual party size it works out how many
  overloads, fish and golpar the party needs, lists them under a title, and
  sizes the panel to fit the widest line. The arithmetic is Java's 32-bit
  `int` arithmetic, written out: products and sums wrap around, and the cast
  of the rounded-up overload count saturates.
 */
module SuppliesCalculation {
  import opened Wrappers
  import opened Strings
  import opened CoxMegaScaleConfig

  // ---------------------------------------------------------------------
  // 32-bit integers
  // ---------------------------------------------------------------------

  const IntMin: int := -0x8000_0000
  const IntMax: int := 0x7FFF_FFFF
  const Modulus: int := 0x1_0000_0000

  predicate IsInt(x: int) { IntMin <= x <= IntMax }

  /** A Java `int`. */
  type Int32 = x: int | IsInt(x)

  /** The `int` an exact result wraps to: the one congruent to it modulo 2^32. */
  function Wrap(x: int): (r: Int32)
    ensures (r - x) % Modulus == 0
    ensures IsInt(x) ==> r == x
  {
    var m := x % Modulus;
    if m <= IntMax then m else m - Modulus
  }

  /** The cast of a whole-numbered `double` to `int`: values beyond the range go to its nearest end. */
  function SaturatingCast(x: int): (r: Int32)
    ensures IsInt(x) ==> r == x
    ensures x > IntMax ==> r == IntMax
    ensures x < IntMin ==> r == IntMin
  {
    if x < IntMin then IntMin else if x > IntMax then IntMax else x
  }

  /** The smallest whole number at least `x / 4`. */
  function CeilQuarter(x: int): (q: int)
    ensures 4 * q >= x > 4 * (q - 1)
  {
    (x + 3) / 4
  }

  // ---------------------------------------------------------------------
  // The three formulas
  // ---------------------------------------------------------------------

  /**
    Overloads needed: five per member plus five, divided by four and rounded
    up. The source computes this in `double`; for every `int` party size the
    products, the sum and the division by four are exact in `double`, so the
    rounded-up quotient is the exact one, and only the cast back can change it.
   */
  function Overloads(partySize: Int32): Int32
  {
    SaturatingCast(CeilQuarter(5 * partySize + 5))
  }

  /** Fish needed: twenty per member plus twenty, in `int` arithmetic. */
  function Fish(partySize: Int32): Int32
  {
    Wrap(20 * partySize + 20)
  }

  /** Golpar needed: three per overload, in `int` arithmetic. */
  function Golpar(partySize: Int32): Int32
  {
    Wrap(3 * Overloads(partySize))
  }

  /** The party sizes for which the overload count is the exact rounded-up quotient. */
  predicate OverloadsExactFor(n: int) { -1717986920 <= n <= 1717986916 }

  /** The party sizes for which the fish count does not wrap. */
  predicate FishExactFor(n: int) { -107374183 <= n <= 107374181 }

  /** The party sizes for which the golpar count does not wrap. */
  predicate GolparExactFor(n: int) { -572662307 <= n <= 572662304 }

  /**
    Within its range the overload count is the ceiling of (5n + 5) / 4: four
    times it covers 5n + 5, one fewer would not. Outside the range the count is
    the nearest end of the `int` range.
   */
  lemma OverloadsIsCeiling(n: Int32)
    ensures OverloadsExactFor(n) ==> 4 * Overloads(n) >= 5 * n + 5 > 4 * (Overloads(n) - 1)
    ensures n > 1717986916 ==> Overloads(n) == IntMax
    ensures n < -1717986920 ==> Overloads(n) == IntMin
  {
    var q := CeilQuarter(5 * n + 5);
    if OverloadsExactFor(n) {
      assert IsInt(q);
    }
  }

  /** The fish count is 20n + 20 exactly for the party sizes of its range; beyond it the sum wraps. */
  lemma FishExact(n: Int32)
    ensures Fish(n) == 20 * n + 20 <==> FishExactFor(n)
  {
  }

  /** In its range the golpar count is three times the overload count, so it is a multiple of three. */
  lemma GolparExact(n: Int32)
    requires GolparExactFor(n)
    ensures Golpar(n) == 3 * Overloads(n)
    ensures Golpar(n) % 3 == 0
  {
    var q := CeilQuarter(5 * n + 5);
    assert -715827882 <= q <= 715827882;
  }

  /** The largest party size for which all three counts are exact. */
  const MaxExactPartySize: int := 107374181

  /**
    For every party size from zero to the bound the three counts are the exact
    formulas: overloads is the ceiling of (5n + 5) / 4, fish is 20n + 20 and
    golpar is three times overloads.
   */
  lemma SuppliesExact(n: Int32)
    requires 0 <= n <= MaxExactPartySize
    ensures 4 * Overloads(n) >= 5 * n + 5 > 4 * (Overloads(n) - 1)
    ensures Fish(n) == 20 * n + 20
    ensures Golpar(n) == 3 * Overloads(n) && Golpar(n) % 3 == 0
  {
    OverloadsIsCeiling(n);
    FishExact(n);
    GolparExact(n);
  }

  /** At the largest `int` party size the fish sum is a multiple of 2^32 and wraps to zero. */
  lemma FishWrapsAtIntMax()
    ensures 20 * IntMax + 20 == 10 * Modulus
    ensures Fish(IntMax) == 0
  {
  }

  // ---------------------------------------------------------------------
  // The panel
  // ---------------------------------------------------------------------

  /** A child of the panel: a title, or a line with a left and a right text. */
  datatype PanelChild = Title(text: string) | Line(left: string, right: string)

  const TitleText: string := "Supplies Calculation"
  const ActualSizeLabel: string := "Actual Party Size:"
  const OverloadsLabel: string := "Overloads Needed:"
  const FishLabel: string := "Fish Needed:"
  const GolparLabel: string := "Golpar Needed:"

  /** The title, then the four labelled lines with the given values in decimal. */
  function PanelLines(partySize: int, overloads: int, fish: int, golpar: int): seq<PanelChild>
  {
    [Title(TitleText),
     Line(ActualSizeLabel, IntToDecimal(partySize)),
     Line(OverloadsLabel, IntToDecimal(overloads)),
     Line(FishLabel, IntToDecimal(fish)),
     Line(GolparLabel, IntToDecimal(golpar))]
  }

  /** The panel's lines: the title, then party size, overloads, fish and golpar, each beside its decimal value. */
  function SuppliesLines(partySize: Int32): seq<PanelChild>
  {
    PanelLines(partySize, Overloads(partySize), Fish(partySize), Golpar(partySize))
  }

  /** The panel has the title followed by the four labelled lines, in this order. */
  lemma PanelLinesLayout(partySize: int, overloads: int, fish: int, golpar: int)
    ensures |PanelLines(partySize, overloads, fish, golpar)| == 5
    ensures PanelLines(partySize, overloads, fish, golpar)[0] == Title("Supplies Calculation")
    ensures forall k :: 1 <= k < 5 ==> PanelLines(partySize, overloads, fish, golpar)[k].Line?
    ensures PanelLines(partySize, overloads, fish, golpar)[1].left == "Actual Party Size:"
    ensures PanelLines(partySize, overloads, fish, golpar)[2].left == "Overloads Needed:"
    ensures PanelLines(partySize, overloads, fish, golpar)[3].left == "Fish Needed:"
    ensures PanelLines(partySize, overloads, fish, golpar)[4].left == "Golpar Needed:"
  {
  }

  /** Each line's right text reads back as the number the line reports. */
  lemma PanelLinesValues(partySize: int, overloads: int, fish: int, golpar: int)
    ensures ParseDecimal(PanelLines(partySize, overloads, fish, golpar)[1].right) == Some(partySize)
    ensures ParseDecimal(PanelLines(partySize, overloads, fish, golpar)[2].right) == Some(overloads)
    ensures ParseDecimal(PanelLines(partySize, overloads, fish, golpar)[3].right) == Some(fish)
    ensures ParseDecimal(PanelLines(partySize, overloads, fish, golpar)[4].right) == Some(golpar)
  {
    DecimalRoundTrip(partySize);
    DecimalRoundTrip(overloads);
    DecimalRoundTrip(fish);
    DecimalRoundTrip(golpar);
  }

  /** Two different counts are never shown with the same text. */
  lemma SuppliesValuesDistinguishable(a: Int32, b: Int32)
    ensures IntToDecimal(Overloads(a)) == IntToDecimal(Overloads(b)) <==> Overloads(a) == Overloads(b)
    ensures IntToDecimal(Fish(a)) == IntToDecimal(Fish(b)) <==> Fish(a) == Fish(b)
  {
    DecimalInjective(Overloads(a), Overloads(b));
    DecimalInjective(Fish(a), Fish(b));
  }

  function Max(a: int, b: int): int { if a >= b then a else b }

  /** The larger of four, grouped as the source groups it. */
  function Max4(a: int, b: int, c: int, d: int): (m: int)
    ensures m >= a && m >= b && m >= c && m >= d
    ensures m == a || m == b || m == c || m == d
  {
    Max(Max(a, b), Max(c, d))
  }

  /** The padding on both sides of the panel's content. */
  const Padding: int := 10

  /**
    The panel width, in `int` arithmetic: the wider of the title and of the
    widest label, ten pixels and the widest value, plus the padding on both
    sides. The label and value widths are given in line order.
   */
  function PanelWidth(titleWidth: Int32, labelWidths: seq<Int32>, valueWidths: seq<Int32>): Int32
    requires |labelWidths| == 4 && |valueWidths| == 4
  {
    var maxLabelWidth := Max4(labelWidths[0], labelWidths[1], labelWidths[2], labelWidths[3]);
    var maxValueWidth := Max4(valueWidths[0], valueWidths[1], valueWidths[2], valueWidths[3]);
    Wrap(Max(titleWidth, Wrap(Wrap(maxLabelWidth + 10) + maxValueWidth)) + Padding * 2)
  }

  /** A width a font can report for a text on this panel. */
  predicate PlausibleWidth(w: int) { 0 <= w <= 0x100_0000 }

  /**
    For widths a font can report, the panel is at least as wide as the title
    plus the padding, and at least as wide as every label beside every value
    with the gap and the padding; and it is exactly one of those widths.
   */
  lemma PanelWidthFits(titleWidth: Int32, labelWidths: seq<Int32>, valueWidths: seq<Int32>)
    requires |labelWidths| == 4 && |valueWidths| == 4
    requires PlausibleWidth(titleWidth)
    requires forall k :: 0 <= k < 4 ==> PlausibleWidth(labelWidths[k]) && PlausibleWidth(valueWidths[k])
    ensures PanelWidth(titleWidth, labelWidths, valueWidths) >= titleWidth as int + 20
    ensures forall k, l :: 0 <= k < 4 && 0 <= l < 4 ==>
      PanelWidth(titleWidth, labelWidths, valueWidths) >= labelWidths[k] as int + valueWidths[l] as int + 30
    ensures PanelWidth(titleWidth, labelWidths, valueWidths) == titleWidth as int + 20 ||
      exists k, l :: 0 <= k < 4 && 0 <= l < 4 &&
        PanelWidth(titleWidth, labelWidths, valueWidths) == labelWidths[k] as int + valueWidths[l] as int + 30
  {
    var maxLabelWidth := Max4(labelWidths[0], labelWidths[1], labelWidths[2], labelWidths[3]);
    var maxValueWidth := Max4(valueWidths[0], valueWidths[1], valueWidths[2], valueWidths[3]);
    assert forall k :: 0 <= k < 4 ==> labelWidths[k] <= maxLabelWidth && valueWidths[k] <= maxValueWidth;
    assert PanelWidth(titleWidth, labelWidths, valueWidths) == Max(titleWidth, maxLabelWidth + 10 + maxValueWidth) + 20;
  }

  /** Five elements added one by one to an empty list give the list of the five. */
  lemma AppendedOneByOne<T>(a: T, b: T, c: T, d: T, e: T)
    ensures [] + [a] + [b] + [c] + [d] + [e] == [a, b, c, d, e]
  {
  }

  /** The panel the overlay fills: its children and its preferred size. */
  class SuppliesCalculationOverlay {
    var children: seq<PanelChild>
    var preferredWidth: int
    var preferredHeight: int

    constructor ()
      ensures children == [] && preferredWidth == 0 && preferredHeight == 0
    {
      children := [];
      preferredWidth := 0;
      preferredHeight := 0;
    }

    /**
      Renders the panel for the given party size; `stringWidth` is the font's
      width of a text. When the overlay is disabled nothing happens and nothing
      is rendered. Otherwise the panel's children are cleared and refilled with
      the supplies lines, and its preferred width becomes the panel width of
      the texts, its preferred height staying as it was.
     */
    method Render(config: Config, partySize: Int32, stringWidth: string -> Int32) returns (rendered: bool)
      modifies this
      ensures rendered == config.enableSuppliesCalculationOverlay
      ensures !rendered ==> unchanged(this)
      ensures rendered ==> children == SuppliesLines(partySize)
      ensures rendered ==> preferredWidth == PanelWidth(stringWidth(TitleText),
        [stringWidth(ActualSizeLabel), stringWidth(OverloadsLabel), stringWidth(FishLabel), stringWidth(GolparLabel)],
        [stringWidth(IntToDecimal(partySize)), stringWidth(IntToDecimal(Overloads(partySize))),
         stringWidth(IntToDecimal(Fish(partySize))), stringWidth(IntToDecimal(Golpar(partySize)))])
      ensures preferredHeight == old(preferredHeight)
    {
      if !config.enableSuppliesCalculationOverlay {
        return false;
      }
      children := [];

      var overloads := Overloads(partySize);
      var fish := Fish(partySize);
      var golpar := Golpar(partySize);

      var actualSizeValue := IntToDecimal(partySize);
      var overloadsValue := IntToDecimal(overloads);
      var fishValue := IntToDecimal(fish);
      var golparValue := IntToDecimal(golpar);

      var titleWidth := stringWidth(TitleText);
      var labelWidths := [stringWidth(ActualSizeLabel), stringWidth(OverloadsLabel),
                          stringWidth(FishLabel), stringWidth(GolparLabel)];
      var valueWidths := [stringWidth(actualSizeValue), stringWidth(overloadsValue),
                          stringWidth(fishValue), stringWidth(golparValue)];
      preferredWidth := PanelWidth(titleWidth, labelWidths, valueWidths);

      var lines := children;
      lines := lines + [Title(TitleText)];
      lines := lines + [Line(ActualSizeLabel, actualSizeValue)];
      lines := lines + [Line(OverloadsLabel, overloadsValue)];
      lines := lines + [Line(FishLabel, fishValue)];
      lines := lines + [Line(GolparLabel, golparValue)];
      children := lines;
      AppendedOneByOne(Title(TitleText), Line(ActualSizeLabel, actualSizeValue), Line(OverloadsLabel, overloadsValue),
        Line(FishLabel, fishValue), Line(GolparLabel, golparValue));
      rendered := true;
    }
  }
}
