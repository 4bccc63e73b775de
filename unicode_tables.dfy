/** The static script tables that the selection rules read: the current set
    (src/unicode_ranges.py, read through src/config.py) and the older set
    (unicode_ranges.py, read through config.py by ranges.py, cid.py and
    build.py), whose ideograph table stops at the Basic Multilingual Plane. */
module UnicodeTables {
  import opened Ranges

  datatype RangeTables = RangeTables(
    digit: seq<Range>,
    hangul: seq<Range>,
    enclosed: seq<Range>,
    kana: seq<Range>,
    cjk: seq<Range>,
    exclude: seq<Range>)
  {
    /** JP_TARGET_RANGES: the kana ranges followed by the ideograph ranges. */
    function JpTarget(): seq<Range> { kana + cjk }

    /** jp_allowed as configured by this table set. */
    function JpAllowed(u: int): bool { JpAllowedIn(u, exclude, digit) }

    /** Every entry of every table is an inclusive pair with start <= end. */
    predicate WellFormed()
    {
      Ordered(digit) && Ordered(hangul) && Ordered(enclosed) &&
      Ordered(kana) && Ordered(cjk) && Ordered(exclude)
    }
  }

  /** Every pair of the list has start <= end. */
  predicate Ordered(rs: seq<Range>)
  {
    forall k :: 0 <= k < |rs| ==> rs[k].0 <= rs[k].1
  }

  const DigitRanges: seq<Range> := [
    (0x0030, 0x0039), (0xFF10, 0xFF19), (0x2070, 0x2079), (0x2080, 0x2089)]

  const HangulMainRanges: seq<Range> := [
    (0xAC00, 0xD7A3), (0x3130, 0x318F), (0x1100, 0x11FF), (0xA960, 0xA97F), (0xD7B0, 0xD7FF)]

  const EnclosedRanges: seq<Range> := [
    (0x2460, 0x24FF), (0x3200, 0x32FF), (0x2776, 0x2793), (0x1F100, 0x1F1FF), (0x1F200, 0x1F2FF)]

  const KanaRanges: seq<Range> := [
    (0x3040, 0x309F), (0x30A0, 0x30FF), (0x31F0, 0x31FF), (0xFF65, 0xFF9F),
    (0x1B000, 0x1B0FF), (0x1B100, 0x1B12F), (0x1B130, 0x1B16F)]

  const ExcludePunctSymbolRanges: seq<Range> := [
    (0x2000, 0x206F), (0x3000, 0x303F), (0xFE10, 0xFE1F),
    (0xFE30, 0xFE4F), (0xFF00, 0xFF0F), (0xFF1A, 0xFF60)]

  /** Ideographs of src/unicode_ranges.py: the BMP blocks, the compatibility
      supplement and extensions B to I. */
  const CjkIdeographRanges: seq<Range> := [
    (0x3400, 0x4DBF), (0x4E00, 0x9FFF), (0xF900, 0xFAFF), (0x2F800, 0x2FA1F),
    (0x20000, 0x2A6DF), (0x2A700, 0x2B73F), (0x2B740, 0x2B81F), (0x2B820, 0x2CEAF),
    (0x2CEB0, 0x2EBEF), (0x30000, 0x3134F), (0x31350, 0x323AF), (0x2EBF0, 0x2EE5F)]

  /** Ideographs of the older unicode_ranges.py: BMP blocks only. */
  const LegacyCjkIdeographRanges: seq<Range> := [
    (0x3400, 0x4DBF), (0x4E00, 0x9FFF), (0xF900, 0xFAFF)]

  const Current: RangeTables := RangeTables(
    DigitRanges, HangulMainRanges, EnclosedRanges, KanaRanges,
    CjkIdeographRanges, ExcludePunctSymbolRanges)

  const Legacy: RangeTables := RangeTables(
    DigitRanges, HangulMainRanges, EnclosedRanges, KanaRanges,
    LegacyCjkIdeographRanges, ExcludePunctSymbolRanges)

  lemma TablesWellFormed()
    ensures Current.WellFormed() && Legacy.WellFormed()
  {
    assert Ordered(DigitRanges);
    assert Ordered(HangulMainRanges);
    assert Ordered(EnclosedRanges);
    assert Ordered(KanaRanges);
    assert Ordered(ExcludePunctSymbolRanges);
    assert Ordered(CjkIdeographRanges);
    assert Ordered(LegacyCjkIdeographRanges);
  }

  /** Iterating the JP targets visits every kana codepoint before any
      ideograph. */
  lemma JpTargetKanaFirst(t: RangeTables)
    ensures IterRanges(t.JpTarget()) == IterRanges(t.kana) + IterRanges(t.cjk)
  {
    IterRangesConcat(t.kana, t.cjk);
  }

  /** The halfwidth katakana block is one of the kana ranges. */
  lemma HalfwidthIsKana()
    ensures (0xFF65, 0xFF9F) in Current.kana && (0xFF65, 0xFF9F) in Legacy.kana
    ensures forall u :: 0xFF65 <= u <= 0xFF9F ==> InAny(u, KanaRanges)
  {
    forall u | 0xFF65 <= u <= 0xFF9F ensures InAny(u, KanaRanges) {
      InAnyIff(u, KanaRanges);
      assert KanaRanges[3] == (0xFF65, 0xFF9F);
    }
  }

  /** No digit codepoint is excluded punctuation. */
  lemma DigitsNotExcluded(u: int)
    requires InAny(u, DigitRanges)
    ensures !InAny(u, ExcludePunctSymbolRanges)
  {
    InAnyIff(u, DigitRanges);
    InAnyIff(u, ExcludePunctSymbolRanges);
  }

  /** The fullwidth exclusions skip exactly the fullwidth digits, and the
      general-punctuation exclusion stops at U+206F, below the superscripts. */
  lemma ExclusionBoundaries(u: int)
    ensures 0xFF00 <= u <= 0xFF60 ==>
              (InAny(u, ExcludePunctSymbolRanges) <==> !(0xFF10 <= u <= 0xFF19))
    ensures 0x2000 <= u <= 0x2089 ==>
              (InAny(u, ExcludePunctSymbolRanges) <==> u <= 0x206F)
  {
    var ex := ExcludePunctSymbolRanges;
    InAnyIff(u, ex);
    if 0xFF00 <= u <= 0xFF0F { assert ex[4].0 <= u <= ex[4].1; }
    if 0xFF1A <= u <= 0xFF60 { assert ex[5].0 <= u <= ex[5].1; }
    if 0x2000 <= u <= 0x206F { assert ex[0].0 <= u <= ex[0].1; }
  }

  /** Since digits are never excluded, jp_allowed is just "not excluded". */
  lemma JpAllowedIffNotExcluded(t: RangeTables, u: int)
    requires t == Current || t == Legacy
    ensures t.JpAllowed(u) <==> !InAny(u, ExcludePunctSymbolRanges)
  {
    if InAny(u, DigitRanges) {
      DigitsNotExcluded(u);
    }
  }

  /** Every older ideograph range lies inside the BMP; the current table
      reaches beyond it. */
  lemma LegacyCjkInBmp()
    ensures forall r | r in Legacy.cjk :: r.1 <= 0xFFFF
    ensures forall u :: InAny(u, Legacy.cjk) ==> u <= 0xFFFF
    ensures InAny(0x20000, Current.cjk) && !InAny(0x20000, Legacy.cjk)
  {
    forall u | InAny(u, Legacy.cjk) ensures u <= 0xFFFF {
      InAnyIff(u, Legacy.cjk);
    }
    InAnyIff(0x20000, Current.cjk);
    InAnyIff(0x20000, Legacy.cjk);
    assert Current.cjk[4] == (0x20000, 0x2A6DF);
  }
}
