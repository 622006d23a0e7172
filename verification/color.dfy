/** Packing of an RGB triple into one 32-bit pixel word. */
module Color {
  import opened Geometry

  /** Shifting an 8-bit channel further than 24 bits overflows the promoted
      `int` in the source; the model stays within the defined range. */
  predicate ValidOffsets(vi: VariableInfo) {
    vi.red.offset <= 24 && vi.green.offset <= 24 && vi.blue.offset <= 24
  }

  /** The 8-bit ranges starting at bit `a` and at bit `b` do not overlap
      (both offsets at most 24, so the additions do not wrap). */
  predicate Apart(a: bv32, b: bv32) {
    a + 8 <= b || b + 8 <= a
  }

  /** The three channels occupy pairwise disjoint bit ranges. */
  predicate ChannelsDisjoint(vi: VariableInfo) {
    && ValidOffsets(vi)
    && Apart(vi.red.offset, vi.green.offset)
    && Apart(vi.red.offset, vi.blue.offset)
    && Apart(vi.green.offset, vi.blue.offset)
  }

  /** The 8 bits of `p` that start at bit `offset`. */
  function Channel(p: bv32, offset: bv32): bv8
    requires offset <= 24
  {
    ((p >> offset) & 0xFF) as bv8
  }

  /** `makeColoredPixel`: each channel shifted to its offset, the three ORed together. */
  function MakeColoredPixel(vi: VariableInfo, red: bv8, green: bv8, blue: bv8): bv32
    requires ValidOffsets(vi)
  {
    ((red as bv32) << vi.red.offset)
    | ((green as bv32) << vi.green.offset)
    | ((blue as bv32) << vi.blue.offset)
  }

  /** When the channels do not overlap, each one reads back exactly from the packed word. */
  lemma PackUnpack(vi: VariableInfo, red: bv8, green: bv8, blue: bv8)
    requires ChannelsDisjoint(vi)
    ensures Channel(MakeColoredPixel(vi, red, green, blue), vi.red.offset) == red
    ensures Channel(MakeColoredPixel(vi, red, green, blue), vi.green.offset) == green
    ensures Channel(MakeColoredPixel(vi, red, green, blue), vi.blue.offset) == blue
  {
    RedReadsBack(vi, red, green, blue);
    GreenReadsBack(vi, red, green, blue);
    BlueReadsBack(vi, red, green, blue);
  }

  lemma RedReadsBack(vi: VariableInfo, red: bv8, green: bv8, blue: bv8)
    requires ChannelsDisjoint(vi)
    ensures Channel(MakeColoredPixel(vi, red, green, blue), vi.red.offset) == red
  {
    ChannelSurvives(red, vi.red.offset, green, vi.green.offset, blue, vi.blue.offset);
  }

  lemma GreenReadsBack(vi: VariableInfo, red: bv8, green: bv8, blue: bv8)
    requires ChannelsDisjoint(vi)
    ensures Channel(MakeColoredPixel(vi, red, green, blue), vi.green.offset) == green
  {
    ChannelSurvives(green, vi.green.offset, red, vi.red.offset, blue, vi.blue.offset);
  }

  lemma BlueReadsBack(vi: VariableInfo, red: bv8, green: bv8, blue: bv8)
    requires ChannelsDisjoint(vi)
    ensures Channel(MakeColoredPixel(vi, red, green, blue), vi.blue.offset) == blue
  {
    ChannelSurvives(blue, vi.blue.offset, red, vi.red.offset, green, vi.green.offset);
  }

  /** A channel ORed with two others at offsets apart from its own reads back unchanged. */
  lemma ChannelSurvives(a: bv8, oa: bv32, b: bv8, ob: bv32, c: bv8, oc: bv32)
    requires oa <= 24 && ob <= 24 && oc <= 24
    requires Apart(oa, ob) && Apart(oa, oc)
    ensures Channel(((a as bv32) << oa) | ((b as bv32) << ob) | ((c as bv32) << oc), oa) == a
    ensures Channel(((b as bv32) << ob) | ((a as bv32) << oa) | ((c as bv32) << oc), oa) == a
    ensures Channel(((b as bv32) << ob) | ((c as bv32) << oc) | ((a as bv32) << oa), oa) == a
  {
  }

  /** Under disjoint channels, packing loses nothing: distinct triples give distinct words. */
  lemma PackingInjective(vi: VariableInfo, r1: bv8, g1: bv8, b1: bv8, r2: bv8, g2: bv8, b2: bv8)
    requires ChannelsDisjoint(vi)
    requires MakeColoredPixel(vi, r1, g1, b1) == MakeColoredPixel(vi, r2, g2, b2)
    ensures r1 == r2 && g1 == g2 && b1 == b2
  {
    PackUnpack(vi, r1, g1, b1);
    PackUnpack(vi, r2, g2, b2);
  }

  /** Black packs to the all-zero word, whatever the channel offsets. */
  lemma BlackIsZero(vi: VariableInfo)
    requires ValidOffsets(vi)
    ensures MakeColoredPixel(vi, 0, 0, 0) == 0
  {
  }

  /** The globals as the program sets them up once the screen info is known:
      black clear and fill colours, a yellow stroke colour. */
  function StartSession(fi: FixedInfo, vi: VariableInfo): (s: Globals)
    requires ValidOffsets(vi)
    ensures s.fixedInfo == fi && s.variableInfo == vi
    ensures s.clearColor == 0 && s.fillColor == 0
    ensures ChannelsDisjoint(vi) ==>
              && Channel(s.strokeColor, vi.red.offset) == 0xFF
              && Channel(s.strokeColor, vi.green.offset) == 0xFF
              && Channel(s.strokeColor, vi.blue.offset) == 0
  {
    BlackIsZero(vi);
    var s := Globals(
      fillColor := MakeColoredPixel(vi, 0x00, 0x00, 0x00),
      strokeColor := MakeColoredPixel(vi, 0xFF, 0xFF, 0x00),
      clearColor := MakeColoredPixel(vi, 0x00, 0x00, 0x00),
      fixedInfo := fi,
      variableInfo := vi);
    if ChannelsDisjoint(vi) then
      PackUnpack(vi, 0xFF, 0xFF, 0x00);
      s
    else
      s
  }
}
