/** Pixel addressing: from a logical coordinate to a byte offset into the
    mapped framebuffer, and the one-word store at that offset.

    The framebuffer is modelled as word slots keyed by byte offset: a store
    replaces the 32-bit word at one offset. `SlotsDisjoint` shows that pixels
    of a 32-bit-per-pixel surface that fit on their scan line occupy
    non-overlapping 4-byte slots. On a word-addressed surface every offset is
    a multiple of 4 (`LocationAligned`), and distinct multiples of 4 start
    disjoint 4-byte ranges (`WordsDisjoint`), which is what makes this view
    faithful for an aligned buffer.
 */
module Addressing {
  import opened Geometry

  type Buffer = map<int, bv32>

  function BytesPerPixel(s: Globals): nat {
    s.variableInfo.bitsPerPixel / 8
  }

  /** The byte offset of pixel `(x, y)` (the value `getPixelLocation` computes). */
  function PixelLocation(s: Globals, x: int, y: int): int {
    (x + s.variableInfo.xoffset) * BytesPerPixel(s)
    + (y + s.variableInfo.yoffset) * s.fixedInfo.lineLength
  }

  /** Stepping one pixel to the right moves one pixel's width in bytes: 4 on a 32-bit surface. */
  lemma StrideX(s: Globals, x: int, y: int)
    ensures PixelLocation(s, x + 1, y) == PixelLocation(s, x, y) + BytesPerPixel(s)
    ensures TrueColor(s) ==> PixelLocation(s, x + 1, y) == PixelLocation(s, x, y) + 4
  {
    var k := BytesPerPixel(s);
    var c := x + s.variableInfo.xoffset;
    assert (c + 1) * k == c * k + k;
  }

  /** Stepping one pixel down moves one scan line. */
  lemma StrideY(s: Globals, x: int, y: int)
    ensures PixelLocation(s, x, y + 1) == PixelLocation(s, x, y) + s.fixedInfo.lineLength
  {
    var l := s.fixedInfo.lineLength;
    var r := y + s.variableInfo.yoffset;
    assert (r + 1) * l == r * l + l;
  }

  /** Pixel `(x, y)`, shifted by the viewport offset, lies on a scan line of the
      virtual surface and its 4 bytes end before the line's stride. */
  predicate Fits(s: Globals, x: int, y: int) {
    && 0 <= x + s.variableInfo.xoffset
    && (x + s.variableInfo.xoffset + 1) * 4 <= s.fixedInfo.lineLength
    && 0 <= y + s.variableInfo.yoffset < s.variableInfo.yresVirtual
  }

  /** A fitting pixel's 4-byte word lies inside the `yresVirtual * lineLength`
      bytes of the virtual surface, and so inside the mapped `ScreenSize` bytes
      whenever that product does not wrap. */
  lemma LocationBound(s: Globals, x: int, y: int)
    requires TrueColor(s) && Fits(s, x, y)
    ensures 0 <= PixelLocation(s, x, y)
    ensures PixelLocation(s, x, y) + 4 <= s.variableInfo.yresVirtual * s.fixedInfo.lineLength
    ensures s.variableInfo.yresVirtual * s.fixedInfo.lineLength < TWO_32 ==>
              PixelLocation(s, x, y) + 4 <= ScreenSize(s.fixedInfo, s.variableInfo)
  {
    var c := x + s.variableInfo.xoffset;
    var r := y + s.variableInfo.yoffset;
    var l := s.fixedInfo.lineLength;
    var v := s.variableInfo.yresVirtual;
    assert PixelLocation(s, x, y) == c * 4 + r * l;
    assert 0 <= r * l;
    assert (r + 1) * l == r * l + l;
    assert (r + 1) * l <= v * l by {
      assert r + 1 <= v;
      MulMonotone(r + 1, v, l);
    }
  }

  /** On a surface of 2^16 scan lines of 2^16 bytes the 32-bit product that sizes
      the mapping wraps to 0, so the word of pixel `(0, 0)`, which fits on its
      scan line, lies outside the mapped bytes. */
  lemma ScreenSizeWraps(s: Globals)
    requires TrueColor(s)
    requires s.variableInfo.yresVirtual == 0x1_0000 && s.fixedInfo.lineLength == 0x1_0000
    requires s.variableInfo.xoffset == 0 && s.variableInfo.yoffset == 0
    ensures Fits(s, 0, 0)
    ensures ScreenSize(s.fixedInfo, s.variableInfo) == 0
    ensures PixelLocation(s, 0, 0) + 4 > ScreenSize(s.fixedInfo, s.variableInfo)
  {
  }

  lemma MulMonotone(a: int, b: int, m: nat)
    requires a <= b
    ensures a * m <= b * m
  {
    assert b * m - a * m == (b - a) * m;
  }

  /** Two different fitting pixels own non-overlapping 4-byte slots. */
  lemma SlotsDisjoint(s: Globals, x1: int, y1: int, x2: int, y2: int)
    requires TrueColor(s) && Fits(s, x1, y1) && Fits(s, x2, y2)
    requires (x1, y1) != (x2, y2)
    ensures PixelLocation(s, x1, y1) + 4 <= PixelLocation(s, x2, y2)
         || PixelLocation(s, x2, y2) + 4 <= PixelLocation(s, x1, y1)
  {
    if y1 == y2 {
      assert PixelLocation(s, x2, y2) - PixelLocation(s, x1, y1) == (x2 - x1) * 4;
    } else if y1 < y2 {
      RowsApart(s, x1, y1, x2, y2);
    } else {
      RowsApart(s, x2, y2, x1, y1);
    }
  }

  /** A fitting pixel on a later scan line starts no earlier than the end of
      the 4-byte slot of any fitting pixel on an earlier one. */
  lemma RowsApart(s: Globals, x1: int, y1: int, x2: int, y2: int)
    requires TrueColor(s) && Fits(s, x1, y1) && Fits(s, x2, y2)
    requires y1 < y2
    ensures PixelLocation(s, x1, y1) + 4 <= PixelLocation(s, x2, y2)
  {
    var l := s.fixedInfo.lineLength;
    var r1 := y1 + s.variableInfo.yoffset;
    var r2 := y2 + s.variableInfo.yoffset;
    var c1 := x1 + s.variableInfo.xoffset;
    var c2 := x2 + s.variableInfo.xoffset;
    assert PixelLocation(s, x1, y1) == c1 * 4 + r1 * l;
    assert PixelLocation(s, x2, y2) == c2 * 4 + r2 * l;
    MulMonotone(r1 + 1, r2, l);
    assert (r1 + 1) * l == r1 * l + l;
  }

  /** A surface on which every pixel offset falls on a word boundary: 32 bits per
      pixel and a scan-line stride that is a whole number of words. */
  predicate WordAddressed(s: Globals) {
    TrueColor(s) && s.fixedInfo.lineLength % 4 == 0
  }

  /** Every slot of the buffer starts on a word boundary. */
  predicate Aligned(buf: Buffer) {
    forall k :: k in buf ==> k % 4 == 0
  }

  /** On a word-addressed surface every pixel's offset is a multiple of 4. */
  lemma LocationAligned(s: Globals, x: int, y: int)
    requires WordAddressed(s)
    ensures PixelLocation(s, x, y) % 4 == 0
  {
    var m := s.fixedInfo.lineLength / 4;
    var c := x + s.variableInfo.xoffset;
    var r := y + s.variableInfo.yoffset;
    assert s.fixedInfo.lineLength == 4 * m;
    assert r * (4 * m) == 4 * (r * m);
    assert PixelLocation(s, x, y) == 4 * (c + r * m);
  }

  /** Two different word-aligned slots cover disjoint 4-byte ranges, so a store
      into one leaves every byte of the other alone. */
  lemma WordsDisjoint(k1: int, k2: int)
    requires k1 % 4 == 0 && k2 % 4 == 0 && k1 != k2
    ensures k1 + 4 <= k2 || k2 + 4 <= k1
  {
    assert k1 == 4 * (k1 / 4) && k2 == 4 * (k2 / 4);
    if k1 / 4 < k2 / 4 {
      assert k1 / 4 + 1 <= k2 / 4;
    } else {
      assert k2 / 4 + 1 <= k1 / 4;
    }
  }

  /** Painting word-aligned slots keeps the buffer aligned. */
  lemma PaintAligned(buf: Buffer, slots: set<int>, c: bv32)
    requires Aligned(buf)
    requires forall k :: k in slots ==> k % 4 == 0
    ensures Aligned(Paint(buf, slots, c))
  {
  }

  /** The buffer after storing `c` into every slot of `slots`: the reference
      against which the drawing loops are stated. */
  function Paint(buf: Buffer, slots: set<int>, c: bv32): Buffer {
    map k | k in buf.Keys + slots :: if k in slots then c else buf[k]
  }

  /** Painting stores `c` into exactly the given slots and leaves every other slot's word alone. */
  lemma PaintEffect(buf: Buffer, slots: set<int>, c: bv32)
    ensures Paint(buf, slots, c).Keys == buf.Keys + slots
    ensures forall k :: k in slots ==> Paint(buf, slots, c)[k] == c
    ensures forall k :: k in buf && k !in slots ==> Paint(buf, slots, c)[k] == buf[k]
  {
  }

  /** Pixel `(x, y)` of `b` holds the word `c`. */
  predicate Holds(s: Globals, b: Buffer, x: int, y: int, c: bv32) {
    PixelLocation(s, x, y) in b && b[PixelLocation(s, x, y)] == c
  }

  /** `setPixelColor`: store one word at the pixel's offset; no bounds check. */
  function SetPixelColor(s: Globals, buf: Buffer, x: int, y: int, color: bv32): Buffer
  {
    buf[PixelLocation(s, x, y) := color]
  }

  /** `setPixelColor` as the source stands: `getPixelLocation` falls off its end
      without a `return`, which C++ leaves undefined. This models the executions
      in which one store still happens, at an offset the source does not
      determine, here the free parameter `loc`. When the word at `loc` does not overlap the pixel's
      word, the pixel holds `color` afterwards only if it held it before. */
  function SetPixelColorAsWritten(s: Globals, buf: Buffer, x: int, y: int, color: bv32, loc: int): (r: Buffer)
    ensures loc == PixelLocation(s, x, y) ==> r == SetPixelColor(s, buf, x, y, color)
    ensures loc + 4 <= PixelLocation(s, x, y) || PixelLocation(s, x, y) + 4 <= loc ==>
              (Holds(s, r, x, y, color) <==> Holds(s, buf, x, y, color))
  {
    buf[loc := color]
  }

  /** A store through the lost offset can leave the pixel without its colour,
      where the corrected store always sets it. */
  lemma MissingReturnMissesPixel(s: Globals, x: int, y: int, color: bv32)
    ensures var buf := map[PixelLocation(s, x, y) := !color];
            && !Holds(s, SetPixelColorAsWritten(s, buf, x, y, color, PixelLocation(s, x, y) + 4), x, y, color)
            && Holds(s, SetPixelColor(s, buf, x, y, color), x, y, color)
  {
  }

  /** A store puts the word into the pixel's slot and changes no other slot. */
  lemma SetPixelColorFrame(s: Globals, buf: Buffer, x: int, y: int, color: bv32)
    ensures Holds(s, SetPixelColor(s, buf, x, y, color), x, y, color)
    ensures SetPixelColor(s, buf, x, y, color) == Paint(buf, {PixelLocation(s, x, y)}, color)
    ensures SetPixelColor(s, buf, x, y, color).Keys == buf.Keys + {PixelLocation(s, x, y)}
    ensures forall k :: k in buf && k != PixelLocation(s, x, y) ==>
              SetPixelColor(s, buf, x, y, color)[k] == buf[k]
  {
  }

  /** Painting one more slot with the same word extends the painted set. */
  lemma PaintOneMore(buf: Buffer, slots: set<int>, k: int, c: bv32)
    ensures Paint(buf, slots, c)[k := c] == Paint(buf, slots + {k}, c)
  {
  }

  /** Painting two slot sets with the same word paints their union. */
  lemma PaintTwice(buf: Buffer, first: set<int>, second: set<int>, c: bv32)
    ensures Paint(Paint(buf, first, c), second, c) == Paint(buf, first + second, c)
  {
  }

  lemma PaintNothing(buf: Buffer, c: bv32)
    ensures Paint(buf, {}, c) == buf
  {
  }
}
