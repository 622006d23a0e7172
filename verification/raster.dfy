/** Filled rectangles and screen clearing.

    Both operations walk a half-open rectangle column by column and store one
    word per pixel. Their effect is stated against `Paint` over the set of
    byte offsets the rectangle's pixels address: those slots hold the colour,
    every other slot keeps its word.
 */
module Raster {
  import opened Geometry
  import opened Addressing
  import opened Bounds

  /** The byte offsets of the pixels of `[x, x + w) × [y, y + h)`. */
  function RectSlots(s: Globals, x: int, y: int, w: int, h: int): set<int> {
    set xp: int, yp: int | x <= xp < x + w && y <= yp < y + h :: PixelLocation(s, xp, yp)
  }

  /** Each pixel of the rectangle contributes its offset to the rectangle's slots. */
  lemma RectSlotsMembership(s: Globals, x: int, y: int, w: int, h: int, xp: int, yp: int)
    requires x <= xp < x + w && y <= yp < y + h
    ensures PixelLocation(s, xp, yp) in RectSlots(s, x, y, w, h)
  {
  }

  lemma RectSlotsEmpty(s: Globals, x: int, y: int, w: int, h: int)
    requires w <= 0 || h <= 0
    ensures RectSlots(s, x, y, w, h) == {}
  {
  }

  /** Adding the next column to the right. */
  lemma RectSlotsAddColumn(s: Globals, x: int, y: int, w: int, h: int)
    requires 0 <= w
    ensures RectSlots(s, x, y, w + 1, h) == RectSlots(s, x, y, w, h) + RectSlots(s, x + w, y, 1, h)
  {
  }

  /** Adding the next pixel at the bottom of a one-pixel-wide column. */
  lemma RectSlotsAddCell(s: Globals, x: int, y: int, n: int)
    requires 0 <= n
    ensures RectSlots(s, x, y, 1, n + 1) == RectSlots(s, x, y, 1, n) + {PixelLocation(s, x, y + n)}
  {
  }

  /** On a word-addressed surface every slot of a rectangle is word-aligned. */
  lemma RectSlotsAligned(s: Globals, x: int, y: int, w: int, h: int)
    requires WordAddressed(s)
    ensures forall k :: k in RectSlots(s, x, y, w, h) ==> k % 4 == 0
  {
    forall k | k in RectSlots(s, x, y, w, h)
      ensures k % 4 == 0
    {
      var xp, yp :| x <= xp < x + w && y <= yp < y + h && PixelLocation(s, xp, yp) == k;
      LocationAligned(s, xp, yp);
    }
  }

  /** A painted rectangle, read pixel by pixel: every pixel inside holds `c`, and a
      slot that no pixel inside addresses keeps its word. */
  lemma PaintedRect(s: Globals, buf: Buffer, x: int, y: int, w: int, h: int, c: bv32)
    ensures forall xp, yp :: x <= xp < x + w && y <= yp < y + h ==>
              Holds(s, Paint(buf, RectSlots(s, x, y, w, h), c), xp, yp, c)
    ensures forall k :: k in buf && (forall xp, yp :: x <= xp < x + w && y <= yp < y + h ==> PixelLocation(s, xp, yp) != k) ==>
              Paint(buf, RectSlots(s, x, y, w, h), c)[k] == buf[k]
  {
    forall xp, yp | x <= xp < x + w && y <= yp < y + h
      ensures Holds(s, Paint(buf, RectSlots(s, x, y, w, h), c), xp, yp, c)
    {
      RectSlotsMembership(s, x, y, w, h, xp, yp);
    }
  }

  /** One store of the inner loop extends the painted column by one pixel. */
  lemma CellStep(s: Globals, buf: Buffer, x: int, y: int, yPos: int, c: bv32)
    requires y <= yPos
    ensures SetPixelColor(s, Paint(buf, RectSlots(s, x, y, 1, yPos - y), c), x, yPos, c)
         == Paint(buf, RectSlots(s, x, y, 1, yPos + 1 - y), c)
  {
    RectSlotsAddCell(s, x, y, yPos - y);
    PaintOneMore(buf, RectSlots(s, x, y, 1, yPos - y), PixelLocation(s, x, yPos), c);
  }

  /** The inner loop: store `c` into column `x`, rows `y` up to `y + height`. */
  method PaintColumn(s: Globals, buf: Buffer, x: int, y: int, height: int, c: bv32)
    returns (b: Buffer)
    ensures b == Paint(buf, RectSlots(s, x, y, 1, height), c)
  {
    b := buf;
    RectSlotsEmpty(s, x, y, 1, 0);
    PaintNothing(buf, c);
    var yPos := y;
    while yPos < y + height
      invariant y <= yPos && (yPos <= y + height || yPos == y)
      invariant b == Paint(buf, RectSlots(s, x, y, 1, yPos - y), c)
      decreases y + height - yPos
    {
      CellStep(s, buf, x, y, yPos, c);
      b := SetPixelColor(s, b, x, yPos, c);
      yPos := yPos + 1;
    }
    if height <= 0 {
      RectSlotsEmpty(s, x, y, 1, height);
    }
  }

  /** One finished column extends the painted rectangle by that column. */
  lemma ColumnStep(s: Globals, buf: Buffer, x: int, y: int, xPos: int, h: int, c: bv32)
    requires x <= xPos
    ensures Paint(Paint(buf, RectSlots(s, x, y, xPos - x, h), c), RectSlots(s, xPos, y, 1, h), c)
         == Paint(buf, RectSlots(s, x, y, xPos + 1 - x, h), c)
  {
    RectSlotsAddColumn(s, x, y, xPos - x, h);
    PaintTwice(buf, RectSlots(s, x, y, xPos - x, h), RectSlots(s, xPos, y, 1, h), c);
  }

  /** The outer loop of `fillRect` and `clearScreen`: for each column from `x`,
      paint that column. */
  method PaintRect(s: Globals, buf: Buffer, x: int, y: int, width: int, height: int, c: bv32)
    returns (b: Buffer)
    ensures b == Paint(buf, RectSlots(s, x, y, width, height), c)
  {
    b := buf;
    RectSlotsEmpty(s, x, y, 0, height);
    PaintNothing(buf, c);
    var xPos := x;
    while xPos < x + width
      invariant x <= xPos && (xPos <= x + width || xPos == x)
      invariant b == Paint(buf, RectSlots(s, x, y, xPos - x, height), c)
      decreases x + width - xPos
    {
      ColumnStep(s, buf, x, y, xPos, height, c);
      b := PaintColumn(s, b, xPos, y, height, c);
      xPos := xPos + 1;
    }
    if width <= 0 {
      RectSlotsEmpty(s, x, y, width, height);
    }
  }

  /** The guard of `fillRect`: both corners pass the written bounds check. */
  predicate FillGuard(s: Globals, x: int, y: int, width: int, height: int)
    requires IsInt32(x) && IsInt32(y) && IsInt32(x + width) && IsInt32(y + height)
  {
    InBounds(s, x, y) && InBounds(s, x + width, y + height)
  }

  /** `fillRect`: if a corner fails the bounds check nothing is stored; otherwise every
      pixel of `[x, x + width) × [y, y + height)` gets the fill colour and no other slot changes. */
  method FillRect(s: Globals, buf: Buffer, x: int, y: int, width: int, height: int)
    returns (b: Buffer)
    requires IsInt32(x) && IsInt32(y) && IsInt32(width) && IsInt32(height)
    requires IsInt32(x + width) && IsInt32(y + height)
    requires WordAddressed(s) && Aligned(buf)
    ensures Aligned(b)
    ensures !FillGuard(s, x, y, width, height) ==> b == buf
    ensures width <= 0 || height <= 0 ==> b == buf
    ensures FillGuard(s, x, y, width, height) ==>
              && b == Paint(buf, RectSlots(s, x, y, width, height), s.fillColor)
              && forall xp, yp :: x <= xp < x + width && y <= yp < y + height ==>
                   Holds(s, b, xp, yp, s.fillColor)
  {
    if InBounds(s, x, y) == false || InBounds(s, x + width, y + height) == false {
      return buf;
    }
    b := PaintRect(s, buf, x, y, width, height, s.fillColor);
    PaintedRect(s, buf, x, y, width, height, s.fillColor);
    RectSlotsAligned(s, x, y, width, height);
    PaintAligned(buf, RectSlots(s, x, y, width, height), s.fillColor);
    if width <= 0 || height <= 0 {
      RectSlotsEmpty(s, x, y, width, height);
      PaintNothing(buf, s.fillColor);
    }
  }

  /** The written guard refuses a rectangle only when one of its two corners has
      both coordinates negative. */
  lemma FillGuardRejectsOnlyNegativeCorners(s: Globals, x: int, y: int, width: int, height: int)
    requires IsInt32(x) && IsInt32(y) && IsInt32(x + width) && IsInt32(y + height)
    requires !FillGuard(s, x, y, width, height)
    ensures (x < 0 && y < 0) || (x + width < 0 && y + height < 0)
  {
    InBoundsAccepts(s, x, y);
    InBoundsAccepts(s, x + width, y + height);
  }

  /** The written guard lets a rectangle lying wholly right of the screen through. */
  lemma FillGuardAcceptsOffscreen(s: Globals)
    requires s.variableInfo.xres < 0x7FFF_FFFF
    ensures FillGuard(s, s.variableInfo.xres, 0, 1, 1)
    ensures !InBoundsIntended(s, s.variableInfo.xres, 0)
  {
  }

  /** `fillRect` with the intended conjunctive bounds check: a rectangle is drawn only
      when both corners lie on the visible screen, and then every slot it stores to
      belongs to a visible pixel. */
  method FillRectIntended(s: Globals, buf: Buffer, x: int, y: int, width: int, height: int)
    returns (b: Buffer)
    requires WordAddressed(s) && Aligned(buf)
    ensures Aligned(b)
    ensures !(InBoundsIntended(s, x, y) && InBoundsIntended(s, x + width, y + height)) ==> b == buf
    ensures InBoundsIntended(s, x, y) && InBoundsIntended(s, x + width, y + height) ==>
              && b == Paint(buf, RectSlots(s, x, y, width, height), s.fillColor)
              && RectSlots(s, x, y, width, height) <= RectSlots(s, 0, 0, s.variableInfo.xres, s.variableInfo.yres)
  {
    if !InBoundsIntended(s, x, y) || !InBoundsIntended(s, x + width, y + height) {
      return buf;
    }
    b := PaintRect(s, buf, x, y, width, height, s.fillColor);
    RectSlotsAligned(s, x, y, width, height);
    PaintAligned(buf, RectSlots(s, x, y, width, height), s.fillColor);
    forall k | k in RectSlots(s, x, y, width, height)
      ensures k in RectSlots(s, 0, 0, s.variableInfo.xres, s.variableInfo.yres)
    {
      var xp, yp :| x <= xp < x + width && y <= yp < y + height && PixelLocation(s, xp, yp) == k;
      RectSlotsMembership(s, 0, 0, s.variableInfo.xres, s.variableInfo.yres, xp, yp);
    }
  }

  /** `clearScreen`: every visible pixel gets the clear colour and no other slot changes. */
  method ClearScreen(s: Globals, buf: Buffer) returns (b: Buffer)
    requires WordAddressed(s) && Aligned(buf)
    ensures Aligned(b)
    ensures b == Paint(buf, RectSlots(s, 0, 0, s.variableInfo.xres, s.variableInfo.yres), s.clearColor)
    ensures forall x, y :: 0 <= x < s.variableInfo.xres && 0 <= y < s.variableInfo.yres ==>
              Holds(s, b, x, y, s.clearColor)
  {
    b := PaintRect(s, buf, 0, 0, s.variableInfo.xres, s.variableInfo.yres, s.clearColor);
    PaintedRect(s, buf, 0, 0, s.variableInfo.xres, s.variableInfo.yres, s.clearColor);
    RectSlotsAligned(s, 0, 0, s.variableInfo.xres, s.variableInfo.yres);
    PaintAligned(buf, RectSlots(s, 0, 0, s.variableInfo.xres, s.variableInfo.yres), s.clearColor);
  }
}
