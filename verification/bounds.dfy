/** The coarse bounds check `fillRect` applies to its two corners.

    As written the check joins its four comparisons with `||`, and compares the
    signed coordinates with the unsigned resolution fields, so a negative
    coordinate is first converted to a large unsigned value. `InBounds` models
    exactly that; `InBoundsIntended` is the conjunction the check was meant to be.
 */
module Bounds {
  import opened Geometry

  /** The C conversion of an `int` to `unsigned int` (modulo 2^32). */
  function ToUnsigned(v: int): (u: u32)
    requires IsInt32(v)
    ensures u % TWO_32 == v % TWO_32
  {
    if v < 0 then v + TWO_32 else v
  }

  /** `inBounds` as written. */
  function InBounds(s: Globals, x: int, y: int): bool
    requires IsInt32(x) && IsInt32(y)
  {
    || x >= 0
    || y >= 0
    || ToUnsigned(x) < s.variableInfo.xres
    || ToUnsigned(y) < s.variableInfo.yres
  }

  /** The check the function was evidently meant to make. */
  predicate InBoundsIntended(s: Globals, x: int, y: int) {
    0 <= x < s.variableInfo.xres && 0 <= y < s.variableInfo.yres
  }

  /** What the written check accepts: every coordinate with one non-negative
      component, and beyond that only a corner whose components are both negative
      yet whose unsigned images fall below the resolution. On any screen no more
      than 2^31 pixels wide and high it is exactly "x >= 0 or y >= 0". */
  lemma InBoundsAccepts(s: Globals, x: int, y: int)
    requires IsInt32(x) && IsInt32(y)
    ensures InBounds(s, x, y) <==>
              || x >= 0 || y >= 0
              || x + TWO_32 < s.variableInfo.xres
              || y + TWO_32 < s.variableInfo.yres
    ensures s.variableInfo.xres <= 0x8000_0000 && s.variableInfo.yres <= 0x8000_0000 ==>
              (InBounds(s, x, y) <==> x >= 0 || y >= 0)
  {
  }

  /** The written check is weaker than the intended one: it accepts every
      coordinate the intended one accepts. */
  lemma IntendedImpliesInBounds(s: Globals, x: int, y: int)
    requires IsInt32(x) && IsInt32(y)
    requires InBoundsIntended(s, x, y)
    ensures InBounds(s, x, y)
  {
  }

  /** ... and strictly weaker: the column just right of the screen passes it. */
  lemma InBoundsAcceptsOffscreen(s: Globals)
    requires s.variableInfo.xres < 0x8000_0000
    ensures InBounds(s, s.variableInfo.xres, 0)
    ensures !InBoundsIntended(s, s.variableInfo.xres, 0)
  {
  }
}
