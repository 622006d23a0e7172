/** Display geometry and drawing state of the framebuffer demo.

    The drawing code reads a handful of fields of the Linux fbdev screen-info
    records and three process-wide colours. Here they are gathered into one
    immutable record, `Globals`, that every operation takes explicitly.
 */
module Geometry {

  const TWO_32: int := 0x1_0000_0000

  /** An unsigned 32-bit field of the screen-info records (`__u32`). */
  type u32 = v: int | 0 <= v < TWO_32

  /** The range of the C `int` coordinates the drawing functions take. */
  predicate IsInt32(v: int) {
    -0x8000_0000 <= v < 0x8000_0000
  }

  /** Position of one colour channel inside a packed pixel word. */
  datatype Bitfield = Bitfield(offset: bv32)

  /** The part of `fb_fix_screeninfo` the drawing code reads: the scan-line stride in bytes. */
  datatype FixedInfo = FixedInfo(lineLength: u32)

  /** The part of `fb_var_screeninfo` the drawing code reads. */
  datatype VariableInfo = VariableInfo(
    xres: u32, yres: u32,
    yresVirtual: u32,
    xoffset: u32, yoffset: u32,
    bitsPerPixel: u32,
    red: Bitfield, green: Bitfield, blue: Bitfield)

  /** The globals of the program: three packed colours and the two screen-info records. */
  datatype Globals = Globals(
    fillColor: bv32,
    strokeColor: bv32,
    clearColor: bv32,
    fixedInfo: FixedInfo,
    variableInfo: VariableInfo)

  datatype Pixel = Pixel(x: int, y: int)

  /** The pixel depth the program asks the driver for before drawing. */
  predicate TrueColor(s: Globals) {
    s.variableInfo.bitsPerPixel == 32
  }

  /** Size in bytes of the mapped framebuffer. Both factors are `__u32`, so the
      product is computed modulo 2^32 before it is widened to `long`. */
  function ScreenSize(fi: FixedInfo, vi: VariableInfo): (n: nat)
    ensures n < TWO_32
    ensures vi.yresVirtual * fi.lineLength < TWO_32 ==> n == vi.yresVirtual * fi.lineLength
  {
    (vi.yresVirtual * fi.lineLength) % TWO_32
  }
}
