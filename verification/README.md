# FrameDraw drawing core in Dafny

FrameDraw is a small C++ program that draws straight into a Linux framebuffer
(`/dev/fb0`). Once the screen information is known and the device memory is
mapped, everything is done by a thin layer of drawing functions in `main.cpp`.
This project models that layer:

- `makeColoredPixel` packs an RGB triple into a 32-bit pixel word.
- `getPixelLocation` turns `(x, y)` into a byte offset using the viewport
  offset, the bytes per pixel and the scan-line stride.
- `setPixelColor` stores one word at that offset.
- `inBounds` is the coarse bounds check.
- `fillRect` and `clearScreen` fill half-open rectangles.
- `sign` and `strokeLine` draw lines by unit stepping.

The program's globals are `fillColor`, `strokeColor`, `clearColor` and the two
screen-info records. Here they form one immutable record, `Geometry.Globals`,
that every operation takes as a parameter.

The mapped framebuffer is a `map<int, bv32>` of 32-bit word slots keyed by
byte offset (`Addressing.Buffer`). Each drawing method returns the new
buffer. Its effect is stated against a reference, `Addressing.Paint(buf,
slots, c)`, meaning "store `c` into exactly these slots".

Word slots are a faithful view of the byte buffer only when no two stores
overlap. `fillRect`, `clearScreen` and `strokeLine` therefore require a
word-addressed surface and an aligned buffer:

- `Addressing.WordAddressed`: 32 bits per pixel, which the program requests
  at main.cpp:109, and a scan-line stride that is a multiple of 4 bytes.
- `Addressing.Aligned`: every slot of the buffer starts at a multiple of 4.

Each drawing operation keeps the buffer aligned, and three lemmas tie the
view to the bytes:

- `Addressing.LocationAligned`: on such a surface every pixel offset is a
  multiple of 4.
- `Addressing.WordsDisjoint`: different multiples of 4 start disjoint 4-byte
  ranges.
- `Addressing.SlotsDisjoint`: different pixels that fit on their scan line
  own different slots.

`Addressing.LocationBound` places those slots inside the virtual surface's
`yres_virtual * line_length` bytes. They also lie inside the mapped
`ScreenSize` bytes, but only when that 32-bit product does not wrap (see
Findings).

Modules, one per component:

- `Geometry`: the records.
- `Color`: pixel packing and the initial colours.
- `Addressing`: offsets, the store, and `Paint`.
- `Bounds`: `inBounds`.
- `Raster`: `fillRect` and `clearScreen`.
- `Stroke`: `sign` and `strokeLine`.

## Model

| member | source | states |
|---|---|---|
| Geometry.ScreenSize | main.cpp:115 | The mapped size is computed in 32-bit unsigned arithmetic, so it is below 2^32. It equals `yres_virtual * line_length` whenever that product fits. |
| Color.MakeColoredPixel | main.cpp:19-21 | Packs red, green and blue by shifting each to its channel offset and ORing the three. `Color.PackUnpack` and `Color.BlackIsZero` state what the packed word means. |
| Color.PackUnpack | main.cpp:19-21 | When the three 8-bit channel ranges are pairwise disjoint, each channel reads back exactly from the packed word as `(p >> offset) & 0xFF`. |
| Color.PackingInjective | main.cpp:19-21 | With disjoint channels, two RGB triples that pack to the same word are the same triple. |
| Color.BlackIsZero | main.cpp:119 | Packing black gives the all-zero word for any valid channel offsets (each at most 24), and that word is what the program uses as clear colour. |
| Color.StartSession | main.cpp:119-121 | The initial globals keep the screen info unchanged. The clear and fill colours are the zero word. With disjoint channels the stroke colour reads back as red 0xFF, green 0xFF, blue 0. |
| Addressing.PixelLocation | main.cpp:23-24 | The byte offset line 24 computes. `Addressing.StrideX`, `Addressing.StrideY`, `Addressing.LocationBound`, `Addressing.SlotsDisjoint` and `Addressing.LocationAligned` state its meaning. |
| Addressing.SetPixelColorAsWritten | main.cpp:23-30 | An execution of the source's store that does store: one word at some offset `loc` that the source does not determine. If `loc` is the pixel's offset, this is the corrected store. If the word at `loc` does not overlap the pixel's word, the pixel holds the colour afterwards exactly when it held it before. |
| Addressing.MissingReturnMissesPixel | main.cpp:23-30 | For every pixel and colour there is a buffer and an offset `loc` after which the pixel does not hold the colour. The corrected store on the same buffer sets it. |
| Addressing.StrideX | main.cpp:24 | One step right moves the offset by `bits_per_pixel / 8` bytes, which is 4 on the 32-bpp surface the program requests. |
| Addressing.StrideY | main.cpp:24 | One step down moves the offset by `line_length` bytes. |
| Addressing.LocationBound | main.cpp:24 | Take a 32-bpp pixel with shifted column `c` and shifted row `r`. If `0 <= c`, `(c+1)*4 <= line_length` and `0 <= r < yres_virtual`, then its 4-byte word starts at offset 0 or later and ends within `yres_virtual * line_length`. When that product is below 2^32, the word also ends within the mapped `ScreenSize` bytes. |
| Addressing.ScreenSizeWraps | main.cpp:115-118 | With 2^16 scan lines of 2^16 bytes at 32 bpp and zero viewport offsets, pixel `(0, 0)` fits on its line, yet the 32-bit size is 0, so its word lies outside any mapping of that size. |
| Addressing.SlotsDisjoint | main.cpp:24 | Under those same conditions, two different pixels own non-overlapping 4-byte slots. |
| Addressing.LocationAligned | main.cpp:24 | At 32 bpp with a stride that is a multiple of 4, every pixel offset is a multiple of 4. |
| Addressing.WordsDisjoint | main.cpp:29 | Two different word-aligned offsets are at least 4 bytes apart, so their 4-byte stores never overlap. |
| Addressing.PaintAligned | main.cpp:29 | Storing into word-aligned slots keeps every slot of the buffer word-aligned. |
| Addressing.SetPixelColor | main.cpp:27-30 | The corrected store: one word at the pixel's offset, with no bounds check. `Addressing.SetPixelColorFrame` states its effect. |
| Addressing.SetPixelColorFrame | main.cpp:27-30 | After a store, the pixel holds the word. The only slot that changes is the one it addresses, and that slot is added if it was absent. |
| Addressing.PaintEffect | main.cpp:27-30 | Painting a set of slots puts the word into each of them and leaves every other slot's word as it was. |
| Bounds.InBounds | main.cpp:32-34 | The bounds check as written, four comparisons joined by `\|\|`. `Bounds.InBoundsAccepts` characterises it. |
| Bounds.InBoundsIntended | main.cpp:32-34 | The corrected check: `0 <= x < xres` and `0 <= y < yres`. `Bounds.IntendedImpliesInBounds` relates it to the literal check, and `Bounds.InBoundsAcceptsOffscreen` shows the two differ. |
| Bounds.ToUnsigned | main.cpp:33 | Converting a signed coordinate to unsigned keeps its residue modulo 2^32. |
| Bounds.InBoundsAccepts | main.cpp:32-34 | The literal check accepts a point exactly when `x >= 0`, or `y >= 0`, or a negative coordinate's unsigned image falls below the resolution. When both resolutions are at most 2^31, this reduces to "`x >= 0` or `y >= 0`". |
| Bounds.IntendedImpliesInBounds | main.cpp:32-34 | Every point on the visible screen passes the literal check. |
| Bounds.InBoundsAcceptsOffscreen | main.cpp:32-34 | The column just right of the screen passes the literal check but is not on the screen. |
| Raster.RectSlotsAligned | main.cpp:42-46 | On a word-addressed surface every slot of a rectangle is a multiple of 4. |
| Raster.PaintedRect | main.cpp:42-46 | Painting a rectangle's slots leaves every pixel inside it holding the colour. Any slot that no pixel inside addresses keeps its word. |
| Raster.PaintColumn | main.cpp:43-45 | The inner loop stores the colour into exactly the slots of column `x`, rows `y` to `y + height` (exclusive). |
| Raster.PaintRect | main.cpp:42-46 | The nested loops store the colour into exactly the slots of the half-open rectangle. Nothing else changes. |
| Raster.FillRect | main.cpp:36-47 | If either corner fails the literal check, or if the width or height is not positive, the buffer is unchanged. Otherwise exactly the rectangle's slots change, and each pixel of the rectangle holds the fill colour. The buffer stays word-aligned. |
| Raster.FillGuard | main.cpp:37 | The guard of `fillRect`: both the top-left corner and the point `(x + width, y + height)` pass the literal check. `Raster.FillGuardRejectsOnlyNegativeCorners` and `Raster.FillGuardAcceptsOffscreen` state what it lets through. |
| Raster.FillGuardRejectsOnlyNegativeCorners | main.cpp:37-40 | `fillRect` drops a rectangle only if one of its corners has both coordinates negative. |
| Raster.FillGuardAcceptsOffscreen | main.cpp:37-40 | A one-pixel rectangle just right of the screen passes the guard, although it is not on the screen. |
| Raster.FillRectIntended | main.cpp:36-47 | With the intended bounds check, a rectangle is drawn only when both corners are on the visible screen. Every slot it then writes belongs to a visible pixel. The buffer stays word-aligned. |
| Raster.ClearScreen | main.cpp:91-97 | Every pixel of `[0, xres) × [0, yres)` holds the clear colour, and no slot outside those pixels' slots changes. The buffer stays word-aligned. |
| Stroke.Sign | main.cpp:49-54 | The result is -1, 0 or 1. Multiplied by the argument it gives the absolute value, and it is 0 exactly for 0. |
| Stroke.WalkPoints | main.cpp:63 | The `i`-th points of a walk from `from` toward `to`, for `i < abs(to - from)`, are exactly the points between `from` (inclusive) and `to` (exclusive). |
| Stroke.Walk | main.cpp:76-80 | One unit-step loop visits `abs(to - from)` pixels. The `i`-th is the pixel for the `i`-th walk point. It leaves the buffer painted at exactly those pixels. |
| Stroke.StrokeLine | main.cpp:57-89 | For a vertical segment, `abs(y2 - y1)` pixels `(x1, y)` are visited, with `y` stepping from `y1` toward `y2` and excluding `y2`, so none when `y1 == y2`. A shallow segment visits one pixel per `x` from `x1` toward `x2`, and a steep one one pixel per `y` from `y1` toward `y2`. Every visited pixel holds the stroke colour, and nothing else changes. The buffer stays word-aligned. |
| Stroke.Shallow | main.cpp:69-72 | The slope test `-1 <= rise / run <= 1` for `run != 0`, stated without division as `abs(y2 - y1) <= abs(x2 - x1)`. It is exact below 2^23 (see Left out). |
| Stroke.TraversalDivisorAsWritten | main.cpp:76-85 | The divisor of `traversal` as written: `x2` on the shallow branch and `y2` on the steep one. `Stroke.TraversalDividesByZero` shows when it is 0. |
| Stroke.SlotsAligned | main.cpp:57-89 | On a word-addressed surface every slot of a visited trace is a multiple of 4. |
| Stroke.TraversalDividesByZero | main.cpp:76-85 | On a sloped line, the divisor as written is 0 whenever a shallow line ends on column 0 or a steep one ends on row 0, while the intended span divisor is not. |
| Stroke.TraversalDividesByZeroExample | main.cpp:77-78 | `strokeLine(10, 5, 0, 7)` takes the shallow branch and divides by 0. |
| Stroke.TraversalSpan | main.cpp:76-87 | The intended divisor is `x2 - x1` on the shallow branch and `y2 - y1` on the steep one. It is never 0 on a sloped line. On the steep branch it is larger in magnitude than the horizontal span. |
| Stroke.SpanTraversalInUnitRange | main.cpp:76-87 | At every step of a walk, the traversal divided by the span has numerator and divisor of the same sign (or a zero numerator) and a smaller numerator. So it lies in `[0, 1)`. |

## Findings

| source | as written | input that shows it | evidently intended | confidence | as-written member | corrected member |
|---|---|---|---|---|---|---|
| main.cpp:23-25 | `getPixelLocation` computes the offset into a local `location` and has no `return`. In C++, flowing off the end of a value-returning function is itself undefined behaviour, so every call of `setPixelColor` is undefined. A build may trap, drop the store, or store at some unrelated offset. | Any `(x, y)`. | `return location;`, the offset `(x + xoffset) * (bits_per_pixel / 8) + (y + yoffset) * line_length`. | not executed; high (the code path is unconditional) | Addressing.SetPixelColorAsWritten, Addressing.MissingReturnMissesPixel | Addressing.SetPixelColor over Addressing.PixelLocation (proved in Addressing.SetPixelColorFrame, Addressing.StrideX, Addressing.StrideY, Addressing.LocationBound, Addressing.SlotsDisjoint; used by every drawing operation) |
| main.cpp:32-34 | `inBounds` joins its four comparisons with `\|\|`, so any point with a non-negative coordinate passes. | `x = xres`, `y = 0` passes, and `fillRect(xres, 0, 1, 1)` passes its guard. | `0 <= x < xres && 0 <= y < yres` | not executed; high | Bounds.InBounds, Bounds.InBoundsAcceptsOffscreen, Raster.FillGuardAcceptsOffscreen | Bounds.InBoundsIntended, Raster.FillRectIntended |
| main.cpp:115 | `yres_virtual * line_length` is multiplied as `__u32` and wraps before it is widened to `long`. `mmap` then gets a length smaller than the surface. | `yres_virtual = line_length = 65536` at 32 bpp gives length 0, although pixel `(0, 0)` fits on its line. `mmap` then fails with `EINVAL`, and since the result is unchecked `frameBuffer` is `MAP_FAILED`. Other wrapped sizes, such as `yres_virtual = 65537` with the same stride, map too few bytes. | Widen before multiplying, e.g. `(long)variableInfo.yres_virtual * fixedInfo.line_length`. | not executed; low (needs a surface of 4 GiB or more) | Geometry.ScreenSize, Addressing.ScreenSizeWraps | Addressing.LocationBound (bound against the full product) |
| main.cpp:76-85 | `traversal` divides by the end coordinate `x2` (or `y2`), not by the span `x2 - x1` (or `y2 - y1`). | `strokeLine(10, 5, 0, 7)`: the first traversal is 0/0, which is NaN. Converting it to `int` at line 78 is undefined. With `x2 != 0` the traversal is simply scaled wrongly. | `((float)x - (float)x1) / ((float)x2 - (float)x1)`, and likewise for `y` | not executed; high for the zero divisor; the position error is not modelled (see Left out) | Stroke.TraversalDivisorAsWritten, Stroke.TraversalDividesByZero, Stroke.TraversalDividesByZeroExample | Stroke.TraversalSpan, Stroke.SpanTraversalInUnitRange |

`Raster.FillRect` keeps the literal check. That is the behaviour of the
program as it stands. `Raster.FillRectIntended` is the same loop behind the
intended check.

## Left out

- Device setup in `main` (main.cpp:100-118) is I/O against the Linux fbdev
  interface: `open`, the `FBIOGET_*` and `FBIOPUT_VSCREENINFO` ioctls, and
  `mmap`. The screen-info records and the buffer are inputs instead.
  `Geometry.TrueColor` is the assumption that the driver accepted the 32-bpp
  request of line 109. The program reads the setting back but does not check it.
- The demo loops (main.cpp:123-180) pick colours and shapes with
  floating-point arithmetic. They are demo sequencing, not part of the drawing
  core.
- Stroke.StrokeLine: the minor coordinate of the sloped branches (lines 77-78
  and 84-85) is computed in `float` and converted to `int`. The model takes it
  as the parameter `minorAt`, so nothing is proved about where those pixels
  land on the minor axis. Sometimes the divisor is 0: a shallow line ending on
  column 0, or a steep one ending on row 0. Then the traversal is NaN or
  infinite, and the conversion at line 78 or 85 is undefined behaviour. There
  `minorAt` still yields an ordinary `int`. The zero divisor is reported under
  Findings (`Stroke.TraversalDividesByZero`). The pixel positions it produces
  are not modelled.
- Raster.FillRect requires a word-addressed surface and an aligned buffer.
  Without them, the source's 4-byte stores can overlap: at 16 bpp neighbouring
  pixels are 2 bytes apart. The word-slot view cannot describe that, so
  nothing is promised for such surfaces.
- Raster.FillRectIntended requires a word-addressed surface and an aligned
  buffer, for the same reason as `Raster.FillRect`.
- Raster.ClearScreen requires a word-addressed surface and an aligned buffer,
  for the same reason as `Raster.FillRect`.
- Raster.ClearScreen: the source counts with `int x` and `int y` against the
  `__u32` fields `xres` and `yres` (lines 92-93). If either field exceeds
  2^31 - 1, the counter overflows, which is undefined behaviour. The model's
  counters are unbounded integers, so for such a surface it proves a full
  clear that the source does not promise.
- Stroke.StrokeLine requires a word-addressed surface and an aligned buffer,
  for the same reason as `Raster.FillRect`.
- Stroke.StrokeLine: the float test `run == 0` is modelled as `x1 == x2`, and
  the float slope test `-1 <= slope <= 1` as `|y2 - y1| <= |x2 - x1|`. Both are
  exact when the coordinates' magnitudes are below 2^23. Beyond that, float
  rounding can pick the other branch. Beyond 2^24, `rise` can also round to 0
  while `y1 != y2`, as in `strokeLine(0, 16777216, 0, 16777217)`. Then
  `sign(rise)` is 0 and the vertical loop of line 63 never reaches `y2`. (The
  loop of line 83 always ends: it runs only when the slope test fails, so
  `rise` is not 0 there.) The loop's plain memory stores are not volatile
  accesses, I/O or synchronisation, so under C++'s forward-progress rule a
  loop that never ends is undefined behaviour. The
  model's `Stroke.Walk` always steps by `sign(y2 - y1)` on integers and always
  ends, so for such inputs `Stroke.StrokeLine` describes a walk the source
  never performs.
- Byte layout: a store is one 32-bit word at a byte offset. Endianness and
  alignment of the raw 4-byte store (line 29) are not modelled.
- Writes outside the mapped region are undefined behaviour in the source. The
  model records them as ordinary slot updates. `Addressing.LocationBound`
  states when a pixel's word lies inside the mapped bytes.
- Addressing.SetPixelColorAsWritten: the missing `return` makes every call of
  `getPixelLocation` undefined behaviour in C++. A build may trap there or
  drop the store entirely. The model covers only executions in which one
  store happens at some offset, given as the parameter `loc`. Traps and
  dropped stores are not modelled.
- Raster.FillRect: coordinates and sizes must fit in a 32-bit `int`. The source
  narrows `long` arguments to `int` when it calls `inBounds` and when it
  initialises its loop counters (lines 37 and 42-43), and the model does not
  reproduce that narrowing.
- Offsets and products are unbounded integers. Signed 64-bit overflow in the
  `long` offset arithmetic of line 24 is not modelled.
- Color.PackUnpack: channel offsets are at most 24, and the shift is taken in
  32-bit unsigned arithmetic. In the source each channel is promoted to `int`.
  Shifting a channel value of 255 by 25 or more does not fit in `unsigned int`
  and is undefined. At 24, the shift lands in the sign bit, which is defined,
  and the value is then converted back to `uint32_t`.
- Setting colours between draw calls is a plain assignment to a global in the
  source. In the model it means building a new `Globals` value, so no separate
  setter is modelled.
