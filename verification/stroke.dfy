/** Line drawing: the integer stepping structure of `strokeLine`.

    Each branch of the source walks one coordinate in unit steps from the start
    toward the end, stopping before the end, and stores the stroke colour at
    one pixel per step. The other ("minor") coordinate of the two sloped
    branches is computed in floating point in the source; here it is the
    parameter `minorAt`, so nothing is claimed about where on the minor axis
    those pixels land.
 */
module Stroke {
  import opened Geometry
  import opened Addressing

  function Abs(v: int): nat {
    if v < 0 then -v else v
  }

  /** `sign`: the direction of `v` as -1, 0 or 1. */
  function Sign(v: int): (r: int)
    ensures r == -1 || r == 0 || r == 1
    ensures r * v == Abs(v)
    ensures r == 0 <==> v == 0
  {
    if v > 0 then 1 else if v < 0 then -1 else 0
  }

  /** `t` is visited by a walk that starts at `from` and stops on reaching `to`. */
  predicate Between(from: int, t: int, to: int) {
    (from <= t < to) || (to < t <= from)
  }

  /** The `i`-th point of the walk from `from` toward `to`. */
  function WalkPoint(from: int, to: int, i: int): int {
    from + i * Sign(to - from)
  }

  /** The walk's points, listed by step number, are exactly the points between its ends:
      it takes `|to - from|` steps and never reaches `to`. */
  lemma WalkPoints(from: int, to: int, t: int)
    ensures Between(from, t, to) <==>
              exists i :: 0 <= i < Abs(to - from) && t == WalkPoint(from, to, i)
  {
    if Between(from, t, to) {
      var i := Abs(t - from);
      assert 0 <= i < Abs(to - from) && t == WalkPoint(from, to, i);
    }
    if exists i :: 0 <= i < Abs(to - from) && t == WalkPoint(from, to, i) {
      var i :| 0 <= i < Abs(to - from) && t == WalkPoint(from, to, i);
      if to < from {
        assert t == from - i;
      }
    }
  }

  /** The byte offsets of a sequence of pixels. */
  function Slots(s: Globals, ps: seq<Pixel>): set<int> {
    set i | 0 <= i < |ps| :: PixelLocation(s, ps[i].x, ps[i].y)
  }

  lemma SlotsSnoc(s: Globals, ps: seq<Pixel>, p: Pixel)
    ensures Slots(s, ps + [p]) == Slots(s, ps) + {PixelLocation(s, p.x, p.y)}
  {
    var longer := ps + [p];
    forall k | k in Slots(s, longer)
      ensures k in Slots(s, ps) + {PixelLocation(s, p.x, p.y)}
    {
      var i :| 0 <= i < |longer| && PixelLocation(s, longer[i].x, longer[i].y) == k;
      if i < |ps| {
        assert longer[i] == ps[i];
      }
    }
    forall k | k in Slots(s, ps) + {PixelLocation(s, p.x, p.y)}
      ensures k in Slots(s, longer)
    {
      if k in Slots(s, ps) {
        var i :| 0 <= i < |ps| && PixelLocation(s, ps[i].x, ps[i].y) == k;
        assert longer[i] == ps[i];
      } else {
        assert longer[|ps|] == p;
      }
    }
  }

  /** On a word-addressed surface every slot of a trace is word-aligned. */
  lemma SlotsAligned(s: Globals, ps: seq<Pixel>)
    requires WordAddressed(s)
    ensures forall k :: k in Slots(s, ps) ==> k % 4 == 0
  {
    forall k | k in Slots(s, ps)
      ensures k % 4 == 0
    {
      var i :| 0 <= i < |ps| && PixelLocation(s, ps[i].x, ps[i].y) == k;
      LocationAligned(s, ps[i].x, ps[i].y);
    }
  }

  /** One store of the walk extends the painted trace by one pixel. */
  lemma TraceStep(s: Globals, buf: Buffer, visited: seq<Pixel>, p: Pixel, c: bv32)
    ensures SetPixelColor(s, Paint(buf, Slots(s, visited), c), p.x, p.y, c)
         == Paint(buf, Slots(s, visited + [p]), c)
  {
    SlotsSnoc(s, visited, p);
    PaintOneMore(buf, Slots(s, visited), PixelLocation(s, p.x, p.y), c);
  }

  /** Every pixel of a painted trace holds the colour. */
  lemma PaintedTrace(s: Globals, buf: Buffer, ps: seq<Pixel>, c: bv32)
    ensures forall i :: 0 <= i < |ps| ==> Holds(s, Paint(buf, Slots(s, ps), c), ps[i].x, ps[i].y, c)
  {
    forall i | 0 <= i < |ps|
      ensures Holds(s, Paint(buf, Slots(s, ps), c), ps[i].x, ps[i].y, c)
    {
      assert PixelLocation(s, ps[i].x, ps[i].y) in Slots(s, ps);
    }
  }

  /** The unit-step loop of every branch of `strokeLine`: starting at `from`, store
      `c` at pixel `at(t)` and step `t` toward `to`, until `t` reaches `to`. */
  method Walk(s: Globals, buf: Buffer, from: int, to: int, at: int -> Pixel, c: bv32)
    returns (b: Buffer, visited: seq<Pixel>)
    ensures |visited| == Abs(to - from)
    ensures forall i :: 0 <= i < |visited| ==> visited[i] == at(WalkPoint(from, to, i))
    ensures b == Paint(buf, Slots(s, visited), c)
  {
    b := buf;
    visited := [];
    assert Slots(s, visited) == {};
    var t := from;
    while t != to
      invariant (from <= t <= to) || (to <= t <= from)
      invariant |visited| == Abs(t - from)
      invariant t == WalkPoint(from, to, |visited|)
      invariant forall i :: 0 <= i < |visited| ==> visited[i] == at(WalkPoint(from, to, i))
      invariant b == Paint(buf, Slots(s, visited), c)
      decreases Abs(to - t)
    {
      var p := at(t);
      TraceStep(s, buf, visited, p, c);
      b := SetPixelColor(s, b, p.x, p.y, c);
      visited := visited + [p];
      t := t + Sign(to - from);
    }
  }

  /** The branch test `-1 <= slope <= 1`, stated exactly as `|rise| <= |run|`. */
  predicate Shallow(x1: int, y1: int, x2: int, y2: int) {
    Abs(y2 - y1) <= Abs(x2 - x1)
  }

  /** `strokeLine`: a vertical segment visits `(x1, y)` for each `y` from `y1` toward
      `y2`; a shallow one visits one pixel per `x` from `x1` toward `x2`; a steep one
      one pixel per `y` from `y1` toward `y2`. The end point is never visited. Every
      visited pixel holds the stroke colour and no other slot changes. */
  method StrokeLine(s: Globals, buf: Buffer, x1: int, y1: int, x2: int, y2: int, minorAt: int -> int)
    returns (b: Buffer, visited: seq<Pixel>)
    requires WordAddressed(s) && Aligned(buf)
    ensures Aligned(b)
    ensures b == Paint(buf, Slots(s, visited), s.strokeColor)
    ensures forall i :: 0 <= i < |visited| ==> Holds(s, b, visited[i].x, visited[i].y, s.strokeColor)
    ensures x1 == x2 ==>
              && |visited| == Abs(y2 - y1)
              && forall i :: 0 <= i < |visited| ==> visited[i] == Pixel(x1, WalkPoint(y1, y2, i))
    ensures x1 != x2 && Shallow(x1, y1, x2, y2) ==>
              && |visited| == Abs(x2 - x1)
              && forall i :: 0 <= i < |visited| ==>
                   visited[i] == Pixel(WalkPoint(x1, x2, i), minorAt(WalkPoint(x1, x2, i)))
    ensures x1 != x2 && !Shallow(x1, y1, x2, y2) ==>
              && |visited| == Abs(y2 - y1)
              && forall i :: 0 <= i < |visited| ==>
                   visited[i] == Pixel(minorAt(WalkPoint(y1, y2, i)), WalkPoint(y1, y2, i))
  {
    if x1 == x2 {
      b, visited := Walk(s, buf, y1, y2, y => Pixel(x1, y), s.strokeColor);
    } else if Shallow(x1, y1, x2, y2) {
      b, visited := Walk(s, buf, x1, x2, x => Pixel(x, minorAt(x)), s.strokeColor);
    } else {
      b, visited := Walk(s, buf, y1, y2, y => Pixel(minorAt(y), y), s.strokeColor);
    }
    PaintedTrace(s, buf, visited, s.strokeColor);
    SlotsAligned(s, visited);
    PaintAligned(buf, Slots(s, visited), s.strokeColor);
  }

  /** The divisor of `traversal` as written (lines 77 and 84): the end coordinate
      `x2` on the shallow branch and `y2` on the steep one. */
  function TraversalDivisorAsWritten(x1: int, y1: int, x2: int, y2: int): int {
    if Shallow(x1, y1, x2, y2) then x2 else y2
  }

  /** Every shallow sloped line that ends on column 0 divides by zero, and so does
      every steep one that ends on row 0: the first traversal is 0/0 (NaN), the
      later ones are infinite, and converting either to `int` is undefined. */
  lemma TraversalDividesByZero(x1: int, y1: int, x2: int, y2: int)
    requires x1 != x2
    requires (Shallow(x1, y1, x2, y2) && x2 == 0) || (!Shallow(x1, y1, x2, y2) && y2 == 0)
    ensures TraversalDivisorAsWritten(x1, y1, x2, y2) == 0
    ensures TraversalSpan(x1, y1, x2, y2) != 0
  {
  }

  /** `strokeLine(10, 5, 0, 7)` is such a line. */
  lemma TraversalDividesByZeroExample()
    ensures Shallow(10, 5, 0, 7)
    ensures TraversalDivisorAsWritten(10, 5, 0, 7) == 0
  {
  }

  /** The intended divisor: the span of the walked coordinate, `x2 - x1` on the
      shallow branch and `y2 - y1` on the steep one. It is never zero on a sloped line. */
  function TraversalSpan(x1: int, y1: int, x2: int, y2: int): (d: int)
    requires x1 != x2
    ensures d != 0
    ensures Shallow(x1, y1, x2, y2) ==> d == x2 - x1
    ensures !Shallow(x1, y1, x2, y2) ==> d == y2 - y1
    ensures !Shallow(x1, y1, x2, y2) ==> Abs(d) > Abs(x2 - x1)
  {
    if Shallow(x1, y1, x2, y2) then x2 - x1 else y2 - y1
  }

  /** Divided by the span, the traversal at every step of a walk lies in `[0, 1)`:
      its numerator has the divisor's sign (or is 0) and a smaller magnitude. */
  lemma SpanTraversalInUnitRange(from: int, to: int, i: int)
    requires from != to
    requires 0 <= i < Abs(to - from)
    ensures 0 <= (WalkPoint(from, to, i) - from) * (to - from)
    ensures Abs(WalkPoint(from, to, i) - from) < Abs(to - from)
  {
    if to > from {
      assert WalkPoint(from, to, i) - from == i;
    } else {
      assert WalkPoint(from, to, i) - from == -i;
      assert (-i) * (to - from) == i * (from - to);
    }
  }
}
