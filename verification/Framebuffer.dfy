/**
 The framebuffer: lines by Bresenham's error term, and scrolling in place.
 */
module Framebuffer {
  import opened Arithmetic

  // ------------------------------------------------------------ the ideal line

  /** How far pixel (i, j) is from the line through (0, 0) and (dx, dy), times dx in y or dy in x. */
  function Deviation(dx: int, dy: int, i: int, j: int): int {
    j * dx - i * dy
  }

  /** At most half a pixel off the line along the shorter axis. Halves go to one side only, so there is one
      such pixel for each step of the longer axis. */
  predicate Near(dx: int, dy: int, i: int, j: int) {
    var d := Deviation(dx, dy, i, j);
    if dx >= dy then -dx < 2 * d <= dx else -dy <= 2 * d < dy
  }

  lemma {:induction false} HalfPixel(dx: int, dy: int, i: int, j: int)
    requires dx > 0 && dy > 0 && Near(dx, dy, i, j)
    ensures var d := Deviation(dx, dy, i, j);
            2 * (if d < 0 then -d else d) <= Max(dx, dy)
  {
    hide Deviation;
  }

  lemma {:induction false} DeviationStep(dx: int, dy: int, i: int, j: int)
    ensures Deviation(dx, dy, i + 1, j) == Deviation(dx, dy, i, j) - dy
    ensures Deviation(dx, dy, i, j + 1) == Deviation(dx, dy, i, j) + dx
    ensures Deviation(dx, dy, i + 1, j + 1) == Deviation(dx, dy, i, j) + dx - dy
    ensures Deviation(dx, dy, 0, 0) == 0
  {
    Successor(j, dx);
    Successor(i, dy);
  }

  /** The pixel for step k of the longer axis: there is only one. */
  lemma {:induction false} NearUnique(dx: int, dy: int, i: int, j: int, i': int, j': int)
    requires dx > 0 && dy > 0 && Near(dx, dy, i, j) && Near(dx, dy, i', j')
    requires if dx >= dy then i == i' else j == j'
    ensures i == i' && j == j'
  {
    hide Near;
    var d, d' := Deviation(dx, dy, i, j), Deviation(dx, dy, i', j');
    NearBounds(dx, dy, i, j);
    NearBounds(dx, dy, i', j');
    if dx >= dy {
      Difference(j', j, dx);
      OneMultiple(j' - j, dx);
    } else {
      Difference(i, i', dy);
      OneMultiple(i - i', dy);
    }
  }

  lemma {:induction false} NearBounds(dx: int, dy: int, i: int, j: int)
    requires Near(dx, dy, i, j)
    ensures if dx >= dy then -dx < 2 * (j * dx - i * dy) <= dx else -dy <= 2 * (j * dx - i * dy) < dy
  {
  }

  lemma {:induction false} OneMultiple(k: int, c: int)
    requires c > 0 && -c < k * c < c
    ensures k == 0
  {
    if k >= 1 { AtLeast(k, c); }
    if k <= -1 {
      AtLeast(-k, c);
      Negated(k, c);
    }
  }

  // ------------------------------------------------------------- the loop's steps

  /** error1 after i steps in x and j in y, dy being taken positive. */
  function ErrorAt(dx: int, dy: int, i: int, j: int): int {
    (j + 1) * dx - (i + 1) * dy
  }

  lemma {:induction false} ErrorIs(dx: int, dy: int, i: int, j: int)
    ensures ErrorAt(dx, dy, i, j) == Deviation(dx, dy, i, j) + dx - dy
    ensures ErrorAt(dx, dy, i + 1, j) == ErrorAt(dx, dy, i, j) - dy
    ensures ErrorAt(dx, dy, i, j + 1) == ErrorAt(dx, dy, i, j) + dx
    ensures ErrorAt(dx, dy, i + 1, j + 1) == ErrorAt(dx, dy, i, j) + dx - dy
    ensures ErrorAt(dx, dy, 0, 0) == dx - dy
  {
    Successor(i, dy);
    Successor(j, dx);
    Successor(i + 1, dy);
    Successor(j + 1, dx);
  }

  predicate StepsX(dx: int, dy: int, i: int, j: int) { 2 * ErrorAt(dx, dy, i, j) >= -dy }

  predicate StepsY(dx: int, dy: int, i: int, j: int) { 2 * ErrorAt(dx, dy, i, j) <= dx }

  function NextI(dx: int, dy: int, i: int, j: int): int { if StepsX(dx, dy, i, j) then i + 1 else i }

  function NextJ(dx: int, dy: int, i: int, j: int): int { if StepsY(dx, dy, i, j) then j + 1 else j }

  /** From a pixel near the line a step goes to the next pixel near the line, one along the longer axis. */
  lemma {:induction false} StepNear(dx: int, dy: int, i: int, j: int)
    requires dx > 0 && dy > 0 && Near(dx, dy, i, j)
    ensures Near(dx, dy, NextI(dx, dy, i, j), NextJ(dx, dy, i, j))
    ensures dx >= dy ==> NextI(dx, dy, i, j) == i + 1
    ensures dx <= dy ==> NextJ(dx, dy, i, j) == j + 1
  {
    hide Deviation, ErrorAt;
    ErrorIs(dx, dy, i, j);
    DeviationStep(dx, dy, i, j);
  }

  /** The loop stops as soon as one coordinate has arrived. The pixel it stops at is the end of the line
      exactly when the longer axis is less than twice the shorter. */
  lemma {:induction false} EndReached(dx: int, dy: int, i: int, j: int)
    requires dx > 0 && dy > 0 && 0 <= i < dx && 0 <= j < dy && Near(dx, dy, i, j)
    requires NextI(dx, dy, i, j) == dx || NextJ(dx, dy, i, j) == dy
    ensures NextI(dx, dy, i, j) == dx && NextJ(dx, dy, i, j) == dy <==> Max(dx, dy) < 2 * Min(dx, dy)
  {
    hide Near, NextI, NextJ;
    var i', j' := NextI(dx, dy, i, j), NextJ(dx, dy, i, j);
    NextBounds(dx, dy, i, j);
    StepNear(dx, dy, i, j);
    NearBounds(dx, dy, i, j);
    NearBounds(dx, dy, i', j');
    if i' == dx && j' == dy {
      assert i == dx - 1 && j == dy - 1;
      Successor(i, dy);
      Successor(j, dx);
      Commute(dx, dy);
    } else if i' == dx {
      Difference(dy, j', dx);
      Commute(dx, dy);
      AtLeast(dy - j', dx);
    } else {
      Difference(dx, i', dy);
      Commute(dx, dy);
      AtLeast(dx - i', dy);
    }
  }

  lemma {:induction false} NextBounds(dx: int, dy: int, i: int, j: int)
    ensures i <= NextI(dx, dy, i, j) <= i + 1 && j <= NextJ(dx, dy, i, j) <= j + 1
  {
  }

  // ------------------------------------------------------------------- the screen

  datatype Dot = Dot(x: int, y: int, color: int)

  /** Where a pixel is kept: rows of stride words. */
  function Index(stride: int, x: int, y: int): int {
    y * stride + x
  }

  /** Dots painted one after the other. */
  ghost function Painted(fb: seq<int>, stride: int, dots: seq<Dot>): (r: seq<int>)
    ensures |r| == |fb|
  {
    if dots == [] then fb
    else
      var p, d := Painted(fb, stride, dots[..|dots| - 1]), dots[|dots| - 1];
      if 0 <= Index(stride, d.x, d.y) < |p| then p[Index(stride, d.x, d.y) := d.color] else p
  }

  lemma {:induction false} IndexInside(stride: int, height: int, x: int, y: int)
    requires 0 <= x < stride && 0 <= y < height
    ensures 0 <= Index(stride, x, y) < stride * height
  {
    Rows(stride, y, height);
    if y > 0 { AtLeast(y, stride); }
  }

  lemma {:induction false} Rows(stride: int, y: int, height: int)
    requires stride > 0 && y < height
    ensures y * stride + stride <= stride * height
  {
    Difference(height, y, stride);
    Commute(stride, height);
    AtLeast(height - y, stride);
  }

  lemma {:induction false} IndexIs(stride: int, x: int, y: int)
    ensures Index(stride, x, y) == y * stride + x
  {
  }

  /** Dots that lie in rows 0 to height. */
  predicate Inside(dots: seq<Dot>, stride: int, height: int) {
    forall k :: 0 <= k < |dots| ==> 0 <= dots[k].x < stride && 0 <= dots[k].y < height
  }

  /** The screen shows at every place the last dot painted there, n being the number of dots up to it, and what it
      held before if there is none. */
  lemma {:induction false} LastDotShows(fb: seq<int>, stride: int, height: int, dots: seq<Dot>, x: int, y: int, n: nat)
    requires |fb| == stride * height && 0 <= x < stride && 0 <= y < height && Inside(dots, stride, height)
    requires n <= |dots| && (n > 0 ==> dots[n - 1].x == x && dots[n - 1].y == y)
    requires forall k :: n <= k < |dots| ==> dots[k].x != x || dots[k].y != y
    ensures 0 <= y * stride + x < |fb|
    ensures Painted(fb, stride, dots)[y * stride + x] == if n > 0 then dots[n - 1].color else fb[y * stride + x]
  {
    hide Index;
    IndexInside(stride, height, x, y);
    IndexIs(stride, x, y);
    if dots != [] {
      var d := dots[|dots| - 1];
      IndexInside(stride, height, d.x, d.y);
      IndexApart(stride, x, y, d.x, d.y);
      if n < |dots| { LastDotShows(fb, stride, height, dots[..|dots| - 1], x, y, n); }
    }
  }

  /** The dots of a vertical or horizontal line, from a to b. */
  function Column(x: int, a: int, b: int, color: int): (r: seq<Dot>)
    ensures |r| == Max(0, b - a + 1) && forall k :: 0 <= k < |r| ==> r[k] == Dot(x, a + k, color)
    decreases b - a
  {
    if a > b then [] else Column(x, a, b - 1, color) + [Dot(x, b, color)]
  }

  function Row(y: int, a: int, b: int, color: int): (r: seq<Dot>)
    ensures |r| == Max(0, b - a + 1) && forall k :: 0 <= k < |r| ==> r[k] == Dot(a + k, y, color)
    decreases b - a
  {
    if a > b then [] else Row(y, a, b - 1, color) + [Dot(b, y, color)]
  }

  /** The dots after n steps of the loop, the start included, and the pixel it has come to. */
  datatype Walked = Walked(i: int, j: int, dots: seq<Dot>)

  ghost function WalkLine(x0: int, y0: int, dx: int, dy: int, sx: int, sy: int, color: int, n: nat): (r: Walked)
    ensures |r.dots| == n + 1
  {
    if n == 0 then Walked(0, 0, [Dot(x0, y0, color)])
    else
      var w := WalkLine(x0, y0, dx, dy, sx, sy, color, n - 1);
      var i, j := NextI(dx, dy, w.i, w.j), NextJ(dx, dy, w.i, w.j);
      Walked(i, j, w.dots + [Dot(x0 + sx * i, y0 + sy * j, color)])
  }

  /** Dot k of a line is the one pixel near the ideal line k steps along the longer axis. */
  lemma {:induction false} WalkNear(x0: int, y0: int, dx: int, dy: int, sx: int, sy: int, color: int, n: nat)
    requires dx > 0 && dy > 0
    ensures var w := WalkLine(x0, y0, dx, dy, sx, sy, color, n);
            Near(dx, dy, w.i, w.j) && (if dx >= dy then w.i else w.j) == n && w.i >= 0 && w.j >= 0
            && w.dots[n] == Dot(x0 + sx * w.i, y0 + sy * w.j, color)
    ensures dx == dy ==> var w := WalkLine(x0, y0, dx, dy, sx, sy, color, n);
                         w.i == n && w.j == n
  {
    hide Near, NextI, NextJ;
    if n == 0 {
      StartNear(dx, dy);
    } else {
      WalkNear(x0, y0, dx, dy, sx, sy, color, n - 1);
      var w := WalkLine(x0, y0, dx, dy, sx, sy, color, n - 1);
      StepNear(dx, dy, w.i, w.j);
      NextBounds(dx, dy, w.i, w.j);
    }
  }

  lemma {:induction false} StartNear(dx: int, dy: int)
    requires dx > 0 && dy > 0
    ensures Near(dx, dy, 0, 0)
  {
  }

  /** The line takes n steps: it is under way before, and one coordinate has arrived after. */
  ghost predicate Stops(dx: int, dy: int, n: nat) {
    var w := WalkLine(0, 0, dx, dy, 1, 1, 0, n);
    (w.i == dx || w.j == dy)
    && forall k: nat :: k < n ==> WalkLine(0, 0, dx, dy, 1, 1, 0, k).i < dx && WalkLine(0, 0, dx, dy, 1, 1, 0, k).j < dy
  }

  /** Where the walk is does not depend on what it draws. */
  lemma {:induction false} SameWalk(x0: int, y0: int, dx: int, dy: int, sx: int, sy: int, color: int, n: nat)
    ensures WalkLine(x0, y0, dx, dy, sx, sy, color, n).i == WalkLine(0, 0, dx, dy, 1, 1, 0, n).i
    ensures WalkLine(x0, y0, dx, dy, sx, sy, color, n).j == WalkLine(0, 0, dx, dy, 1, 1, 0, n).j
  {
    hide NextI, NextJ;
    if n > 0 { SameWalk(x0, y0, dx, dy, sx, sy, color, n - 1); }
  }

  /** It stops within as many steps as the longer axis has, and at the end of the line exactly when that is
      less than twice the shorter one. */
  lemma {:induction false} LineEnds(dx: int, dy: int, n: nat)
    requires dx > 0 && dy > 0 && Stops(dx, dy, n)
    ensures 1 <= n <= Max(dx, dy)
    ensures var w := WalkLine(0, 0, dx, dy, 1, 1, 0, n);
            w.i <= dx && w.j <= dy && (w.i == dx && w.j == dy <==> Max(dx, dy) < 2 * Min(dx, dy))
  {
    hide Near, NextI, NextJ;
    WalkNear(0, 0, dx, dy, 1, 1, 0, n);
    var v := WalkLine(0, 0, dx, dy, 1, 1, 0, n - 1);
    WalkNear(0, 0, dx, dy, 1, 1, 0, n - 1);
    NextBounds(dx, dy, v.i, v.j);
    EndReached(dx, dy, v.i, v.j);
  }

  /** A line two columns wide and one row high stops at (1, 1). */
  lemma {:induction false} LineStopsShort()
    ensures Stops(2, 1, 1)
    ensures Max(2, 1) == 2 * Min(2, 1)
    ensures WalkLine(0, 0, 2, 1, 1, 1, 0, 1).i == 1 && WalkLine(0, 0, 2, 1, 1, 1, 0, 1).j == 1
  {
  }

  class Screen {
    const fb: array<int>
    const width: int
    const height: int
    const stride: int
    ghost const original: seq<int>
    ghost var dots: seq<Dot>

    constructor (fb: array<int>, width: int, height: int, stride: int)
      requires 0 < width <= stride && 0 < height && fb.Length == stride * height
      ensures this.fb == fb && this.width == width && this.height == height && this.stride == stride
      ensures original == fb[..] && dots == [] && Valid()
    {
      this.fb, this.width, this.height, this.stride := fb, width, height, stride;
      original, dots := fb[..], [];
    }

    /** The buffer shows the dots painted so far. */
    ghost predicate Valid()
      reads this, fb
    {
      0 < width <= stride && 0 < height && fb.Length == stride * height && fb[..] == Painted(original, stride, dots)
    }

    predicate OnScreen(x: int, y: int) {
      0 <= x < width && 0 <= y < height
    }

    /** framebuffer_draw_pixel */
    method DrawPixel(x: int, y: int, color: int)
      requires Valid() && OnScreen(x, y)
      modifies `dots, fb
      ensures Valid() && dots == old(dots) + [Dot(x, y, color)]
      ensures 0 <= y * stride + x < fb.Length && fb[y * stride + x] == color
      ensures forall k :: 0 <= k < fb.Length && k != y * stride + x ==> fb[k] == old(fb[k])
    {
      hide Index;
      IndexInside(stride, height, x, y);
      IndexIs(stride, x, y);
      fb[Index(stride, x, y)] := color;
      dots := dots + [Dot(x, y, color)];
      assert dots[..|dots| - 1] == old(dots);
    }

    /** framebuffer_draw_line. The ghost result is the number of steps of a slanted line. */
    method DrawLine(xStartPos0: int, yStartPos0: int, xEndPos: int, yEndPos: int, color: int) returns (ghost n: nat)
      requires Valid() && OnScreen(xStartPos0, yStartPos0) && OnScreen(xEndPos, yEndPos)
      modifies `dots, fb
      ensures Valid()
      ensures xStartPos0 == xEndPos ==>
                dots == old(dots) + Column(xEndPos, Min(yStartPos0, yEndPos), Max(yStartPos0, yEndPos), color)
      ensures xStartPos0 != xEndPos && yStartPos0 == yEndPos ==>
                dots == old(dots) + Row(yEndPos, Min(xStartPos0, xEndPos), Max(xStartPos0, xEndPos), color)
      ensures xStartPos0 != xEndPos && yStartPos0 != yEndPos ==>
                var dx, dy := Distance(xStartPos0, xEndPos), Distance(yStartPos0, yEndPos);
                Stops(dx, dy, n)
                && dots == old(dots) + WalkLine(xStartPos0, yStartPos0, dx, dy, Direction(xStartPos0, xEndPos),
                                                Direction(yStartPos0, yEndPos), color, n).dots
    {
      hide Painted, Stops;
      n := 0;
      if xStartPos0 == xEndPos {
        if yStartPos0 < yEndPos {
          DrawColumn(xStartPos0, yStartPos0, yEndPos, color);
        } else {
          DrawColumn(xStartPos0, yEndPos, yStartPos0, color);
        }
        return;
      }
      if yStartPos0 == yEndPos {
        if xStartPos0 < xEndPos {
          DrawRow(yStartPos0, xStartPos0, xEndPos, color);
        } else {
          DrawRow(yStartPos0, xEndPos, xStartPos0, color);
        }
        return;
      }
      n := DrawSlanted(xStartPos0, yStartPos0, xEndPos, yEndPos, color);
    }

    method DrawColumn(x: int, from: int, to: int, color: int)
      requires Valid() && OnScreen(x, from) && OnScreen(x, to) && from <= to
      modifies `dots, fb
      ensures Valid() && dots == old(dots) + Column(x, from, to, color)
    {
      hide Painted;
      for y := from to to + 1
        invariant Valid() && dots == old(dots) + Column(x, from, y - 1, color)
      {
        DrawPixel(x, y, color);
        assert Column(x, from, y, color) == Column(x, from, y - 1, color) + [Dot(x, y, color)];
      }
    }

    method DrawRow(y: int, from: int, to: int, color: int)
      requires Valid() && OnScreen(from, y) && OnScreen(to, y) && from <= to
      modifies `dots, fb
      ensures Valid() && dots == old(dots) + Row(y, from, to, color)
    {
      hide Painted;
      for x := from to to + 1
        invariant Valid() && dots == old(dots) + Row(y, from, x - 1, color)
      {
        DrawPixel(x, y, color);
        assert Row(y, from, x, color) == Row(y, from, x - 1, color) + [Dot(x, y, color)];
      }
    }

    /** The loop for all other lines. */
    method DrawSlanted(xStartPos0: int, yStartPos0: int, xEndPos: int, yEndPos: int, color: int) returns (ghost n: nat)
      requires Valid() && OnScreen(xStartPos0, yStartPos0) && OnScreen(xEndPos, yEndPos)
      requires xStartPos0 != xEndPos && yStartPos0 != yEndPos
      modifies `dots, fb
      ensures Valid()
      ensures var dx, dy := Distance(xStartPos0, xEndPos), Distance(yStartPos0, yEndPos);
              Stops(dx, dy, n)
              && dots == old(dots) + WalkLine(xStartPos0, yStartPos0, dx, dy, Direction(xStartPos0, xEndPos),
                                              Direction(yStartPos0, yEndPos), color, n).dots
    {
      hide Painted, Near, WalkLine, NextI, NextJ, StepsX, StepsY, ErrorAt, Stops, Index;
      var xStartPos, yStartPos := xStartPos0, yStartPos0;
      var dx := if xStartPos < xEndPos then xEndPos - xStartPos else xStartPos - xEndPos;
      var sx := if xStartPos < xEndPos then 1 else -1;
      var dy := if yStartPos < yEndPos then -(yEndPos - yStartPos) else -(yStartPos - yEndPos);
      var sy := if yStartPos < yEndPos then 1 else -1;
      ghost var ady := -dy;
      ghost var i, j := 0, 0;
      n := 0;
      var error1 := dx + dy;
      DrawPixel(xStartPos, yStartPos, color);
      WalkStart(xStartPos0, yStartPos0, dx, ady, sx, sy, color);
      while xStartPos != xEndPos && yStartPos != yEndPos
        invariant Valid() && 0 <= i <= dx && 0 <= j <= ady
        invariant xStartPos == xStartPos0 + sx * i && yStartPos == yStartPos0 + sy * j
        invariant error1 == ErrorAt(dx, ady, i, j)
        invariant AtStep(xStartPos0, yStartPos0, dx, ady, sx, sy, color, n, i, j)
        invariant dots == old(dots) + WalkLine(xStartPos0, yStartPos0, dx, ady, sx, sy, color, n).dots
        decreases dx - i + ady - j
      {
        Advance(xStartPos0, yStartPos0, dx, ady, sx, sy, color, n, i, j);
        var error2 := 2 * error1;
        if error2 >= dy {
          error1 := error1 + dy;
          xStartPos := xStartPos + sx;
          i := i + 1;
        }
        if error2 <= dx {
          error1 := error1 + dx;
          yStartPos := yStartPos + sy;
          j := j + 1;
        }
        DrawPixel(xStartPos, yStartPos, color);
        n := n + 1;
      }
      Arrived(xStartPos0, yStartPos0, dx, ady, sx, sy, color, n, i, j);
    }
  }

  function Distance(a: int, b: int): int { if a < b then b - a else a - b }

  function Direction(a: int, b: int): int { if a < b then 1 else -1 }

  /** The walk has come to (i, j) after n steps and had not arrived before. */
  ghost predicate AtStep(x0: int, y0: int, dx: int, dy: int, sx: int, sy: int, color: int, n: nat, i: int, j: int) {
    var w := WalkLine(x0, y0, dx, dy, sx, sy, color, n);
    w.i == i && w.j == j
    && forall k: nat :: k < n ==> WalkLine(0, 0, dx, dy, 1, 1, 0, k).i < dx && WalkLine(0, 0, dx, dy, 1, 1, 0, k).j < dy
  }

  lemma {:induction false} WalkStart(x0: int, y0: int, dx: int, dy: int, sx: int, sy: int, color: int)
    ensures WalkLine(x0, y0, dx, dy, sx, sy, color, 0).dots == [Dot(x0, y0, color)]
    ensures AtStep(x0, y0, dx, dy, sx, sy, color, 0, 0, 0)
    ensures ErrorAt(dx, dy, 0, 0) == dx - dy
  {
  }

  lemma {:induction false} Advance(x0: int, y0: int, dx: int, dy: int, sx: int, sy: int, color: int, n: nat, i: int,
                                   j: int)
    requires dx > 0 && dy > 0 && AtStep(x0, y0, dx, dy, sx, sy, color, n, i, j) && i < dx && j < dy
    ensures var e := 2 * ErrorAt(dx, dy, i, j);
            var i', j' := if e >= -dy then i + 1 else i, if e <= dx then j + 1 else j;
            AtStep(x0, y0, dx, dy, sx, sy, color, n + 1, i', j')
            && WalkLine(x0, y0, dx, dy, sx, sy, color, n + 1).dots
               == WalkLine(x0, y0, dx, dy, sx, sy, color, n).dots + [Dot(x0 + sx * i', y0 + sy * j', color)]
            && i' + j' > i + j
            && ErrorAt(dx, dy, i', j') == ErrorAt(dx, dy, i, j) + (if i' > i then -dy else 0)
               + (if j' > j then dx else 0)
  {
    hide ErrorAt, Near;
    ErrorIs(dx, dy, i, j);
    WalkNear(x0, y0, dx, dy, sx, sy, color, n);
    StepNear(dx, dy, i, j);
    SameWalk(x0, y0, dx, dy, sx, sy, color, n);
  }

  lemma {:induction false} Arrived(x0: int, y0: int, dx: int, dy: int, sx: int, sy: int, color: int, n: nat, i: int,
                                   j: int)
    requires AtStep(x0, y0, dx, dy, sx, sy, color, n, i, j) && (i == dx || j == dy)
    ensures Stops(dx, dy, n)
  {
    hide NextI, NextJ;
    SameWalk(x0, y0, dx, dy, sx, sy, color, n);
  }

  /** Every dot of a slanted line stands for one step along the longer axis, lies in the box of its end points
      and at most half a pixel from the ideal line. */
  lemma {:induction false} LineDot(x0: int, y0: int, dx: int, dy: int, sx: int, sy: int, color: int, n: nat, k: nat)
    requires dx > 0 && dy > 0 && Stops(dx, dy, n) && k <= n
    ensures var w := WalkLine(x0, y0, dx, dy, sx, sy, color, k);
            WalkLine(x0, y0, dx, dy, sx, sy, color, n).dots[k] == Dot(x0 + sx * w.i, y0 + sy * w.j, color)
            && 0 <= w.i <= dx && 0 <= w.j <= dy && (if dx >= dy then w.i else w.j) == k
            && -Max(dx, dy) <= 2 * (w.j * dx - w.i * dy) <= Max(dx, dy)
  {
    hide Near, NextI, NextJ, WalkLine, Stops;
    WalkNear(x0, y0, dx, dy, sx, sy, color, k);
    var w := WalkLine(x0, y0, dx, dy, sx, sy, color, k);
    NearBounds(dx, dy, w.i, w.j);
    EarlierDot(x0, y0, dx, dy, sx, sy, color, n, k);
    SameWalk(x0, y0, dx, dy, sx, sy, color, k);
    if k < n { UnderWay(dx, dy, n, k); } else { LineEnds(dx, dy, n); }
  }

  lemma {:induction false} UnderWay(dx: int, dy: int, n: nat, k: nat)
    requires Stops(dx, dy, n) && k < n
    ensures WalkLine(0, 0, dx, dy, 1, 1, 0, k).i < dx && WalkLine(0, 0, dx, dy, 1, 1, 0, k).j < dy
  {
    hide WalkLine;
  }

  lemma {:induction false} EarlierDot(x0: int, y0: int, dx: int, dy: int, sx: int, sy: int, color: int, n: nat, k: nat)
    requires k <= n
    ensures WalkLine(x0, y0, dx, dy, sx, sy, color, n).dots[k] == WalkLine(x0, y0, dx, dy, sx, sy, color, k).dots[k]
  {
    hide NextI, NextJ;
    if k < n { EarlierDot(x0, y0, dx, dy, sx, sy, color, n - 1, k); }
  }

  // -------------------------------------------------------------------- scrolling

  /** The pixel at x, y. */
  function Get(fb: seq<int>, stride: int, x: int, y: int): int {
    if 0 <= Index(stride, x, y) < |fb| then fb[Index(stride, x, y)] else 0
  }

  /** The loops have dealt with the pixel at x, y: they go row by row from glyphHeight on. */
  predicate Moved(width: int, glyphHeight: int, column: int, row: int, x: int, y: int) {
    0 <= x < width && y >= glyphHeight && (y < column || (y == column && x < row))
  }

  /** What a pixel holds meanwhile: what was glyphHeight below it once that was moved, else background if it was
      moved away itself, else what it held. */
  function Cell(fb: seq<int>, stride: int, width: int, height: int, glyphHeight: int, bg: int, column: int, row: int,
                x: int, y: int): int {
    if y + glyphHeight < height && Moved(width, glyphHeight, column, row, x, y + glyphHeight) then
      Get(fb, stride, x, y + glyphHeight)
    else if y < height && Moved(width, glyphHeight, column, row, x, y) then bg
    else Get(fb, stride, x, y)
  }

  ghost predicate Scrolling(now: seq<int>, fb: seq<int>, stride: int, width: int, height: int, glyphHeight: int,
                            bg: int, column: int, row: int) {
    |now| == |fb| == stride * height && 0 < width <= stride
    && forall x, y {:trigger Get(now, stride, x, y)} :: 0 <= x < stride && 0 <= y < height ==>
         Get(now, stride, x, y) == Cell(fb, stride, width, height, glyphHeight, bg, column, row, x, y)
  }

  /** The screen moved up by glyphHeight: background comes in below, except that a screen of less than twice that
      height keeps the rows in between. */
  function Scrolled(fb: seq<int>, stride: int, width: int, height: int, glyphHeight: int, bg: int, x: int,
                    y: int): int {
    if x >= width then Get(fb, stride, x, y)
    else if y + glyphHeight < height then Get(fb, stride, x, y + glyphHeight)
    else if y >= glyphHeight then bg
    else Get(fb, stride, x, y)
  }

  lemma {:induction false} IndexApart(stride: int, x: int, y: int, x': int, y': int)
    requires 0 <= x < stride && 0 <= x' < stride
    ensures Index(stride, x, y) == Index(stride, x', y') <==> x == x' && y == y'
  {
    Difference(y, y', stride);
    if Index(stride, x, y) == Index(stride, x', y') { OneMultiple(y - y', stride); }
  }

  lemma {:induction false} Put(fb: seq<int>, stride: int, height: int, x: int, y: int, v: int, x': int, y': int)
    requires |fb| == stride * height && 0 <= x < stride && 0 <= y < height && 0 <= x' < stride && 0 <= y' < height
    ensures 0 <= Index(stride, x, y) < |fb|
    ensures Get(fb[Index(stride, x, y) := v], stride, x', y')
         == if x == x' && y == y' then v else Get(fb, stride, x', y')
  {
    hide Index;
    IndexInside(stride, height, x, y);
    IndexInside(stride, height, x', y');
    IndexApart(stride, x, y, x', y');
  }

  lemma {:induction false} MoveOne(now: seq<int>, fb: seq<int>, stride: int, width: int, height: int, glyphHeight: int,
                                   bg: int, column: int, row: int)
    requires Scrolling(now, fb, stride, width, height, glyphHeight, bg, column, row)
    requires 0 < glyphHeight <= column < height && 0 <= row < width
    ensures var a, b := Index(stride, row, column), Index(stride, row, column - glyphHeight);
            0 <= a < |now| && 0 <= b < |now|
            && Scrolling(now[a := bg][b := now[a]], fb, stride, width, height, glyphHeight, bg, column, row + 1)
  {
    hide Index, Get;
    var a, b := Index(stride, row, column), Index(stride, row, column - glyphHeight);
    IndexInside(stride, height, row, column);
    IndexInside(stride, height, row, column - glyphHeight);
    Held(now, stride, row, column);
    assert Get(now, stride, row, column) == Get(fb, stride, row, column);
    var now1 := now[a := bg];
    var now' := now1[b := now[a]];
    forall x, y | 0 <= x < stride && 0 <= y < height
      ensures Get(now', stride, x, y) == Cell(fb, stride, width, height, glyphHeight, bg, column, row + 1, x, y)
    {
      Put(now, stride, height, row, column, bg, x, y);
      Put(now1, stride, height, row, column - glyphHeight, now[a], x, y);
      assert Get(now, stride, x, y) == Cell(fb, stride, width, height, glyphHeight, bg, column, row, x, y);
    }
  }

  /** The word a pixel is kept in. */
  lemma {:induction false} Held(fb: seq<int>, stride: int, x: int, y: int)
    requires 0 <= Index(stride, x, y) < |fb|
    ensures Index(stride, x, y) == y * stride + x && Get(fb, stride, x, y) == fb[y * stride + x]
  {
  }

  lemma {:induction false} NextColumn(now: seq<int>, fb: seq<int>, stride: int, width: int, height: int,
                                      glyphHeight: int, bg: int, column: int)
    requires Scrolling(now, fb, stride, width, height, glyphHeight, bg, column, width)
    ensures Scrolling(now, fb, stride, width, height, glyphHeight, bg, column + 1, 0)
  {
    hide Get;
    forall x, y | 0 <= x < stride && 0 <= y < height
      ensures Get(now, stride, x, y) == Cell(fb, stride, width, height, glyphHeight, bg, column + 1, 0, x, y)
    {
      assert Get(now, stride, x, y) == Cell(fb, stride, width, height, glyphHeight, bg, column, width, x, y);
    }
  }

  lemma {:induction false} AllMoved(now: seq<int>, fb: seq<int>, stride: int, width: int, height: int, glyphHeight: int,
                                    bg: int, column: int)
    requires Scrolling(now, fb, stride, width, height, glyphHeight, bg, column, 0) && column >= height
         && glyphHeight > 0
    ensures forall x, y {:trigger Get(now, stride, x, y)} :: 0 <= x < stride && 0 <= y < height ==>
              Get(now, stride, x, y) == Scrolled(fb, stride, width, height, glyphHeight, bg, x, y)
  {
    hide Get;
  }

  lemma {:induction false} NoneMoved(fb: seq<int>, stride: int, width: int, height: int, glyphHeight: int, bg: int)
    requires |fb| == stride * height && 0 < width <= stride && glyphHeight > 0
    ensures Scrolling(fb, fb, stride, width, height, glyphHeight, bg, glyphHeight, 0)
  {
    hide Get;
  }

  /** framebuffer_move_one_row_up */
  method MoveOneRowUp(fb: array<int>, width: int, height: int, stride: int, glyphHeight: int, bg: int)
    requires 0 < width <= stride && 0 < height && fb.Length == stride * height && glyphHeight > 0
    modifies fb
    ensures forall x, y {:trigger Get(fb[..], stride, x, y)} :: 0 <= x < stride && 0 <= y < height ==>
              Get(fb[..], stride, x, y)
              == if x < width && y + glyphHeight < height then Get(old(fb[..]), stride, x, y + glyphHeight)
                 else if x < width && y >= glyphHeight then bg
                 else Get(old(fb[..]), stride, x, y)
  {
    hide Scrolling, Get, Index;
    ghost var fb0 := fb[..];
    NoneMoved(fb0, stride, width, height, glyphHeight, bg);
    var column := glyphHeight;
    while column < height
      invariant glyphHeight <= column
      invariant Scrolling(fb[..], fb0, stride, width, height, glyphHeight, bg, column, 0)
    {
      var row := 0;
      while row < width
        invariant 0 <= row <= width
        invariant Scrolling(fb[..], fb0, stride, width, height, glyphHeight, bg, column, row)
      {
        ghost var now := fb[..];
        MoveOne(now, fb0, stride, width, height, glyphHeight, bg, column, row);
        var currentIndex := Index(stride, row, column);
        var currentColor := fb[currentIndex];
        fb[currentIndex] := bg;
        var newIndex := Index(stride, row, column - glyphHeight);
        fb[newIndex] := currentColor;
        assert fb[..] == now[currentIndex := bg][newIndex := currentColor];
        row := row + 1;
      }
      NextColumn(fb[..], fb0, stride, width, height, glyphHeight, bg, column);
      column := column + 1;
    }
    AllMoved(fb[..], fb0, stride, width, height, glyphHeight, bg, column);
  }
}
