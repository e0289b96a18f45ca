/**
 `loopp::led::GridLayout`: where in a strip of LEDs the pixel (x, y) of a grid sits,
 for every corner the strip can start in, either direction of its lines, and lines
 that all run the same way or alternate.
 */
module GridLayout {
  import opened NumberTheory
  import opened Wrappers

  datatype Origin = TopLeft | BottomLeft | TopRight | BottomRight

  datatype Direction = Horizontal | Vertical

  datatype Sequence = Progressive | ZigZag

  /** A layout with the default stride, the length of one line of the strip. */
  datatype Layout = Layout(width: uint16, height: uint16, origin: Origin, direction: Direction, sequence: Sequence)

  function Stride(g: Layout): uint16 {
    if g.direction == Horizontal then g.width else g.height
  }

  function Lines(g: Layout): uint16 {
    if g.direction == Horizontal then g.height else g.width
  }

  function Area(g: Layout): nat {
    var w: int, h: int := g.width, g.height;
    w * h
  }

  /** Conversion to 16 bits. */
  function Wrap(n: int): uint16 {
    if 0 <= n < UINT16 then n else n % UINT16
  }

  /** The product that the code forms before converting it. */
  function Linear(line: int, stride: int, place: int): int {
    line * stride + place
  }

  // ---------------------------------------------------------------------
  // Where a pixel is: its line, and its place in the line

  function Flip(flip: bool, n: nat, size: nat): nat
    requires n < size
  {
    if flip then size - 1 - n else n
  }

  predicate FlipsX(o: Origin) {
    o == TopRight || o == BottomRight
  }

  predicate FlipsY(o: Origin) {
    o == BottomLeft || o == BottomRight
  }

  /** The line counted from the origin, and the place in it, the odd lines of a zigzag running backwards. */
  function LineAndPlace(g: Layout, x: nat, y: nat): (nat, nat)
    requires x < g.width && y < g.height
  {
    var x', y' := Flip(FlipsX(g.origin), x, g.width), Flip(FlipsY(g.origin), y, g.height);
    var (line, place) := if g.direction == Horizontal then (y', x') else (x', y');
    (line, Flip(g.sequence == ZigZag && line % 2 == 1, place, Stride(g)))
  }

  /** The pixel at a place of a line. */
  function Pixel(g: Layout, line: nat, place: nat): (nat, nat)
    requires line < Lines(g) && place < Stride(g)
  {
    var place' := Flip(g.sequence == ZigZag && line % 2 == 1, place, Stride(g));
    var (x, y) := if g.direction == Horizontal then (place', line) else (line, place');
    (Flip(FlipsX(g.origin), x, g.width), Flip(FlipsY(g.origin), y, g.height))
  }

  /** The strip index that the code computes for a pixel of the grid. */
  function Index(g: Layout, x: nat, y: nat): nat
    requires x < g.width && y < g.height
  {
    var (line, place) := LineAndPlace(g, x, y);
    Wrap(Linear(line, Stride(g), place))
  }

  // ---------------------------------------------------------------------
  // The index of a pixel

  /** From any other corner the grid is mirrored. */
  lemma MirroredFromTopLeft(g: Layout, x: nat, y: nat)
    requires x < g.width && y < g.height
    ensures var t := g.(origin := TopLeft);
      && (g.origin == TopRight ==> Index(g, x, y) == Index(t, g.width - 1 - x, y))
      && (g.origin == BottomLeft ==> Index(g, x, y) == Index(t, x, g.height - 1 - y))
      && (g.origin == BottomRight ==> Index(g, x, y) == Index(t, g.width - 1 - x, g.height - 1 - y))
  {
  }

  /** From the top left, row by row or column by column; in a zigzag every second of them backwards. */
  lemma IndexFromTopLeft(g: Layout, x: nat, y: nat)
    requires x < g.width && y < g.height && g.origin == TopLeft
    ensures var w: int, h: int, i: int := g.width, g.height, Index(g, x, y);
      && (g.direction == Horizontal ==>
        i == (if g.sequence == ZigZag && y % 2 == 1 then y * w + (w - 1 - x) else y * w + x) % 65536)
      && (g.direction == Vertical ==>
        i == (if g.sequence == ZigZag && x % 2 == 1 then x * h + (h - 1 - y) else x * h + y) % 65536)
  {
    hide Wrap;
    var (line, place) := LineAndPlace(g, x, y);
    WrapIsRemainder(Linear(line, Stride(g), place));
  }

  lemma WrapIsRemainder(n: int)
    ensures Wrap(n) == n % 65536
  {
  }

  /** The strip starts in the corner that the layout names. */
  lemma StartsAtOrigin(g: Layout)
    requires 0 < g.width && 0 < g.height
    ensures match g.origin
      case TopLeft => Index(g, 0, 0) == 0
      case TopRight => Index(g, g.width - 1, 0) == 0
      case BottomLeft => Index(g, 0, g.height - 1) == 0
      case BottomRight => Index(g, g.width - 1, g.height - 1) == 0
  {
    assert Linear(0, Stride(g), 0) == 0;
  }

  /** In a zigzag no wire crosses the grid: consecutive LEDs are neighbours. */
  lemma ZigZagNeighbours(g: Layout, x: nat, y: nat, u: nat, v: nat)
    requires x < g.width && y < g.height && u < g.width && v < g.height
    requires g.sequence == ZigZag && Area(g) <= UINT16 && Index(g, u, v) == Index(g, x, y) + 1
    ensures (x == u && (y == v + 1 || v == y + 1)) || (y == v && (x == u + 1 || u == x + 1))
  {
    hide LineAndPlace, Pixel, Index, Linear, Area;
    IndexIsLinear(g, x, y);
    IndexIsLinear(g, u, v);
    LineAndPlaceInverse(g, x, y);
    LineAndPlaceInverse(g, u, v);
    var (a, p) := LineAndPlace(g, x, y);
    var (b, q) := LineAndPlace(g, u, v);
    NextPlace(a, p, b, q, Stride(g));
    NextPixel(g, a, p, b, q);
  }

  lemma NextPixel(g: Layout, a: nat, p: nat, b: nat, q: nat)
    requires a < Lines(g) && p < Stride(g) && b < Lines(g) && q < Stride(g) && g.sequence == ZigZag
    requires if p + 1 < Stride(g) then b == a && q == p + 1 else b == a + 1 && q == 0
    ensures var ((x, y), (u, v)) := (Pixel(g, a, p), Pixel(g, b, q));
      (x == u && (y == v + 1 || v == y + 1)) || (y == v && (x == u + 1 || u == x + 1))
  {
    assert b == a + 1 ==> (b % 2 == 1 <==> a % 2 == 0);
  }

  /** The next place is in the same line, or the first of the next. */
  lemma NextPlace(a: nat, p: nat, b: nat, q: nat, stride: nat)
    requires p < stride && q < stride && Linear(b, stride, q) == Linear(a, stride, p) + 1
    ensures if p + 1 < stride then b == a && q == p + 1 else b == a + 1 && q == 0
  {
    if p + 1 < stride {
      LinearUnique(b, q, a, p + 1, stride);
    } else {
      NextLine(a, stride);
      LinearUnique(b, q, a + 1, 0, stride);
    }
  }

  // ---------------------------------------------------------------------
  // The edge: the range check accepts x = width and y = height

  function FlipAny(flip: bool, n: int, size: nat): int {
    if flip then size - 1 - n else n
  }

  /** The same for coordinates on the edge: a line or a place one before the first or one after the last. */
  function EdgeLineAndPlace(g: Layout, x: nat, y: nat): (int, int) {
    var x', y' := FlipAny(FlipsX(g.origin), x, g.width), FlipAny(FlipsY(g.origin), y, g.height);
    var (line, place) := if g.direction == Horizontal then (y', x') else (x', y');
    (line, FlipAny(g.sequence == ZigZag && line % 2 == 1, place, Stride(g)))
  }

  function EdgeIndex(g: Layout, x: nat, y: nat): uint16 {
    var (line, place) := EdgeLineAndPlace(g, x, y);
    Wrap(Linear(line, Stride(g), place))
  }

  lemma EdgeIndexInside(g: Layout, x: nat, y: nat)
    requires x < g.width && y < g.height
    ensures EdgeIndex(g, x, y) == Index(g, x, y)
  {
  }

  /** On the edge of the lines: the LED before or after the line, or none. */
  lemma PlaceBeyond(g: Layout, x: nat, y: nat)
    requires 0 < Area(g) <= UINT16
    requires if g.direction == Horizontal then x == g.width && y < g.height else y == g.height && x < g.width
    ensures var (line, place) := EdgeLineAndPlace(g, x, y);
      && 0 <= line < Lines(g) && (place == Stride(g) || place == -1)
      && var far := if g.direction == Horizontal then {TopRight, BottomRight} else {BottomLeft, BottomRight};
      && (place == -1 <==> (g.origin in far) != (g.sequence == ZigZag && line % 2 == 1))
      && (place == Stride(g) && line + 1 < Lines(g) ==>
        EdgeIndex(g, x, y) == Linear(line + 1, Stride(g), 0) < Area(g))
      && (place == Stride(g) && line + 1 == Lines(g) ==> EdgeIndex(g, x, y) == Area(g) % UINT16)
      && (place == -1 && line > 0 ==> EdgeIndex(g, x, y) == Linear(line - 1, Stride(g), Stride(g) - 1) < Area(g))
      && (place == -1 && line == 0 ==> EdgeIndex(g, x, y) == UINT16 - 1)
  {
    var (line, place) := EdgeLineAndPlace(g, x, y);
    AreaOfLines(g);
    NextLine(line, Stride(g));
    if line + 1 < Lines(g) {
      LinearBound(line + 1, Lines(g), 0, Stride(g));
    }
    if line > 0 {
      LinearBound(line - 1, Lines(g), Stride(g) - 1, Stride(g));
    }
  }

  lemma NextLine(line: int, stride: int)
    ensures Linear(line, stride, stride) == Linear(line + 1, stride, 0)
    ensures Linear(line, stride, -1) == Linear(line - 1, stride, stride - 1)
    ensures Linear(0, stride, -1) == -1
  {
  }

  /** On the edge after the last or before the first line: beyond the strip, unless the 16 bits wrap. */
  lemma LineBeyond(g: Layout, x: nat, y: nat)
    requires 0 < Area(g) <= UINT16
    requires if g.direction == Horizontal then y == g.height && x < g.width else x == g.width && y < g.height
    ensures var (line, place) := EdgeLineAndPlace(g, x, y);
      && (line == Lines(g) || line == -1) && 0 <= place < Stride(g)
      && var far := if g.direction == Horizontal then {BottomLeft, BottomRight} else {TopRight, BottomRight};
      && (line == -1 <==> g.origin in far)
      && (line == Lines(g) ==> EdgeIndex(g, x, y) == (Area(g) + place) % UINT16)
      && (line == Lines(g) ==> (EdgeIndex(g, x, y) < Area(g) <==> Area(g) + place >= UINT16))
      && (line == -1 ==> EdgeIndex(g, x, y) == UINT16 - Stride(g) + place)
      && (line == -1 ==> (EdgeIndex(g, x, y) < Area(g) <==> Area(g) + Stride(g) - place > UINT16))
  {
    var (line, place) := EdgeLineAndPlace(g, x, y);
    AreaOfLines(g);
    BeyondLines(Lines(g), Stride(g), place);
    hide Wrap, Linear, Area;
    WrapIsRemainder(Linear(line, Stride(g), place));
    AfterTheArea(Area(g), place);
    BeforeTheStrip(Stride(g), place);
  }

  lemma BeyondLines(lines: int, stride: int, place: int)
    ensures Linear(lines, stride, place) == Linear(lines, stride, 0) + place
    ensures Linear(-1, stride, place) == place - stride
  {
  }

  lemma AfterTheArea(area: nat, place: nat)
    requires 0 < area <= UINT16 && place < UINT16
    ensures (area + place) % UINT16 < area <==> area + place >= UINT16
  {
  }

  lemma BeforeTheStrip(stride: nat, place: nat)
    requires place < stride < UINT16
    ensures (place - stride) % UINT16 == UINT16 - stride + place
  {
  }

  /** Line after line from the top left. */
  predicate Plain(g: Layout) {
    g.origin == TopLeft && g.direction == Horizontal && g.sequence == Progressive
  }

  /** The column just outside a plain grid is accepted and has the indices of the first column. */
  lemma EdgeAliases(g: Layout, y: nat)
    requires Plain(g) && 0 < g.width && y + 1 < g.height
    ensures EdgeIndex(g, g.width, y) == Index(g, 0, y + 1)
  {
    NextLine(y, g.width);
  }

  lemma WrapFlip(n: int, m: uint16, size: uint16)
    requires m == Wrap(n)
    ensures Wrap(size - m - 1) == Wrap(size - 1 - n)
    ensures m % 2 == n % 2
  {
  }

  lemma WrapLinear(line: int, place: int, y: uint16, x: uint16, stride: uint16)
    requires y == Wrap(line) && x == Wrap(place)
    ensures Wrap(Linear(y, stride, x)) == Wrap(Linear(line, stride, place))
  {
    var k := WrapOffset(line);
    var m := WrapOffset(place);
    assert Linear(y, stride, x) == Linear(line, stride, place) + (k * stride + m) * UINT16 by {
      assert (line + k * UINT16) * stride == line * stride + (k * stride) * UINT16;
    }
    WrapMultiple(Linear(line, stride, place), k * stride + m);
  }

  lemma WrapOffset(n: int) returns (k: int)
    ensures Wrap(n) == n + k * UINT16
  {
    k := -(n / UINT16);
  }

  lemma WrapMultiple(n: int, k: int)
    ensures Wrap(n + k * UINT16) == Wrap(n)
  {
    var m := WrapOffset(n);
    DivUnique(n + k * UINT16, UINT16, k - m, Wrap(n));
    DivUnique(n, UINT16, -m, Wrap(n));
  }

  /**
   `convert_xy`, on all coordinates that pass its range check; within the grid that is
   the index of the pixel.
   */
  method ConvertXy(g: Layout, x0: uint16, y0: uint16) returns (r: Option<uint16>)
    ensures r.None? <==> x0 > g.width || y0 > g.height
    ensures r.Some? ==> r == Some(EdgeIndex(g, x0, y0))
    ensures x0 < g.width && y0 < g.height ==> r == Some(Index(g, x0, y0))
  {
    hide Wrap, Linear;
    var x, y := x0, y0;
    ghost var x', y': int := x0, y0;
    WrapSmall(x0);
    WrapSmall(y0);
    if x > g.width {
      return None;
    }
    if y > g.height {
      return None;
    }
    if g.origin == TopRight || g.origin == BottomRight {
      WrapFlip(x', x, g.width);
      x, x' := Wrap(g.width - x - 1), g.width - 1 - x';
    }
    if g.origin == BottomLeft || g.origin == BottomRight {
      WrapFlip(y', y, g.height);
      y, y' := Wrap(g.height - y - 1), g.height - 1 - y';
    }
    WrapFlip(x', x, g.width);
    WrapFlip(y', y, g.height);
    if g.sequence == ZigZag {
      if g.direction == Horizontal && y % 2 == 1 {
        x, x' := Wrap(g.width - x - 1), g.width - 1 - x';
      } else if g.direction == Vertical && x % 2 == 1 {
        y, y' := Wrap(g.height - y - 1), g.height - 1 - y';
      }
    }
    if g.direction == Vertical {
      x, y := y, x;
      x', y' := y', x';
    }
    assert EdgeLineAndPlace(g, x0, y0) == (y', x');
    WrapLinear(y', x', y, x, Stride(g));
    if x0 < g.width && y0 < g.height {
      EdgeIndexInside(g, x0, y0);
    }
    r := Some(Wrap(Linear(y, Stride(g), x)));
  }

  lemma WrapSmall(n: uint16)
    ensures Wrap(n) == n
  {
  }

  // ---------------------------------------------------------------------

  lemma LineAndPlaceInverse(g: Layout, x: nat, y: nat)
    requires x < g.width && y < g.height
    ensures var (line, place) := LineAndPlace(g, x, y);
      line < Lines(g) && place < Stride(g) && Pixel(g, line, place) == (x, y)
  {
  }

  lemma PixelInverse(g: Layout, line: nat, place: nat)
    requires line < Lines(g) && place < Stride(g)
    ensures var (x, y) := Pixel(g, line, place);
      x < g.width && y < g.height && LineAndPlace(g, x, y) == (line, place)
  {
  }

  lemma AreaOfLines(g: Layout)
    ensures Linear(Lines(g), Stride(g), 0) == Area(g)
  {
  }

  lemma LinearBound(line: nat, lines: nat, place: nat, stride: nat)
    requires line < lines && place < stride
    ensures 0 <= Linear(line, stride, place) < Linear(lines, stride, 0)
  {
    assert Linear(lines, stride, 0) - line * stride == (lines - line) * stride;
    MulAtLeast(lines - line, stride);
  }

  lemma LinearUnique(a: nat, p: nat, b: nat, q: nat, stride: nat)
    requires p < stride && q < stride
    requires Linear(a, stride, p) == Linear(b, stride, q)
    ensures a == b && p == q
  {
    assert (a - b) * stride == q - p;
    MulAtLeast(a - b, stride);
  }

  /** The pixel (x, y) has index i. */
  predicate IsAt(g: Layout, x: nat, y: nat, i: nat) {
    x < g.width && y < g.height && Index(g, x, y) == i
  }

  ghost predicate Injective(g: Layout) {
    forall x: nat, y: nat, u: nat, v: nat, i: nat :: IsAt(g, x, y, i) && IsAt(g, u, v, i) ==> x == u && y == v
  }

  /** Some pixel has index i. */
  ghost predicate Used(g: Layout, i: nat) {
    exists x: nat, y: nat :: IsAt(g, x, y, i)
  }

  ghost predicate Onto(g: Layout) {
    forall i: nat :: Used(g, i) <==> i < Area(g)
  }

  /** On a grid that a 16-bit index can address, no product wraps. */
  lemma IndexIsLinear(g: Layout, x: nat, y: nat)
    requires x < g.width && y < g.height && Area(g) <= UINT16
    ensures var (line, place) := LineAndPlace(g, x, y);
      Index(g, x, y) == Linear(line, Stride(g), place) < Area(g)
  {
    LineAndPlaceInverse(g, x, y);
    var (line, place) := LineAndPlace(g, x, y);
    LinearBound(line, Lines(g), place, Stride(g));
    AreaOfLines(g);
  }

  /**
   All sixteen layouts are one-to-one onto the strip of width times height LEDs,
   exactly when that many can be numbered with 16 bits.
   */
  lemma LayoutIsBijection(g: Layout)
    ensures Injective(g) && Onto(g) <==> Area(g) <= UINT16
  {
    if Area(g) <= UINT16 {
      forall x: nat, y: nat, u: nat, v: nat, i: nat | IsAt(g, x, y, i) && IsAt(g, u, v, i)
        ensures x == u && y == v
      {
        SameIndexSamePixel(g, x, y, u, v);
      }
      forall i: nat
        ensures Used(g, i) <==> i < Area(g)
      {
        if i < Area(g) {
          var x, y := PixelAt(g, i);
        } else {
          UsedIsInArea(g, i);
        }
      }
    } else {
      assert !Used(g, UINT16);
    }
  }

  lemma UsedIsInArea(g: Layout, i: nat)
    requires Area(g) <= UINT16
    ensures Used(g, i) ==> i < Area(g)
  {
    forall x: nat, y: nat | IsAt(g, x, y, i)
      ensures i < Area(g)
    {
      IndexIsLinear(g, x, y);
    }
  }

  lemma SameIndexSamePixel(g: Layout, x: nat, y: nat, u: nat, v: nat)
    requires x < g.width && y < g.height && u < g.width && v < g.height
    requires Area(g) <= UINT16 && Index(g, x, y) == Index(g, u, v)
    ensures x == u && y == v
  {
    IndexIsLinear(g, x, y);
    IndexIsLinear(g, u, v);
    LineAndPlaceInverse(g, x, y);
    LineAndPlaceInverse(g, u, v);
    var (a, p) := LineAndPlace(g, x, y);
    var (b, q) := LineAndPlace(g, u, v);
    LinearUnique(a, p, b, q, Stride(g));
  }

  lemma PixelAt(g: Layout, i: nat) returns (x: nat, y: nat)
    requires i < Area(g) <= UINT16
    ensures IsAt(g, x, y, i)
  {
    AreaOfLines(g);
    var line, place := Quotient(i, Lines(g), Stride(g));
    PixelInverse(g, line, place);
    var p := Pixel(g, line, place);
    x, y := p.0, p.1;
    IndexIsLinear(g, x, y);
  }

  lemma Quotient(i: nat, lines: nat, stride: nat) returns (line: nat, place: nat)
    requires i < Linear(lines, stride, 0)
    ensures line < lines && place < stride && i == Linear(line, stride, place)
  {
    assert stride > 0;
    line, place := i / stride, i % stride;
    assert (line - lines) * stride == line * stride - lines * stride;
    MulAtLeast(line - lines, stride);
  }
}
