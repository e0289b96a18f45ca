/**
 An LED strip of the `loopp::led` templates: colors, a current limiter that scales
 the brightness of a frame, and the WS28xx driver that turns a frame into pulses.
 Brightness and current are real numbers.
 */
module LedStrip {
  import opened NumberTheory
  import opened Wrappers

  type uint8 = n: int | 0 <= n < 256

  datatype Color = Color(red: uint8, green: uint8, blue: uint8)

  /** One item of the remote-control peripheral: two levels with their durations. */
  datatype Item = Item(level0: nat, duration0: nat, level1: nat, duration1: nat)

  // ---------------------------------------------------------------------
  // Scaling

  function Clamp(value: real): real {
    if value < 0.0 then 0.0 else if value > 1.0 then 1.0 else value
  }

  /** `std::round` of a nonnegative number. */
  function Round(x: real): int {
    (x + 0.5).Floor
  }

  lemma MulSum(x: real, a: real, b: real)
    ensures x * (a + b) == x * a + x * b
  {
  }

  lemma OrderCancel(a: real, b: real, k: real)
    requires k > 0.0 && a * k < b * k
    ensures a < b
  {
  }

  lemma RoundBounds(channel: uint8, value: real)
    requires 0.0 <= value <= 1.0
    ensures 0 <= Round(channel as real * value) <= channel
    ensures -0.5 < Round(channel as real * value) as real - channel as real * value <= 0.5
    ensures value == 1.0 ==> Round(channel as real * value) == channel
  {
  }

  function ScaleChannel(channel: uint8, value: real): uint8
    requires 0.0 <= value <= 1.0
  {
    RoundBounds(channel, value);
    Round(channel as real * value)
  }

  /** `Color::operator*`: the factor is clamped, so every channel stays in range. */
  function Scaled(c: Color, value: real): Color {
    var v := Clamp(value);
    Color(ScaleChannel(c.red, v), ScaleChannel(c.green, v), ScaleChannel(c.blue, v))
  }

  function ScaledAll(colors: seq<Color>, value: real): seq<Color> {
    seq(|colors|, i requires 0 <= i < |colors| => Scaled(colors[i], value))
  }

  // ---------------------------------------------------------------------
  // Current

  /** What a lit LED draws: a base current, and a part proportional to each channel. */
  datatype Usage = Usage(base: real, red: real, green: real, blue: real)

  function ChannelDraw(u: Usage, c: Color): real {
    c.red as real * u.red + c.green as real * u.green + c.blue as real * u.blue
  }

  function LedDraw(u: Usage, c: Color): real {
    ChannelDraw(u, c) + u.base
  }

  function LedDraws(u: Usage, colors: seq<Color>): seq<real> {
    seq(|colors|, i requires 0 <= i < |colors| => LedDraw(u, colors[i]))
  }

  function Sum(xs: seq<real>): real {
    if xs == [] then 0.0 else Sum(xs[..|xs| - 1]) + xs[|xs| - 1]
  }

  /** The current of a whole frame. */
  function Draw(u: Usage, colors: seq<Color>): real {
    Sum(LedDraws(u, colors))
  }

  predicate Nonnegative(u: Usage) {
    u.base >= 0.0 && u.red >= 0.0 && u.green >= 0.0 && u.blue >= 0.0
  }

  /** The most that rounding can add to one LED. */
  function RoundingDraw(u: Usage): real {
    0.5 * (u.red + u.green + u.blue)
  }

  /** What rounding adds to a scaled channel. */
  function RoundingError(channel: uint8, value: real): (e: real)
    requires 0.0 <= value <= 1.0
    ensures -0.5 <= e <= 0.5
  {
    RoundBounds(channel, value);
    ScaleChannel(channel, value) as real - channel as real * value
  }

  /** The current of fractions of channel steps. */
  function StepDraw(u: Usage, red: real, green: real, blue: real): real {
    red * u.red + green * u.green + blue * u.blue
  }

  /** The current that rounding the scaled channels adds or saves. */
  function Excess(u: Usage, c: Color, value: real): real {
    var v := Clamp(value);
    StepDraw(u, RoundingError(c.red, v), RoundingError(c.green, v), RoundingError(c.blue, v))
  }

  function Excesses(u: Usage, colors: seq<Color>, value: real): seq<real> {
    seq(|colors|, i requires 0 <= i < |colors| => Excess(u, colors[i], value))
  }

  function TotalExcess(u: Usage, colors: seq<Color>, value: real): real {
    Sum(Excesses(u, colors, value))
  }

  /** The base current is not scaled, and the channels are rounded. */
  lemma ScaledLedDraw(u: Usage, c: Color, value: real)
    requires 0.0 <= value <= 1.0
    ensures LedDraw(u, Scaled(c, value)) == value * LedDraw(u, c) + (1.0 - value) * u.base + Excess(u, c, value)
  {
  }

  lemma ExcessBound(u: Usage, c: Color, value: real)
    requires Nonnegative(u) && 0.0 <= value <= 1.0
    ensures -RoundingDraw(u) <= Excess(u, c, value) <= RoundingDraw(u)
  {
    hide RoundingError, StepDraw, RoundingDraw;
    StepDrawBound(u, RoundingError(c.red, value), RoundingError(c.green, value), RoundingError(c.blue, value));
  }

  lemma StepDrawBound(u: Usage, red: real, green: real, blue: real)
    requires Nonnegative(u) && -0.5 <= red <= 0.5 && -0.5 <= green <= 0.5 && -0.5 <= blue <= 0.5
    ensures -RoundingDraw(u) <= StepDraw(u, red, green, blue) <= RoundingDraw(u)
  {
    WeightedBound(red, u.red, green, u.green, blue, u.blue);
  }

  lemma WeightedBound(x: real, a: real, y: real, b: real, z: real, c: real)
    requires a >= 0.0 && b >= 0.0 && c >= 0.0
    requires -0.5 <= x <= 0.5 && -0.5 <= y <= 0.5 && -0.5 <= z <= 0.5
    ensures -(0.5 * (a + b + c)) <= x * a + y * b + z * c <= 0.5 * (a + b + c)
  {
    MulBetween(x, a);
    MulBetween(y, b);
    MulBetween(z, c);
    AddBetween(x * a, y * b, z * c, a, b, c);
  }

  lemma MulBetween(x: real, k: real)
    requires -0.5 <= x <= 0.5 && k >= 0.0
    ensures -(0.5 * k) <= x * k <= 0.5 * k
  {
  }

  lemma AddBetween(p: real, q: real, r: real, a: real, b: real, c: real)
    requires -(0.5 * a) <= p <= 0.5 * a && -(0.5 * b) <= q <= 0.5 * b && -(0.5 * c) <= r <= 0.5 * c
    ensures -(0.5 * (a + b + c)) <= p + q + r <= 0.5 * (a + b + c)
  {
  }

  lemma {:induction false} SumLinear(xs: seq<real>, ys: seq<real>, zs: seq<real>, value: real, offset: real)
    requires |xs| == |ys| == |zs| && forall i :: 0 <= i < |xs| ==> xs[i] == value * ys[i] + offset + zs[i]
    ensures Sum(xs) == value * Sum(ys) + |xs| as real * offset + Sum(zs)
    decreases |xs|
  {
    if xs == [] {
    } else {
      var n := |xs| - 1;
      SumLinear(xs[..n], ys[..n], zs[..n], value, offset);
      MulSum(value, Sum(ys[..n]), ys[n]);
      assert |xs| as real * offset == n as real * offset + offset;
    }
  }

  lemma {:induction false} SumBound(xs: seq<real>, bound: real)
    requires forall i :: 0 <= i < |xs| ==> -bound <= xs[i] <= bound
    ensures -(|xs| as real * bound) <= Sum(xs) <= |xs| as real * bound
    decreases |xs|
  {
    if xs == [] {
    } else {
      var n := |xs| - 1;
      SumBound(xs[..n], bound);
      assert |xs| as real * bound == n as real * bound + bound;
    }
  }

  /** What a scaled frame draws, exactly. */
  lemma ScaledDraw(u: Usage, colors: seq<Color>, value: real)
    requires 0.0 <= value <= 1.0
    ensures Draw(u, ScaledAll(colors, value)) ==
      value * Draw(u, colors) + (1.0 - value) * (|colors| as real * u.base) + TotalExcess(u, colors, value)
  {
    hide LedDraw, Scaled, Excess, Sum;
    var xs, ys, zs := LedDraws(u, ScaledAll(colors, value)), LedDraws(u, colors), Excesses(u, colors, value);
    var offset := (1.0 - value) * u.base;
    forall i | 0 <= i < |xs|
      ensures xs[i] == value * ys[i] + offset + zs[i]
    {
      ScaledLedDraw(u, colors[i], value);
    }
    SumLinear(xs, ys, zs, value, offset);
    SplitBase(|colors| as real, 1.0 - value, u.base);
  }

  /** How far rounding can take a frame either way. */
  lemma TotalExcessBound(u: Usage, colors: seq<Color>, value: real)
    requires Nonnegative(u) && 0.0 <= value <= 1.0
    ensures -(|colors| as real * RoundingDraw(u)) <= TotalExcess(u, colors, value) <= |colors| as real * RoundingDraw(u)
  {
    hide Excess, RoundingDraw, Sum;
    forall i | 0 <= i < |colors|
      ensures -RoundingDraw(u) <= Excesses(u, colors, value)[i] <= RoundingDraw(u)
    {
      ExcessBound(u, colors[i], value);
    }
    SumBound(Excesses(u, colors, value), RoundingDraw(u));
  }

  lemma SplitBase(n: real, rest: real, base: real)
    ensures n * (rest * base) == rest * (n * base)
  {
  }

  lemma UnscaledDraw(u: Usage, colors: seq<Color>)
    ensures ScaledAll(colors, 1.0) == colors
  {
  }

  /** The scale that `apply_hook` chooses; a budget of zero means no limit. */
  function LimitScale(budget: real, current: real): (scale: real)
    ensures budget <= 0.0 || current <= budget ==> scale == 1.0
    ensures 0.0 < budget < current ==> scale * current == budget
  {
    if budget > 0.0 && current > budget then budget / current else 1.0
  }

  /** What a limited frame draws beyond its budget: base current that is not scaled, and rounding. */
  function Overdraw(u: Usage, colors: seq<Color>, scale: real): real {
    (1.0 - scale) * (|colors| as real * u.base) + TotalExcess(u, colors, scale)
  }

  /**
   A frame shown under a budget: unchanged if it fits, and otherwise off the budget
   by exactly the part of the base current that a proportional reduction would have
   saved, and rounding, at most half a step per channel either way.
   */
  lemma LimitedDraw(u: Usage, colors: seq<Color>, budget: real)
    requires budget > 0.0
    ensures var scale, n := LimitScale(budget, Draw(u, colors)), |colors| as real;
      && 0.0 < scale <= 1.0
      && (scale == 1.0 <==> Draw(u, colors) <= budget)
      && (scale == 1.0 ==> ScaledAll(colors, scale) == colors)
      && (scale < 1.0 ==> Draw(u, ScaledAll(colors, scale)) == budget + Overdraw(u, colors, scale))
      && (scale < 1.0 && Nonnegative(u) ==>
        (1.0 - scale) * (n * u.base) - n * RoundingDraw(u)
          <= Overdraw(u, colors, scale)
          <= (1.0 - scale) * (n * u.base) + n * RoundingDraw(u))
  {
    hide Draw, ScaledAll, RoundingDraw, TotalExcess;
    if Draw(u, colors) > budget {
      ScaleBelowOne(budget, Draw(u, colors));
      ScaledDraw(u, colors, budget / Draw(u, colors));
      if Nonnegative(u) {
        TotalExcessBound(u, colors, budget / Draw(u, colors));
      }
    } else {
      UnscaledDraw(u, colors);
    }
  }

  /** The budget is met exactly by the frames that fit it and by those whose rounding saves the base current. */
  lemma BudgetMetExactly(u: Usage, colors: seq<Color>, budget: real)
    requires budget > 0.0
    ensures var scale := LimitScale(budget, Draw(u, colors));
      Draw(u, ScaledAll(colors, scale)) <= budget <==> Draw(u, colors) <= budget || Overdraw(u, colors, scale) <= 0.0
  {
    hide Draw, ScaledAll, Overdraw;
    LimitedDraw(u, colors, budget);
  }

  lemma ScaleBelowOne(budget: real, current: real)
    requires 0.0 < budget < current
    ensures 0.0 < budget / current < 1.0
    ensures budget / current * current == budget
  {
    var q := budget / current;
    assert q * current == budget;
    OrderCancel(q, 1.0, current);
    OrderCancel(0.0, q, current);
  }

  /** The budget itself is not a bound: one dim LED whose channel rounds up again. */
  lemma BudgetCanBeExceeded()
    ensures var u, colors, budget := Usage(1.0, 1.0, 1.0, 1.0), [Color(1, 0, 0)], 1.5;
      Draw(u, ScaledAll(colors, LimitScale(budget, Draw(u, colors)))) == 2.0
  {
  }

  // ---------------------------------------------------------------------
  // Pulses

  const BITS: nat := 8

  function Power2(k: nat): (p: nat)
    ensures p > 0
  {
    if k == 0 then 1 else 2 * Power2(k - 1)
  }

  /** The low k bits of a value, most significant first, as pulses. */
  function Pulses(value: nat, k: nat, low: Item, high: Item): seq<Item>
    decreases k
  {
    if k == 0 then []
    else [if value / Power2(k - 1) % 2 == 1 then high else low] + Pulses(value, k - 1, low, high)
  }

  /** What a receiver that knows the shape of a one reads, most significant bit first. */
  function Received(items: seq<Item>, high: Item): nat {
    if items == [] then 0
    else (if items[0] == high then Power2(|items| - 1) else 0) + Received(items[1..], high)
  }

  lemma {:induction false} PulseCount(value: nat, k: nat, low: Item, high: Item)
    ensures |Pulses(value, k, low, high)| == k
  {
    if k == 0 {
    } else {
      PulseCount(value, k - 1, low, high);
    }
  }

  /** The low k bits of a value are the next bit and the bits below it. */
  lemma TopBit(value: nat, p: nat)
    requires p > 0
    ensures value % (2 * p) == (if value / p % 2 == 1 then p else 0) + value % p
  {
    var q, r := value / p, value % p;
    var bit := q % 2;
    assert q == q / 2 * 2 + bit;
    assert value == q * p + r;
    assert (q / 2 * 2 + bit) * p == q / 2 * (2 * p) + bit * p;
    assert bit == 0 ==> bit * p == 0;
    assert bit == 1 ==> bit * p == p;
    DivUnique(value, 2 * p, q / 2, bit * p + r);
  }

  lemma {:induction false} PulsesRoundTrip(value: nat, k: nat, low: Item, high: Item)
    requires low != high
    ensures Received(Pulses(value, k, low, high), high) == value % Power2(k)
  {
    if k == 0 {
    } else {
      PulsesRoundTrip(value, k - 1, low, high);
      PulseCount(value, k - 1, low, high);
      TopBit(value, Power2(k - 1));
      assert Pulses(value, k, low, high)[1..] == Pulses(value, k - 1, low, high);
    }
  }

  /** The pulses of a byte. */
  function BytePulses(value: uint8, low: Item, high: Item): seq<Item> {
    Pulses(value, BITS, low, high)
  }

  lemma BytePulseCount(value: uint8, low: Item, high: Item)
    ensures |BytePulses(value, low, high)| == 8
  {
  }

  lemma BytePulseAt(value: uint8, low: Item, high: Item, j: nat)
    requires j < 8
    ensures |BytePulses(value, low, high)| == 8
    ensures BytePulses(value, low, high)[j] == if value / Power2(7 - j) % 2 == 1 then high else low
  {
    PulseAt(value, BITS, low, high, j);
  }

  lemma ByteRoundTrip(value: uint8, low: Item, high: Item)
    requires low != high
    ensures Received(BytePulses(value, low, high), high) == value
  {
    PulsesRoundTrip(value, BITS, low, high);
    EightBits();
  }

  /** A color goes out as its green, red and blue bytes. */
  function ColorPulses(c: Color, low: Item, high: Item): seq<Item> {
    BytePulses(c.green, low, high) + (BytePulses(c.red, low, high) + BytePulses(c.blue, low, high))
  }

  function Flatten(parts: seq<seq<Item>>): seq<Item> {
    if parts == [] then [] else Flatten(parts[..|parts| - 1]) + parts[|parts| - 1]
  }

  function ColorParts(colors: seq<Color>, low: Item, high: Item): seq<seq<Item>> {
    seq(|colors|, i requires 0 <= i < |colors| => ColorPulses(colors[i], low, high))
  }

  /** A frame is the pulses of its colors in order. */
  function FramePulses(colors: seq<Color>, low: Item, high: Item): seq<Item> {
    Flatten(ColorParts(colors, low, high))
  }

  ghost predicate AllOfLength(parts: seq<seq<Item>>, n: nat) {
    forall i :: 0 <= i < |parts| ==> |parts[i]| == n
  }

  lemma {:induction false} FlattenLength(parts: seq<seq<Item>>)
    requires AllOfLength(parts, 24)
    ensures |Flatten(parts)| == 24 * |parts|
    decreases |parts|
  {
    if parts == [] {
    } else {
      FlattenLength(parts[..|parts| - 1]);
    }
  }

  /** Parts of equal length stand at their place in the whole. */
  lemma {:induction false} FlattenAt(parts: seq<seq<Item>>, i: nat)
    requires AllOfLength(parts, 24) && i < |parts|
    ensures |Flatten(parts)| == 24 * |parts|
    ensures Flatten(parts)[24 * i..24 * (i + 1)] == parts[i]
    decreases |parts|
  {
    var n := |parts| - 1;
    FlattenLength(parts);
    FlattenLength(parts[..n]);
    LastPart(Flatten(parts[..n]), parts[n], n, i);
    if i == n {
    } else {
      FlattenAt(parts[..n], i);
    }
  }

  lemma LastPart(front: seq<Item>, last: seq<Item>, n: nat, i: nat)
    requires |front| == 24 * n && |last| == 24 && i <= n
    ensures (front + last)[24 * i..24 * (i + 1)] == if i < n then front[24 * i..24 * (i + 1)] else last
  {
  }

  lemma ColorPulseCount(c: Color, low: Item, high: Item)
    ensures |ColorPulses(c, low, high)| == 24
  {
    BytePulseCount(c.green, low, high);
    BytePulseCount(c.red, low, high);
    BytePulseCount(c.blue, low, high);
  }

  lemma PartsLength(colors: seq<Color>, low: Item, high: Item)
    ensures AllOfLength(ColorParts(colors, low, high), 24)
    ensures |FramePulses(colors, low, high)| == 24 * |colors|
  {
    forall i | 0 <= i < |colors|
      ensures |ColorParts(colors, low, high)[i]| == 24
    {
      ColorPulseCount(colors[i], low, high);
    }
    FlattenLength(ColorParts(colors, low, high));
  }

  /** What 24 pulses mean to the receiver. */
  function ReceivedColor(items: seq<Item>, high: Item): (nat, nat, nat)
    requires |items| == 24
  {
    (Received(items[8..16], high), Received(items[..8], high), Received(items[16..], high))
  }

  lemma ColorRoundTrip(c: Color, low: Item, high: Item)
    requires low != high
    ensures |ColorPulses(c, low, high)| == 24
    ensures ReceivedColor(ColorPulses(c, low, high), high) == (c.red as nat, c.green as nat, c.blue as nat)
  {
    BytePulseCount(c.green, low, high);
    BytePulseCount(c.red, low, high);
    BytePulseCount(c.blue, low, high);
    ThreeBytes(BytePulses(c.green, low, high), BytePulses(c.red, low, high), BytePulses(c.blue, low, high));
    ByteRoundTrip(c.green, low, high);
    ByteRoundTrip(c.red, low, high);
    ByteRoundTrip(c.blue, low, high);
    EightBits();
  }

  lemma ThreeBytes(g: seq<Item>, r: seq<Item>, b: seq<Item>)
    requires |g| == |r| == |b| == 8
    ensures var items := g + (r + b);
      items[..8] == g && items[8..16] == r && items[16..] == b
  {
  }

  lemma EightBits()
    ensures Power2(8) == 256
  {
  }

  /** The mask of `add_byte` at its start, and one place further down. */
  lemma FirstMask()
    ensures Power2(7) == 128
  {
  }

  lemma NextMask(j: nat)
    requires j < 8
    ensures Power2(7 - j) / 2 == if j == 7 then 0 else Power2(7 - (j + 1))
  {
  }

  /** The i-th color that the receiver reads from a frame. */
  function ReceivedAt(items: seq<Item>, i: nat, high: Item): (nat, nat, nat)
    requires 24 * (i + 1) <= |items|
  {
    ReceivedColor(items[24 * i..24 * (i + 1)], high)
  }

  /** The receiver reads the color that was sent. */
  ghost predicate Readable(c: Color, low: Item, high: Item) {
    && |ColorPulses(c, low, high)| == 24
    && ReceivedColor(ColorPulses(c, low, high), high) == (c.red as nat, c.green as nat, c.blue as nat)
  }

  /** A frame is read back color by color. */
  lemma FrameRoundTrip(colors: seq<Color>, low: Item, high: Item, i: nat)
    requires low != high && i < |colors|
    ensures |FramePulses(colors, low, high)| == 24 * |colors|
    ensures ReceivedAt(FramePulses(colors, low, high), i, high) ==
      (colors[i].red as nat, colors[i].green as nat, colors[i].blue as nat)
  {
    PartAt(colors, low, high, i);
    ColorRoundTrip(colors[i], low, high);
  }

  /** The weights of the bits of a byte in the order in which they are sent. */
  const WEIGHTS: seq<nat> := [128, 64, 32, 16, 8, 4, 2, 1]

  /** On the wire: color by color, green before red before blue, the top bit first. */
  lemma WireOrder(colors: seq<Color>, low: Item, high: Item, i: nat, j: nat)
    requires i < |colors| && j < 8
    ensures var frame, c, w := FramePulses(colors, low, high), colors[i], WEIGHTS[j];
      && |frame| == 24 * |colors|
      && frame[24 * i + j] == (if c.green / w % 2 == 1 then high else low)
      && frame[24 * i + 8 + j] == (if c.red / w % 2 == 1 then high else low)
      && frame[24 * i + 16 + j] == (if c.blue / w % 2 == 1 then high else low)
  {
    hide FramePulses, BytePulses, Power2;
    var frame, c := FramePulses(colors, low, high), colors[i];
    PartAt(colors, low, high, i);
    ColorPulseCount(c, low, high);
    ThreeBytes(BytePulses(c.green, low, high), BytePulses(c.red, low, high), BytePulses(c.blue, low, high)) by {
      BytePulseCount(c.green, low, high);
      BytePulseCount(c.red, low, high);
      BytePulseCount(c.blue, low, high);
    }
    WeightIsPower(j);
    BytePulseAt(c.green, low, high, j);
    BytePulseAt(c.red, low, high, j);
    BytePulseAt(c.blue, low, high, j);
    var part := frame[24 * i..24 * (i + 1)];
    assert part[j] == frame[24 * i + j] && part[8 + j] == frame[24 * i + 8 + j];
    assert part[16 + j] == frame[24 * i + 16 + j];
    assert part[..8][j] == part[j] && part[8..16][j] == part[8 + j] && part[16..][j] == part[16 + j];
  }

  lemma WeightIsPower(j: nat)
    requires j < 8
    ensures WEIGHTS[j] == Power2(7 - j)
  {
    FirstMask();
    if j > 0 {
      WeightIsPower(j - 1);
      NextMask(j - 1);
    }
  }

  /** Every color can be read back exactly when the two pulses differ. */
  lemma ColorsReadable(low: Item, high: Item)
    ensures (forall c :: Readable(c, low, high)) <==> low != high
  {
    if low != high {
      forall c
        ensures Readable(c, low, high)
      {
        ColorRoundTrip(c, low, high);
      }
    } else {
      var c := Color(0, 0, 0);
      ColorPulseCount(c, low, high);
      BytePulseCount(0, low, high);
      BytePulseAt(0, low, high, 0);
      assert ColorPulses(c, low, high)[..8] == BytePulses(0, low, high);
      assert Received(BytePulses(0, low, high), high) >= Power2(7);
      assert !Readable(c, low, high);
    }
  }

  // ---------------------------------------------------------------------

  /** The first n items are those of the frame. */
  ghost predicate Agree(s: seq<Item>, frame: seq<Item>, n: nat) {
    n <= |s| && n <= |frame| && forall k :: 0 <= k < n ==> s[k] == frame[k]
  }

  lemma AgreeMore(before: seq<Item>, after: seq<Item>, frame: seq<Item>, at: nat, p: seq<Item>)
    requires |before| == |after| && at + |p| <= |after| && at + |p| <= |frame|
    requires Agree(before, frame, at)
    requires forall k :: 0 <= k < at ==> after[k] == before[k]
    requires forall j :: 0 <= j < |p| ==> after[at + j] == p[j]
    requires frame[at..at + |p|] == p
    ensures Agree(after, frame, at + |p|)
  {
    forall k | at <= k < at + |p|
      ensures after[k] == frame[k]
    {
      assert after[at + (k - at)] == frame[at..at + |p|][k - at];
    }
  }

  /** The pulses of the i-th color of a frame stand at their place. */
  lemma PartAt(colors: seq<Color>, low: Item, high: Item, i: nat)
    requires i < |colors|
    ensures var frame := FramePulses(colors, low, high);
      |frame| == 24 * |colors| && frame[24 * i..24 * (i + 1)] == ColorPulses(colors[i], low, high)
  {
    PartsLength(colors, low, high);
    FlattenAt(ColorParts(colors, low, high), i);
  }

  lemma AgreeAll(s: seq<Item>, frame: seq<Item>, reset: Item)
    requires |s| == |frame| + 1 && Agree(s, frame, |frame|) && s[|frame|] == reset
    ensures s == frame + [reset]
  {
  }

  /** The array has the items p from position at. */
  ghost predicate Holds(a: array<Item>, at: nat, p: seq<Item>)
    reads a
  {
    at + |p| <= a.Length && forall j :: 0 <= j < |p| ==> a[at + j] == p[j]
  }

  class LedStrip {
    const numberOfLeds: uint16
    const low: Item
    const high: Item
    const reset: Item
    var ledColors: seq<Color>
    var scale: real
    var currentBudget: real
    var usage: Usage
    var rmtData: array<Item>

    /** Once `Clear` has been called there is a color for every LED. */
    ghost predicate Lit()
      reads this
    {
      |ledColors| == numberOfLeds
    }

    constructor (numberOfLeds: uint16, low: Item, high: Item, reset: Item)
      ensures Valid()
      ensures this.numberOfLeds == numberOfLeds && this.low == low && this.high == high && this.reset == reset
      ensures ledColors == [] && scale == 1.0 && currentBudget == 0.0
    {
      this.numberOfLeds, this.low, this.high, this.reset := numberOfLeds, low, high, reset;
      ledColors, scale, currentBudget := [], 1.0, 0.0;
      usage := Usage(1.0, 20.0 / 255.0, 20.0 / 255.0, 20.0 / 255.0);
      rmtData := new Item[0];
    }

    method Clear()
      modifies this`ledColors
      ensures Lit() && Valid()
      ensures forall i :: 0 <= i < numberOfLeds ==> ledColors[i] == Color(0, 0, 0)
    {
      ledColors := seq(numberOfLeds, _ => Color(0, 0, 0));
    }

    /** Fails exactly for an index out of range. */
    method SetColor(idx: nat, color: Color) returns (ok: bool)
      requires Lit()
      modifies this`ledColors
      ensures Lit() && (ok <==> idx < numberOfLeds)
      ensures ledColors == if ok then old(ledColors)[idx := color] else old(ledColors)
    {
      if idx >= numberOfLeds {
        return false;
      }
      ledColors := ledColors[idx := color];
      ok := true;
    }

    /** There are colors for all LEDs, or, before `Clear`, for none. */
    ghost predicate Valid()
      reads this
    {
      Lit() || ledColors == []
    }

    /** The current that the limiter counts: before `Clear`, the base current of dark LEDs. */
    ghost function Counted(): real
      reads this
    {
      if Lit() then Draw(usage, ledColors) else numberOfLeds as real * usage.base
    }

    /** `calculate_current`: channel sums in 32 bits, which cannot overflow, then one product per channel. */
    method CalculateCurrent() returns (current: real)
      requires Valid()
      ensures current == Counted()
      ensures Lit() ==> current == Draw(usage, ledColors)
      ensures ledColors == [] ==> current == numberOfLeds as real * usage.base
    {
      var red: nat, green: nat, blue: nat := 0, 0, 0;
      for i := 0 to |ledColors|
        invariant red <= 255 * i && green <= 255 * i && blue <= 255 * i
        invariant SumsDraw(red, green, blue, i, usage) == Draw(usage, ledColors[..i])
      {
        DrawMore(usage, ledColors, i, red, green, blue);
        red := red + ledColors[i].red;
        green := green + ledColors[i].green;
        blue := blue + ledColors[i].blue;
        assert red < 0x1_0000_0000 && green < 0x1_0000_0000 && blue < 0x1_0000_0000;
      }
      assert ledColors[..|ledColors|] == ledColors;
      assert ledColors == [] ==> red == 0 && green == 0 && blue == 0;
      current := SumsDraw(red, green, blue, numberOfLeds, usage);
    }

    /** `apply_hook` of the current limiter. */
    method ApplyHook()
      requires Valid()
      modifies this`scale
      ensures scale == LimitScale(currentBudget, Counted())
    {
      var s: real := 1.0;
      if currentBudget > 0.0 {
        var current := CalculateCurrent();
        if current > currentBudget {
          s := currentBudget / current;
        }
      }
      scale := s;
    }

    /** `add_byte`: eight items from position `at`, the mask moving from the top bit down. */
    method AddByte(at: nat, value: uint8) returns (next: nat)
      requires at + 8 <= rmtData.Length
      modifies rmtData
      ensures next == at + 8
      ensures Holds(rmtData, at, BytePulses(value, low, high))
      ensures forall i :: 0 <= i < at ==> rmtData[i] == old(rmtData[i])
    {
      hide Power2, BytePulses;
      next := at;
      var mask := 128;
      FirstMask();
      BytePulseCount(value, low, high);
      ghost var pulses, j: nat := BytePulses(value, low, high), 0;
      while mask > 0
        invariant j <= 8 && next == at + j
        invariant mask == if j == 8 then 0 else Power2(7 - j)
        invariant forall i :: 0 <= i < j ==> rmtData[at + i] == pulses[i]
        invariant forall i :: 0 <= i < at ==> rmtData[i] == old(rmtData[i])
        decreases 8 - j
      {
        BytePulseAt(value, low, high, j);
        NextMask(j);
        rmtData[next] := if value / mask % 2 == 1 then high else low;
        mask := mask / 2;
        next := next + 1;
        j := j + 1;
      }
    }

    method AddColor(at: nat, c: Color) returns (next: nat)
      requires at + 24 <= rmtData.Length
      modifies rmtData
      ensures next == at + 24
      ensures Holds(rmtData, at, ColorPulses(c, low, high))
      ensures forall i :: 0 <= i < at ==> rmtData[i] == old(rmtData[i])
    {
      hide BytePulses;
      BytePulseCount(c.green, low, high);
      BytePulseCount(c.red, low, high);
      BytePulseCount(c.blue, low, high);
      next := AddByte(at, c.green);
      next := AddByte(next, c.red);
      next := AddByte(next, c.blue);
    }

    /** One round of the loop of `execute`, at its place in the frame. */
    method AddScaledColor(at: nat, c: Color, factor: real, ghost frame: seq<Item>) returns (next: nat)
      requires at + 24 <= rmtData.Length && at + 24 <= |frame|
      requires frame[at..at + 24] == ColorPulses(Scaled(c, factor), low, high)
      requires Agree(rmtData[..], frame, at)
      modifies rmtData
      ensures next == at + 24 && Agree(rmtData[..], frame, next)
    {
      ghost var before := rmtData[..];
      next := AddColor(at, Scaled(c, factor));
      AgreeMore(before, rmtData[..], frame, at, frame[at..next]);
    }

    /** The loop of `execute`: the pulses of every scaled color, one after another. */
    method AddColors(colors: seq<Color>, factor: real)
      requires rmtData.Length == 24 * |colors| + 1
      modifies rmtData
      ensures Agree(rmtData[..], FramePulses(ScaledAll(colors, factor), low, high), 24 * |colors|)
    {
      hide Scaled, ColorPulses, FramePulses;
      var it: nat := 0;
      ghost var frame := FramePulses(ScaledAll(colors, factor), low, high);
      PartsLength(ScaledAll(colors, factor), low, high);
      for i := 0 to |colors|
        invariant it == 24 * i
        invariant Agree(rmtData[..], frame, it)
      {
        PartAt(ScaledAll(colors, factor), low, high, i);
        it := AddScaledColor(it, colors[i], factor, frame);
      }
    }

    /** `execute`: the pulses of the scaled frame, and a reset. */
    method Execute(colors: seq<Color>, factor: real)
      modifies this`rmtData
      ensures fresh(rmtData)
      ensures rmtData[..] == FramePulses(ScaledAll(colors, factor), low, high) + [reset]
    {
      rmtData := new Item[|colors| * 24 + 1](_ => reset);
      AddColors(colors, factor);
      rmtData[rmtData.Length - 1] := reset;
      PartsLength(ScaledAll(colors, factor), low, high);
      AgreeAll(rmtData[..], FramePulses(ScaledAll(colors, factor), low, high), reset);
    }

    /** `apply`: the limiter chooses the scale, the driver sends the frame. */
    method Apply()
      requires Valid()
      modifies this`scale, this`rmtData
      ensures scale == LimitScale(currentBudget, Counted())
      ensures rmtData[..] == FramePulses(ScaledAll(ledColors, scale), low, high) + [reset]
      ensures rmtData.Length == 24 * |ledColors| + 1
    {
      hide FramePulses, Scaled, Draw;
      ApplyHook();
      Execute(ledColors, scale);
      PartsLength(ScaledAll(ledColors, scale), low, high);
      assert rmtData.Length == |rmtData[..]|;
    }
  }

  lemma {:induction false} PulseAt(value: nat, k: nat, low: Item, high: Item, j: nat)
    requires j < k
    ensures |Pulses(value, k, low, high)| == k
    ensures Pulses(value, k, low, high)[j] == if value / Power2(k - 1 - j) % 2 == 1 then high else low
  {
    PulseCount(value, k, low, high);
    if j == 0 {
    } else {
      PulseAt(value, k - 1, low, high, j - 1);
    }
  }

  function SumsDraw(red: nat, green: nat, blue: nat, n: nat, u: Usage): real {
    red as real * u.red + green as real * u.green + blue as real * u.blue + n as real * u.base
  }

  lemma DrawMore(u: Usage, colors: seq<Color>, i: nat, red: nat, green: nat, blue: nat)
    requires i < |colors|
    requires SumsDraw(red, green, blue, i, u) == Draw(u, colors[..i])
    ensures SumsDraw(red + colors[i].red, green + colors[i].green, blue + colors[i].blue, i + 1, u)
         == Draw(u, colors[..i + 1])
  {
    assert LedDraws(u, colors[..i + 1])[..i] == LedDraws(u, colors[..i]);
    var c := colors[i];
    MulSum(u.red, red as real, c.red as real);
    MulSum(u.green, green as real, c.green as real);
    MulSum(u.blue, blue as real, c.blue as real);
    MulSum(u.base, i as real, 1.0);
  }
}
