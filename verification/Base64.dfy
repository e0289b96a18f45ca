/**
 The base64 encoder of `BLEScannerDriver`, which shifts bytes into an accumulator and
 emits six bits at a time, against section 4 of RFC 4648. Bytes are unsigned, as
 `char` is on the target; the accumulator is a 32-bit integer that overflows.
 */
module Base64 {
  import opened NumberTheory
  import opened Wrappers
  import opened StreamBuffers

  const ALPHABET: string := "ABCDEFGHIJKLMNOPQRSTUVWXYZ" + "abcdefghijklmnopqrstuvwxyz" + "0123456789" + "+/"

  /** Two's complement in 32 bits. */
  function Wrap32(n: int): int {
    (n + 0x8000_0000) % 0x1_0000_0000 - 0x8000_0000
  }

  type sextet = n: int | 0 <= n < 64

  // ---------------------------------------------------------------------
  // RFC 4648

  /** The top six bits of a byte, and its low six, four and two bits. */
  function Top6(c: byte): sextet { c / 4 }

  function Low6(c: byte): sextet { c % 64 }

  function Low4(c: byte): (v: nat)
    ensures v < 16
  {
    c % 16
  }

  function Low2(c: byte): (v: nat)
    ensures v < 4
  {
    c % 4
  }

  /** Two or four bits left over, followed by the first bits of the next byte. */
  function After2(v: nat, c: byte): sextet
    requires v < 4
  {
    v * 16 + c / 16
  }

  function After4(v: nat, c: byte): sextet
    requires v < 16
  {
    v * 4 + c / 64
  }

  /** The bits of the bytes in groups of six, the last group filled up with zeros. */
  function Sextets(s: seq<byte>): seq<sextet> {
    if |s| == 0 then []
    else if |s| == 1 then [Top6(s[0]), After2(Low2(s[0]), 0)]
    else if |s| == 2 then [Top6(s[0]), After2(Low2(s[0]), s[1]), After4(Low4(s[1]), 0)]
    else [Top6(s[0]), After2(Low2(s[0]), s[1]), After4(Low4(s[1]), s[2]), Low6(s[2])] + Sextets(s[3..])
  }

  /** Table 1: the character for six bits. */
  function Symbol(v: sextet): char {
    if v < 26 then (('A' as int) + v) as char
    else if v < 52 then (('a' as int) + (v - 26)) as char
    else if v < 62 then (('0' as int) + (v - 52)) as char
    else if v == 62 then '+' else '/'
  }

  /** Table 1, read the other way. */
  function Value(c: char): Option<sextet> {
    if 'A' <= c <= 'Z' then Some((c as int) - ('A' as int))
    else if 'a' <= c <= 'z' then Some((c as int) - ('a' as int) + 26)
    else if '0' <= c <= '9' then Some((c as int) - ('0' as int) + 52)
    else if c == '+' then Some(62)
    else if c == '/' then Some(63)
    else None
  }

  lemma AlphabetIsTable(v: sextet)
    ensures |ALPHABET| == 64 && ALPHABET[v] == Symbol(v)
  {
  }

  function Text(q: seq<sextet>): (t: string)
    ensures |t| == |q|
  {
    seq(|q|, i requires 0 <= i < |q| => Symbol(q[i]))
  }

  /** Padding to a multiple of four characters. */
  function Padding(n: nat): (p: string)
    ensures |p| == (4 - n % 4) % 4
  {
    if n % 4 == 0 then [] else if n % 4 == 3 then ['='] else if n % 4 == 2 then ['=', '='] else ['=', '=', '=']
  }

  function Encode(s: seq<byte>): string {
    Text(Sextets(s)) + Padding(|Sextets(s)|)
  }

  /** The three bytes in four groups of six bits. */
  function ByteOne(a: sextet, b: sextet): byte { a * 4 + b / 16 }

  function ByteTwo(b: sextet, c: sextet): byte { b % 16 * 16 + c / 4 }

  function ByteThree(c: sextet, d: sextet): byte { c % 4 * 64 + d }

  /** The bytes in groups of six bits; bits that fill up the last group must be zero. */
  function Bytes(q: seq<sextet>): Option<seq<byte>> {
    if |q| == 0 then Some([])
    else if |q| == 1 then None
    else if |q| == 2 then if q[1] % 16 == 0 then Some([ByteOne(q[0], q[1])]) else None
    else if |q| == 3 then if q[2] % 4 == 0 then Some([ByteOne(q[0], q[1]), ByteTwo(q[1], q[2])]) else None
    else match Bytes(q[4..])
      case None => None
      case Some(more) => Some([ByteOne(q[0], q[1]), ByteTwo(q[1], q[2]), ByteThree(q[2], q[3])] + more)
  }

  /** A text without the padding at its end, of which there are at most two characters. */
  function Strip(t: string): string {
    var n := |t|;
    if n >= 2 && t[n - 1] == '=' && t[n - 2] == '=' then t[..n - 2]
    else if n >= 1 && t[n - 1] == '=' then t[..n - 1]
    else t
  }

  function Decode(t: string): Option<seq<byte>> {
    var body := Strip(t);
    if |t| % 4 != 0 || exists i :: 0 <= i < |body| && Value(body[i]) == None then None
    else Bytes(seq(|body|, i requires 0 <= i < |body| => Value(body[i]).value))
  }

  /** Section 10: the encodings of "", "f", "fo" and "foo". */
  lemma TestVectors()
    ensures Encode([]) == "" && Encode([102]) == "Zg=="
    ensures Encode([102, 111]) == "Zm8="
    ensures Encode([102, 111, 111]) == "Zm9v"
  {
    assert Sextets([102, 111, 111]) == [25, 38, 61, 47] + Sextets([]);
  }

  /** The encoding of "foobar". */
  lemma LongTestVector()
    ensures Encode([102, 111, 111, 98, 97, 114]) == "Zm9vYmFy"
  {
    assert [102, 111, 111, 98, 97, 114][3..] == [98, 97, 114] && [98, 97, 114][3..] == [];
    assert Sextets([98, 97, 114]) == [24, 38, 5, 50] + Sextets([]);
    assert Sextets([102, 111, 111, 98, 97, 114]) == [25, 38, 61, 47] + [24, 38, 5, 50];
  }

  lemma Regroup(x: byte, y: byte, z: byte)
    ensures ByteOne(Top6(x), After2(Low2(x), y)) == x
    ensures ByteTwo(After2(Low2(x), y), After4(Low4(y), z)) == y
    ensures ByteThree(After4(Low4(y), z), Low6(z)) == z
  {
  }

  lemma ZeroFill(x: byte)
    ensures After2(Low2(x), 0) % 16 == 0 && After4(Low4(x), 0) % 4 == 0
  {
  }

  lemma {:induction false} SextetsRoundTrip(s: seq<byte>)
    ensures Bytes(Sextets(s)) == Some(s)
    ensures |Sextets(s)| == |s| + (|s| + 2) / 3
  {
    hide Top6, Low6, Low4, Low2, After2, After4, ByteOne, ByteTwo, ByteThree;
    if |s| == 1 {
      Regroup(s[0], 0, 0);
      ZeroFill(s[0]);
      assert s == [s[0]];
    } else if |s| == 2 {
      Regroup(s[0], s[1], 0);
      ZeroFill(s[1]);
      assert s == [s[0], s[1]];
    } else if |s| >= 3 {
      Regroup(s[0], s[1], s[2]);
      SextetsRoundTrip(s[3..]);
      assert Sextets(s)[4..] == Sextets(s[3..]);
      assert s == [s[0], s[1], s[2]] + s[3..];
    }
  }

  lemma TextRoundTrip(q: seq<sextet>)
    ensures forall i :: 0 <= i < |q| ==> Value(Text(q)[i]) == Some(q[i]) && Text(q)[i] != '='
  {
  }

  lemma StripPadding(q: seq<sextet>)
    requires |q| % 4 != 1
    ensures Strip(Text(q) + Padding(|q|)) == Text(q)
    ensures |Text(q) + Padding(|q|)| % 4 == 0
  {
    TextRoundTrip(q);
    var t := Text(q) + Padding(|q|);
    if |q| % 4 == 0 {
      assert t == Text(q);
    }
  }

  lemma DecodeText(t: string, q: seq<sextet>)
    requires Strip(t) == Text(q) && |t| % 4 == 0
    ensures Decode(t) == Bytes(q)
  {
    hide Symbol, Value, Bytes, Strip;
    TextRoundTrip(q);
    var body := Strip(t);
    assert seq(|body|, i requires 0 <= i < |body| => Value(body[i]).value) == q;
  }

  /** Decoding returns the input; there are four characters for every three bytes begun. */
  lemma RoundTrip(s: seq<byte>)
    ensures Decode(Encode(s)) == Some(s)
    ensures |Encode(s)| == (|s| + 2) / 3 * 4
  {
    hide Text, Sextets, Bytes, Strip, Decode, Padding;
    SextetsRoundTrip(s);
    GroupsAndPadding(|s|);
    StripPadding(Sextets(s));
    DecodeText(Encode(s), Sextets(s));
  }

  lemma GroupsAndPadding(n: nat)
    ensures var q := n + (n + 2) / 3;
      q % 4 != 1 && q + (4 - q % 4) % 4 == (n + 2) / 3 * 4
  {
    var k, r := n / 3, n % 3;
    assert n + (n + 2) / 3 == 4 * k + (if r == 0 then 0 else r + 1);
  }

  /** Padding stands only at the end: no character, two, or one. */
  lemma PaddingAtEnd(s: seq<byte>, i: nat)
    requires i < |Encode(s)|
    ensures Encode(s)[i] == '=' <==> i >= |Encode(s)| - (3 - |s| % 3) % 3
  {
    hide Symbol, Value, Sextets, Bytes, Decode;
    var q := Sextets(s);
    SextetsRoundTrip(s);
    RoundTrip(s);
    TextRoundTrip(q);
    if i < |q| {
      assert Encode(s)[i] == Text(q)[i];
    } else {
      assert Encode(s)[i] == Padding(|q|)[i - |q|];
    }
  }

  // ---------------------------------------------------------------------
  // The accumulator

  /** The groups still to come when `pending` bits v have not been emitted and `rest` has not been read. */
  function Remaining(v: nat, pending: nat, rest: seq<byte>): seq<sextet>
    requires PendingBits(v, pending)
    decreases |rest|
  {
    if |rest| == 0 then
      if pending == 0 then [] else if pending == 2 then [After2(v, 0)] else [After4(v, 0)]
    else if pending == 0 then [Top6(rest[0])] + Remaining(Low2(rest[0]), 2, rest[1..])
    else if pending == 2 then [After2(v, rest[0])] + Remaining(Low4(rest[0]), 4, rest[1..])
    else [After4(v, rest[0]), Low6(rest[0])] + Remaining(0, 0, rest[1..])
  }

  predicate PendingBits(v: nat, pending: nat) {
    (pending == 0 && v == 0) || (pending == 2 && v < 4) || (pending == 4 && v < 16)
  }

  /** Emitting the bits as they come gives the same groups. */
  lemma {:induction false} RemainingIsSextets(s: seq<byte>)
    ensures Remaining(0, 0, s) == Sextets(s)
    decreases |s|
  {
    hide Top6, Low6, Low4, Low2, After2, After4;
    if |s| == 1 {
      assert Remaining(Low2(s[0]), 2, s[1..]) == [After2(Low2(s[0]), 0)];
    } else if |s| == 2 {
      assert Remaining(Low4(s[1]), 4, s[1..][1..]) == [After4(Low4(s[1]), 0)];
      assert Remaining(Low2(s[0]), 2, s[1..]) == [After2(Low2(s[0]), s[1])] + Remaining(Low4(s[1]), 4, s[1..][1..]);
    } else if |s| >= 3 {
      RemainingIsSextets(s[3..]);
      assert s[1..][1..][1..] == s[3..];
      assert Remaining(Low4(s[1]), 4, s[1..][1..]) == [After4(Low4(s[1]), s[2]), Low6(s[2])] + Remaining(0, 0, s[3..]);
      assert Remaining(Low2(s[0]), 2, s[1..]) == [After2(Low2(s[0]), s[1])] + Remaining(Low4(s[1]), 4, s[1..][1..]);
    }
  }

  /** Overflow changes the accumulator by a multiple of 2 to the 32nd. */
  lemma WrapIsOffset(n: int) returns (k: int)
    ensures Wrap32(n) == n - k * 0x1_0000_0000
  {
    k := (n + 0x8000_0000) / 0x1_0000_0000;
  }

  /** The bits at the low end of the accumulator. */
  lemma LowBits(h: int, l: nat, c: byte)
    requires l < 16
    ensures var next := 4096 * h + 256 * l + c;
      && next / 4 % 64 == c / 4 && next % 4 == c % 4
      && next / 16 % 64 == l % 4 * 16 + c / 16 && next % 16 == c % 16
      && next / 64 % 64 == l * 4 + c / 64 && next % 64 == c % 64
  {
    var next := 4096 * h + 256 * l + c;
    var hi := l / 4;
    DivUnique(next, 4, 1024 * h + 64 * l + c / 4, c % 4);
    DivUnique(1024 * h + 64 * l + c / 4, 64, 16 * h + l, c / 4);
    DivUnique(next, 16, 256 * h + 16 * l + c / 16, c % 16);
    DivUnique(256 * h + 16 * l + c / 16, 64, 4 * h + hi, l % 4 * 16 + c / 16);
    DivUnique(next, 64, 64 * h + 4 * l + c / 64, c % 64);
    DivUnique(64 * h + 4 * l + c / 64, 64, h, 4 * l + c / 64);
  }

  /** Shifting a byte in: overflow does not reach the bits that are still to be emitted. */
  lemma ShiftIn(val: int, c: byte)
    ensures var next := Wrap32(val * 256 + c);
      && next / 4 % 64 == c / 4 && next % 4 == c % 4
      && next / 16 % 64 == val % 4 * 16 + c / 16 && next % 16 == c % 16
      && next / 64 % 64 == val % 16 * 4 + c / 64 && next % 64 == c % 64
  {
    var n := val * 256 + c;
    var k := WrapIsOffset(n);
    var h, l := val / 16, val % 16;
    LowTwo(val);
    LowBits(h - k * 1048576, l, c);
  }

  lemma LowTwo(val: int)
    ensures val % 16 % 4 == val % 4
  {
  }

  /** What the low end of the accumulator holds. */
  function LowEnd(val: int, pending: nat): (v: nat)
    requires pending == 0 || pending == 2 || pending == 4
    ensures PendingBits(v, pending)
  {
    if pending == 0 then 0 else if pending == 2 then val % 4 else val % 16
  }

  /** Six bits of the accumulator, from position k up. */
  function SixBits(val: int, k: nat): sextet
    requires k == 0 || k == 2 || k == 4 || k == 6
  {
    (if k == 0 then val else if k == 2 then val / 4 else if k == 4 then val / 16 else val / 64) % 64
  }

  /**
   The inner loop: after a byte has been shifted in there are between eight and
   twelve bits, of which it emits one or two groups of six.
   */
  method EmitGroups(val: int, valb: int) returns (out: string, left: int)
    requires valb == 2 || valb == 4 || valb == 6
    ensures left == if valb == 6 then -6 else valb - 6
    ensures out == Text(Emitted(val, valb))
  {
    out, left := [], valb;
    while left >= 0
      invariant left == valb || left == valb - 6 || (left == valb - 12 && valb == 6)
      invariant left == valb ==> out == []
      invariant left == valb - 6 ==> out == [Symbol(SixBits(val, valb))]
      invariant left == valb - 12 ==> out == [Symbol(SixBits(val, valb)), Symbol(SixBits(val, 0))]
      decreases left + 6
    {
      AlphabetIsTable(SixBits(val, left));
      out := out + [ALPHABET[SixBits(val, left)]];
      left := left - 6;
    }
  }

  function Emitted(val: int, valb: int): seq<sextet>
    requires valb == 2 || valb == 4 || valb == 6
  {
    [SixBits(val, valb)] + if valb == 6 then [SixBits(val, 0)] else []
  }

  /** One byte's worth of progress, as the loop makes it. */
  lemma ByteStep(val: int, pending: nat, rest: seq<byte>)
    requires (pending == 0 || pending == 2 || pending == 4) && |rest| > 0
    ensures var next := Wrap32(val * 256 + rest[0]);
      var left := if pending == 4 then 0 else pending + 2;
      Remaining(LowEnd(val, pending), pending, rest)
      == Emitted(next, pending + 2) + Remaining(LowEnd(next, left), left, rest[1..])
  {
    hide Wrap32, SixBits, LowEnd, Top6, Low6, Low4, Low2, After2, After4, Remaining;
    ShiftInGroups(val, rest[0]);
    RemainingAfter(LowEnd(val, pending), pending, rest);
  }

  lemma RemainingAfter(v: nat, pending: nat, rest: seq<byte>)
    requires PendingBits(v, pending) && |rest| > 0
    ensures pending == 0 ==>
      Remaining(v, pending, rest) == [Top6(rest[0])] + Remaining(Low2(rest[0]), 2, rest[1..])
    ensures pending == 2 ==>
      Remaining(v, pending, rest) == [After2(v, rest[0])] + Remaining(Low4(rest[0]), 4, rest[1..])
    ensures pending == 4 ==>
      Remaining(v, pending, rest) == [After4(v, rest[0]), Low6(rest[0])] + Remaining(0, 0, rest[1..])
  {
  }

  /** `ShiftIn` in terms of groups of six bits. */
  lemma ShiftInGroups(val: int, c: byte)
    ensures var next := Wrap32(val * 256 + c);
      && LowEnd(val, 0) == LowEnd(next, 0) == 0 && LowEnd(val, 2) < 4 && LowEnd(val, 4) < 16
      && SixBits(next, 2) == Top6(c) && LowEnd(next, 2) == Low2(c)
      && SixBits(next, 4) == After2(LowEnd(val, 2), c) && LowEnd(next, 4) == Low4(c)
      && SixBits(next, 6) == After4(LowEnd(val, 4), c) && SixBits(next, 0) == Low6(c)
  {
    hide Wrap32;
    ShiftIn(val, c);
  }

  /** `base64_encode` is the encoding of RFC 4648, for every string of bytes. */
  method Base64Encode(input: seq<byte>) returns (out: string)
    ensures out == Encode(input)
  {
    hide Wrap32, Symbol, SixBits, Remaining, Text, Sextets, LowEnd, Padding, Value;
    out := [];
    var val, valb := 0, -6;
    ghost var emitted: seq<sextet> := [];
    NothingEmitted(input);
    for i := 0 to |input|
      invariant valb == -6 || valb == -4 || valb == -2
      invariant out == Text(emitted)
      invariant emitted + Remaining(LowEnd(val, valb + 6), valb + 6, input[i..]) == Remaining(0, 0, input)
    {
      ghost var rest := input[i..];
      assert rest[1..] == input[i + 1..] && rest[0] == input[i];
      ByteStep(val, valb + 6, rest);
      val := Wrap32(val * 256 + input[i]);
      valb := valb + 8;
      ghost var more := Emitted(val, valb);
      var groups, left := EmitGroups(val, valb);
      out := out + groups;
      TextAppend(emitted, more);
      emitted := emitted + more;
      valb := left;
    }
    LastGroup(val, valb, input[|input|..]);
    if valb > -6 {
      AlphabetIsTable(SixBits(Wrap32(val * 256), valb + 8));
      out := out + [ALPHABET[SixBits(Wrap32(val * 256), valb + 8)]];
      TextAppend(emitted, [SixBits(Wrap32(val * 256), valb + 8)]);
      OneSymbol(SixBits(Wrap32(val * 256), valb + 8));
    }
    assert emitted + [] == emitted;
    RemainingIsSextets(input);
    assert out == Text(Sextets(input));
    out := Pad(out);
  }

  /** The loop that pads the result. */
  method Pad(text: string) returns (out: string)
    ensures out == text + Padding(|text|)
  {
    out := text;
    while |out| % 4 != 0
      invariant out + Padding(|out|) == text + Padding(|text|)
      decreases |Padding(|out|)|
    {
      assert Padding(|out|) == ['='] + Padding(|out| + 1);
      out := out + ['='];
    }
  }

  lemma NothingEmitted(input: seq<byte>)
    ensures Text([]) == [] && LowEnd(0, 0) == 0 && input[0..] == input
  {
  }

  lemma OneSymbol(v: sextet)
    ensures Text([v]) == [Symbol(v)]
  {
  }

  /** What is left when the input has been read: nothing, or one incomplete group. */
  lemma LastGroup(val: int, valb: int, rest: seq<byte>)
    requires rest == [] && (valb == -6 || valb == -4 || valb == -2)
    ensures Remaining(LowEnd(val, valb + 6), valb + 6, rest)
         == if valb == -6 then [] else [SixBits(Wrap32(val * 256), valb + 8)]
  {
    hide Wrap32, SixBits, LowEnd, After2, After4;
    ShiftInGroups(val, 0);
  }

  lemma TextAppend(p: seq<sextet>, q: seq<sextet>)
    ensures Text(p + q) == Text(p) + Text(q)
  {
  }
}
