/**
 The framing of MQTT control packets, section 2 of MQTT Version 3.1.1: a header
 byte, the remaining length as a variable-length integer, and that many bytes.
 `LengthBytes` and `Frame` print; `DecodeLength` and `ParseAll` are an independent
 reference reading of a byte stream.
 */
module MqttWire {
  import opened StreamBuffers

  datatype Packet = Packet(header: byte, payload: seq<byte>)

  const MAX_REMAINING_LENGTH: nat := 268435455

  /** The number 128 to the power k. */
  function Pow128(k: nat): nat {
    if k == 0 then 1 else 128 * Pow128(k - 1)
  }

  /** Section 2.2.3: seven bits to a byte, least significant first, the top bit set on all but the last. */
  function LengthBytes(size: nat): seq<byte>
    decreases size
  {
    if size < 128 then [size] else [size % 128 + 128] + LengthBytes(size / 128)
  }

  datatype Length = Incomplete | Malformed | Length(value: nat, used: nat)

  /** The remaining length at the head of a stream, of which `room` more bytes may belong to it. */
  function DecodeWithin(s: seq<byte>, room: nat): Length
    decreases room
  {
    if s == [] then Incomplete
    else if room == 0 then Malformed
    else if s[0] < 128 then Length(s[0], 1)
    else match DecodeWithin(s[1..], room - 1)
      case Length(value, used) => Length(s[0] - 128 + 128 * value, used + 1)
      case failed => failed
  }

  /** At most four bytes encode a length; a fifth is not read. */
  function DecodeLength(s: seq<byte>): Length {
    DecodeWithin(s, 4)
  }

  function Frame(p: Packet): seq<byte> {
    [p.header] + LengthBytes(|p.payload|) + p.payload
  }

  function Encode(ps: seq<Packet>): seq<byte> {
    if ps == [] then [] else Frame(ps[0]) + Encode(ps[1..])
  }

  // ---------------------------------------------------------------------
  // Which packets the client's handlers accept

  const CONNACK: nat := 2
  const PUBLISH: nat := 3
  const PUBACK: nat := 4
  const PUBREC: nat := 5
  const PUBREL: nat := 6
  const PUBCOMP: nat := 7
  const SUBACK: nat := 9
  const UNSUBACK: nat := 11
  const PINGRESP: nat := 13

  function PacketType(header: byte): nat {
    header / 16
  }

  /** The length of the topic at the start of a PUBLISH payload. */
  function TopicLength(payload: seq<byte>): nat
    requires |payload| >= 2
  {
    var high: int, low: int := payload[0], payload[1];
    high * 256 + low
  }

  /**
   Whether the packet's handler lets the client go on reading from this
   connection. A rejected packet makes the client close it. `PacketDecides` says
   it byte by byte.
   */
  predicate Accepted(p: Packet) {
    var t := PacketType(p.header);
    if t == CONNACK then |p.payload| == 2 && p.payload[1] == 0
    else if t == PUBLISH then
      p.header / 2 % 4 == 0 && |p.payload| >= 2 && TopicLength(p.payload) <= |p.payload| - 2
    else if t == SUBACK || t == UNSUBACK then |p.payload| >= 2
    else t in {PUBACK, PUBREC, PUBREL, PUBCOMP, PINGRESP}
  }

  /** A PUBLISH too short for the length of its topic: its handler computes a size that wraps, and throws. */
  predicate Escapes(p: Packet) {
    PacketType(p.header) == PUBLISH && p.header / 2 % 4 == 0 && |p.payload| < 2
  }

  /** What the stream is read as after its handler has seen a packet that it does not accept. */
  function Refusal(p: Packet): Ending {
    if Escapes(p) then Escaped else Rejected
  }

  // ---------------------------------------------------------------------
  // The reference reading of a stream

  /** What follows the packets that a stream begins with. */
  datatype Ending =
    | More(rest: seq<byte>)  // the beginning of a packet, or nothing
    | Rejected               // the last packet was rejected
    | Escaped                // a length error escaped from the handler of the last packet
    | TooLong                // a packet whose payload does not fit the buffer
    | BadLength              // a remaining length of more than four bytes

  datatype Reading = Reading(packets: seq<Packet>, ending: Ending)

  /** The first packet of a stream and its size, or why there is none. */
  datatype Head = NoPacket(ending: Ending) | OnePacket(packet: Packet, size: nat)

  function ParseHead(s: seq<byte>, max: nat): Head {
    if s == [] then NoPacket(More(s))
    else match DecodeLength(s[1..])
      case Incomplete => NoPacket(More(s))
      case Malformed => NoPacket(BadLength)
      case Length(value, used) =>
        if value > max then NoPacket(TooLong)
        else if |s| < 1 + used + value then NoPacket(More(s))
        else OnePacket(Packet(s[0], s[1 + used..1 + used + value]), 1 + used + value)
  }

  function ParseAll(s: seq<byte>, max: nat): Reading
    decreases |s|
  {
    match ParseHead(s, max)
    case NoPacket(ending) => Reading([], ending)
    case OnePacket(p, size) =>
      if !Accepted(p) then Reading([p], Refusal(p))
      else
        var tail := ParseAll(s[size..], max);
        Reading([p] + tail.packets, tail.ending)
  }

  // ---------------------------------------------------------------------
  // Lengths

  lemma {:induction false} DecodeUsed(s: seq<byte>, room: nat)
    ensures DecodeWithin(s, room).Length? ==> 1 <= DecodeWithin(s, room).used <= |s|
    ensures DecodeWithin(s, room).Length? ==> DecodeWithin(s, room).used <= room
    decreases room
  {
    if s == [] || room == 0 {
    } else {
      DecodeUsed(s[1..], room - 1);
    }
  }

  /** One byte more than may belong to a length decides it. */
  lemma {:induction false} DecodeDecided(s: seq<byte>, room: nat)
    requires |s| > room
    ensures !DecodeWithin(s, room).Incomplete?
    decreases room
  {
    if room == 0 {
    } else {
      DecodeDecided(s[1..], room - 1);
    }
  }

  /** Once the length is complete, later bytes do not matter. */
  lemma {:induction false} DecodeAppend(s: seq<byte>, more: seq<byte>, room: nat)
    requires !DecodeWithin(s, room).Incomplete?
    ensures DecodeWithin(s + more, room) == DecodeWithin(s, room)
    decreases room
  {
    if room == 0 || s[0] < 128 {
    } else {
      assert (s + more)[1..] == s[1..] + more;
      DecodeAppend(s[1..], more, room - 1);
    }
  }

  lemma DecodeStep(b: byte, s: seq<byte>, room: nat)
    requires b >= 128 && room > 0 && DecodeWithin(s, room - 1).Length?
    ensures var rest := DecodeWithin(s, room - 1);
      DecodeWithin([b] + s, room) == Length(b - 128 + 128 * rest.value, rest.used + 1)
  {
    assert ([b] + s)[1..] == s;
  }

  /** `add_length` and its decoder round-trip, in k bytes for sizes below 128 to the k. */
  lemma {:induction false} LengthRoundTrip(size: nat, more: seq<byte>, room: nat)
    requires room > 0 && size < Pow128(room)
    ensures 1 <= |LengthBytes(size)| <= room
    ensures DecodeWithin(LengthBytes(size) + more, room) == Length(size, |LengthBytes(size)|)
    decreases room
  {
    if size < 128 {
    } else {
      LengthRoundTrip(size / 128, more, room - 1);
      DecodeStep(size % 128 + 128, LengthBytes(size / 128) + more, room);
      assert LengthBytes(size) + more == [size % 128 + 128] + (LengthBytes(size / 128) + more);
    }
  }

  /** Four bytes suffice exactly for the sizes that section 2.2.3 allows. */
  lemma FourBytes(size: nat)
    ensures |LengthBytes(size)| <= 4 <==> size <= MAX_REMAINING_LENGTH
    ensures size <= MAX_REMAINING_LENGTH ==> DecodeLength(LengthBytes(size)) == Length(size, |LengthBytes(size)|)
    ensures size > MAX_REMAINING_LENGTH ==> DecodeLength(LengthBytes(size)) == Malformed
  {
    assert Pow128(4) == 268435456 by { assert Pow128(3) == 2097152; }
    if size <= MAX_REMAINING_LENGTH {
      LengthRoundTrip(size, [], 4);
      assert LengthBytes(size) + [] == LengthBytes(size);
    } else {
      LongLength(size, 4);
    }
  }

  /** The low seven bits come first: 321 is sent as 193, 2. */
  lemma ShortLengths(size: nat)
    ensures size < 128 ==> LengthBytes(size) == [size]
    ensures 128 <= size < 16384 ==> LengthBytes(size) == [size % 128 + 128, size / 128]
    ensures LengthBytes(321) == [193, 2]
  {
  }

  lemma {:induction false} LongLength(size: nat, room: nat)
    requires size >= Pow128(room)
    ensures |LengthBytes(size)| > room
    ensures DecodeWithin(LengthBytes(size), room) == Malformed
    decreases room
  {
    if room == 0 {
    } else {
      PowPositive(room - 1);
      LongLength(size / 128, room - 1);
      assert LengthBytes(size)[1..] == LengthBytes(size / 128);
    }
  }

  lemma {:induction false} PowPositive(k: nat)
    ensures Pow128(k) > 0
  {
    if k == 0 {
    } else {
      PowPositive(k - 1);
    }
  }

  // ---------------------------------------------------------------------
  // Streams

  /** Once the head of a stream is decided, later bytes do not matter. */
  lemma HeadAppend(s: seq<byte>, more: seq<byte>, max: nat)
    requires ParseHead(s, max).NoPacket? ==> !ParseHead(s, max).ending.More?
    ensures ParseHead(s + more, max) == ParseHead(s, max)
    ensures ParseHead(s, max).OnePacket? ==>
      var size := ParseHead(s, max).size;
      size <= |s| && (s + more)[size..] == s[size..] + more
  {
    assert (s + more)[1..] == s[1..] + more;
    DecodeAppend(s[1..], more, 4);
    var length := DecodeLength(s[1..]);
    if length.Length? {
      DecodeUsed(s[1..], 4);
      var n := 1 + length.used + length.value;
      if |s| >= n {
        assert (s + more)[1 + length.used..n] == s[1 + length.used..n];
      }
    }
  }

  /** A complete stream of accepted packets may be followed by anything. */
  lemma {:induction false} ParseAppend(s: seq<byte>, more: seq<byte>, max: nat)
    requires ParseAll(s, max).ending == More([])
    ensures ParseAll(s + more, max) ==
      Reading(ParseAll(s, max).packets + ParseAll(more, max).packets, ParseAll(more, max).ending)
    decreases |s|
  {
    var head := ParseHead(s, max);
    if head.NoPacket? {
      assert s + more == more;
    } else {
      HeadAppend(s, more, max);
      var rest := s[head.size..];
      ParseAppend(rest, more, max);
      Associate([head.packet], ParseAll(rest, max).packets, ParseAll(more, max).packets);
    }
  }

  lemma Associate(a: seq<Packet>, b: seq<Packet>, c: seq<Packet>)
    ensures a + (b + c) == (a + b) + c
  {
  }

  lemma FrameParts(header: byte, length: seq<byte>, payload: seq<byte>)
    ensures var s := [header] + length + payload;
      && s[0] == header && s[1..] == length + payload && |s| == 1 + |length| + |payload|
      && s[1 + |length|..1 + |length| + |payload|] == payload
      && s[1 + |length| + |payload|..] == []
  {
  }

  /** A single accepted frame of admissible size parses to its packet. */
  lemma ParseFrame(p: Packet, max: nat)
    requires |p.payload| <= max && |p.payload| <= MAX_REMAINING_LENGTH
    ensures ParseAll(Frame(p), max) == Reading([p], if Accepted(p) then More([]) else Refusal(p))
  {
    hide LengthBytes, Accepted, DecodeWithin;
    var s, n := Frame(p), |p.payload|;
    FourBytes(n);
    DecodeAppend(LengthBytes(n), p.payload, 4);
    FrameParts(p.header, LengthBytes(n), p.payload);
    assert ParseHead(s, max) == OnePacket(p, |s|);
    assert ParseAll([], max) == Reading([], More([]));
  }

  // ---------------------------------------------------------------------
  // The verdict on every packet, byte by byte

  /** The packet is taken, and the reading goes on behind it. */
  ghost predicate GoesOn(p: Packet, more: seq<byte>, max: nat) {
    var rest := ParseAll(more, max);
    ParseAll(Frame(p) + more, max) == Reading([p] + rest.packets, rest.ending)
  }

  /** The reading ends with the packet, whatever follows. */
  ghost predicate BrokenOff(p: Packet, ending: Ending, more: seq<byte>, max: nat) {
    ParseAll(Frame(p) + more, max) == Reading([p], ending)
  }

  lemma AcceptedDecides(p: Packet, more: seq<byte>, max: nat)
    requires |p.payload| <= max && |p.payload| <= MAX_REMAINING_LENGTH
    ensures if Accepted(p) then GoesOn(p, more, max) else BrokenOff(p, Refusal(p), more, max)
  {
    hide Accepted, Escapes, Frame;
    ParseFrame(p, max);
    if Accepted(p) {
      ParseAppend(Frame(p), more, max);
    } else {
      ParsePrefix(Frame(p), more, max);
    }
  }

  /**
   After which packets the client reads on. Of a CONNACK its size and return code
   decide, of a PUBLISH its quality of service and the length of its topic, of a
   SUBACK and an UNSUBACK whether there is a packet identifier; the handlers of
   PUBACK, PUBREC, PUBREL, PUBCOMP and PINGRESP do not look at it.
   */
  lemma PacketDecides(header: byte, payload: seq<byte>, more: seq<byte>, max: nat)
    requires |payload| <= max && |payload| <= MAX_REMAINING_LENGTH
    ensures 0x20 <= header <= 0x2F ==>
      var p := Packet(header, payload);
      if |payload| == 2 && payload[1] == 0 then GoesOn(p, more, max) else BrokenOff(p, Rejected, more, max)
    ensures header in {0x30, 0x31, 0x38, 0x39} ==>
      var p := Packet(header, payload);
      if |payload| < 2 then BrokenOff(p, Escaped, more, max)
      else if payload[0] as int * 256 + payload[1] as int <= |payload| - 2 then GoesOn(p, more, max)
      else BrokenOff(p, Rejected, more, max)
    ensures 0x30 <= header <= 0x3F && header !in {0x30, 0x31, 0x38, 0x39} ==>
      BrokenOff(Packet(header, payload), Rejected, more, max)
    ensures 0x40 <= header <= 0x7F || 0xD0 <= header <= 0xDF ==> GoesOn(Packet(header, payload), more, max)
    ensures 0x90 <= header <= 0x9F || 0xB0 <= header <= 0xBF ==>
      var p := Packet(header, payload);
      if |payload| >= 2 then GoesOn(p, more, max) else BrokenOff(p, Rejected, more, max)
    ensures header <= 0x1F || 0xE0 <= header ==> BrokenOff(Packet(header, payload), Rejected, more, max)
    ensures 0x80 <= header <= 0x8F || 0xA0 <= header <= 0xAF || 0xC0 <= header <= 0xCF ==>
      BrokenOff(Packet(header, payload), Rejected, more, max)
  {
    hide GoesOn, BrokenOff;
    AcceptedDecides(Packet(header, payload), more, max);
  }

  /** The same of the bytes themselves: an answer to a CONNECT, to a SUBSCRIBE and to a PINGREQ. */
  lemma AnswersInBytes(session: byte, code: byte, high: byte, low: byte, granted: byte, more: seq<byte>, max: nat)
    requires max >= 3
    ensures var rest := ParseAll(more, max);
      && ParseAll([0x20, 2, session, code] + more, max) == (
        if code == 0 then Reading([Packet(0x20, [session, code])] + rest.packets, rest.ending)
        else Reading([Packet(0x20, [session, code])], Rejected))
      && ParseAll([0x90, 3, high, low, granted] + more, max)
        == Reading([Packet(0x90, [high, low, granted])] + rest.packets, rest.ending)
      && ParseAll([0xD0, 0] + more, max) == Reading([Packet(0xD0, [])] + rest.packets, rest.ending)
  {
    hide ParseAll;
    PacketDecides(0x20, [session, code], more, max);
    PacketDecides(0x90, [high, low, granted], more, max);
    PacketDecides(0xD0, [], more, max);
    ShortFrame(0x20, [session, code]);
    ShortFrame(0x90, [high, low, granted]);
    ShortFrame(0xD0, []);
    assert [0x20, 2] + [session, code] == [0x20, 2, session, code];
    assert [0x90, 3] + [high, low, granted] == [0x90, 3, high, low, granted];
    assert [0xD0, 0] + [] == [0xD0, 0];
  }

  lemma ShortFrame(header: byte, payload: seq<byte>)
    requires |payload| < 128
    ensures Frame(Packet(header, payload)) == [header, |payload|] + payload
  {
  }

  /** Framing inverts printing, for any sequence of accepted packets that fit the buffer. */
  lemma {:induction false} ParseInvertsEncode(ps: seq<Packet>, max: nat)
    requires forall p :: p in ps ==> Accepted(p) && |p.payload| <= max && |p.payload| <= MAX_REMAINING_LENGTH
    ensures ParseAll(Encode(ps), max) == Reading(ps, More([]))
  {
    if ps == [] {
    } else {
      ParseFrame(ps[0], max);
      ParseInvertsEncode(ps[1..], max);
      ParseAppend(Frame(ps[0]), Encode(ps[1..]), max);
      assert ps == [ps[0]] + ps[1..];
    }
  }

  lemma {:induction false} EncodeLast(ps: seq<Packet>, p: Packet)
    ensures Encode(ps + [p]) == Encode(ps) + Frame(p)
  {
    if ps == [] {
      assert [p][1..] == [];
    } else {
      EncodeLast(ps[1..], p);
      assert (ps + [p])[1..] == ps[1..] + [p];
    }
  }

  /** How many of the packets end within the first n bytes of their stream. */
  function Complete(ps: seq<Packet>, n: nat): (k: nat)
    ensures k <= |ps|
  {
    if ps == [] || n < |Frame(ps[0])| then 0 else 1 + Complete(ps[1..], n - |Frame(ps[0])|)
  }

  lemma {:induction false} AllComplete(ps: seq<Packet>)
    ensures Complete(ps, |Encode(ps)|) == |ps|
  {
    if ps == [] {
    } else {
      AllComplete(ps[1..]);
    }
  }

  /** The first packet of a frame, if any, is all of it. */
  lemma FrameHead(p: Packet, max: nat)
    ensures ParseHead(Frame(p), max).OnePacket? ==> ParseHead(Frame(p), max).size == |Frame(p)|
  {
    var n := |p.payload|;
    assert Frame(p)[1..] == LengthBytes(n) + p.payload;
    FourBytes(n);
    DecodeAppend(LengthBytes(n), p.payload, 4);
  }

  /** A frame without its end is the beginning of a packet. */
  lemma CutFrame(p: Packet, k: nat, max: nat)
    requires k < |Frame(p)| && |p.payload| <= max && |p.payload| <= MAX_REMAINING_LENGTH
    ensures ParseAll(Frame(p)[..k], max) == Reading([], More(Frame(p)[..k]))
  {
    hide LengthBytes, Accepted;
    var s := Frame(p)[..k];
    assert s + Frame(p)[k..] == Frame(p);
    ParseFrame(p, max);
    if ParseHead(s, max).OnePacket? {
      HeadAppend(s, Frame(p)[k..], max);
      FrameHead(p, max);
    } else {
      ParsePrefix(s, Frame(p)[k..], max);
    }
  }

  /** Of the first n bytes of a stream exactly the packets that end there are read. */
  lemma {:induction false} ReadingOfPart(ps: seq<Packet>, n: nat, max: nat)
    requires n <= |Encode(ps)|
    requires forall p :: p in ps ==> Accepted(p) && |p.payload| <= max && |p.payload| <= MAX_REMAINING_LENGTH
    ensures ParseAll(Encode(ps)[..n], max).packets == ps[..Complete(ps, n)]
    ensures ParseAll(Encode(ps)[..n], max).ending.More?
  {
    hide Frame, ParseAll, Accepted;
    if ps == [] {
      EmptyReading(max);
    } else {
      var frame := Frame(ps[0]);
      if n < |frame| {
        assert Encode(ps)[..n] == frame[..n];
        CutFrame(ps[0], n, max);
      } else {
        var rest := Encode(ps[1..])[..n - |frame|];
        assert Encode(ps)[..n] == frame + rest;
        ParseFrame(ps[0], max);
        ReadingOfPart(ps[1..], n - |frame|, max);
        ParseAppend(frame, rest, max);
        assert ps[..Complete(ps, n)] == [ps[0]] + ps[1..][..Complete(ps[1..], n - |frame|)];
      }
    }
  }

  lemma EmptyReading(max: nat)
    ensures ParseAll([], max) == Reading([], More([]))
  {
  }

  /** What has been read of a stream determines a prefix of its packets. */
  lemma {:induction false} ParsePrefix(s: seq<byte>, more: seq<byte>, max: nat)
    ensures ParseAll(s, max).packets <= ParseAll(s + more, max).packets
    ensures !ParseAll(s, max).ending.More? ==> ParseAll(s + more, max) == ParseAll(s, max)
    decreases |s|
  {
    var head := ParseHead(s, max);
    if head.OnePacket? {
      HeadAppend(s, more, max);
      ParsePrefix(s[head.size..], more, max);
    } else if !head.ending.More? {
      HeadAppend(s, more, max);
    }
  }
}
