/**
 `MqttPacket`, which writes a control packet through an output stream into a
 `StreamBuffer`, and the methods of `MqttClient` that build packets with it and
 take PUBLISH packets apart.
 */
module MqttPackets {
  import opened Wrappers
  import opened StreamBuffers
  import opened MqttWire
  import opened MqttBodies
  import opened TopicMatch

  /** The number of bytes a packet buffer takes: the default bound in whole increments. */
  const PACKET_LIMIT: nat := 10200

  class MqttPacket {
    const buffer: StreamBuffer
    var bad: bool                    // the stream's badbit
    ghost var written: seq<byte>     // everything inserted into the stream

    /** The buffer holds what was written, cut off at the limit; from then on the stream is bad. */
    ghost predicate Valid()
      reads this, buffer, buffer.buffer
    {
      && buffer.Valid() && buffer.OnlyPut() && buffer.maxBufferSize == DEFAULT_MAX_BUFFER_SIZE
      && (bad <==> |written| > PACKET_LIMIT)
      && buffer.Contents() == written[..Min(|written|, PACKET_LIMIT)]
    }

    constructor ()
      ensures Valid() && written == [] && fresh(buffer) && fresh(buffer.buffer)
    {
      buffer := new StreamBuffer(DEFAULT_MAX_BUFFER_SIZE);
      bad, written := false, [];
    }

    /** Insertion into the stream: nothing on a bad stream; a length error from the buffer makes it bad. */
    method Insert(bytes: seq<byte>)
      requires Valid()
      modifies this, buffer, buffer.buffer
      ensures Valid() && (buffer.buffer == old(buffer.buffer) || fresh(buffer.buffer))
      ensures written == old(written) + bytes
    {
      if !bad {
        var ok, taken := buffer.Sputn(bytes);
        bad := !ok;
        assert (written + bytes)[..|written| + taken] == written + bytes[..taken];
      }
      written := written + bytes;
    }

    method Add(value: byte)
      requires Valid()
      modifies this, buffer, buffer.buffer
      ensures Valid() && (buffer.buffer == old(buffer.buffer) || fresh(buffer.buffer))
      ensures written == old(written) + [value]
    {
      Insert([value]);
    }

    method Append(s: seq<byte>)
      requires Valid()
      modifies this, buffer, buffer.buffer
      ensures Valid() && (buffer.buffer == old(buffer.buffer) || fresh(buffer.buffer))
      ensures written == old(written) + s
    {
      Insert(s);
    }

    method AddString(s: seq<byte>)
      requires Valid()
      modifies this, buffer, buffer.buffer
      ensures Valid() && (buffer.buffer == old(buffer.buffer) || fresh(buffer.buffer))
      ensures written == old(written) + StringField(s)
    {
      var size := |s|;
      Insert([size / 256 % 256]);
      Insert([size % 256]);
      Insert(s);
    }

    method AddLength(length: nat)
      requires Valid()
      modifies this, buffer, buffer.buffer
      ensures Valid() && (buffer.buffer == old(buffer.buffer) || fresh(buffer.buffer))
      ensures written == old(written) + LengthBytes(length)
    {
      var size := length;
      var more := true;
      while more
        invariant Valid() && (buffer.buffer == old(buffer.buffer) || fresh(buffer.buffer))
        invariant if more then written + LengthBytes(size) == old(written) + LengthBytes(length)
                  else written == old(written) + LengthBytes(length)
        decreases more, size
      {
        ghost var before := written;
        var b: byte := size % 128;
        size := size / 128;
        if size > 0 {
          b := b + 128;
        }
        Insert([b]);
        more := size > 0;
        assert more ==> before + ([b] + LengthBytes(size)) == written + LengthBytes(size);
      }
    }

    method AddFixedHeader(packetType: nat, flags: byte)
      requires Valid() && packetType < 16
      modifies this, buffer, buffer.buffer
      ensures Valid() && (buffer.buffer == old(buffer.buffer) || fresh(buffer.buffer))
      ensures written == old(written) + [packetType * 16 + flags % 16]
    {
      Insert([packetType * 16 + flags % 16]);
    }
  }

  const CONNECT: nat := 1
  const SUBSCRIBE: nat := 8
  const UNSUBSCRIBE: nat := 10

  /** A callback invocation for a received message. */
  datatype Delivery = ToFilter(filter: seq<byte>, topic: seq<byte>, payload: seq<byte>)
                    | ToDefault(topic: seq<byte>, payload: seq<byte>)

  /**
   How a handler ends: with the callbacks it has made; after an error, for which
   `handle_error` has closed the connection; or with a length error that it does not
   catch.
   */
  datatype Handled = Called(calls: seq<Delivery>) | Refused | LengthError

  /** The longest string there can be. */
  const MAX_STRING: nat := 0x7FFF_FFFF

  /** Conversion to a 32-bit `size_t`. */
  function SizeT(n: int): nat {
    n % 0x1_0000_0000
  }

  class MqttClient {
    var settings: Settings
    var packetId: nat
    var filters: seq<seq<byte>> // in the order of the map

    constructor (settings: Settings)
      ensures this.settings == settings && packetId == 0 && filters == []
    {
      this.settings := settings;
      packetId, filters := 0, [];
    }

    /** The header byte and the remaining length, which every builder computes before it inserts the fields. */
    method StartPacket(packetType: nat, flags: byte, len: nat) returns (pkt: MqttPacket)
      requires packetType < 16 && flags < 16
      ensures pkt.Valid() && fresh(pkt) && fresh(pkt.buffer) && fresh(pkt.buffer.buffer)
      ensures pkt.written == [packetType * 16 + flags] + LengthBytes(len)
    {
      pkt := new MqttPacket();
      pkt.AddFixedHeader(packetType, flags);
      pkt.AddLength(len);
    }

    /**
     What is inserted is a frame, so the length computed up front was right; the
     buffer holds all of it exactly when it fits the packet limit.
     */
    method SendConnect() returns (pkt: MqttPacket)
      ensures pkt.Valid() && pkt.written == Frame(Packet(CONNECT * 16, ConnectBody(settings)))
      ensures pkt.buffer.Contents() == pkt.written <==> |pkt.written| <= PACKET_LIMIT
    {
      hide StreamBuffer.Valid, StreamBuffer.OnlyPut, Grown, PutLimit;
      hide StringField, LengthBytes, ConnectPayload, ConnectFlags;
      var c := settings;
      var flags, len := ConnectLength(c);
      pkt := StartPacket(CONNECT, 0, len);
      ghost var header := pkt.written;
      AddConnectFixedFields(pkt, flags);
      AddConnectPayload(pkt, flags, c);
      assert pkt.written == header + ConnectBody(c);
    }

    method ConnectLength(c: Settings) returns (flags: byte, len: nat)
      ensures flags == ConnectFlags(c) && len == |ConnectBody(c)|
    {
      var f: int := 0;
      len := 10;
      len := len + |c.clientId| + 2;
      if c.username != [] {
        f := f + 128;
        len := len + |c.username| + 2;
      }
      if c.password != [] {
        f := f + 64;
        len := len + |c.password| + 2;
      }
      if c.willTopic != [] && c.willData != [] {
        f := f + 4;
        if c.willRetain {
          f := f + 32;
        }
        len := len + |c.willTopic| + 2;
        len := len + |c.willData| + 2;
      }
      f := f + 2;
      flags := f;
    }

    method AddConnectFixedFields(pkt: MqttPacket, flags: byte)
      requires pkt.Valid()
      modifies pkt, pkt.buffer, pkt.buffer.buffer
      ensures pkt.Valid() && (pkt.buffer.buffer == old(pkt.buffer.buffer) || fresh(pkt.buffer.buffer))
      ensures pkt.written ==
        old(pkt.written) + (StringField(PROTOCOL_NAME) + [PROTOCOL_LEVEL, flags, 0, KEEP_ALIVE_SEC])
    {
      hide Grown, PutLimit;
      FiveParts(pkt.written, StringField(PROTOCOL_NAME), [PROTOCOL_LEVEL], [flags], [0], [KEEP_ALIVE_SEC]);
      assert [PROTOCOL_LEVEL] + ([flags] + ([0] + [KEEP_ALIVE_SEC])) == [PROTOCOL_LEVEL, flags, 0, KEEP_ALIVE_SEC];
      pkt.AddString(PROTOCOL_NAME);
      pkt.Add(PROTOCOL_LEVEL);
      pkt.Add(flags);
      pkt.Add(0);
      pkt.Add(KEEP_ALIVE_SEC);
    }

    method AddConnectPayload(pkt: MqttPacket, flags: byte, c: Settings)
      requires flags == ConnectFlags(c)
      requires pkt.Valid()
      modifies pkt, pkt.buffer, pkt.buffer.buffer
      ensures pkt.Valid() && (pkt.buffer.buffer == old(pkt.buffer.buffer) || fresh(pkt.buffer.buffer))
      ensures pkt.written == old(pkt.written) + ConnectPayload(c)
    {
      hide Grown, PutLimit;
      FlagBits(c);
      var will, user, pass := Bit(flags, 4), Bit(flags, 128), Bit(flags, 64);
      FiveParts(pkt.written, StringField(c.clientId), OptionalField(will, c.willTopic),
                OptionalField(will, c.willData), OptionalField(user, c.username), OptionalField(pass, c.password));
      AddClientAndWill(pkt, will, c);
      AddOptional(pkt, user, c.username);
      AddOptional(pkt, pass, c.password);
    }

    method AddClientAndWill(pkt: MqttPacket, will: bool, c: Settings)
      requires pkt.Valid()
      modifies pkt, pkt.buffer, pkt.buffer.buffer
      ensures pkt.Valid() && (pkt.buffer.buffer == old(pkt.buffer.buffer) || fresh(pkt.buffer.buffer))
      ensures pkt.written == old(pkt.written) + StringField(c.clientId) + OptionalField(will, c.willTopic)
        + OptionalField(will, c.willData)
    {
      hide Grown, PutLimit;
      pkt.AddString(c.clientId);
      AddOptional(pkt, will, c.willTopic);
      AddOptional(pkt, will, c.willData);
    }

    method AddOptional(pkt: MqttPacket, present: bool, s: seq<byte>)
      requires pkt.Valid()
      modifies pkt, pkt.buffer, pkt.buffer.buffer
      ensures pkt.Valid() && (pkt.buffer.buffer == old(pkt.buffer.buffer) || fresh(pkt.buffer.buffer))
      ensures pkt.written == old(pkt.written) + OptionalField(present, s)
    {
      if present {
        pkt.AddString(s);
      }
    }

    method SendPublish(topic: seq<byte>, payload: seq<byte>, retain: bool) returns (pkt: MqttPacket)
      ensures pkt.Valid()
      ensures pkt.written == Frame(PublishPacket(topic, payload, retain))
      ensures pkt.buffer.Contents() == Sent(PublishPacket(topic, payload, retain))
    {
      hide StreamBuffer.Valid, StreamBuffer.OnlyPut, StringField, PacketIdBytes, LengthBytes, Grown, PutLimit;
      var flags := if retain then 1 else 0;
      var len := |topic| + 2;
      len := len + |payload|;
      pkt := StartPacket(PUBLISH, flags, len);
      ghost var header := pkt.written;
      pkt.AddString(topic);
      pkt.Append(payload);
      assert pkt.written == header + PublishBody(topic, payload);
    }

    method SendSubscribe(topics: seq<seq<byte>>) returns (pkt: MqttPacket)
      modifies this`packetId
      ensures packetId == old(packetId) + 1
      ensures pkt.Valid()
      ensures pkt.written == Frame(Packet(SUBSCRIBE * 16 + 2, SubscribeBody(packetId, topics)))
      ensures pkt.buffer.Contents() == pkt.written <==> |pkt.written| <= PACKET_LIMIT
    {
      hide StreamBuffer.Valid, StreamBuffer.OnlyPut, StringField, PacketIdBytes, LengthBytes, Grown, PutLimit;
      NoFilters([0]);
      hide FilterList;
      packetId := packetId + 1;
      var len := 2;
      for i := 0 to |topics|
        invariant len == 2 + |FilterList(topics[..i], [0])| && packetId == old(packetId) + 1
      {
        OneMoreFilter(topics, i, [0]);
        len := len + |topics[i]| + 2 + 1;
      }
      assert topics[..|topics|] == topics;
      pkt := StartPacket(SUBSCRIBE, 2, len);
      ghost var header := pkt.written;
      AddPacketId(pkt);
      AddFilters(pkt, topics, [0]);
      assert pkt.written == header + SubscribeBody(packetId, topics);
    }

    method SendUnsubscribe(topics: seq<seq<byte>>) returns (pkt: MqttPacket)
      modifies this`packetId
      ensures packetId == old(packetId) + 1
      ensures pkt.Valid()
      ensures pkt.written == Frame(Packet(UNSUBSCRIBE * 16 + 2, UnsubscribeBody(packetId, topics)))
      ensures pkt.buffer.Contents() == pkt.written <==> |pkt.written| <= PACKET_LIMIT
    {
      hide StreamBuffer.Valid, StreamBuffer.OnlyPut, StringField, PacketIdBytes, LengthBytes, Grown, PutLimit;
      NoFilters([]);
      hide FilterList;
      packetId := packetId + 1;
      var len := 2;
      for i := 0 to |topics|
        invariant len == 2 + |FilterList(topics[..i], [])| && packetId == old(packetId) + 1
      {
        OneMoreFilter(topics, i, []);
        len := len + |topics[i]| + 2;
      }
      assert topics[..|topics|] == topics;
      pkt := StartPacket(UNSUBSCRIBE, 2, len);
      ghost var header := pkt.written;
      AddPacketId(pkt);
      AddFilters(pkt, topics, []);
      assert pkt.written == header + UnsubscribeBody(packetId, topics);
    }

    method AddPacketId(pkt: MqttPacket)
      requires pkt.Valid()
      modifies pkt, pkt.buffer, pkt.buffer.buffer
      ensures pkt.Valid() && (pkt.buffer.buffer == old(pkt.buffer.buffer) || fresh(pkt.buffer.buffer))
      ensures pkt.written == old(pkt.written) + PacketIdBytes(packetId)
    {
      pkt.Add(packetId / 256 % 256);
      pkt.Add(packetId % 256);
    }

    /** Each topic, followed by its requested quality of service if there is one. */
    method AddFilters(pkt: MqttPacket, topics: seq<seq<byte>>, after: seq<byte>)
      requires pkt.Valid()
      modifies pkt, pkt.buffer, pkt.buffer.buffer
      ensures pkt.Valid() && (pkt.buffer.buffer == old(pkt.buffer.buffer) || fresh(pkt.buffer.buffer))
      ensures pkt.written == old(pkt.written) + FilterList(topics, after)
    {
      hide Grown, PutLimit;
      ghost var before := pkt.written;
      for i := 0 to |topics|
        invariant pkt.Valid() && (pkt.buffer.buffer == old(pkt.buffer.buffer) || fresh(pkt.buffer.buffer))
        invariant pkt.written == before + FilterList(topics[..i], after)
      {
        assert topics[..i + 1][..i] == topics[..i];
        ThreeParts(before, FilterList(topics[..i], after), StringField(topics[i]), after);
        pkt.AddString(topics[i]);
        pkt.Append(after);
      }
      assert topics[..|topics|] == topics;
    }

    /**
     `handle_publish`: rejects other qualities of service than 0 and a topic longer
     than the packet, and otherwise calls the filters that match the topic, or the
     default callback if none does. Of a payload shorter than the length of a topic
     it reads `stale` from the memory behind, and its sizes wrap: it throws.
     */
    method HandlePublish(fixedHeader: byte, payload: seq<byte>, stale: uint16) returns (r: Handled)
      requires PacketType(fixedHeader) == PUBLISH && |payload| <= DEFAULT_MAX_BUFFER_SIZE
      ensures r.Called? <==> Accepted(Packet(fixedHeader, payload))
      ensures r == LengthError <==> Escapes(Packet(fixedHeader, payload))
      ensures r.Called? ==> ParsePublish(payload).Some?
      ensures r.Called? ==> var (topic, message) := ParsePublish(payload).value;
        r.calls == Deliveries(filters, topic, message)
    {
      if fixedHeader / 2 % 4 != 0 {
        return Refused;
      }
      var index := 0;
      var topicLen: nat := if |payload| >= 2 then Word(payload[index], payload[index + 1]) else stale;
      index := index + 2;
      if SizeT(|payload| - index) < topicLen {
        return Refused;
      }
      if SizeT(|payload| - (index + topicLen)) > MAX_STRING {
        return LengthError;
      }
      var topic := payload[index..index + topicLen];
      index := index + topicLen;
      var message := payload[index..];
      var matched := false;
      var calls: seq<Delivery> := [];
      for i := 0 to |filters|
        invariant calls == Matching(filters[..i], topic, message)
        invariant matched <==> calls != []
      {
        assert filters[..i + 1][..i] == filters[..i];
        var matches := MatchTopic(topic, filters[i]);
        if matches {
          calls := calls + [ToFilter(filters[i], topic, message)];
          matched := true;
        }
      }
      assert filters[..|filters|] == filters;
      if !matched {
        calls := [ToDefault(topic, message)];
      }
      r := Called(calls);
    }

    /** `handle_connect_ack`: refuses an answer of another size, and one with a return code. */
    method HandleConnectAck(payload: seq<byte>) returns (r: Handled)
      ensures r == if |payload| == 2 && payload[1] == 0 then Called([]) else Refused
    {
      if |payload| != 2 {
        return Refused;
      }
      var connectReturnCode := payload[1];
      if connectReturnCode != 0 {
        return Refused;
      }
      r := Called([]);
    }

    /** `handle_subscribe_ack`, and `handle_unsubscribe_ack` as well: there must be a packet identifier. */
    method HandleSubscribeAck(payload: seq<byte>) returns (r: Handled)
      ensures r == if |payload| >= 2 then Called([]) else Refused
    {
      if |payload| < 2 {
        return Refused;
      }
      r := Called([]);
    }

    /** The switch of `handle_payload`. The handlers that are not called here accept any packet. */
    method HandlePacket(fixedHeader: byte, payload: seq<byte>, stale: uint16) returns (r: Handled)
      requires |payload| <= DEFAULT_MAX_BUFFER_SIZE
      ensures r.Called? <==> Accepted(Packet(fixedHeader, payload))
      ensures r == LengthError <==> Escapes(Packet(fixedHeader, payload))
      ensures CallsMade(filters, Packet(fixedHeader, payload)) == if r.Called? then r.calls else []
    {
      hide ParsePublish, Deliveries;
      var packetType := PacketType(fixedHeader);
      if packetType == CONNACK {
        r := HandleConnectAck(payload);
      } else if packetType == PUBLISH {
        r := HandlePublish(fixedHeader, payload, stale);
      } else if packetType == SUBACK || packetType == UNSUBACK {
        r := HandleSubscribeAck(payload);
      } else if packetType in {PUBACK, PUBREC, PUBREL, PUBCOMP, PINGRESP} {
        r := Called([]);
      } else {
        r := Refused;
      }
    }
  }

  /** The callbacks that a packet leads to. */
  function CallsMade(filters: seq<seq<byte>>, p: Packet): seq<Delivery> {
    if PacketType(p.header) != PUBLISH || !Accepted(p) then []
    else match ParsePublish(p.payload)
      case Some((topic, message)) => Deliveries(filters, topic, message)
      case None => []
  }

  function CallsOf(filters: seq<seq<byte>>, ps: seq<Packet>): seq<seq<Delivery>> {
    seq(|ps|, i requires 0 <= i < |ps| => CallsMade(filters, ps[i]))
  }

  lemma OneMoreHandled(filters: seq<seq<byte>>, ps: seq<Packet>, p: Packet)
    ensures CallsOf(filters, ps + [p]) == CallsOf(filters, ps) + [CallsMade(filters, p)]
  {
  }

  lemma FiveParts(w: seq<byte>, a: seq<byte>, b: seq<byte>, c: seq<byte>, d: seq<byte>, e: seq<byte>)
    ensures w + a + b + c + d + e == w + (a + (b + (c + (d + e))))
  {
  }

  lemma ThreeParts(w: seq<byte>, a: seq<byte>, b: seq<byte>, c: seq<byte>)
    ensures w + a + b + c == w + (a + (b + c))
  {
  }

  function Matching(filters: seq<seq<byte>>, topic: seq<byte>, message: seq<byte>): seq<Delivery> {
    if filters == [] then []
    else
      var n := |filters| - 1;
      Matching(filters[..n], topic, message)
      + (if CharMatch(topic, filters[n]) then [ToFilter(filters[n], topic, message)] else [])
  }

  function Deliveries(filters: seq<seq<byte>>, topic: seq<byte>, message: seq<byte>): seq<Delivery> {
    var m := Matching(filters, topic, message);
    if m == [] then [ToDefault(topic, message)] else m
  }

  function PublishPacket(topic: seq<byte>, message: seq<byte>, retain: bool): Packet {
    Packet(PUBLISH * 16 + (if retain then 1 else 0), PublishBody(topic, message))
  }

  /** The packets as bytes on the wire, as long as one byte holds their length. */
  lemma PublishInBytes(topic: seq<byte>, message: seq<byte>, retain: bool)
    requires |topic| + |message| <= 100
    ensures Frame(PublishPacket(topic, message, retain)) ==
      [if retain then 0x31 else 0x30, |topic| + |message| + 2, 0, |topic|] + topic + message
  {
    hide LengthBytes;
    var body := PublishBody(topic, message);
    assert body == [0, |topic|] + topic + message;
    ShortFrame(PUBLISH * 16 + (if retain then 1 else 0), body);
  }

  lemma SubscribeInBytes(id: nat, topic: seq<byte>)
    requires |topic| <= 100 && id < FIELD_LIMIT
    ensures Frame(Packet(SUBSCRIBE * 16 + 2, SubscribeBody(id, [topic]))) ==
      [0x82, |topic| + 5, id / 256, id % 256, 0, |topic|] + topic + [0]
  {
    hide LengthBytes, Frame, FilterList, StringField, PacketIdBytes;
    OneFilter(topic, [0]);
    ShortFields(id, topic);
    ShortFrame(SUBSCRIBE * 16 + 2, SubscribeBody(id, [topic]));
    SixBytes(0x82, |topic| + 5, id / 256, id % 256, 0, |topic|, topic, [0]);
  }

  lemma UnsubscribeInBytes(id: nat, topic: seq<byte>)
    requires |topic| <= 100 && id < FIELD_LIMIT
    ensures Frame(Packet(UNSUBSCRIBE * 16 + 2, UnsubscribeBody(id, [topic]))) ==
      [0xA2, |topic| + 4, id / 256, id % 256, 0, |topic|] + topic
  {
    hide LengthBytes, Frame, FilterList, StringField, PacketIdBytes;
    OneFilter(topic, []);
    ShortFields(id, topic);
    ShortFrame(UNSUBSCRIBE * 16 + 2, UnsubscribeBody(id, [topic]));
    SixBytes(0xA2, |topic| + 4, id / 256, id % 256, 0, |topic|, topic, []);
  }

  lemma ShortFields(id: nat, s: seq<byte>)
    requires |s| <= 100 && id < FIELD_LIMIT
    ensures PacketIdBytes(id) == [id / 256, id % 256] && StringField(s) == [0, |s|] + s
  {
  }

  lemma SixBytes(a: byte, b: byte, c: byte, d: byte, e: byte, f: byte, s: seq<byte>, after: seq<byte>)
    ensures [a, b] + ([c, d] + ([e, f] + s + after)) == [a, b, c, d, e, f] + s + after
    ensures after == [] ==> [a, b, c, d, e, f] + s + after == [a, b, c, d, e, f] + s
  {
  }

  lemma NoFilters(after: seq<byte>)
    ensures FilterList([], after) == []
  {
  }

  lemma OneMoreFilter(topics: seq<seq<byte>>, i: nat, after: seq<byte>)
    requires i < |topics|
    ensures FilterList(topics[..i + 1], after) == FilterList(topics[..i], after) + (StringField(topics[i]) + after)
  {
    assert topics[..i + 1][..i] == topics[..i];
  }

  lemma OneFilter(topic: seq<byte>, after: seq<byte>)
    ensures FilterList([topic], after) == StringField(topic) + after
  {
    assert [topic][..0] == [];
  }

  lemma ConnectInBytes(clientId: seq<byte>)
    requires |clientId| <= 100
    ensures Frame(Packet(CONNECT * 16, ConnectBody(Settings(clientId, [], [], [], [], false)))) ==
      [0x10, |clientId| + 12, 0, 4, 77, 81, 84, 84, 4, 2, 0, 60, 0, |clientId|] + clientId
  {
    hide LengthBytes;
    var c := Settings(clientId, [], [], [], [], false);
    assert StringField(PROTOCOL_NAME) == [0, 4, 77, 81, 84, 84];
    assert ConnectPayload(c) == StringField(clientId) == [0, |clientId|] + clientId;
    ShortFrame(CONNECT * 16, ConnectBody(c));
  }

  /** What the packet buffer passes on of a frame. */
  function Sent(p: Packet): seq<byte> {
    Frame(p)[..Min(|Frame(p)|, PACKET_LIMIT)]
  }

  /** The packet with its end replaced by other bytes. */
  function Completed(p: Packet, end: seq<byte>): Packet
    requires |end| <= |p.payload|
  {
    p.(payload := p.payload[..|p.payload| - |end|] + end)
  }

  /**
   From one client to another, with whatever else is sent afterwards: a published
   message that fits the packet limit arrives as one accepted packet whose body is
   read back as the same topic and message.
   */
  lemma PublishArrives(topic: seq<byte>, message: seq<byte>, retain: bool, more: seq<byte>)
    requires |Frame(PublishPacket(topic, message, retain))| <= PACKET_LIMIT
    ensures var p, rest := PublishPacket(topic, message, retain), ParseAll(more, DEFAULT_MAX_BUFFER_SIZE);
      && ParseAll(Sent(p) + more, DEFAULT_MAX_BUFFER_SIZE) == Reading([p] + rest.packets, rest.ending)
      && ParsePublish(p.payload) == Some((topic, message))
  {
    hide LengthBytes, ParseAll, ParsePublish, Accepted;
    var p := PublishPacket(topic, message, retain);
    assert Frame(p)[..|Frame(p)|] == Frame(p);
    PublishRoundTrip(topic, message);
    PublishAccepted(topic, message, retain);
    ParseFrame(p, DEFAULT_MAX_BUFFER_SIZE);
    ParseAppend(Frame(p), more, DEFAULT_MAX_BUFFER_SIZE);
  }

  /** How many bytes of a frame do not fit the packet limit. */
  function Missing(p: Packet): nat {
    if |Frame(p)| > PACKET_LIMIT then |Frame(p)| - PACKET_LIMIT else 0
  }

  /** A longer message is cut off: nothing arrives until as many bytes have followed as are missing. */
  lemma PublishWaits(topic: seq<byte>, message: seq<byte>, retain: bool, more: seq<byte>)
    requires var p := PublishPacket(topic, message, retain);
      |more| < Missing(p) && |p.payload| <= DEFAULT_MAX_BUFFER_SIZE
    ensures var p := PublishPacket(topic, message, retain);
      ParseAll(Sent(p) + more, DEFAULT_MAX_BUFFER_SIZE) == Reading([], More(Sent(p) + more))
  {
    hide LengthBytes, ParseAll, PublishBody;
    var p := PublishPacket(topic, message, retain);
    var padded := more + Frame(p)[PACKET_LIMIT + |more|..];
    ShortLength(|p.payload|);
    SentCompleted(p, padded);
    assert Sent(p) + padded == (Sent(p) + more) + Frame(p)[PACKET_LIMIT + |more|..];
    assert Frame(Completed(p, padded))[..PACKET_LIMIT + |more|] == Sent(p) + more;
    CutFrame(Completed(p, padded), PACKET_LIMIT + |more|, DEFAULT_MAX_BUFFER_SIZE);
  }

  /**
   Then the receiver takes what was sent next for its end: one accepted packet, which
   carries the message only if those bytes are the missing ones. What follows them is
   read as if it began there.
   */
  lemma PublishIsCompleted(topic: seq<byte>, message: seq<byte>, retain: bool, end: seq<byte>, more: seq<byte>)
    requires var p := PublishPacket(topic, message, retain);
      0 < Missing(p) == |end| && |p.payload| <= DEFAULT_MAX_BUFFER_SIZE
    ensures var p, rest := PublishPacket(topic, message, retain), ParseAll(more, DEFAULT_MAX_BUFFER_SIZE);
      && |end| <= |p.payload|
      && ParseAll(Sent(p) + (end + more), DEFAULT_MAX_BUFFER_SIZE)
        == Reading([Completed(p, end)] + rest.packets, rest.ending)
      && ParsePublish(Completed(p, end).payload).Some?
      && (ParsePublish(Completed(p, end).payload) == Some((topic, message)) <==> end == Frame(p)[PACKET_LIMIT..])
  {
    hide LengthBytes, ParseAll, ParsePublish, Accepted;
    var p, max := PublishPacket(topic, message, retain), DEFAULT_MAX_BUFFER_SIZE;
    ShortLength(|p.payload|);
    SentCompleted(p, end);
    assert Sent(p) + (end + more) == Frame(Completed(p, end)) + more;
    CompletedAccepted(topic, message, retain, end);
    ParseFrame(Completed(p, end), max);
    ParseAppend(Frame(Completed(p, end)), more, max);
    FrameTail(p, |end|);
  }

  lemma FrameTail(p: Packet, n: nat)
    requires n <= |p.payload|
    ensures Frame(p)[|Frame(p)| - n..] == p.payload[|p.payload| - n..]
  {
  }

  /** One whose payload exceeds the receiver's buffer ends the reading there. */
  lemma PublishTooLong(topic: seq<byte>, message: seq<byte>, retain: bool, more: seq<byte>)
    requires |PublishBody(topic, message)| > DEFAULT_MAX_BUFFER_SIZE
    ensures var p := PublishPacket(topic, message, retain);
      ParseAll(Sent(p) + more, DEFAULT_MAX_BUFFER_SIZE)
      == Reading([], if |p.payload| <= MAX_REMAINING_LENGTH then TooLong else BadLength)
  {
    hide LengthBytes, DecodeWithin;
    var p := PublishPacket(topic, message, retain);
    var n, s, tail := |p.payload|, Sent(p), Frame(p)[PACKET_LIMIT..];
    assert s + tail == Frame(p);
    assert Frame(p)[1..] == LengthBytes(n) + p.payload == s[1..] + tail;
    assert (s + more)[1..] == s[1..] + more;
    FourBytes(n);
    DecodeAppend(LengthBytes(n), p.payload, 4);
    DecodeDecided(s[1..], 4);
    DecodeAppend(s[1..], tail, 4);
    DecodeAppend(s[1..], more, 4);
  }

  lemma ShortLength(n: nat)
    requires n <= DEFAULT_MAX_BUFFER_SIZE
    ensures |LengthBytes(n)| <= 2
  {
    LengthRoundTrip(n, [], 2);
  }

  /** The cut frame and as many bytes as are missing make a frame of the same length. */
  lemma SentCompleted(p: Packet, end: seq<byte>)
    requires |Frame(p)| == PACKET_LIMIT + |end| && |LengthBytes(|p.payload|)| <= 2 && |end| + 2 < |p.payload|
    ensures Sent(p) + end == Frame(Completed(p, end))
  {
  }

  lemma SplitEqual(a: seq<byte>, b: seq<byte>, n: nat)
    requires 2 <= n <= |a| == |b| && a[0] == b[0] && a[1] == b[1]
    ensures a == b <==> a[2..n] == b[2..n] && a[n..] == b[n..]
  {
    assert a == [a[0], a[1]] + a[2..n] + a[n..];
    assert b == [b[0], b[1]] + b[2..n] + b[n..];
  }

  lemma EndEqual(a: seq<byte>, end: seq<byte>)
    requires |end| <= |a|
    ensures a[..|a| - |end|] + end == a <==> end == a[|a| - |end|..]
  {
    assert a == a[..|a| - |end|] + a[|a| - |end|..];
    assert (a[..|a| - |end|] + end)[|a| - |end|..] == end;
  }

  lemma CompletedAccepted(topic: seq<byte>, message: seq<byte>, retain: bool, end: seq<byte>)
    requires |topic| < FIELD_LIMIT && |end| + 2 <= |PublishBody(topic, message)|
    ensures var p := PublishPacket(topic, message, retain);
      var q := Completed(p, end);
      && Accepted(q) && ParsePublish(q.payload).Some?
      && (ParsePublish(q.payload) == Some((topic, message)) <==> end == p.payload[|p.payload| - |end|..])
  {
    var body, p := PublishBody(topic, message), PublishPacket(topic, message, retain);
    var payload := Completed(p, end).payload;
    assert payload[0] == body[0] && payload[1] == body[1];
    PublishAccepted(topic, message, retain);
    assert Accepted(Completed(p, end));
    hide Accepted, TopicLength, PacketType;
    TakeStringField(topic, message);
    SplitEqual(body, payload, 2 + |topic|);
    EndEqual(body, end);
  }

  lemma PublishAccepted(topic: seq<byte>, message: seq<byte>, retain: bool)
    requires |topic| < FIELD_LIMIT
    ensures Accepted(Packet(PUBLISH * 16 + (if retain then 1 else 0), PublishBody(topic, message)))
  {
  }
}
