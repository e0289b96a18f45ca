/**
 The variable parts of the packets that the client sends, as sequences of bytes,
 and an independent reading of each after sections 3.1, 3.3, 3.8 and 3.10 of MQTT
 Version 3.1.1.
 */
module MqttBodies {
  import opened Wrappers
  import opened StreamBuffers

  /** What a 16-bit length field can count. */
  const FIELD_LIMIT: nat := 65536

  /**
   Section 1.5.3: a string with its length in front, high byte first. The code keeps
   the low 16 bits of longer lengths.
   */
  function StringField(s: seq<byte>): (f: seq<byte>)
    ensures |f| == |s| + 2
  {
    [|s| / 256 % 256, |s| % 256] + s
  }

  function Word(high: byte, low: byte): nat {
    var h: int, l: int := high, low;
    h * 256 + l
  }

  /** Reads a string field and returns the rest. */
  function TakeString(s: seq<byte>): Option<(seq<byte>, seq<byte>)> {
    if |s| < 2 then None
    else
      var n := Word(s[0], s[1]);
      if |s| - 2 < n then None else Some((s[2..2 + n], s[2 + n..]))
  }

  lemma TakeStringField(s: seq<byte>, rest: seq<byte>)
    ensures |s| < FIELD_LIMIT ==> TakeString(StringField(s) + rest) == Some((s, rest))
    ensures |s| >= FIELD_LIMIT ==>
      TakeString(StringField(s) + rest) == Some((s[..|s| % FIELD_LIMIT], s[|s| % FIELD_LIMIT..] + rest))
  {
    var f := StringField(s) + rest;
    var n := Word(f[0], f[1]);
    assert n == |s| % FIELD_LIMIT;
    assert f[2..] == s + rest;
    assert f[2..2 + n] == s[..n];
    assert f[2 + n..] == s[n..] + rest;
    if |s| < FIELD_LIMIT {
      assert s[..n] == s;
      assert s[n..] + rest == rest;
    }
  }

  // ---------------------------------------------------------------------
  // CONNECT

  const PROTOCOL_NAME: seq<byte> := [77, 81, 84, 84] // "MQTT"
  const PROTOCOL_LEVEL: byte := 4
  const KEEP_ALIVE_SEC: byte := 60

  /** The client's settings; an empty string means that the field is not sent. */
  datatype Settings = Settings(
    clientId: seq<byte>,
    username: seq<byte>,
    password: seq<byte>,
    willTopic: seq<byte>,
    willData: seq<byte>,
    willRetain: bool)

  predicate HasWill(c: Settings) {
    c.willTopic != [] && c.willData != []
  }

  /** Section 3.1.2.3; the client always asks for a clean session. */
  function ConnectFlags(c: Settings): byte {
    2
    + (if HasWill(c) then 4 else 0)
    + (if HasWill(c) && c.willRetain then 32 else 0)
    + (if c.password != [] then 64 else 0)
    + (if c.username != [] then 128 else 0)
  }

  function OptionalField(present: bool, s: seq<byte>): seq<byte> {
    if present then StringField(s) else []
  }

  function ConnectBody(c: Settings): seq<byte> {
    StringField(PROTOCOL_NAME) + [PROTOCOL_LEVEL, ConnectFlags(c), 0, KEEP_ALIVE_SEC] + ConnectPayload(c)
  }

  function ConnectPayload(c: Settings): seq<byte> {
    StringField(c.clientId)
    + (OptionalField(HasWill(c), c.willTopic)
    + (OptionalField(HasWill(c), c.willData)
    + (OptionalField(c.username != [], c.username)
    + OptionalField(c.password != [], c.password))))
  }

  datatype Will = Will(topic: seq<byte>, message: seq<byte>, retain: bool)

  datatype Connect = Connect(
    cleanSession: bool,
    keepAlive: nat,
    clientId: seq<byte>,
    will: Option<Will>,
    username: Option<seq<byte>>,
    password: Option<seq<byte>>)

  /** Reads a string field if it is announced. */
  function TakeOptional(announced: bool, s: seq<byte>): Option<(Option<seq<byte>>, seq<byte>)> {
    if !announced then Some((None, s))
    else match TakeString(s)
      case None => None
      case Some((field, rest)) => Some((Some(field), rest))
  }

  predicate Bit(flags: byte, weight: nat)
    requires weight > 0
  {
    flags / weight % 2 == 1
  }

  /** Section 3.1: the fixed part, then client identifier, will topic, will message, user name and password. */
  function ParseConnect(body: seq<byte>): Option<Connect> {
    match TakeString(body)
    case None => None
    case Some((name, rest)) =>
      if name != PROTOCOL_NAME || |rest| < 4 || rest[0] != PROTOCOL_LEVEL || Bit(rest[1], 1) then None
      else ParseConnectPayload(rest[1], Word(rest[2], rest[3]), rest[4..])
  }

  function ParseConnectPayload(flags: byte, keepAlive: nat, s: seq<byte>): Option<Connect> {
    match TakeString(s)
    case None => None
    case Some((clientId, s1)) =>
      match TakeOptional(Bit(flags, 4), s1)
      case None => None
      case Some((willTopic, s2)) =>
        match TakeOptional(Bit(flags, 4), s2)
        case None => None
        case Some((willMessage, s3)) =>
          match TakeOptional(Bit(flags, 128), s3)
          case None => None
          case Some((username, s4)) =>
            match TakeOptional(Bit(flags, 64), s4)
            case None => None
            case Some((password, s5)) =>
              if s5 != [] then None
              else
                var will := if willTopic.Some? && willMessage.Some?
                  then Some(Will(willTopic.value, willMessage.value, Bit(flags, 32))) else None;
                Some(Connect(Bit(flags, 2), keepAlive, clientId, will, username, password))
  }

  /** What the settings ask the server for. */
  function Requested(c: Settings): Connect {
    Connect(
      true, KEEP_ALIVE_SEC, c.clientId,
      if HasWill(c) then Some(Will(c.willTopic, c.willData, c.willRetain)) else None,
      if c.username != [] then Some(c.username) else None,
      if c.password != [] then Some(c.password) else None)
  }

  lemma TakeOptionalField(announced: bool, s: seq<byte>, rest: seq<byte>)
    requires announced ==> |s| < FIELD_LIMIT
    ensures TakeOptional(announced, OptionalField(announced, s) + rest)
      == Some((if announced then Some(s) else None, rest))
  {
    if announced {
      TakeStringField(s, rest);
    } else {
      assert [] + rest == rest;
    }
  }

  lemma FlagBits(c: Settings)
    ensures var flags := ConnectFlags(c);
      && Bit(flags, 2) && !Bit(flags, 1)
      && (Bit(flags, 4) <==> HasWill(c))
      && (Bit(flags, 32) <==> HasWill(c) && c.willRetain)
      && (Bit(flags, 64) <==> c.password != [])
      && (Bit(flags, 128) <==> c.username != [])
  {
  }

  /** Every string that is sent fits its length field. */
  predicate FieldsFit(c: Settings) {
    && |c.clientId| < FIELD_LIMIT && |c.username| < FIELD_LIMIT && |c.password| < FIELD_LIMIT
    && (HasWill(c) ==> |c.willTopic| < FIELD_LIMIT && |c.willData| < FIELD_LIMIT)
  }

  lemma ConnectPayloadRoundTrip(c: Settings)
    requires FieldsFit(c)
    ensures ParseConnectPayload(ConnectFlags(c), KEEP_ALIVE_SEC, ConnectPayload(c)) == Some(Requested(c))
  {
    FlagBits(c);
    var flags := ConnectFlags(c);
    var last := OptionalField(c.password != [], c.password);
    var s4 := OptionalField(c.username != [], c.username) + last;
    var s3 := OptionalField(HasWill(c), c.willData) + s4;
    var s2 := OptionalField(HasWill(c), c.willTopic) + s3;
    TakeStringField(c.clientId, s2);
    TakeOptionalField(HasWill(c), c.willTopic, s3);
    TakeOptionalField(HasWill(c), c.willData, s4);
    TakeOptionalField(c.username != [], c.username, last);
    TakeOptionalField(c.password != [], c.password, []);
    assert last + [] == last;
    AssembleConnect(flags, KEEP_ALIVE_SEC, ConnectPayload(c), c.clientId, s2,
                    if HasWill(c) then Some(c.willTopic) else None, s3,
                    if HasWill(c) then Some(c.willData) else None, s4,
                    if c.username != [] then Some(c.username) else None, last,
                    if c.password != [] then Some(c.password) else None);
  }

  /** A string field reads back as itself only if it fits, and then what follows it is left. */
  lemma ReadBackFits(s: seq<byte>, rest: seq<byte>, left: seq<byte>)
    requires TakeString(StringField(s) + rest) == Some((s, left))
    ensures |s| < FIELD_LIMIT && left == rest
  {
    TakeStringField(s, rest);
  }

  lemma OptionalReadBackFits(announced: bool, s: seq<byte>, rest: seq<byte>, left: seq<byte>)
    requires TakeOptional(announced, OptionalField(announced, s) + rest)
      == Some((if announced then Some(s) else None, left))
    ensures (announced ==> |s| < FIELD_LIMIT) && left == rest
  {
    if announced {
      ReadBackFits(s, rest, left);
    } else {
      assert [] + rest == rest;
    }
  }

  /** A payload that reads back as what was set has only fields that fit. */
  lemma ConnectPayloadFits(c: Settings)
    requires ParseConnectPayload(ConnectFlags(c), KEEP_ALIVE_SEC, ConnectPayload(c)) == Some(Requested(c))
    ensures FieldsFit(c)
  {
    hide TakeString, TakeOptional, StringField, OptionalField, ConnectFlags, Bit;
    FlagBits(c);
    var flags, will := ConnectFlags(c), HasWill(c);
    var last := OptionalField(c.password != [], c.password);
    var s4 := OptionalField(c.username != [], c.username) + last;
    var s3 := OptionalField(will, c.willData) + s4;
    var s2 := OptionalField(will, c.willTopic) + s3;
    var (clientId, r1) := TakeString(ConnectPayload(c)).value;
    var (willTopic, r2) := TakeOptional(Bit(flags, 4), r1).value;
    var (willMessage, r3) := TakeOptional(Bit(flags, 4), r2).value;
    var (username, r4) := TakeOptional(Bit(flags, 128), r3).value;
    var (password, r5) := TakeOptional(Bit(flags, 64), r4).value;
    ReadBackFits(c.clientId, s2, r1);
    AnnouncedOnly(Bit(flags, 4), r1);
    AnnouncedOnly(Bit(flags, 4), r2);
    OptionalReadBackFits(will, c.willTopic, s3, r2);
    OptionalReadBackFits(will, c.willData, s4, r3);
    OptionalReadBackFits(c.username != [], c.username, last, r4);
    assert last + [] == last;
    OptionalReadBackFits(c.password != [], c.password, [], r5);
  }

  lemma AnnouncedOnly(announced: bool, s: seq<byte>)
    ensures TakeOptional(announced, s).Some? ==> (TakeOptional(announced, s).value.0.Some? <==> announced)
  {
  }

  /** The payload parser, given what each of its reads returns. */
  lemma AssembleConnect(flags: byte, keepAlive: nat, s: seq<byte>, clientId: seq<byte>, s2: seq<byte>,
                        willTopic: Option<seq<byte>>, s3: seq<byte>, willMessage: Option<seq<byte>>, s4: seq<byte>,
                        username: Option<seq<byte>>, s5: seq<byte>, password: Option<seq<byte>>)
    requires TakeString(s) == Some((clientId, s2))
    requires TakeOptional(Bit(flags, 4), s2) == Some((willTopic, s3))
    requires TakeOptional(Bit(flags, 4), s3) == Some((willMessage, s4))
    requires TakeOptional(Bit(flags, 128), s4) == Some((username, s5))
    requires TakeOptional(Bit(flags, 64), s5) == Some((password, []))
    ensures ParseConnectPayload(flags, keepAlive, s) == Some(Connect(
      Bit(flags, 2), keepAlive, clientId,
      if willTopic.Some? && willMessage.Some?
      then Some(Will(willTopic.value, willMessage.value, Bit(flags, 32))) else None,
      username, password))
  {
  }

  /** A CONNECT body states exactly what was set, for every combination of optional fields, if all fields fit. */
  lemma ConnectRoundTrip(c: Settings)
    ensures ParseConnect(ConnectBody(c)) == Some(Requested(c)) <==> FieldsFit(c)
  {
    hide ParseConnectPayload;
    var fixed: seq<byte> := [PROTOCOL_LEVEL, ConnectFlags(c), 0, KEEP_ALIVE_SEC];
    assert !Bit(ConnectFlags(c), 1) by { FlagBits(c); }
    FixedFields(ConnectFlags(c), ConnectPayload(c));
    assert ConnectBody(c) == StringField(PROTOCOL_NAME) + (fixed + ConnectPayload(c));
    if FieldsFit(c) {
      ConnectPayloadRoundTrip(c);
    } else if ParseConnect(ConnectBody(c)) == Some(Requested(c)) {
      ConnectPayloadFits(c);
    }
  }

  lemma FixedFields(flags: byte, payload: seq<byte>)
    requires !Bit(flags, 1)
    ensures ParseConnect(StringField(PROTOCOL_NAME) + ([PROTOCOL_LEVEL, flags, 0, KEEP_ALIVE_SEC] + payload))
         == ParseConnectPayload(flags, KEEP_ALIVE_SEC, payload)
  {
    var rest := [PROTOCOL_LEVEL, flags, 0, KEEP_ALIVE_SEC] + payload;
    TakeStringField(PROTOCOL_NAME, rest);
    assert rest[4..] == payload;
  }

  // ---------------------------------------------------------------------
  // PUBLISH

  function PublishBody(topic: seq<byte>, payload: seq<byte>): seq<byte> {
    StringField(topic) + payload
  }

  /** Section 3.3 at quality of service 0: a topic name and, without a packet identifier, the message. */
  function ParsePublish(body: seq<byte>): Option<(seq<byte>, seq<byte>)> {
    TakeString(body)
  }

  /** A published message arrives unchanged exactly when the topic's length fits its field. */
  lemma PublishRoundTrip(topic: seq<byte>, payload: seq<byte>)
    ensures ParsePublish(PublishBody(topic, payload)) == Some((topic, payload)) <==> |topic| < FIELD_LIMIT
  {
  }

  // ---------------------------------------------------------------------
  // SUBSCRIBE and UNSUBSCRIBE

  function PacketIdBytes(id: nat): (b: seq<byte>)
    ensures |b| == 2
  {
    [id / 256 % 256, id % 256]
  }

  /** Each topic filter, followed by the given bytes. */
  function FilterList(topics: seq<seq<byte>>, after: seq<byte>): seq<byte> {
    if topics == [] then []
    else FilterList(topics[..|topics| - 1], after) + (StringField(topics[|topics| - 1]) + after)
  }

  function SubscribeBody(id: nat, topics: seq<seq<byte>>): seq<byte> {
    PacketIdBytes(id) + FilterList(topics, [0])
  }

  function UnsubscribeBody(id: nat, topics: seq<seq<byte>>): seq<byte> {
    PacketIdBytes(id) + FilterList(topics, [])
  }

  /** Reads topic filters, each followed by a requested quality of service if `qos`, to the end of the body. */
  function ParseFilters(s: seq<byte>, qos: bool): Option<seq<seq<byte>>>
    decreases |s|
  {
    if s == [] then Some([])
    else match TakeString(s)
      case None => None
      case Some((topic, rest)) =>
        if qos && (rest == [] || rest[0] != 0) then None
        else match ParseFilters(if qos then rest[1..] else rest, qos)
          case None => None
          case Some(topics) => Some([topic] + topics)
  }

  function ParseSubscription(body: seq<byte>, qos: bool): Option<(nat, seq<seq<byte>>)> {
    if |body| < 2 then None
    else match ParseFilters(body[2..], qos)
      case None => None
      case Some(topics) => Some((Word(body[0], body[1]), topics))
  }

  lemma {:induction false} FilterListFront(topics: seq<seq<byte>>, after: seq<byte>)
    requires topics != []
    ensures FilterList(topics, after) == StringField(topics[0]) + (after + FilterList(topics[1..], after))
  {
    var n := |topics| - 1;
    if n == 0 {
      assert topics[..0] == [] && topics[1..] == [];
    } else {
      FilterListFront(topics[..n], after);
      assert topics[..n][1..] == topics[1..][..n - 1];
      var middle := FilterList(topics[1..][..n - 1], after);
      var last := StringField(topics[n]) + after;
      var first := StringField(topics[0]);
      assert topics[1..][n - 1] == topics[n];
      assert (first + (after + middle)) + last == first + (after + (middle + last));
    }
  }

  /** One topic filter at the head of a list. */
  lemma FilterStep(topic: seq<byte>, rest: seq<byte>, qos: bool)
    requires |topic| < FIELD_LIMIT
    ensures var after: seq<byte> := if qos then [0] else [];
      ParseFilters(StringField(topic) + (after + rest), qos) == match ParseFilters(rest, qos)
        case None => None
        case Some(topics) => Some([topic] + topics)
  {
    hide TakeString, Word;
    var after: seq<byte> := if qos then [0] else [];
    TakeStringField(topic, after + rest);
    assert (if qos then (after + rest)[1..] else after + rest) == rest;
  }

  /** A filter that does not fit is not read back. */
  lemma LongFilter(topic: seq<byte>, rest: seq<byte>, qos: bool)
    requires |topic| >= FIELD_LIMIT
    ensures var read := ParseFilters(StringField(topic) + rest, qos);
      read.Some? ==> read.value != [] && read.value[0] != topic
  {
    hide TakeString, Word;
    TakeStringField(topic, rest);
    assert |topic[..|topic| % FIELD_LIMIT]| < |topic|;
  }

  /** The filters are read back exactly when every one of them fits its length field. */
  lemma {:induction false} FiltersRoundTrip(topics: seq<seq<byte>>, qos: bool)
    ensures ParseFilters(FilterList(topics, if qos then [0] else []), qos) == Some(topics)
      <==> forall t :: t in topics ==> |t| < FIELD_LIMIT
  {
    hide StringField, TakeString, Word;
    if topics == [] {
    } else {
      var after: seq<byte> := if qos then [0] else [];
      FilterListFront(topics, after);
      assert topics == [topics[0]] + topics[1..];
      if |topics[0]| < FIELD_LIMIT {
        FiltersRoundTrip(topics[1..], qos);
        FilterStep(topics[0], FilterList(topics[1..], after), qos);
        SameTail(topics[0], topics[1..], ParseFilters(FilterList(topics[1..], after), qos));
      } else {
        LongFilter(topics[0], after + FilterList(topics[1..], after), qos);
        assert topics[0] in topics;
      }
    }
  }

  lemma SameTail(topic: seq<byte>, topics: seq<seq<byte>>, read: Option<seq<seq<byte>>>)
    ensures read.Some? ==> ([topic] + read.value == [topic] + topics <==> read.value == topics)
  {
    if read.Some? {
      assert ([topic] + read.value)[1..] == read.value && ([topic] + topics)[1..] == topics;
    }
  }

  /** Both lists of topics are read back with their packet identifier exactly when all of it fits 16 bits. */
  lemma SubscriptionRoundTrip(id: nat, topics: seq<seq<byte>>)
    ensures ParseSubscription(SubscribeBody(id, topics), true) == Some((id, topics))
      <==> id < FIELD_LIMIT && forall t :: t in topics ==> |t| < FIELD_LIMIT
    ensures ParseSubscription(UnsubscribeBody(id, topics), false) == Some((id, topics))
      <==> id < FIELD_LIMIT && forall t :: t in topics ==> |t| < FIELD_LIMIT
  {
    FiltersRoundTrip(topics, true);
    FiltersRoundTrip(topics, false);
    assert SubscribeBody(id, topics)[2..] == FilterList(topics, [0]);
    assert UnsubscribeBody(id, topics)[2..] == FilterList(topics, []);
    WordOfId(id);
  }

  lemma WordOfId(id: nat)
    ensures Word(id / 256 % 256, id % 256) == id % FIELD_LIMIT
    ensures id % FIELD_LIMIT == id <==> id < FIELD_LIMIT
  {
  }
}
