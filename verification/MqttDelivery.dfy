/**
 Two MQTT clients, and a server that passes PUBLISH packets on as they are: what one
 publishes, through its packet builder, the write queue, the stream, the reader and
 `handle_publish`, against the topic filters of the other as section 4.7.1 of MQTT
 Version 3.1.1 reads them.
 */
module MqttDelivery {
  import opened Wrappers
  import opened StreamBuffers
  import opened Streams
  import WriteQueues
  import opened MqttWire
  import opened MqttBodies
  import opened MqttReader
  import opened MqttPackets
  import opened TopicMatch

  datatype Message = Message(topic: seq<byte>, text: seq<byte>, retain: bool)

  function PacketOf(m: Message): Packet {
    PublishPacket(m.topic, m.text, m.retain)
  }

  function PacketsOf(messages: seq<Message>): seq<Packet> {
    seq(|messages|, i requires 0 <= i < |messages| => PacketOf(messages[i]))
  }

  /** It fits the packet limit, and its last topic level is not empty. */
  predicate Deliverable(m: Message) {
    |Frame(PacketOf(m))| <= PACKET_LIMIT && m.topic != [] && m.topic[|m.topic| - 1] != SLASH
  }

  /** The filters that match by the standard, in order. */
  function MatchingLevels(filters: seq<seq<byte>>, m: Message): seq<Delivery> {
    if filters == [] then []
    else
      var n := |filters| - 1;
      MatchingLevels(filters[..n], m)
      + (if LevelMatch(Levels(m.topic), Levels(filters[n])) then [ToFilter(filters[n], m.topic, m.text)] else [])
  }

  function Expected(filters: seq<seq<byte>>, m: Message): seq<Delivery> {
    if MatchingLevels(filters, m) == [] then [ToDefault(m.topic, m.text)] else MatchingLevels(filters, m)
  }

  ghost predicate AllValid(filters: seq<seq<byte>>) {
    forall i :: 0 <= i < |filters| ==> ValidFilter(filters[i])
  }

  lemma {:induction false} MatchingByLevels(filters: seq<seq<byte>>, m: Message)
    requires AllValid(filters) && Deliverable(m)
    ensures Matching(filters, m.topic, m.text) == MatchingLevels(filters, m)
    decreases |filters|
  {
    if filters == [] {
    } else {
      var n := |filters| - 1;
      MatchingByLevels(filters[..n], m);
      AgreesWithStandard(m.topic, filters[n]);
    }
  }

  /** What the receiver makes of the packet of a message. */
  lemma PacketIsHandled(m: Message)
    requires Deliverable(m)
    ensures Accepted(PacketOf(m)) && PacketType(PacketOf(m).header) == PUBLISH
    ensures |PacketOf(m).payload| <= DEFAULT_MAX_BUFFER_SIZE
    ensures ParsePublish(PacketOf(m).payload) == Some((m.topic, m.text))
  {
    hide Accepted, ParsePublish, LengthBytes;
    PublishRoundTrip(m.topic, m.text);
    PublishAccepted(m.topic, m.text, m.retain);
  }

  /** The contents of the packet buffers that the messages become. */
  function FramesOf(messages: seq<Message>): seq<seq<byte>> {
    seq(|messages|, i requires 0 <= i < |messages| => Frame(PacketOf(messages[i])))
  }

  lemma {:induction false} FramesAreStream(messages: seq<Message>)
    ensures Concat(FramesOf(messages)) == Encode(PacketsOf(messages))
    decreases |messages|
  {
    if messages == [] {
      assert FramesOf(messages) == [] && PacketsOf(messages) == [];
    } else {
      hide Frame;
      var n := |messages| - 1;
      var front, last := messages[..n], messages[n];
      FramesAreStream(front);
      assert FramesOf(messages) == FramesOf(front) + [Frame(PacketOf(last))];
      assert PacketsOf(messages) == PacketsOf(front) + [PacketOf(last)];
      ConcatLast(FramesOf(front), Frame(PacketOf(last)));
      EncodeLast(PacketsOf(front), PacketOf(last));
    }
  }

  /** Builds the packets of the messages one after another. */
  method Publish(sender: MqttClient, messages: seq<Message>) returns (buffers: seq<seq<byte>>)
    requires forall i :: 0 <= i < |messages| ==> Deliverable(messages[i])
    ensures buffers == FramesOf(messages)
  {
    hide Frame;
    buffers := [];
    for i := 0 to |messages|
      invariant buffers == FramesOf(messages[..i])
    {
      var m := messages[i];
      var pkt := sender.SendPublish(m.topic, m.text, m.retain);
      assert pkt.buffer.Contents() == Frame(PacketOf(m));
      buffers := buffers + [pkt.buffer.buffer[pkt.buffer.gptr..pkt.buffer.pptr]];
    }
    assert messages[..|messages|] == messages;
  }

  lemma CallsAreExpected(filters: seq<seq<byte>>, messages: seq<Message>, n: nat)
    requires forall i :: 0 <= i < |messages| ==> Deliverable(messages[i])
    requires AllValid(filters) && n <= |messages|
    ensures var calls := CallsOf(filters, PacketsOf(messages)[..n]);
      |calls| == n && forall i :: 0 <= i < n ==> calls[i] == Expected(filters, messages[i])
  {
    hide Accepted, ParsePublish, Deliverable, AllValid, PublishPacket;
    forall i | 0 <= i < n
      ensures CallsMade(filters, PacketsOf(messages)[i]) == Expected(filters, messages[i])
    {
      PacketIsHandled(messages[i]);
      MatchingByLevels(filters, messages[i]);
    }
  }

  /** The submissions are frames, so none of them is empty. */
  lemma {:induction false} FramesArePlain(events: seq<WriteQueues.Event>, messages: seq<Message>)
    requires WriteQueues.Submissions(events) == FramesOf(messages)
    requires WriteQueues.Writable(true) !in events
    ensures forall e :: e in events ==> WriteQueues.Plain(e)
    decreases |events|
  {
    if events == [] {
    } else {
      var n, k := |events| - 1, |messages| - 1;
      assert events == events[..n] + [events[n]];
      if events[n].Submitted? {
        assert WriteQueues.Submissions(events)[..k] == FramesOf(messages[..k]);
        assert WriteQueues.Submissions(events)[k] == events[n].contents;
        FramesArePlain(events[..n], messages[..k]);
      } else {
        FramesArePlain(events[..n], messages);
      }
    }
  }

  /**
   `events` is any interleaving of the submissions of the packets built with callbacks
   of the sender's loop. While no write fails, every message whose last byte arrives
   reaches exactly the filters that match its topic by the standard, once each and in
   order, or the default callback if there is none; the messages arrive in order, and
   on a connection that stays up every one arrives that has been written completely.
   No write fails on a socket that accepts something whenever it does not block, under
   a loop that reports no error; and if it accepts enough, and the loop calls back
   often enough, every message is written.
   */
  method Exchange(sender: MqttClient, receiver: MqttClient, messages: seq<Message>,
                  writes: seq<WriteQueues.Turn>, events: seq<WriteQueues.Event>, turns: seq<Turn>)
    returns (calls: seq<seq<Delivery>>, sent: seq<byte>, failed: bool, received: nat)
    requires forall i :: 0 <= i < |messages| ==> Deliverable(messages[i])
    requires AllValid(receiver.filters)
    requires WriteQueues.Submissions(events) == FramesOf(messages)
    ensures !failed ==> received <= |sent| && sent <= Encode(PacketsOf(messages))
    ensures !failed ==> |calls| == Complete(PacketsOf(messages), received)
    ensures !failed ==> forall i :: 0 <= i < |calls| ==> calls[i] == Expected(receiver.filters, messages[i])
    ensures !failed && received == |Encode(PacketsOf(messages))| ==> |calls| == |messages|
    ensures !failed && Healthy(turns) && Gives(turns) >= |sent| ==> received == |sent|
    ensures var written := WriteQueues.AfterEvents(WriteQueues.Observed([], [], writes, []), events);
      sent == written.accepted && failed == !WriteQueues.AllOk(written.completed)
    ensures WriteQueues.Steady(writes) && WriteQueues.Writable(true) !in events ==>
      var stream := Encode(PacketsOf(messages));
      var enough := WriteQueues.Takings(writes) >= |stream| && WriteQueues.CalledBackEnough(events, writes);
      !failed && (enough ==> sent == stream)
  {
    hide Accepted, ParseAll, Frame, ParsePublish, Deliverable, AllValid, Encode, Concat, Complete, CallsOf;
    hide WriteQueues.Accounts, WriteQueues.Submissions, WriteQueues.AfterEvents, WriteQueues.CalledBackEnough;
    hide WriteQueues.Steady, WriteQueues.Takings, WriteQueues.Plain;
    var buffers := Publish(sender, messages);
    var queue := new WriteQueues.WriteQueue(writes);
    queue.PerformAll(events);
    sent := queue.accepted;
    failed := !WriteQueues.AllOk(queue.completed);
    FramesAreStream(messages);
    if WriteQueues.Writable(true) !in events {
      FramesArePlain(events, messages);
    }
    assert [] + Encode(PacketsOf(messages)) == Encode(PacketsOf(messages));
    calls, received := [], 0;
    if failed {
      return;
    }
    assert queue.submitted == [] + buffers == buffers;
    ghost var packets := PacketsOf(messages);
    forall i | 0 <= i < |messages|
      ensures Accepted(packets[i]) && |packets[i].payload| <= DEFAULT_MAX_BUFFER_SIZE
    {
      PacketIsHandled(messages[i]);
    }
    var dispatched;
    dispatched, calls, received := ReceivePrinted(sent, packets, turns, receiver);
    CallsAreExpected(receiver.filters, messages, |dispatched|);
  }
}
