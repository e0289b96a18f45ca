/**
 The reading side of `MqttClient`: a chain of asynchronous reads of one header
 byte, the length bytes one at a time, and the payload, each of which may be cut
 short by EAGAIN and resumed. Complete packets go to the handlers of an `MqttClient`.
 */
module MqttReader {
  import opened StreamBuffers
  import opened Streams
  import opened MqttWire
  import opened MqttPackets
  import opened Wrappers

  const INT_MAX: nat := 2147483647

  datatype Phase =
    | ReadingHeader
    | ReadingLength
    | ReadingPayload
    | Stopped(reason: Reason)

  /** Why the chain of reads has ended. */
  datatype Reason =
    | LostConnection
    | PacketRejected
    | HandlerEscaped   // a length error escapes from the handler of a packet
    | PayloadTooLong   // a length error escapes from the read
    | LengthOverflow   // the signed multiplier overflows, at the fifth length byte

  ghost predicate AllContinue(lens: seq<byte>) {
    forall i :: 0 <= i < |lens| ==> lens[i] >= 128
  }

  /** The value of the length bytes read so far. */
  function LowValue(lens: seq<byte>): int {
    if lens == [] then 0 else lens[0] - 128 + 128 * LowValue(lens[1..])
  }

  lemma {:induction false} LowValueAppend(lens: seq<byte>, b: byte)
    ensures LowValue(lens + [b]) == LowValue(lens) + (b - 128) * Pow128(|lens|)
  {
    if lens != [] {
      assert (lens + [b])[1..] == lens[1..] + [b];
      LowValueAppend(lens[1..], b);
      var x, p := b - 128, Pow128(|lens| - 1);
      assert 128 * (x * p) == x * (128 * p);
    } else {
      assert ([] + [b])[1..] == [];
    }
  }

  lemma {:induction false} LowValueNonnegative(lens: seq<byte>)
    requires AllContinue(lens)
    ensures LowValue(lens) >= 0
  {
    if lens == [] {
    } else {
      LowValueNonnegative(lens[1..]);
    }
  }

  /** The reference decoder on a run of continuation bytes followed by one more byte. */
  lemma {:induction false} DecodeRun(lens: seq<byte>, b: byte, room: nat)
    requires AllContinue(lens) && |lens| <= room
    ensures DecodeWithin(lens, room) == Incomplete
    ensures |lens| == room ==> DecodeWithin(lens + [b], room) == Malformed
    ensures |lens| < room && b < 128 ==>
      LowValue(lens) + b * Pow128(|lens|) >= 0 &&
      DecodeWithin(lens + [b], room) == Length(LowValue(lens) + b * Pow128(|lens|), |lens| + 1)
  {
    if lens != [] {
      assert (lens + [b])[1..] == lens[1..] + [b];
      DecodeRun(lens[1..], b, room - 1);
      var x, p := b as int, Pow128(|lens| - 1);
      assert 128 * (x * p) == x * (128 * p);
    } else {
      assert ([] + [b])[1..] == [];
    }
  }

  lemma PowersOf128()
    ensures Pow128(0) == 1 && Pow128(1) == 128 && Pow128(2) == 16384 && Pow128(3) == 2097152
    ensures Pow128(4) == 268435456 && Pow128(5) == 34359738368
  {
  }

  class MqttReader {
    const client: MqttClient
    const stream: Stream
    const buffer: StreamBuffer
    var remainingLength: nat
    var remainingLengthMultiplier: nat
    var fixedHeader: byte
    var phase: Phase
    var transferred: nat          // captured by the resumption of the current read
    var dispatched: seq<Packet>   // the packets handed to handle_payload
    var calls: seq<seq<Delivery>> // the callbacks made for each of them
    ghost var finished: seq<byte> // all bytes of the packets before the current one
    ghost var partial: seq<byte>  // the bytes of the current packet so far

    /** Every byte taken from the socket. */
    ghost function Received(): seq<byte>
      reads this
    {
      finished + partial
    }

    ghost predicate Valid()
      reads this, client, buffer, buffer.buffer
    {
      && buffer.Valid() && buffer.maxBufferSize == DEFAULT_MAX_BUFFER_SIZE
      && calls == CallsOf(client.filters, dispatched)
      && if phase.Stopped?
         then ParseAll(Received(), buffer.maxBufferSize) == Reading(dispatched, Stopping(phase.reason))
         else
           && ParseAll(finished, buffer.maxBufferSize) == Reading(dispatched, More([]))
           && InPhase()
    }

    /** The reference reading's name for a reason to stop. */
    ghost function Stopping(reason: Reason): Ending
      reads this
    {
      match reason
      case LostConnection => More(partial)
      case PacketRejected => Rejected
      case HandlerEscaped => Escaped
      case PayloadTooLong => TooLong
      case LengthOverflow => BadLength
    }

    ghost predicate InPhase()
      reads this, buffer, buffer.buffer
      requires buffer.Valid() && !phase.Stopped?
    {
      if phase == ReadingHeader then partial == [] && transferred == 0 && buffer.Contents() == []
      else if phase == ReadingLength then InLength() && transferred == 0 && buffer.Contents() == []
      else InPayload()
    }

    /** Only continuation bytes have been read after the header byte. */
    ghost predicate InLength()
      reads this
    {
      && partial != [] && partial[0] == fixedHeader
      && LengthSoFar(partial[1..], remainingLength, remainingLengthMultiplier)
    }

    /** The length is complete and the buffer holds what has come of the payload. */
    ghost predicate InPayload()
      reads this, buffer, buffer.buffer
      requires buffer.Valid()
    {
      && partial != [] && partial[0] == fixedHeader
      && DecodeLength(partial[1..]).Length?
      && var length := DecodeLength(partial[1..]);
      && length.value == remainingLength > transferred
      && |partial| == 1 + length.used + transferred
      && buffer.Contents() == partial[1 + length.used..]
      && (transferred > 0 ==> remainingLength <= buffer.maxBufferSize)
    }

    constructor (stream: Stream, client: MqttClient)
      ensures Valid() && phase == ReadingHeader && Received() == [] && dispatched == []
      ensures this.stream == stream && this.client == client && fresh(buffer) && fresh(buffer.buffer)
      ensures buffer.maxBufferSize == DEFAULT_MAX_BUFFER_SIZE
    {
      this.stream, this.client := stream, client;
      buffer := new StreamBuffer(DEFAULT_MAX_BUFFER_SIZE);
      remainingLength, remainingLengthMultiplier, fixedHeader := 0, 1, 0;
      phase, transferred, dispatched, calls := ReadingHeader, 0, [], [];
      finished, partial := [], [];
      new;
      assert ParseAll([], buffer.maxBufferSize) == Reading([], More([]));
    }

    /** `handle_control_packet`: the header byte has arrived. */
    method HandleControlPacket()
      requires buffer.Valid() && buffer.maxBufferSize == DEFAULT_MAX_BUFFER_SIZE
      requires |buffer.Contents()| == 1
      requires phase == ReadingHeader && partial == buffer.Contents() && transferred == 1
      requires ParseAll(finished, buffer.maxBufferSize) == Reading(dispatched, More([]))
      requires calls == CallsOf(client.filters, dispatched)
      modifies this, buffer
      ensures Valid() && buffer.buffer == old(buffer.buffer)
      ensures finished == old(finished) && partial == old(partial) && phase == ReadingLength
    {
      remainingLength := 0;
      remainingLengthMultiplier := 1;
      fixedHeader := buffer.buffer[buffer.gptr];
      buffer.ConsumeCommit(1);
      transferred := 0;
      phase := ReadingLength;
    }

    /** `handle_remaining_length`: one length byte has arrived. */
    method HandleRemainingLength()
      requires buffer.Valid() && buffer.maxBufferSize == DEFAULT_MAX_BUFFER_SIZE
      requires phase == ReadingLength
      requires LengthByteAdded(partial, buffer.Contents(), fixedHeader, remainingLength, remainingLengthMultiplier)
      requires ParseAll(finished, buffer.maxBufferSize) == Reading(dispatched, More([]))
      requires calls == CallsOf(client.filters, dispatched)
      modifies this, buffer
      ensures Valid() && buffer.buffer == old(buffer.buffer)
      ensures Received() == old(Received())
      ensures phase != Stopped(LostConnection)
    {
      hide ParseAll, DecodeWithin, LowValue, Pow128, Grown, PutLimit, CallsOf, CallsMade, Accepted;
      ghost var lens := partial[1..|partial| - 1];
      var header := buffer.buffer[buffer.gptr];
      assert partial[1..] == lens + [header] by {
        assert [header] == buffer.Contents();
      }
      LengthStep(lens, header, remainingLength, remainingLengthMultiplier);
      buffer.ConsumeCommit(1);
      transferred := 0;
      if remainingLengthMultiplier * 128 > INT_MAX {
        // the signed multiplier would overflow
        BadLengthRead(finished, partial, dispatched, buffer.maxBufferSize);
        phase := Stopped(LengthOverflow);
        return;
      }
      remainingLength := remainingLength + (header % 128) * remainingLengthMultiplier;
      remainingLengthMultiplier := remainingLengthMultiplier * 128;
      if header < 128 {
        if remainingLength == 0 {
          HandlePayload();
        } else {
          phase := ReadingPayload;
        }
      }
    }

    /**
     `handle_payload`: hands the packet to its handler, drops its payload and starts
     over, unless the handler has closed the connection or thrown.
     */
    method HandlePayload()
      requires buffer.Valid() && buffer.maxBufferSize == DEFAULT_MAX_BUFFER_SIZE
      requires |buffer.Contents()| == remainingLength <= buffer.maxBufferSize
      requires 1 + remainingLength <= |partial|
      requires partial[0] == fixedHeader
      requires DecodeLength(partial[1..]) == Length(remainingLength, |partial| - 1 - remainingLength)
      requires partial[|partial| - remainingLength..] == buffer.Contents()
      requires ParseAll(finished, buffer.maxBufferSize) == Reading(dispatched, More([]))
      requires calls == CallsOf(client.filters, dispatched)
      modifies this, buffer
      ensures Valid() && buffer.buffer == old(buffer.buffer)
      ensures Received() == old(Received())
      ensures phase != Stopped(LostConnection)
    {
      hide ParseAll, DecodeWithin, LowValue, Pow128, Grown, PutLimit, CallsOf, Accepted, Escapes;
      var packet := Packet(fixedHeader, buffer.buffer[buffer.gptr..buffer.gptr + remainingLength]);
      assert packet.payload == buffer.Contents();
      PacketRead(finished, partial, packet, dispatched, buffer.maxBufferSize);
      var r := Dispatch(packet);
      transferred := 0;
      if r == LengthError {
        phase := Stopped(HandlerEscaped);
        return;
      }
      buffer.ConsumeCommit(remainingLength);
      if r.Called? {
        finished, partial := finished + partial, [];
        phase := ReadingHeader;
      } else {
        phase := Stopped(PacketRejected);
      }
    }

    /** The packet's handler, with what it reads behind a payload too short for the length of a topic. */
    method Dispatch(packet: Packet) returns (r: Handled)
      requires calls == CallsOf(client.filters, dispatched) && |packet.payload| <= DEFAULT_MAX_BUFFER_SIZE
      modifies this`dispatched, this`calls
      ensures dispatched == old(dispatched) + [packet] && calls == CallsOf(client.filters, dispatched)
      ensures (r.Called? <==> Accepted(packet)) && (r == LengthError <==> Escapes(packet))
    {
      hide CallsOf, CallsMade, Accepted, Escapes;
      OneMoreHandled(client.filters, dispatched, packet);
      var stale: uint16 := *;
      r := client.HandlePacket(packet.header, packet.payload, stale);
      dispatched, calls := dispatched + [packet], calls + [if r.Called? then r.calls else []];
    }

    /**
     Runs the chain until a read has to wait or the chain ends. Each read asks
     for one byte or for the payload; its completion is handled at once and
     starts the next one.
     */
    method Pump()
      requires Valid() && Settled() && !phase.Stopped? && stream.connected
      modifies this, stream, buffer, buffer.buffer
      ensures Valid() && Settled()
      ensures buffer.buffer == old(buffer.buffer) || fresh(buffer.buffer)
      ensures Received() + stream.incoming == old(Received() + stream.incoming)
      ensures UsedUntil(old(stream.turns), stream.turns, phase == Stopped(LostConnection))
      ensures !phase.Stopped? ==> stream.connected
      ensures !phase.Stopped? ==> |stream.turns| < |old(stream.turns)| || Idle(old(stream.turns))
      ensures old(stream.Flowing()) ==> stream.Flowing() && phase != Stopped(LostConnection)
    {
      hide ParseAll, DecodeWithin, LowValue, Pow128, Grown, PutLimit, CallsOf, CallsMade, Accepted;
      hide Healthy, Gives, Stream.Flowing, StreamBuffer.Contents, UsedUntil;
      var waiting := false;
      NoneUsed(stream.turns);
      while !waiting && !phase.Stopped?
        invariant Valid()
        invariant !phase.Stopped? ==> stream.connected
        invariant phase.Stopped? || waiting ==> Settled()
        invariant waiting ==> !phase.Stopped?
        invariant buffer.buffer == old(buffer.buffer) || fresh(buffer.buffer)
        invariant Received() + stream.incoming == old(Received() + stream.incoming)
        invariant UsedUntil(old(stream.turns), stream.turns, phase == Stopped(LostConnection))
        invariant stream.turns == old(stream.turns) || |stream.turns| < |old(stream.turns)|
        invariant waiting ==> |stream.turns| < |old(stream.turns)| || Idle(old(stream.turns))
        invariant old(stream.Flowing()) ==> stream.Flowing() && phase != Stopped(LostConnection)
        decreases !waiting, |stream.turns|, !phase.Stopped?
      {
        ghost var left := stream.turns;
        waiting := ReadOn();
        UsedFurther(old(stream.turns), left, stream.turns, phase == Stopped(LostConnection));
        AllOrFewer(left, stream.turns, phase == Stopped(LostConnection));
      }
    }

    /** One call of `do_read_async` and what its callback does. */
    method ReadOn() returns (waiting: bool)
      requires Valid() && !phase.Stopped? && stream.connected
      modifies this, stream, buffer, buffer.buffer
      ensures Valid() && (phase.Stopped? || stream.connected)
      ensures buffer.buffer == old(buffer.buffer) || fresh(buffer.buffer)
      ensures Received() + stream.incoming == old(Received() + stream.incoming)
      ensures waiting ==> Settled() && !phase.Stopped?
      ensures UsedUntil(old(stream.turns), stream.turns, phase == Stopped(LostConnection))
      ensures |stream.turns| < |old(stream.turns)| || (if waiting then Idle(old(stream.turns)) else phase.Stopped?)
      ensures old(stream.Flowing()) ==> stream.Flowing() && phase != Stopped(LostConnection)
    {
      if phase == ReadingHeader {
        waiting := AsyncReadControlPacket();
      } else if phase == ReadingLength {
        waiting := AsyncReadRemainingLength();
      } else {
        waiting := AsyncReadPayload();
      }
    }

    /** The read itself: what arrives is added to the buffer and to the current packet. */
    method ReadSome(count: nat) returns (r: Outcome, ghost got: seq<byte>)
      requires buffer.Valid() && transferred < count && stream.connected
      modifies this`transferred, this`partial, stream, buffer, buffer.buffer
      ensures buffer.Valid() && (buffer.buffer == old(buffer.buffer) || fresh(buffer.buffer))
      ensures old(transferred) <= transferred <= count
      ensures r == Done <==> transferred == count
      ensures r == BufferFull <==> |old(buffer.Contents())| + count - old(transferred) > buffer.maxBufferSize
      ensures r == BufferFull ==> partial == old(partial)
      ensures partial == old(partial) + got && |got| == transferred - old(transferred)
      ensures r != BufferFull ==> buffer.Contents() == old(buffer.Contents()) + got
      ensures Received() + stream.incoming == old(Received() + stream.incoming)
      ensures r.Failed? || stream.connected
      ensures UsedUntil(old(stream.turns), stream.turns, r.Failed?)
      ensures r == Done ==> |stream.turns| < |old(stream.turns)|
      ensures r == Waiting ==> |stream.turns| < |old(stream.turns)| || Idle(old(stream.turns))
      ensures old(stream.Flowing()) ==> stream.Flowing() && !r.Failed?
    {
      ghost var incoming, start, n := stream.incoming, partial, transferred;
      var total;
      r, total := stream.DoReadAsync(buffer, count, transferred);
      DecidedIsUsed(r, old(stream.turns), stream.turns, stream.incoming);
      transferred, got := total, incoming[..total - n];
      partial := partial + got;
      assert incoming == got + stream.incoming;
      Reassociate(finished, start, got, stream.incoming);
    }

    method AsyncReadControlPacket() returns (waiting: bool)
      requires Valid() && phase == ReadingHeader && stream.connected
      modifies this, stream, buffer, buffer.buffer
      ensures Valid() && (phase.Stopped? || stream.connected)
      ensures buffer.buffer == old(buffer.buffer) || fresh(buffer.buffer)
      ensures Received() + stream.incoming == old(Received() + stream.incoming)
      ensures waiting ==> Settled() && !phase.Stopped?
      ensures UsedUntil(old(stream.turns), stream.turns, phase == Stopped(LostConnection))
      ensures |stream.turns| < |old(stream.turns)| || (if waiting then Idle(old(stream.turns)) else phase.Stopped?)
      ensures old(stream.Flowing()) ==> stream.Flowing() && phase != Stopped(LostConnection)
    {
      hide ParseAll, DecodeWithin, LowValue, Pow128, Grown, PutLimit, CallsOf, CallsMade, Accepted;
      hide Healthy, Gives, Stream.Flowing, StreamBuffer.Contents, UsedUntil;
      var r, got := ReadSome(1);
      waiting := r == Waiting;
      if r == Done {
        HandleControlPacket();
      } else if r.Failed? {
        IncompleteRead(finished, partial, dispatched, buffer.maxBufferSize);
        phase := Stopped(LostConnection);
      }
    }

    method AsyncReadRemainingLength() returns (waiting: bool)
      requires Valid() && phase == ReadingLength && stream.connected
      modifies this, stream, buffer, buffer.buffer
      ensures Valid() && (phase.Stopped? || stream.connected)
      ensures buffer.buffer == old(buffer.buffer) || fresh(buffer.buffer)
      ensures Received() + stream.incoming == old(Received() + stream.incoming)
      ensures waiting ==> Settled() && !phase.Stopped?
      ensures UsedUntil(old(stream.turns), stream.turns, phase == Stopped(LostConnection))
      ensures |stream.turns| < |old(stream.turns)| || (if waiting then Idle(old(stream.turns)) else phase.Stopped?)
      ensures old(stream.Flowing()) ==> stream.Flowing() && phase != Stopped(LostConnection)
    {
      hide ParseAll, DecodeWithin, DecodeLength, LengthSoFar, Grown, PutLimit, StreamBuffer.Valid, CallsOf;
      hide Healthy, Gives, Stream.Flowing, StreamBuffer.Contents, UsedUntil;
      var r := ReadLengthByte();
      waiting := r == Waiting;
      if r == Done {
        HandleRemainingLength();
      } else if r.Failed? {
        LengthLost(finished, partial, dispatched, buffer.maxBufferSize, remainingLength, remainingLengthMultiplier);
        phase := Stopped(LostConnection);
      }
    }

    /** The read of a length byte: it arrives, and can be handled, or everything is as before. */
    method ReadLengthByte() returns (r: Outcome)
      requires Valid() && phase == ReadingLength && stream.connected
      modifies this`transferred, this`partial, stream, buffer, buffer.buffer
      ensures buffer.Valid() && (buffer.buffer == old(buffer.buffer) || fresh(buffer.buffer))
      ensures r == Done || r == Waiting || r.Failed?
      ensures Received() + stream.incoming == old(Received() + stream.incoming)
      ensures r == Done ==>
        LengthByteAdded(partial, buffer.Contents(), fixedHeader, remainingLength, remainingLengthMultiplier)
      ensures r != Done ==> Valid() && partial == old(partial)
      ensures r.Failed? || stream.connected
      ensures UsedUntil(old(stream.turns), stream.turns, r.Failed?)
      ensures r == Done ==> |stream.turns| < |old(stream.turns)|
      ensures r == Waiting ==> |stream.turns| < |old(stream.turns)| || Idle(old(stream.turns))
      ensures old(stream.Flowing()) ==> stream.Flowing() && !r.Failed?
    {
      hide ParseAll, DecodeWithin, DecodeLength, LengthSoFar, Grown, PutLimit, StreamBuffer.Valid, CallsOf;
      hide Healthy, Gives, Stream.Flowing, StreamBuffer.Contents, UsedUntil;
      hide InPayload, Stopping, Received, Settled, LengthByteAdded;
      ghost var start := partial;
      ghost var got;
      r, got := ReadSome(1);
      if r == Done {
        LengthByteRead(start, got, fixedHeader, remainingLength, remainingLengthMultiplier);
      } else {
        LengthByteMissing(start, got);
      }
    }

    method AsyncReadPayload() returns (waiting: bool)
      requires Valid() && phase == ReadingPayload && stream.connected
      modifies this, stream, buffer, buffer.buffer
      ensures Valid() && (phase.Stopped? || stream.connected)
      ensures buffer.buffer == old(buffer.buffer) || fresh(buffer.buffer)
      ensures Received() + stream.incoming == old(Received() + stream.incoming)
      ensures waiting ==> Settled() && !phase.Stopped?
      ensures UsedUntil(old(stream.turns), stream.turns, phase == Stopped(LostConnection))
      ensures |stream.turns| < |old(stream.turns)| || (if waiting then Idle(old(stream.turns)) else phase.Stopped?)
      ensures old(stream.Flowing()) ==> stream.Flowing() && phase != Stopped(LostConnection)
    {
      hide ParseAll, DecodeWithin, LowValue, Pow128, Grown, PutLimit, CallsOf, CallsMade, Accepted;
      hide Healthy, Gives, Stream.Flowing, StreamBuffer.Contents, UsedUntil;
      ghost var start := partial;
      var r, got := ReadSome(remainingLength);
      PayloadMore(start, got);
      waiting := r == Waiting;
      if r == BufferFull {
        TooLongRead(finished, partial, dispatched, buffer.maxBufferSize);
        phase := Stopped(PayloadTooLong);
      } else if r.Failed? {
        IncompleteRead(finished, partial, dispatched, buffer.maxBufferSize);
        phase := Stopped(LostConnection);
      } else if r == Done {
        HandlePayload();
      }
    }

    /** What has been dispatched is the reference reading of what has been received. */
    lemma DispatchedIsReading()
      requires Valid() && Settled()
      ensures ParseAll(Received(), buffer.maxBufferSize).packets == dispatched
      ensures ParseAll(Received(), buffer.maxBufferSize).ending
           == if phase.Stopped? then Stopping(phase.reason) else More(partial)
    {
      if !phase.Stopped? {
        if phase == ReadingLength {
          StillIncomplete(partial[1..]);
        }
        IncompleteRead(finished, partial, dispatched, buffer.maxBufferSize);
      }
    }

    /**
     The chain and all its resumptions, until it ends or the peer stays silent.
     However the bytes are cut into reads, the packets dispatched are the ones that
     the reference reading finds in the bytes received, no byte beyond the last
     handled packet is dropped, and the chain ends for the reasons it gives: with
     the connection exactly if the last turn used was a closed connection, an error or
     a cancellation, and otherwise, while the connection stays up, as the reading of
     everything the peer sends does.
     */
    method Serve()
      requires Valid() && Settled() && !phase.Stopped? && stream.connected
      modifies this, stream, buffer, buffer.buffer
      ensures Valid() && Settled()
      ensures Received() + stream.incoming == old(Received() + stream.incoming)
      ensures ParseAll(Received(), buffer.maxBufferSize).packets == dispatched
      ensures ParseAll(Received(), buffer.maxBufferSize).ending
           == if phase.Stopped? then Stopping(phase.reason) else More(partial)
      ensures calls == CallsOf(client.filters, dispatched)
      ensures UsedUntil(old(stream.turns), stream.turns, phase == Stopped(LostConnection))
      ensures !phase.Stopped? ==> stream.turns == []
      ensures old(stream.Flowing()) ==>
        && ParseAll(old(Received() + stream.incoming), buffer.maxBufferSize)
          == Reading(dispatched, if phase.Stopped? then Stopping(phase.reason) else More(partial))
        && phase != Stopped(LostConnection) && (!phase.Stopped? ==> stream.incoming == [])
    {
      hide ParseAll, DecodeWithin, LowValue, Pow128, Grown, PutLimit, CallsOf, CallsMade, Accepted, UsedUntil;
      hide Healthy, Gives, Stream.Flowing, StreamBuffer.Contents, InPhase;
      Pump();
      while !phase.Stopped? && stream.turns != []
        invariant Valid() && Settled()
        invariant !phase.Stopped? ==> stream.connected
        invariant buffer.buffer == old(buffer.buffer) || fresh(buffer.buffer)
        invariant Received() + stream.incoming == old(Received() + stream.incoming)
        invariant UsedUntil(old(stream.turns), stream.turns, phase == Stopped(LostConnection))
        invariant old(stream.Flowing()) ==> stream.Flowing() && phase != Stopped(LostConnection)
        decreases !phase.Stopped?, |stream.turns|
      {
        ghost var left := stream.turns;
        stream.FlowingTurns();
        if stream.turns[0] != Cancel {
          Pump();
          UsedFurther(old(stream.turns), left, stream.turns, phase == Stopped(LostConnection));
        } else {
          stream.turns := stream.turns[1..];
          CancelUsed(old(stream.turns), left);
          DispatchedIsReading();
          phase := Stopped(LostConnection);
        }
      }
      stream.FlowingTurns();
      DispatchedIsReading();
      ParsePrefix(Received(), stream.incoming, buffer.maxBufferSize);
      assert stream.incoming == [] ==> Received() + stream.incoming == Received();
    }

    /** A payload that is waited for fits the buffer. */
    ghost predicate Settled()
      reads this, buffer
    {
      phase == ReadingPayload ==> remainingLength <= buffer.maxBufferSize
    }
  }

  ghost predicate LengthSoFar(lens: seq<byte>, value: nat, multiplier: nat) {
    AllContinue(lens) && |lens| <= 4 && value == LowValue(lens) && multiplier == Pow128(|lens|)
  }

  /** What one more length byte means, against the reference decoder. */
  lemma LengthStep(lens: seq<byte>, b: byte, value: nat, multiplier: nat)
    requires LengthSoFar(lens, value, multiplier)
    ensures multiplier * 128 > INT_MAX <==> |lens| == 4
    ensures |lens| == 4 ==> DecodeLength(lens + [b]) == Malformed
    ensures |lens| < 4 ==>
      var next := value + (b % 128) * multiplier;
      if b >= 128 then LengthSoFar(lens + [b], next, multiplier * 128)
      else DecodeLength(lens + [b]) == Length(next, |lens| + 1)
  {
    hide DecodeWithin, LowValue, Pow128;
    DecodeRun(lens, b, 4);
    LowValueAppend(lens, b);
    PowersOf128();
  }

  lemma StillIncomplete(lens: seq<byte>)
    requires AllContinue(lens) && |lens| <= 4
    ensures DecodeLength(lens) == Incomplete
  {
  }

  /** One more length byte has come, and is in the buffer. */
  ghost predicate LengthByteAdded(partial: seq<byte>, contents: seq<byte>, header: byte, value: nat, multiplier: nat) {
    && |contents| == 1 && |partial| >= 2
    && partial[0] == header && partial[|partial| - 1..] == contents
    && LengthSoFar(partial[1..|partial| - 1], value, multiplier)
  }

  lemma LengthByteRead(start: seq<byte>, got: seq<byte>, header: byte, value: nat, multiplier: nat)
    requires start != [] && start[0] == header && |got| == 1 && LengthSoFar(start[1..], value, multiplier)
    ensures LengthByteAdded(start + got, [] + got, header, value, multiplier)
  {
    hide LengthSoFar;
    assert (start + got)[1..|start|] == start[1..];
  }

  lemma LengthByteMissing(start: seq<byte>, got: seq<byte>)
    requires got == []
    ensures start + got == start
  {
  }

  lemma Reassociate(finished: seq<byte>, partial: seq<byte>, got: seq<byte>, rest: seq<byte>)
    ensures (finished + (partial + got)) + rest == (finished + partial) + (got + rest)
  {
  }

  /** More of the payload does not change what the length bytes say. */
  lemma PayloadMore(partial: seq<byte>, got: seq<byte>)
    requires partial != [] && DecodeLength(partial[1..]).Length?
    ensures DecodeLength((partial + got)[1..]) == DecodeLength(partial[1..])
    ensures 1 + DecodeLength(partial[1..]).used <= |partial|
    ensures var start := 1 + DecodeLength(partial[1..]).used;
      (partial + got)[start..] == partial[start..] + got
  {
    DecodeUsed(partial[1..], 4);
    DecodeAppend(partial[1..], got, 4);
    assert (partial + got)[1..] == partial[1..] + got;
  }

  /** The beginning of a packet is not a packet. */
  lemma IncompleteRead(finished: seq<byte>, partial: seq<byte>, dispatched: seq<Packet>, max: nat)
    requires ParseAll(finished, max) == Reading(dispatched, More([]))
    requires partial == [] || DecodeLength(partial[1..]).Incomplete?
      || (DecodeLength(partial[1..]).Length? && DecodeLength(partial[1..]).value <= max
          && |partial| < 1 + DecodeLength(partial[1..]).used + DecodeLength(partial[1..]).value)
    ensures ParseAll(finished + partial, max) == Reading(dispatched, More(partial))
  {
    ParseAppend(finished, partial, max);
    assert ParseHead(partial, max) == NoPacket(More(partial));
  }

  lemma LengthLost(finished: seq<byte>, partial: seq<byte>, dispatched: seq<Packet>, max: nat, value: nat,
                   multiplier: nat)
    requires ParseAll(finished, max) == Reading(dispatched, More([]))
    requires partial != [] && LengthSoFar(partial[1..], value, multiplier)
    ensures ParseAll(finished + partial, max) == Reading(dispatched, More(partial))
  {
    hide ParseAll, DecodeLength;
    StillIncomplete(partial[1..]);
    IncompleteRead(finished, partial, dispatched, max);
  }

  lemma TooLongRead(finished: seq<byte>, partial: seq<byte>, dispatched: seq<Packet>, max: nat)
    requires ParseAll(finished, max) == Reading(dispatched, More([]))
    requires partial != [] && DecodeLength(partial[1..]).Length? && DecodeLength(partial[1..]).value > max
    ensures ParseAll(finished + partial, max) == Reading(dispatched, TooLong)
  {
    ParseAppend(finished, partial, max);
    assert ParseHead(partial, max) == NoPacket(TooLong);
  }

  lemma BadLengthRead(finished: seq<byte>, partial: seq<byte>, dispatched: seq<Packet>, max: nat)
    requires ParseAll(finished, max) == Reading(dispatched, More([]))
    requires partial != [] && DecodeLength(partial[1..]) == Malformed
    ensures ParseAll(finished + partial, max) == Reading(dispatched, BadLength)
  {
    ParseAppend(finished, partial, max);
    assert ParseHead(partial, max) == NoPacket(BadLength);
  }

  lemma PacketRead(finished: seq<byte>, partial: seq<byte>, packet: Packet, dispatched: seq<Packet>, max: nat)
    requires ParseAll(finished, max) == Reading(dispatched, More([]))
    requires partial != [] && |packet.payload| < |partial| && |packet.payload| <= max
    requires DecodeLength(partial[1..]) == Length(|packet.payload|, |partial| - 1 - |packet.payload|)
    requires packet == Packet(partial[0], partial[|partial| - |packet.payload|..])
    ensures ParseAll(finished + partial, max)
         == Reading(dispatched + [packet], if Accepted(packet) then More([]) else Refusal(packet))
  {
    ParseAppend(finished, partial, max);
    assert ParseHead(partial, max) == OnePacket(packet, |partial|);
    assert partial[|partial|..] == [];
    assert ParseAll([], max) == Reading([], More([]));
  }

  /**
   Framing inverts printing at the reader: of a stream that prints packets with
   handled types whose payloads fit the buffer, what has been dispatched after any
   part of it is a prefix of those packets, and after all of it those packets.
   */
  lemma ReadingOfPrint(ps: seq<Packet>, received: seq<byte>, rest: seq<byte>, max: nat)
    requires received + rest == Encode(ps)
    requires forall p :: p in ps ==> Accepted(p) && |p.payload| <= max && |p.payload| <= MAX_REMAINING_LENGTH
    ensures ParseAll(received, max).packets <= ps
    ensures ParseAll(received, max).ending.More?
    ensures rest == [] ==> ParseAll(received, max) == Reading(ps, More([]))
  {
    ParseInvertsEncode(ps, max);
    ParsePrefix(received, rest, max);
    assert rest == [] ==> received + rest == received;
  }

  /**
   Reader and printer composed: of a printed stream, or the part of it that was sent,
   the chain dispatches exactly the packets that have arrived completely, in order,
   and ends only with the connection. On a connection that stays up all of it arrives.
   */
  method ReceivePrinted(bytes: seq<byte>, ghost ps: seq<Packet>, turns: seq<Turn>, client: MqttClient)
    returns (dispatched: seq<Packet>, calls: seq<seq<Delivery>>, received: nat)
    requires bytes <= Encode(ps)
    requires forall p :: p in ps ==> Accepted(p) && |p.payload| <= DEFAULT_MAX_BUFFER_SIZE
    ensures received <= |bytes|
    ensures dispatched == ps[..Complete(ps, received)] && calls == CallsOf(client.filters, dispatched)
    ensures received == |Encode(ps)| ==> dispatched == ps
    ensures Healthy(turns) && Gives(turns) >= |bytes| ==> received == |bytes|
  {
    hide ParseAll, Accepted, Frame, Complete, Encode, CallsOf, UsedUntil;
    var stream := new Stream(bytes, turns);
    var reader := new MqttReader(stream, client);
    assert reader.Received() + stream.incoming == bytes;
    reader.Serve();
    assert reader.Received() + stream.incoming == bytes;
    received := |bytes| - |stream.incoming|;
    assert reader.Received() == bytes[..received] == Encode(ps)[..received];
    ReadingOfPart(ps, received, DEFAULT_MAX_BUFFER_SIZE);
    assert !reader.phase.Stopped? || reader.phase.reason == LostConnection;
    dispatched, calls := reader.dispatched, reader.calls;
    AllComplete(ps);
  }

  /**
   The answer to a CONNECT, on a connection that stays up: after a return code other
   than 0 the client closes the connection and reads nothing of what follows; otherwise
   it reads all of it.
   */
  method AnswerToConnect(session: byte, code: byte, more: seq<byte>, turns: seq<Turn>, client: MqttClient)
    returns (dispatched: seq<Packet>, phase: Phase)
    requires Healthy(turns) && Gives(turns) >= 4 + |more|
    ensures code != 0 ==> dispatched == [Packet(0x20, [session, code])] && phase == Stopped(PacketRejected)
    ensures code == 0 ==>
      var rest := ParseAll(more, DEFAULT_MAX_BUFFER_SIZE);
      dispatched == [Packet(0x20, [session, code])] + rest.packets && (phase.Stopped? <==> !rest.ending.More?)
  {
    hide ParseAll, Accepted, CallsOf, UsedUntil;
    var bytes := [0x20, 2, session, code] + more;
    var stream := new Stream(bytes, turns);
    var reader := new MqttReader(stream, client);
    assert reader.Received() + stream.incoming == bytes;
    reader.Serve();
    AnswersInBytes(session, code, 0, 0, 0, more, DEFAULT_MAX_BUFFER_SIZE);
    dispatched, phase := reader.dispatched, reader.phase;
  }
}
