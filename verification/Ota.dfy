/**
 How a firmware image reaches the flash: `HttpClient` accounts for the body of a
 response, part of which may have come in with the headers, and `OTA` keeps asking
 it for more and writes whatever is in the buffer.
 */
module OtaUpdate {
  import opened Wrappers
  import opened StreamBuffers
  import opened Streams

  const BODY_READ_SIZE: nat := 2048

  datatype BodyResult = Body | BodyError | NoAnswer | LengthError

  class HttpClient {
    const stream: Stream
    const responseBuffer: StreamBuffer
    var bodyLength: nat
    var bodyLengthLeft: nat

    ghost predicate Valid()
      reads this, responseBuffer
    {
      responseBuffer.Valid() && responseBuffer.maxBufferSize == DEFAULT_MAX_BUFFER_SIZE
    }

    /** After the headers have been consumed, `responseBuffer` holds the body bytes that came with them. */
    constructor (stream: Stream, responseBuffer: StreamBuffer)
      requires responseBuffer.Valid() && responseBuffer.maxBufferSize == DEFAULT_MAX_BUFFER_SIZE
      ensures Valid() && this.stream == stream && this.responseBuffer == responseBuffer
      ensures bodyLength == bodyLengthLeft == 0
    {
      this.stream, this.responseBuffer := stream, responseBuffer;
      bodyLength, bodyLengthLeft := 0, 0;
    }

    /** The end of `parse_headers`: the length is known only without chunked encoding and with a Content-Length. */
    method SetBodyLength(chunked: bool, contentLength: Option<nat>)
      requires Valid()
      modifies this
      ensures chunked || contentLength.None? ==> unchanged(this)
      ensures !chunked && contentLength.Some? ==>
        && bodyLength == contentLength.value
        && bodyLengthLeft == Missing(bodyLength, |responseBuffer.Contents()|)
    {
      if !chunked {
        if contentLength.Some? {
          bodyLength := contentLength.value;
          var buffered := responseBuffer.ConsumeSize();
          if bodyLength > buffered {
            bodyLengthLeft := bodyLength - buffered;
          } else {
            bodyLengthLeft := 0;
          }
        }
      }
    }

    /**
     `read_body_async`: brings the buffer up to `size` bytes, or to the end of the
     body. The read never exceeds the buffer's bound.
     */
    method ReadBodyAsync(size: nat) returns (r: BodyResult, ghost n: nat)
      requires Valid() && size <= DEFAULT_MAX_BUFFER_SIZE
      modifies this`bodyLengthLeft, stream, responseBuffer, responseBuffer.buffer
      ensures Valid() && (responseBuffer.buffer == old(responseBuffer.buffer) || fresh(responseBuffer.buffer))
      ensures r != LengthError
      ensures n <= old(|stream.incoming|) && stream.incoming == old(stream.incoming)[n..]
      ensures responseBuffer.Contents() == old(responseBuffer.Contents()) + old(stream.incoming)[..n]
      ensures r == Body ==> n == BodyBytes(old(bodyLengthLeft), size, old(|responseBuffer.Contents()|))
      ensures BodyBytes(old(bodyLengthLeft), size, old(|responseBuffer.Contents()|)) == 0 ==> r == Body
      ensures r != Body ==> n < BodyBytes(old(bodyLengthLeft), size, old(|responseBuffer.Contents()|))
      ensures old(stream.Flowing()) ==> stream.Flowing() && (r == Body || (r == NoAnswer && stream.incoming == []))
      ensures bodyLengthLeft == if r == Body then old(bodyLengthLeft) - n else old(bodyLengthLeft)
      ensures r == Body ==>
        |responseBuffer.Contents()|
        == Max(old(|responseBuffer.Contents()|), Min(size, old(|responseBuffer.Contents()| + bodyLengthLeft)))
      ensures old(stream.connected) ==> UsedUntil(old(stream.turns), stream.turns, r == BodyError)
      ensures r == Body || r == NoAnswer ==> stream.connected == old(stream.connected)
      ensures r == NoAnswer ==> old(stream.connected) && stream.turns == []
    {
      hide UsedUntil;
      NoneUsed(stream.turns);
      var buffered := responseBuffer.ConsumeSize();
      var bytesToRead := BodyBytes(bodyLengthLeft, size, buffered);
      if bytesToRead == 0 {
        assert stream.incoming == stream.incoming[0..];
        return Body, 0;
      }
      var outcome, transferred := stream.ReadAsync(responseBuffer, bytesToRead);
      n := transferred;
      match outcome {
        case Done =>
          bodyLengthLeft := bodyLengthLeft - transferred;
          r := Body;
        case Failed(_) => r := BodyError;
        case Waiting => r := NoAnswer;
        case BufferFull => r := LengthError;
      }
    }
  }

  /** How much of the body to read: what is missing, but not beyond the requested fill of the buffer. */
  function BodyBytes(left: nat, size: nat, buffered: nat): nat {
    Min(left, if size > buffered then size - buffered else 0)
  }

  lemma BodyBytesOf(left: nat, buffered: nat)
    ensures BodyBytes(left, BODY_READ_SIZE, buffered) <= left
    ensures buffered == 0 && left > 0 ==> BodyBytes(left, BODY_READ_SIZE, buffered) > 0
  {
  }

  /** What the result callback is told, if it is called at all. */
  datatype Result =
    | Success
    | Error
    | Silent          // the peer sends nothing more
    | DividedByZero   // the progress report of a response of length 0

  class Ota {
    const client: HttpClient
    const flashErrors: set<nat>   // the calls of esp_ota_write that fail
    var flash: seq<byte>          // everything written to the update partition
    var writes: nat

    constructor (client: HttpClient, flashErrors: set<nat>)
      ensures this.client == client && this.flashErrors == flashErrors && flash == [] && writes == 0
    {
      this.client, this.flashErrors := client, flashErrors;
      flash, writes := [], 0;
    }

    /** Every byte of the body is written, buffered or still to come, in order. */
    ghost predicate Conserved(body: seq<byte>, announced: nat)
      reads this, client, client.stream, client.responseBuffer, client.responseBuffer.buffer
    {
      && client.Valid()
      && flash + client.responseBuffer.Contents() + client.stream.incoming == body
      && |flash| + |client.responseBuffer.Contents()| + client.bodyLengthLeft == announced
    }

    /** None of these calls of esp_ota_write has failed. */
    ghost predicate Held(from: nat, to: nat) {
      forall w :: from <= w < to ==> w !in flashErrors
    }

    lemma HeldOn(from: nat, to: nat)
      requires Held(from, to) && to !in flashErrors
      ensures Held(from, to + 1)
    {
    }

    /** Writes the contents of the buffer and reports the progress. */
    method WriteBuffer(ghost body: seq<byte>, ghost announced: nat) returns (result: Result)
      requires Conserved(body, announced) && client.responseBuffer.Contents() != []
      modifies this, client.responseBuffer
      ensures Conserved(body, announced)
      ensures flash <= body && |flash| <= announced && writes == old(writes) + 1
      ensures client.responseBuffer.buffer == old(client.responseBuffer.buffer)
      ensures result == Error ==> flash == old(flash)
      ensures result != Error ==>
        flash == old(flash + client.responseBuffer.Contents()) && client.responseBuffer.Contents() == []
      ensures result == Error <==> old(writes) in flashErrors
      ensures result == DividedByZero <==> old(writes) !in flashErrors && client.bodyLength == 0
      ensures result == Success || result == Error || result == DividedByZero
    {
      var buffer := client.responseBuffer;
      var size := buffer.ConsumeSize();
      ghost var contents := buffer.Contents();
      assert flash + contents + client.stream.incoming == flash + (contents + client.stream.incoming);
      var failed := writes in flashErrors;
      writes := writes + 1;
      if failed {
        return Error;
      }
      flash := flash + buffer.buffer[buffer.gptr..buffer.gptr + size];
      buffer.ConsumeCommit(size);
      assert flash + [] == flash;
      var total, left := client.bodyLength, client.bodyLengthLeft;
      if total == 0 {
        return DividedByZero;
      }
      result := Success;
    }

    /**
     `retrieve_body` and all the calls by which it re-arms itself. `body` is what
     the server sends after the headers: the bytes already buffered and all that
     follow. Success is reported only when nothing is missing, and then the announced
     body has been written, in order, together with whatever more than that came with
     the headers. If the connection and the flash hold and the server sends at least
     the announced body, it does succeed. It fails exactly if the connection was broken
     off or the last write failed, and stays silent only if the peer does. A response
     that announces nothing and brings nothing succeeds with nothing written.
     */
    method RetrieveBody(ghost body: seq<byte>) returns (result: Result)
      requires client.Valid() && flash == []
      requires body == client.responseBuffer.Contents() + client.stream.incoming
      requires client.bodyLengthLeft == Missing(client.bodyLength, |client.responseBuffer.Contents()|)
      modifies this, client, client.stream, client.responseBuffer, client.responseBuffer.buffer
      ensures client.bodyLength == old(client.bodyLength)
      ensures flash <= body
      ensures old(|client.responseBuffer.Contents()|) <= client.bodyLength ==> |flash| <= client.bodyLength
      ensures result == Success ==>
        && Max(client.bodyLength, old(|client.responseBuffer.Contents()|)) <= |body|
        && flash == body[..Max(client.bodyLength, old(|client.responseBuffer.Contents()|))]
      ensures result == DividedByZero <==>
        client.bodyLength == 0 && old(client.responseBuffer.Contents()) != [] && old(writes) !in flashErrors
      ensures result == DividedByZero ==> flash == old(client.responseBuffer.Contents())
      ensures client.bodyLength == 0 && old(client.responseBuffer.Contents()) == [] ==> result == Success && flash == []
      ensures old(client.stream.Flowing()) && flashErrors == {} && 0 < client.bodyLength <= |body| ==> result == Success
      ensures writes > old(writes) ==> Held(old(writes), writes - 1)
      ensures old(client.stream.connected) ==>
        var broken := BrokeOff(old(client.stream.turns), client.stream.turns);
        && UsedUntil(old(client.stream.turns), client.stream.turns, broken)
        && (result == Error <==> broken || (old(writes) < writes && writes - 1 in flashErrors))
      ensures result == Silent ==> old(client.stream.connected) && client.stream.turns == []
    {
      hide StreamBuffer.Contents, StreamBuffer.Valid, BodyBytes, Stream.Flowing, Healthy, Gives, UsedUntil, BrokeOff;
      assert Held(writes, writes);
      hide Held;
      NoneUsed(client.stream.turns);
      ghost var surplus := client.responseBuffer.Contents();
      ghost var announced := client.bodyLengthLeft + |surplus|;
      assert flash + surplus + client.stream.incoming == body;
      while true
        invariant Conserved(body, announced)
        invariant
          client.responseBuffer.buffer == old(client.responseBuffer.buffer) || fresh(client.responseBuffer.buffer)
        invariant client.bodyLength == old(client.bodyLength)
        invariant old(client.stream.Flowing()) ==> client.stream.Flowing()
        invariant client.bodyLength > 0 || client.bodyLengthLeft == 0
        invariant client.bodyLength > 0 ||
          (client.responseBuffer.Contents() == surplus && flash == [] && writes == old(writes))
        invariant client.stream.connected == old(client.stream.connected)
        invariant client.stream.connected ==> UsedUntil(old(client.stream.turns), client.stream.turns, false)
        invariant old(writes) <= writes && Held(old(writes), writes)
        decreases client.bodyLengthLeft + |client.responseBuffer.Contents()|
      {
        ghost var left := client.stream.turns;
        var ended := Round(body, announced);
        if old(client.stream.connected) {
          UsedFurther(old(client.stream.turns), left, client.stream.turns, BrokeOff(left, client.stream.turns));
        }
        UsedBroke(old(client.stream.turns), client.stream.turns);
        if ended.Some? {
          return ended.value;
        }
        HeldOn(old(writes), writes - 1);
      }
    }

    /** One call of `retrieve_body`: what the result callback is told, or nothing if there is more to retrieve. */
    method Round(ghost body: seq<byte>, ghost announced: nat) returns (ended: Option<Result>)
      requires Conserved(body, announced) && (client.bodyLength > 0 || client.bodyLengthLeft == 0)
      modifies this, client`bodyLengthLeft, client.stream, client.responseBuffer, client.responseBuffer.buffer
      ensures client.responseBuffer.buffer == old(client.responseBuffer.buffer) || fresh(client.responseBuffer.buffer)
      ensures flash <= body && |flash| <= announced
      ensures ended.None? ==>
        && Conserved(body, announced) && client.bodyLength > 0
        && client.bodyLengthLeft + |client.responseBuffer.Contents()|
           < old(client.bodyLengthLeft + |client.responseBuffer.Contents()|)
      ensures ended == Some(Success) ==>
        && announced <= |body| && flash == old(flash) == body[..announced]
        && (client.bodyLength == 0 ==> old(client.responseBuffer.Contents()) == [])
      ensures client.bodyLength == 0 && old(client.responseBuffer.Contents()) == [] ==> ended == Some(Success)
      ensures ended == Some(DividedByZero) <==>
        client.bodyLength == 0 && old(client.responseBuffer.Contents()) != [] && old(writes) !in flashErrors
      ensures ended == Some(DividedByZero) ==> flash == old(flash + client.responseBuffer.Contents())
      ensures old(client.stream.Flowing()) ==>
        client.stream.Flowing() && (announced <= |body| && flashErrors == {} ==>
          ended.None? || ended.value == Success || client.bodyLength == 0)
      ensures old(client.stream.connected) ==>
        var broken := BrokeOff(old(client.stream.turns), client.stream.turns);
        && UsedUntil(old(client.stream.turns), client.stream.turns, broken)
        && (ended == Some(Error) <==> broken || (old(writes) < writes && old(writes) in flashErrors))
      ensures ended != Some(Error) ==> client.stream.connected == old(client.stream.connected)
      ensures old(writes) <= writes <= old(writes) + 1
      ensures ended.None? ==> writes == old(writes) + 1 && old(writes) !in flashErrors
      ensures ended == Some(Silent) ==> old(client.stream.connected) && client.stream.turns == []
    {
      hide StreamBuffer.Contents, StreamBuffer.Valid, BodyBytes, Stream.Flowing, Healthy, Gives, UsedUntil, BrokeOff;
      var r := FillBuffer(body, announced);
      UsedBroke(old(client.stream.turns), client.stream.turns);
      if r == BodyError {
        return Some(Error);
      } else if r == NoAnswer {
        return Some(Silent);
      }
      var size := client.responseBuffer.ConsumeSize();
      if size == 0 {
        AllWritten(flash, client.stream.incoming, body, announced);
        return Some(Success);
      }
      var result := WriteBuffer(body, announced);
      ended := if result == Success then None else Some(result);
    }

    /** The read of one round. */
    method FillBuffer(ghost body: seq<byte>, ghost announced: nat) returns (r: BodyResult)
      requires Conserved(body, announced)
      modifies client`bodyLengthLeft, client.stream, client.responseBuffer, client.responseBuffer.buffer
      ensures client.responseBuffer.buffer == old(client.responseBuffer.buffer) || fresh(client.responseBuffer.buffer)
      ensures client.Valid() && flash <= body && |flash| <= announced && r != LengthError
      ensures r == Body ==> Conserved(body, announced)
      ensures r == Body && client.responseBuffer.Contents() == [] ==> client.bodyLengthLeft == 0
      ensures old(client.bodyLengthLeft) == 0 ==>
        && r == Body && client.bodyLengthLeft == 0
        && client.responseBuffer.Contents() == old(client.responseBuffer.Contents())
      ensures old(client.stream.Flowing()) ==>
        client.stream.Flowing() && (r == Body || (r == NoAnswer && |body| < announced))
      ensures old(client.stream.connected) ==>
        UsedUntil(old(client.stream.turns), client.stream.turns, r == BodyError)
      ensures r == Body || r == NoAnswer ==> client.stream.connected == old(client.stream.connected)
      ensures r == NoAnswer ==> old(client.stream.connected) && client.stream.turns == []
    {
      hide StreamBuffer.Contents, StreamBuffer.Valid, BodyBytes, Stream.Flowing, Healthy, Gives, UsedUntil;
      ghost var buffered, incoming := client.responseBuffer.Contents(), client.stream.incoming;
      assert flash + buffered + incoming == flash + (buffered + incoming);
      BodyBytesOf(client.bodyLengthLeft, |buffered|);
      ghost var n;
      r, n := client.ReadBodyAsync(BODY_READ_SIZE);
      ReadKeeps(flash, buffered, incoming, n);
    }
  }

  lemma ReadKeeps(written: seq<byte>, buffered: seq<byte>, incoming: seq<byte>, n: nat)
    requires n <= |incoming|
    ensures written + (buffered + incoming[..n]) + incoming[n..] == written + buffered + incoming
    ensures n == 0 ==> buffered + incoming[..n] == buffered
  {
  }

  lemma AllWritten(written: seq<byte>, incoming: seq<byte>, body: seq<byte>, announced: nat)
    requires written + [] + incoming == body && |written| == announced
    ensures announced <= |body| && written == body[..announced]
  {
  }

  /** What is missing of a body when some of it is buffered; bytes beyond it count as none missing. */
  function Missing(length: nat, buffered: nat): nat {
    if length > buffered then length - buffered else 0
  }

  function Max(a: nat, b: nat): nat {
    if a < b then b else a
  }

  /** The length that the headers announce; nothing, if they do not say or the encoding is chunked. */
  function Announced(chunked: bool, contentLength: Option<nat>): nat {
    if chunked || contentLength.None? then 0 else contentLength.value
  }

  /**
   A whole download: `first` came in with the headers, `later` arrives on the socket.
   A response without a usable Content-Length and without a body in the first read
   counts as a successful update with nothing written.
   */
  method Download(first: seq<byte>, later: seq<byte>, turns: seq<Turn>, chunked: bool, contentLength: Option<nat>,
                  flashErrors: set<nat>)
    returns (result: Result, flash: seq<byte>)
    requires |first| <= DEFAULT_MAX_BUFFER_SIZE
    ensures flash <= first + later
    ensures result == Success ==>
      && Max(Announced(chunked, contentLength), |first|) <= |first + later|
      && flash == (first + later)[..Max(Announced(chunked, contentLength), |first|)]
    ensures result == DividedByZero <==> Announced(chunked, contentLength) == 0 && first != [] && 0 !in flashErrors
    ensures result == DividedByZero ==> flash == first
    ensures Announced(chunked, contentLength) == 0 && first == [] ==> result == Success && flash == []
    ensures Healthy(turns) && flashErrors == {} ==> result != Error
    ensures Healthy(turns) && Gives(turns) >= |later| && flashErrors == {} ==>
      (0 < Announced(chunked, contentLength) <= |first + later| ==> result == Success)
  {
    hide StreamBuffer.Contents, UsedUntil, BrokeOff;
    var stream := new Stream(later, turns);
    var buffer := new StreamBuffer(DEFAULT_MAX_BUFFER_SIZE);
    var room := buffer.ProduceData(|first|);
    buffer.Store(first);
    buffer.ProduceCommit(|first|);
    var client := new HttpClient(stream, buffer);
    client.SetBodyLength(chunked, contentLength);
    var ota := new Ota(client, flashErrors);
    result := ota.RetrieveBody(first + later);
    flash := ota.flash;
    HealthyUnbroken(turns, stream.turns);
  }
}
