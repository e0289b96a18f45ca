/**
 The reading half of `loopp::net::Stream`: exact-count reads and reads up to a
 delimiter, both of which give up on EAGAIN and are resumed by the event loop.
 The socket is an input: the bytes the peer sends, and for every call to
 `socket_read` how it turns out.
 */
module Streams {
  import opened StreamBuffers

  datatype Turn =
    | Give(most: nat)  // at most this many bytes have arrived
    | Again            // EAGAIN
    | Closed           // the peer has closed the connection
    | Broken           // any other error
    | Cancel           // nothing more until the loop wakes the waiting operation with an error code

  datatype ReadResult = Data(bytes: seq<byte>) | WouldBlock | EndOfStream | Failure

  datatype Error = ConnectionClosed | ReadError | Cancelled

  /**
   How an asynchronous read leaves the loop: its callback was called without or
   with an error, it waits for the socket, or a length error escaped from it.
   */
  datatype Outcome = Done | Failed(error: Error) | Waiting | BufferFull

  const READ_CHUNK: nat := 512

  /** Neither the peer nor the loop breaks the connection off. */
  predicate Healthy(turns: seq<Turn>) {
    forall t :: t in turns ==> t.Give? || t.Again?
  }

  /** How often bytes arrive. */
  function Gives(turns: seq<Turn>): nat {
    if turns == [] then 0 else (if turns[0].Give? && turns[0].most > 0 then 1 else 0) + Gives(turns[1..])
  }

  // ---------------------------------------------------------------------
  // What the turns that have been used decide

  /** Of the turns `before`, `after` are left. */
  predicate LeftOf(before: seq<Turn>, after: seq<Turn>) {
    |after| <= |before| && after == before[|before| - |after|..]
  }

  /** The last turn used was this one. */
  predicate EndedBy(before: seq<Turn>, after: seq<Turn>, last: Turn) {
    |after| < |before| && before[|before| - |after| - 1] == last
  }

  /** The last turn used was a closed connection, an error or a cancellation. */
  predicate BrokeOff(before: seq<Turn>, after: seq<Turn>) {
    EndedBy(before, after, Closed) || EndedBy(before, after, Broken) || EndedBy(before, after, Cancel)
  }

  predicate Breaks(t: Turn) {
    t == Closed || t == Broken || t == Cancel
  }

  /** Turns have been used, none of them a break but the last, and that exactly if `broken`. */
  predicate UsedUntil(before: seq<Turn>, after: seq<Turn>, broken: bool) {
    && LeftOf(before, after)
    && (forall i :: 0 <= i < |before| - |after| - 1 ==> !Breaks(before[i]))
    && (broken <==> BrokeOff(before, after))
  }

  lemma UsedFurther(before: seq<Turn>, between: seq<Turn>, after: seq<Turn>, broken: bool)
    requires UsedUntil(before, between, false) && UsedUntil(between, after, broken)
    ensures UsedUntil(before, after, broken)
    ensures broken ==> forall t :: EndedBy(before, after, t) <==> EndedBy(between, after, t)
  {
    var k, m := |before| - |between|, |between| - |after|;
    assert forall i :: 0 <= i < m ==> between[i] == before[k + i];
    assert before[k + m..] == between[m..];
  }

  lemma UsedBroke(before: seq<Turn>, after: seq<Turn>)
    ensures UsedUntil(before, after, true) ==> BrokeOff(before, after)
    ensures UsedUntil(before, after, false) ==> !BrokeOff(before, after)
  {
  }

  lemma HealthyUnbroken(before: seq<Turn>, after: seq<Turn>)
    ensures Healthy(before) ==> !BrokeOff(before, after)
  {
    if |after| < |before| {
      assert before[|before| - |after| - 1] in before;
    }
  }

  lemma NoneUsed(turns: seq<Turn>)
    ensures UsedUntil(turns, turns, false)
  {
  }

  lemma AllOrFewer(before: seq<Turn>, after: seq<Turn>, broken: bool)
    requires UsedUntil(before, after, broken)
    ensures after == before || |after| < |before|
  {
    assert before[0..] == before;
  }

  lemma CancelUsed(before: seq<Turn>, between: seq<Turn>)
    requires UsedUntil(before, between, false) && between != [] && between[0] == Cancel
    ensures UsedUntil(before, between[1..], true)
  {
    assert before[|before| - |between|] == Cancel;
  }

  /** The socket has no bytes until the loop calls back. */
  predicate Idle(turns: seq<Turn>) {
    turns == [] || turns[0] == Cancel
  }

  /** Bytes arrived at every turn used. */
  predicate Gave(before: seq<Turn>, after: seq<Turn>) {
    && LeftOf(before, after)
    && forall i :: 0 <= i < |before| - |after| ==> before[i].Give? && before[i].most > 0
  }

  /** How a call to `socket_read` turns out; `rest` is what is still to be read after it. */
  predicate Answers(r: ReadResult, before: seq<Turn>, after: seq<Turn>, rest: seq<byte>) {
    if Idle(before) then after == before && r == WouldBlock
    else
      && after == before[1..]
      && match before[0]
         case Give(most) => if r.Data? then most > 0 else r == WouldBlock && (most == 0 || rest == [])
         case Closed => r == EndOfStream
         case Broken => r == Failure
         case _ => r == WouldBlock
  }

  /**
   How a read on a connection is left, by the turns it has used: bytes arrived at
   all of them but the last. It fails exactly if the last was a closed connection,
   or an error, and it waits only for a socket without bytes.
   */
  predicate TurnsDecide(r: Outcome, before: seq<Turn>, after: seq<Turn>, rest: seq<byte>) {
    && LeftOf(before, after)
    && (forall i :: 0 <= i < |before| - |after| - 1 ==> before[i].Give? && before[i].most > 0)
    && (r == Failed(ConnectionClosed) <==> EndedBy(before, after, Closed))
    && (r == Failed(ReadError) <==> EndedBy(before, after, Broken))
    && (EndedBy(before, after, Again) || EndedBy(before, after, Give(0)) ==> r == Waiting)
    && !EndedBy(before, after, Cancel)
    && (r == Waiting ==>
      || Idle(after) || EndedBy(before, after, Again) || EndedBy(before, after, Give(0))
      || (rest == [] && |after| < |before| && before[|before| - |after| - 1].Give?))
  }

  lemma GaveOn(before: seq<Turn>, between: seq<Turn>, after: seq<Turn>, bytes: seq<byte>, rest: seq<byte>)
    requires Gave(before, between) && Answers(Data(bytes), between, after, rest)
    ensures Gave(before, after) && |after| < |between|
  {
    var k := |before| - |between|;
    assert between[0] == before[k];
  }

  /** A read that has what it wants, or no room, is left after turns at which bytes arrived. */
  lemma GaveDecide(before: seq<Turn>, after: seq<Turn>, rest: seq<byte>)
    requires Gave(before, after)
    ensures TurnsDecide(Done, before, after, rest) && TurnsDecide(BufferFull, before, after, rest)
  {
  }

  /** Otherwise the last call to `socket_read` decides. */
  lemma AnswerDecides(ret: ReadResult, before: seq<Turn>, between: seq<Turn>, after: seq<Turn>, rest: seq<byte>)
    requires Gave(before, between) && Answers(ret, between, after, rest) && !ret.Data?
    ensures var r := match ret
        case EndOfStream => Failed(ConnectionClosed)
        case Failure => Failed(ReadError)
        case _ => Waiting;
      TurnsDecide(r, before, after, rest)
  {
    var k := |before| - |between|;
    assert forall i :: 0 <= i < |between| ==> between[i] == before[k + i];
    if !Idle(between) {
      assert before[k + 1..] == between[1..];
    }
  }

  /** A read is broken off exactly if it fails, and a waiting one finds nothing as long as there are other turns. */
  lemma DecidedIsUsed(r: Outcome, before: seq<Turn>, after: seq<Turn>, rest: seq<byte>)
    requires TurnsDecide(r, before, after, rest) && r != Failed(Cancelled)
    ensures UsedUntil(before, after, r.Failed?)
    ensures r == Waiting ==> |after| < |before| || Idle(before)
  {
    assert before[0..] == before;
    if r.Failed? {
      ErrorCases(r.error);
    }
  }

  lemma ErrorCases(e: Error)
    ensures e == ConnectionClosed || e == ReadError || e == Cancelled
  {
  }

  lemma NothingUsed(turns: seq<Turn>)
    ensures Gave(turns, turns)
  {
  }

  /**
   How a read with all its resumptions is left: the turns used before the last
   broke nothing off, and the last decides whether it fails and with which error.
   */
  predicate RunDecides(r: Outcome, before: seq<Turn>, after: seq<Turn>) {
    && UsedUntil(before, after, r.Failed?)
    && (r == Failed(ConnectionClosed) <==> EndedBy(before, after, Closed))
    && (r == Failed(ReadError) <==> EndedBy(before, after, Broken))
    && (r == Failed(Cancelled) <==> EndedBy(before, after, Cancel))
  }

  lemma FirstRun(r: Outcome, before: seq<Turn>, after: seq<Turn>, rest: seq<byte>)
    requires TurnsDecide(r, before, after, rest) && r != Failed(Cancelled)
    ensures RunDecides(r, before, after)
  {
    DecidedIsUsed(r, before, after, rest);
  }

  lemma NextRun(r: Outcome, before: seq<Turn>, between: seq<Turn>, after: seq<Turn>, rest: seq<byte>)
    requires RunDecides(Waiting, before, between) && TurnsDecide(r, between, after, rest) && r != Failed(Cancelled)
    ensures RunDecides(r, before, after)
    ensures r == Waiting ==> |after| < |between| || Idle(between)
  {
    DecidedIsUsed(r, between, after, rest);
    UsedFurther(before, between, after, r.Failed?);
  }

  lemma CancelledRun(before: seq<Turn>, between: seq<Turn>)
    requires RunDecides(Waiting, before, between) && between != [] && between[0] == Cancel
    ensures RunDecides(Failed(Cancelled), before, between[1..])
  {
    assert before[|before| - |between|] == Cancel;
  }

  /** The pattern stands at position i. */
  predicate MatchesAt(contents: seq<byte>, i: nat, pattern: seq<byte>) {
    i + |pattern| <= |contents| && contents[i..i + |pattern|] == pattern
  }

  /** The pattern stands somewhere. */
  ghost predicate Occurs(contents: seq<byte>, pattern: seq<byte>) {
    exists i: nat :: MatchesAt(contents, i, pattern)
  }

  /** A search may resume at `start`: every earlier position lies within the contents and has been refuted. */
  ghost predicate SearchedTo(contents: seq<byte>, pattern: seq<byte>, start: nat) {
    && (start == 0 || start + |pattern| <= |contents| + 1)
    && (forall i: nat :: i < start ==> !MatchesAt(contents, i, pattern))
  }

  /** A refuted position stays refuted however the contents grow, so no match that straddles two reads is skipped. */
  lemma SearchedToExtends(contents: seq<byte>, more: seq<byte>, pattern: seq<byte>, start: nat)
    requires SearchedTo(contents, pattern, start)
    ensures SearchedTo(contents + more, pattern, start)
  {
    forall i: nat | i < start
      ensures !MatchesAt(contents + more, i, pattern)
    {
      assert !MatchesAt(contents, i, pattern);
      assert (contents + more)[i..i + |pattern|] == contents[i..i + |pattern|];
    }
  }

  class Stream {
    var connected: bool
    var incoming: seq<byte>  // what the peer has sent or will send, and has not been read
    var turns: seq<Turn>
    ghost var log: seq<seq<byte>>  // what each successful read has returned

    /** The connection stays up until everything the peer sends has arrived, a byte at a time if need be. */
    ghost predicate Flowing()
      reads this
    {
      connected && Healthy(turns) && Gives(turns) >= |incoming|
    }

    lemma FlowingTurns()
      ensures Flowing() ==> if turns == [] then incoming == [] else turns[0] != Cancel
    {
    }

    constructor (incoming: seq<byte>, turns: seq<Turn>)
      ensures connected && this.incoming == incoming && this.turns == turns && log == []
    {
      log := [];
      connected := true;
      this.incoming := incoming;
      this.turns := turns;
    }

    /** `socket_read`: between 1 and count bytes, or a reason why there are none. */
    method SocketRead(count: nat) returns (r: ReadResult)
      requires count > 0
      modifies this`incoming, this`turns, this`log
      ensures match r
        case Data(bytes) => 0 < |bytes| <= count && bytes + incoming == old(incoming) && log == old(log) + [bytes]
        case _ => incoming == old(incoming) && log == old(log)
      ensures Answers(r, old(turns), turns, incoming)
      ensures old(Flowing()) ==> Flowing() && (r.Data? || r == WouldBlock)
    {
      if turns == [] || turns[0] == Cancel {
        return WouldBlock;
      }
      var turn := turns[0];
      turns := turns[1..];
      match turn {
        case Give(most) =>
          var n := Min(count, Min(most, |incoming|));
          if n > 0 {
            r := Data(incoming[..n]);
            incoming := incoming[n..];
            log := log + [r.bytes];
          } else {
            r := WouldBlock;
          }
        case Again => r := WouldBlock;
        case Closed => r := EndOfStream;
        case Broken => r := Failure;
      }
    }

    /** One round of either read loop: make room, read, and commit what was read. */
    method ReadInto(buf: StreamBuffer, count: nat) returns (room: bool, ret: ReadResult)
      requires buf.Valid() && count > 0
      modifies this`incoming, this`turns, this`log, buf, buf.buffer
      ensures buf.Valid() && (buf.buffer == old(buf.buffer) || fresh(buf.buffer))
      ensures room <==> |old(buf.Contents())| + count <= buf.maxBufferSize
      ensures !room ==> unchanged(this)
      ensures room ==> match ret
        case Data(bytes) =>
          && 0 < |bytes| <= count && bytes + incoming == old(incoming)
          && buf.Contents() == old(buf.Contents()) + bytes && log == old(log) + [bytes]
        case _ => incoming == old(incoming) && buf.Contents() == old(buf.Contents()) && log == old(log)
      ensures room ==> Answers(ret, old(turns), turns, incoming)
      ensures old(Flowing()) ==> Flowing() && (ret.Data? || ret == WouldBlock)
    {
      ret := WouldBlock;
      room := buf.ProduceData(count);
      if room {
        ret := SocketRead(count);
        if ret.Data? {
          buf.Store(ret.bytes);
          buf.ProduceCommit(|ret.bytes|);
        }
      }
    }

    /**
     `do_read_async`. `total` is the bytes_transferred passed to the callback, or
     captured for the resumption. Whatever the sizes of the individual reads, the
     buffer gains exactly the next bytes of the stream, and an operation completes
     without error exactly when it has gained all it was asked for.
     */
    method DoReadAsync(buf: StreamBuffer, count: nat, transferred: nat) returns (r: Outcome, total: nat)
      requires buf.Valid()
      requires transferred <= count
      modifies this, buf, buf.buffer
      ensures buf.Valid() && (buf.buffer == old(buf.buffer) || fresh(buf.buffer))
      ensures transferred <= total <= count
      ensures total - transferred <= |old(incoming)| && incoming == old(incoming)[total - transferred..]
      ensures r != BufferFull ==> buf.Contents() == old(buf.Contents()) + old(incoming)[..total - transferred]
      ensures r == Done <==> old(connected) && total == count
      ensures r == BufferFull <==>
        old(connected) && transferred < count && |old(buf.Contents())| + count - transferred > buf.maxBufferSize
      ensures r == BufferFull ==> total == transferred
      ensures r != Done && transferred < count ==> total < count
      ensures connected <==> old(connected) && r != Failed(ConnectionClosed)
      ensures !old(connected) ==> r == Failed(ConnectionClosed) && turns == old(turns)
      ensures old(connected) ==> TurnsDecide(r, old(turns), turns, incoming) && r != Failed(Cancelled)
      ensures r == Done && transferred < count ==> |turns| < |old(turns)|
      ensures old(Flowing()) ==> Flowing() && !r.Failed?
    {
      hide StreamBuffer.Contents, StreamBuffer.Valid, Healthy, Gives, Gave, Answers, TurnsDecide;
      assert Flowing() ==> connected;
      hide Flowing;
      total := transferred;
      NothingUsed(turns);
      if !connected {
        return Failed(ConnectionClosed), total;
      }
      ghost var contents, stream := buf.Contents(), incoming;
      while total < count
        invariant transferred <= total <= count
        invariant connected && buf.Valid() && (buf.buffer == old(buf.buffer) || fresh(buf.buffer))
        invariant total - transferred <= |stream| && incoming == stream[total - transferred..]
        invariant buf.Contents() == contents + stream[..total - transferred]
        invariant total > transferred ==> |contents| + count - transferred <= buf.maxBufferSize
        invariant Gave(old(turns), turns) && |turns| <= |old(turns)|
        invariant total > transferred ==> |turns| < |old(turns)|
        invariant old(Flowing()) ==> Flowing()
        decreases count - total
      {
        var leftToRead := count - total;
        ghost var got, left := total - transferred, turns;
        var room, ret := ReadInto(buf, leftToRead);
        if !room {
          GaveDecide(old(turns), turns, incoming);
          return BufferFull, total;
        }
        if !ret.Data? {
          AnswerDecides(ret, old(turns), left, turns, incoming);
        }
        match ret {
          case Data(bytes) =>
            total := total + |bytes|;
            ReadMore(stream, got, bytes, incoming);
            GaveOn(old(turns), left, turns, bytes, incoming);
          case EndOfStream =>
            connected := false;
            return Failed(ConnectionClosed), total;
          case WouldBlock =>
            return Waiting, total;
          case Failure =>
            return Failed(ReadError), total;
        }
      }
      GaveDecide(old(turns), turns, incoming);
      return Done, total;
    }

    /**
     `read_async` with its resumptions: each time the operation waits, the loop
     calls it back, until it completes or the peer stays silent.
     */
    method ReadAsync(buf: StreamBuffer, count: nat) returns (r: Outcome, total: nat)
      requires buf.Valid()
      modifies this, buf, buf.buffer
      ensures buf.Valid() && (buf.buffer == old(buf.buffer) || fresh(buf.buffer))
      ensures total <= count
      ensures total <= |old(incoming)| && incoming == old(incoming)[total..]
      ensures r != BufferFull ==> buf.Contents() == old(buf.Contents()) + old(incoming)[..total]
      ensures r == Done <==> old(connected) && total == count
      ensures r == BufferFull <==> old(connected) && count > 0 && |old(buf.Contents())| + count > buf.maxBufferSize
      ensures r != Done && count > 0 ==> total < count
      ensures r == Waiting ==> turns == []
      ensures connected <==> old(connected) && r != Failed(ConnectionClosed)
      ensures !old(connected) ==> r == Failed(ConnectionClosed) && turns == old(turns)
      ensures old(connected) ==> RunDecides(r, old(turns), turns)
      ensures old(Flowing()) ==> Flowing() && !r.Failed? && (r == Waiting ==> incoming == [])
    {
      hide StreamBuffer.Contents, StreamBuffer.Valid, TurnsDecide, UsedUntil, RunDecides;
      ghost var contents := buf.Contents();
      r, total := DoReadAsync(buf, count, 0);
      if old(connected) {
        FirstRun(r, old(turns), turns, incoming);
      }
      while r == Waiting && turns != []
        invariant buf.Valid() && (buf.buffer == old(buf.buffer) || fresh(buf.buffer))
        invariant total <= count && total <= |old(incoming)| && incoming == old(incoming)[total..]
        invariant r != BufferFull ==> buf.Contents() == contents + old(incoming)[..total]
        invariant r == Done <==> old(connected) && total == count
        invariant r == BufferFull <==> old(connected) && count > 0 && |contents| + count > buf.maxBufferSize
        invariant r == Waiting ==> connected && old(connected)
        invariant connected <==> old(connected) && r != Failed(ConnectionClosed)
        invariant !old(connected) ==> r == Failed(ConnectionClosed) && turns == old(turns)
        invariant old(connected) ==> RunDecides(r, old(turns), turns)
        invariant r != Done && count > 0 ==> total < count
        invariant old(Flowing()) ==> Flowing() && !r.Failed?
        decreases r == Waiting, |turns|
      {
        ghost var left := turns;
        if turns[0] == Cancel {
          turns := turns[1..];
          CancelledRun(old(turns), left);
          return Failed(Cancelled), total;
        }
        ghost var got := total;
        ghost var rest := incoming;
        r, total := DoReadAsync(buf, count, total);
        NextRun(r, old(turns), left, turns, incoming);
        ReadMore(old(incoming), got, rest[..total - got], incoming);
      }
    }

    /** `memcmp` of the pattern with the contents from position i. */
    method CompareAt(buf: StreamBuffer, i: nat, pattern: seq<byte>) returns (same: bool)
      requires buf.Valid() && i + |pattern| <= |buf.Contents()|
      ensures same <==> MatchesAt(buf.Contents(), i, pattern)
    {
      var start := buf.gptr + i;
      SliceOfSlice(buf.buffer[..], buf.gptr, buf.pptr, i, |pattern|);
      same := buf.buffer[start..start + |pattern|] == pattern;
    }

    /** `match_until`: scans from `startPos` and says where the next scan may resume. */
    method MatchUntil(buf: StreamBuffer, startPos: nat, pattern: seq<byte>) returns (found: bool, next: nat)
      requires buf.Valid() && SearchedTo(buf.Contents(), pattern, startPos)
      ensures found <==> Occurs(buf.Contents(), pattern)
      ensures !found ==> SearchedTo(buf.Contents(), pattern, next)
      ensures found ==> next == startPos
      ensures !found ==> next == if |buf.Contents()| >= |pattern| then |buf.Contents()| - |pattern| + 1 else startPos
    {
      ghost var contents := buf.Contents();
      next := startPos;
      var size := buf.ConsumeSize();
      var data: int := startPos;
      var dataEnd: int := size - |pattern|;
      while data <= dataEnd
        invariant startPos <= data
        invariant forall i: nat :: i < data ==> !MatchesAt(contents, i, pattern)
      {
        var m := CompareAt(buf, data, pattern);
        if m {
          return true, next;
        }
        data := data + 1;
      }
      if size >= |pattern| {
        next := size - |pattern| + 1;
      }
      found := false;
    }

    /**
     `do_read_until_async`. `chunks` are the reads it made. Success is reported
     exactly when the contents contain the delimiter, and at the first read that
     completes it: after every earlier read it was not there.
     */
    method DoReadUntilAsync(buf: StreamBuffer, until: seq<byte>, transferred: nat)
      returns (r: Outcome, total: nat, ghost chunks: seq<seq<byte>>)
      requires buf.Valid()
      modifies this, buf, buf.buffer
      ensures buf.Valid() && (buf.buffer == old(buf.buffer) || fresh(buf.buffer))
      ensures transferred <= total && total - transferred <= |old(incoming)|
      ensures incoming == old(incoming)[total - transferred..]
      ensures log == old(log) + chunks && Concat(chunks) == old(incoming)[..total - transferred]
      ensures SearchResult(r, old(buf.Contents()), chunks, until, old(connected))
      ensures r != BufferFull ==> buf.Contents() == old(buf.Contents()) + Concat(chunks)
      ensures r == BufferFull <==>
        && old(connected) && !Occurs(old(buf.Contents()) + Concat(chunks), until)
        && |old(buf.Contents())| + (total - transferred) + READ_CHUNK > buf.maxBufferSize
      ensures connected <==> old(connected) && r != Failed(ConnectionClosed)
      ensures !old(connected) ==> r == Failed(ConnectionClosed) && turns == old(turns)
      ensures old(connected) ==> TurnsDecide(r, old(turns), turns, incoming) && r != Failed(Cancelled)
      ensures old(Flowing()) ==> Flowing() && !r.Failed?
    {
      hide Occurs, SearchedTo, MatchesAt, StreamBuffer.Contents, StreamBuffer.Valid, Healthy, Gives, Concat, NotBefore;
      hide Gave, Answers, TurnsDecide;
      total, chunks := transferred, [];
      ghost var contents := buf.Contents();
      NoChunks(contents, until);
      if !connected {
        return Failed(ConnectionClosed), total, chunks;
      }
      NothingUsed(turns);
      var found, startPos := MatchUntil(buf, 0, until);
      while !found
        invariant transferred <= total && connected
        invariant buf.Valid() && (buf.buffer == old(buf.buffer) || fresh(buf.buffer))
        invariant total - transferred <= |old(incoming)| && incoming == old(incoming)[total - transferred..]
        invariant log == old(log) + chunks && Concat(chunks) == old(incoming)[..total - transferred]
        invariant buf.Contents() == contents + Concat(chunks)
        invariant found <==> Occurs(buf.Contents(), until)
        invariant !found ==> SearchedTo(buf.Contents(), until, startPos)
        invariant NotBefore(contents, chunks, until)
        invariant Gave(old(turns), turns)
        invariant old(Flowing()) ==> Flowing()
        decreases |incoming|
      {
        ghost var got, seen, left := total - transferred, buf.Contents(), turns;
        var room, ret := ReadInto(buf, READ_CHUNK);
        if !room {
          GaveDecide(old(turns), turns, incoming);
          return BufferFull, total, chunks;
        }
        if !ret.Data? {
          AnswerDecides(ret, old(turns), left, turns, incoming);
        }
        match ret {
          case Data(bytes) =>
            total := total + |bytes|;
            ReadMore(old(incoming), got, bytes, incoming);
            GaveOn(old(turns), left, turns, bytes, incoming);
            SearchedToExtends(seen, bytes, until, startPos);
            OneMoreChunk(contents, chunks, bytes, until);
            chunks := chunks + [bytes];
          case EndOfStream =>
            connected := false;
            return Failed(ConnectionClosed), total, chunks;
          case WouldBlock =>
            return Waiting, total, chunks;
          case Failure =>
            return Failed(ReadError), total, chunks;
        }
        found, startPos := MatchUntil(buf, startPos, until);
      }
      GaveDecide(old(turns), turns, incoming);
      r := Done;
    }

    /**
     The loop calls a waiting `read_until_async` back, with an error or to go on.
     `before`, `stream`, `contents` and `earlier` describe the reading done so far.
     */
    method ResumeReadUntil(buf: StreamBuffer, until: seq<byte>, got: nat, ghost before: seq<Turn>,
                           ghost stream: seq<byte>, ghost contents: seq<byte>, ghost earlier: seq<seq<byte>>)
      returns (r: Outcome, total: nat, ghost chunks: seq<seq<byte>>)
      requires buf.Valid() && connected && turns != []
      requires got <= |stream| && incoming == stream[got..] && Concat(earlier) == stream[..got]
      requires buf.Contents() == contents + Concat(earlier) && SearchResult(Waiting, contents, earlier, until, true)
      requires |contents| + got + READ_CHUNK <= buf.maxBufferSize
      requires RunDecides(Waiting, before, turns)
      modifies this, buf, buf.buffer
      ensures buf.Valid() && (buf.buffer == old(buf.buffer) || fresh(buf.buffer))
      ensures total <= |stream| && incoming == stream[total..] && Concat(chunks) == stream[..total]
      ensures earlier <= chunks && log == old(log) + chunks[|earlier|..]
      ensures SearchResult(r, contents, chunks, until, true)
      ensures r != BufferFull ==> buf.Contents() == contents + Concat(chunks)
      ensures r == BufferFull <==>
        !Occurs(contents + Concat(chunks), until) && |contents| + total + READ_CHUNK > buf.maxBufferSize
      ensures connected <==> r != Failed(ConnectionClosed)
      ensures r == Waiting ==> |turns| < |old(turns)|
      ensures RunDecides(r, before, turns)
      ensures old(Flowing()) ==> Flowing() && !r.Failed?
    {
      hide Occurs, SearchResult, StreamBuffer.Contents, StreamBuffer.Valid, Concat, NotBefore, RunDecides, TurnsDecide;
      ghost var left := turns;
      if turns[0] == Cancel {
        turns := turns[1..];
        CancelledRun(before, left);
        CancelledSearch(contents, earlier, until);
        WaitingNotFound(contents, earlier, until);
        return Failed(Cancelled), got, earlier;
      }
      ghost var rest := incoming;
      ghost var later;
      r, total, later := DoReadUntilAsync(buf, until, got);
      NextRun(r, before, left, turns, incoming);
      ReadMore(stream, got, rest[..total - got], incoming);
      ResumedSearch(r, contents, earlier, later, until);
      chunks := earlier + later;
    }

    /**
     `read_until_async` with its resumptions. A resumption searches the contents
     again from the start, and the result is still that of searching everything
     after every single read.
     */
    method ReadUntilAsync(buf: StreamBuffer, until: seq<byte>)
      returns (r: Outcome, total: nat, ghost chunks: seq<seq<byte>>)
      requires buf.Valid()
      modifies this, buf, buf.buffer
      ensures buf.Valid()
      ensures total <= |old(incoming)| && incoming == old(incoming)[total..]
      ensures log == old(log) + chunks && Concat(chunks) == old(incoming)[..total]
      ensures SearchResult(r, old(buf.Contents()), chunks, until, old(connected))
      ensures r != BufferFull ==> buf.Contents() == old(buf.Contents()) + Concat(chunks)
      ensures r == BufferFull <==>
        && old(connected) && !Occurs(old(buf.Contents()) + Concat(chunks), until)
        && |old(buf.Contents())| + total + READ_CHUNK > buf.maxBufferSize
      ensures r == Waiting ==> turns == []
      ensures connected <==> old(connected) && r != Failed(ConnectionClosed)
      ensures !old(connected) ==> r == Failed(ConnectionClosed) && turns == old(turns)
      ensures old(connected) ==> RunDecides(r, old(turns), turns)
      ensures old(Flowing()) ==> Flowing() && !r.Failed? && (r == Waiting ==> incoming == [])
    {
      hide Occurs, SearchResult, StreamBuffer.Contents, StreamBuffer.Valid, Concat, NotBefore, RunDecides, TurnsDecide;
      ghost var contents, stream := buf.Contents(), incoming;
      r, total, chunks := DoReadUntilAsync(buf, until, 0);
      if old(connected) {
        FirstRun(r, old(turns), turns, incoming);
      }
      while r == Waiting && turns != []
        invariant buf.Valid() && (buf.buffer == old(buf.buffer) || fresh(buf.buffer))
        invariant total <= |stream| && incoming == stream[total..] && Concat(chunks) == stream[..total]
        invariant log == old(log) + chunks
        invariant SearchResult(r, contents, chunks, until, old(connected))
        invariant r != BufferFull ==> buf.Contents() == contents + Concat(chunks)
        invariant r == BufferFull <==>
          && old(connected) && !Occurs(contents + Concat(chunks), until)
          && |contents| + total + READ_CHUNK > buf.maxBufferSize
        invariant r == Waiting ==> connected && old(connected)
        invariant connected <==> old(connected) && r != Failed(ConnectionClosed)
        invariant !old(connected) ==> r == Failed(ConnectionClosed) && turns == old(turns)
        invariant old(connected) ==> RunDecides(r, old(turns), turns)
        invariant old(Flowing()) ==> Flowing() && !r.Failed?
        decreases r == Waiting, |turns|
      {
        ghost var earlier := chunks;
        WaitingNotFound(contents, chunks, until);
        r, total, chunks := ResumeReadUntil(buf, until, total, old(turns), stream, contents, chunks);
        assert earlier + chunks[|earlier|..] == chunks;
      }
    }
  }

  /** After none of the reads but the last was the delimiter there. */
  ghost predicate NotBefore(contents: seq<byte>, chunks: seq<seq<byte>>, until: seq<byte>) {
    forall k :: 0 <= k < |chunks| ==> !Occurs(contents + Concat(chunks[..k]), until)
  }

  /**
   The result of a search that started with `contents` and made the given reads:
   without error exactly when the delimiter is there, and not one read late.
   */
  ghost predicate SearchResult(r: Outcome, contents: seq<byte>, chunks: seq<seq<byte>>, until: seq<byte>,
                               connected: bool)
  {
    && (!connected ==> r == Failed(ConnectionClosed) && chunks == [])
    && (connected ==> (r == Done <==> Occurs(contents + Concat(chunks), until)))
    && NotBefore(contents, chunks, until)
  }

  lemma NoChunks(contents: seq<byte>, until: seq<byte>)
    ensures NotBefore(contents, [], until) && Concat([]) == [] && contents + [] == contents
  {
  }

  lemma OneMoreChunk(contents: seq<byte>, chunks: seq<seq<byte>>, bytes: seq<byte>, until: seq<byte>)
    requires NotBefore(contents, chunks, until) && !Occurs(contents + Concat(chunks), until)
    ensures NotBefore(contents, chunks + [bytes], until)
    ensures Concat(chunks + [bytes]) == Concat(chunks) + bytes
    ensures contents + Concat(chunks + [bytes]) == contents + Concat(chunks) + bytes
  {
    ConcatLast(chunks, bytes);
    forall k | 0 <= k < |chunks + [bytes]|
      ensures !Occurs(contents + Concat((chunks + [bytes])[..k]), until)
    {
      assert (chunks + [bytes])[..k] == chunks[..k];
      assert k == |chunks| ==> chunks[..k] == chunks;
    }
  }

  lemma WaitingNotFound(contents: seq<byte>, chunks: seq<seq<byte>>, until: seq<byte>)
    requires SearchResult(Waiting, contents, chunks, until, true)
    ensures !Occurs(contents + Concat(chunks), until)
  {
  }

  lemma CancelledSearch(contents: seq<byte>, chunks: seq<seq<byte>>, until: seq<byte>)
    requires SearchResult(Waiting, contents, chunks, until, true)
    ensures SearchResult(Failed(Cancelled), contents, chunks, until, true)
  {
  }

  /** Two searches in a row, the second over everything the first has seen, make one search. */
  lemma ResumedSearch(r: Outcome, contents: seq<byte>, first: seq<seq<byte>>, second: seq<seq<byte>>, until: seq<byte>)
    requires SearchResult(Waiting, contents, first, until, true)
    requires SearchResult(r, contents + Concat(first), second, until, true)
    ensures SearchResult(r, contents, first + second, until, true)
    ensures Concat(first + second) == Concat(first) + Concat(second)
    ensures contents + Concat(first + second) == contents + Concat(first) + Concat(second)
  {
    hide Occurs, Concat;
    ConcatAppend(first, second);
    assert contents + (Concat(first) + Concat(second)) == contents + Concat(first) + Concat(second);
    forall k | 0 <= k < |first + second|
      ensures !Occurs(contents + Concat((first + second)[..k]), until)
    {
      if k < |first| {
        assert (first + second)[..k] == first[..k];
        assert !Occurs(contents + Concat(first[..k]), until);
      } else {
        var m := k - |first|;
        assert !Occurs(contents + Concat(first) + Concat(second[..m]), until);
        assert (first + second)[..k] == first + second[..m];
        ConcatAppend(first, second[..m]);
        assert contents + (Concat(first) + Concat(second[..m])) == contents + Concat(first) + Concat(second[..m]);
      }
    }
  }

  lemma SliceOfSlice(s: seq<byte>, low: nat, high: nat, i: nat, n: nat)
    requires low <= high <= |s| && i + n <= high - low
    ensures s[low..high][i..i + n] == s[low + i..low + i + n]
  {
    var t, u := s[low..high], s[low + i..low + i + n];
    assert forall k :: 0 <= k < n ==> u[k] == t[i..i + n][k];
  }

  /** Reading on appends the next bytes of the stream. */
  lemma ReadMore(stream: seq<byte>, got: nat, bytes: seq<byte>, rest: seq<byte>)
    requires got <= |stream| && stream[got..] == bytes + rest
    ensures got + |bytes| <= |stream|
    ensures stream[..got + |bytes|] == stream[..got] + bytes
    ensures stream[got + |bytes|..] == rest
  {
  }
}
