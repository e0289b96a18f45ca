/**
 `loopp::net::StreamBuffer`: a growable, compacting byte buffer behind the
 `std::streambuf` interface. Pointers into the backing vector are offsets; `eback`
 is always 0 and `epptr` is always the end of the vector.
 */
module StreamBuffers {
  import opened Wrappers

  type byte = x: int | 0 <= x < 256

  const BUFFER_INCREASE_SIZE: nat := 100
  const DEFAULT_MAX_BUFFER_SIZE: nat := 10240

  function Min(a: nat, b: nat): nat {
    if a < b then a else b
  }

  /** The most bytes that can be put through the stream interface alone, which grows the vector in fixed increments. */
  function PutLimit(maxBufferSize: nat): nat {
    if maxBufferSize < BUFFER_INCREASE_SIZE then maxBufferSize
    else maxBufferSize - maxBufferSize % BUFFER_INCREASE_SIZE
  }

  /** A vector length reached from the initial one by whole increments. */
  predicate Grown(length: nat, maxBufferSize: nat) {
    && length <= PutLimit(maxBufferSize)
    && (PutLimit(maxBufferSize) - length) % BUFFER_INCREASE_SIZE == 0
  }

  lemma GrowOnce(length: nat, maxBufferSize: nat)
    requires Grown(length, maxBufferSize)
    ensures length + BUFFER_INCREASE_SIZE <= maxBufferSize ==> Grown(length + BUFFER_INCREASE_SIZE, maxBufferSize)
    ensures length + BUFFER_INCREASE_SIZE > maxBufferSize ==> length == PutLimit(maxBufferSize)
  {
  }

  lemma TakeMore(before: seq<byte>, data: seq<byte>, taken: nat, m: nat)
    requires taken + m <= |data|
    ensures before + data[..taken + m] == before + data[..taken] + data[taken..taken + m]
    ensures m == 1 ==> data[taken..taken + m] == [data[taken]]
  {
  }

  function Concat(parts: seq<seq<byte>>): seq<byte> {
    if parts == [] then [] else Concat(parts[..|parts| - 1]) + parts[|parts| - 1]
  }

  lemma ConcatLast(parts: seq<seq<byte>>, part: seq<byte>)
    ensures Concat(parts + [part]) == Concat(parts) + part
  {
    assert (parts + [part])[..|parts|] == parts;
  }

  lemma {:induction false} ConcatAppend(parts: seq<seq<byte>>, more: seq<seq<byte>>)
    ensures Concat(parts + more) == Concat(parts) + Concat(more)
    decreases |more|
  {
    if more == [] {
      assert parts + more == parts;
    } else {
      hide Concat;
      var front, last := more[..|more| - 1], more[|more| - 1];
      ConcatAppend(parts, front);
      ConcatLast(front, last);
      ConcatLast(parts + front, last);
      assert more == front + [last] && parts + more == (parts + front) + [last];
      assert Concat(parts) + Concat(front) + last == Concat(parts) + (Concat(front) + last);
    }
  }

  /**
   The calls that move bytes: `produce_data(reserved)` followed by a write and
   `produce_commit` of what was written, `overflow`, and `consume_commit`.
   */
  datatype Call =
    | Produce(data: seq<byte>, reserved: nat)
    | Put(ch: byte)
    | Consume(n: nat)

  /** The same call on a plain byte queue. */
  function Fifo(contents: seq<byte>, call: Call): seq<byte> {
    match call
    case Produce(data, reserved) => contents + data[..Min(|data|, reserved)]
    case Put(ch) => contents + [ch]
    case Consume(n) => contents[Min(n, |contents|)..]
  }

  /** The call asks for more room than the bound allows. */
  predicate Overfull(contents: seq<byte>, call: Call, maxBufferSize: nat) {
    match call
    case Produce(_, reserved) => |contents| + reserved > maxBufferSize
    case Put(_) => |contents| + BUFFER_INCREASE_SIZE > maxBufferSize
    case Consume(_) => false
  }

  function FifoRun(contents: seq<byte>, calls: seq<Call>): seq<byte>
    decreases |calls|
  {
    if calls == [] then contents
    else Fifo(FifoRun(contents, calls[..|calls| - 1]), calls[|calls| - 1])
  }

  lemma FifoRunLast(contents: seq<byte>, calls: seq<Call>, i: nat)
    requires i < |calls|
    ensures FifoRun(contents, calls[..i + 1]) == Fifo(FifoRun(contents, calls[..i]), calls[i])
  {
    assert calls[..i + 1][..i] == calls[..i];
  }

  /** All bytes a sequence of calls produces. */
  function Produced(calls: seq<Call>): seq<byte>
    decreases |calls|
  {
    if calls == [] then []
    else
      var before := Produced(calls[..|calls| - 1]);
      match calls[|calls| - 1]
      case Produce(data, reserved) => before + data[..Min(|data|, reserved)]
      case Put(ch) => before + [ch]
      case Consume(_) => before
  }

  /** First in, first out: what is left is the produced stream without a prefix. */
  lemma {:induction false} FifoRunIsSuffix(contents: seq<byte>, calls: seq<Call>) returns (consumed: nat)
    ensures consumed <= |contents + Produced(calls)|
    ensures FifoRun(contents, calls) == (contents + Produced(calls))[consumed..]
    decreases |calls|
  {
    if calls == [] {
      consumed := 0;
      assert contents + Produced(calls) == contents;
    } else {
      var last := calls[|calls| - 1];
      var before := calls[..|calls| - 1];
      consumed := FifoRunIsSuffix(contents, before);
      var stream := contents + Produced(before);
      var left := FifoRun(contents, before);
      match last {
        case Produce(data, reserved) =>
          SuffixGrows(contents, Produced(before), consumed, data[..Min(|data|, reserved)]);
        case Put(ch) =>
          SuffixGrows(contents, Produced(before), consumed, [ch]);
        case Consume(n) =>
          consumed := consumed + Min(n, |left|);
          assert left[Min(n, |left|)..] == stream[consumed..];
      }
    }
  }

  lemma SuffixGrows(contents: seq<byte>, produced: seq<byte>, consumed: nat, more: seq<byte>)
    requires consumed <= |contents + produced|
    ensures (contents + (produced + more))[consumed..] == (contents + produced)[consumed..] + more
  {
  }

  class StreamBuffer {
    const maxBufferSize: nat
    var buffer: array<byte>
    var gptr: nat
    var egptr: nat
    var pptr: nat

    ghost predicate Valid()
      reads this
    {
      && gptr <= pptr <= buffer.Length <= maxBufferSize
      && egptr <= pptr
    }

    /** The bytes produced and not yet consumed. */
    ghost function Contents(): (c: seq<byte>)
      reads this, buffer
      requires Valid()
      ensures |c| == pptr - gptr
    {
      buffer[gptr..pptr]
    }

    /** Nothing has been consumed yet, and the vector has only grown by whole increments. */
    ghost predicate OnlyPut()
      reads this
    {
      gptr == 0 && Grown(buffer.Length, maxBufferSize)
    }

    constructor (maxBufferSize: nat)
      ensures Valid() && Contents() == [] && OnlyPut()
      ensures this.maxBufferSize == maxBufferSize
      ensures fresh(buffer)
    {
      this.maxBufferSize := maxBufferSize;
      buffer := new byte[Min(maxBufferSize, BUFFER_INCREASE_SIZE)](_ => 0);
      gptr, egptr, pptr := 0, 0, 0;
    }

    method ConsumeSize() returns (n: nat)
      requires Valid()
      ensures n == |Contents()|
    {
      n := pptr - gptr;
    }

    /**
     Makes room for n bytes by moving the contents to the front and, if that is
     not enough, enlarging the vector. Throws exactly when the contents and the
     n bytes together exceed the bound. When it throws, the bytes have already
     been moved but the pointers have not.
     */
    method Reserve(n: nat) returns (ok: bool)
      requires Valid()
      modifies this, buffer
      ensures Valid() && (buffer == old(buffer) || fresh(buffer))
      ensures ok <==> old(|Contents()|) + n <= maxBufferSize
      ensures ok ==> Contents() == old(Contents()) && buffer.Length - pptr >= n
      ensures old(buffer.Length - pptr) >= n ==> unchanged(this)
      ensures ok && old(buffer.Length - pptr) < n ==> gptr == 0 && egptr == pptr == old(|Contents()|)
      ensures !ok ==> unchanged(this) && (old(gptr) == 0 ==> Contents() == old(Contents()))
      ensures !ok ==> buffer[..|old(Contents())|] == old(Contents())
      ensures buffer.Length == if ok && old(buffer.Length) < old(|Contents()|) + n
        then old(|Contents()|) + n else old(buffer.Length)
    {
      ghost var contents := Contents();
      var available := buffer.Length - pptr;
      if available < n {
        var pptrOffset := pptr;
        if gptr > 0 {
          MoveToFront();
          pptrOffset := pptrOffset - gptr;
          available := available + gptr;
        }
        assert buffer[..pptrOffset] == contents;
        if available < n {
          var newSize := buffer.Length + n - available;
          if newSize > maxBufferSize {
            assert gptr == 0 ==> Contents() == contents;
            return false;
          }
          Resize(newSize);
          assert buffer[..pptrOffset] == contents;
        }
        gptr, egptr, pptr := 0, pptrOffset, pptrOffset;
      }
      return true;
    }

    /** `memmove` of the contents to the start of the vector. */
    method MoveToFront()
      requires Valid()
      modifies buffer
      ensures buffer[..pptr - gptr] == old(buffer[gptr..pptr])
    {
      forall i | 0 <= i < pptr - gptr {
        buffer[i] := buffer[gptr + i];
      }
    }

    /** `vector::resize` to a larger size: the old elements are kept and zeros are added. */
    method Resize(newSize: nat)
      requires buffer.Length <= newSize
      modifies this`buffer
      ensures fresh(buffer) && buffer.Length == newSize
      ensures buffer[..old(buffer.Length)] == old(buffer[..])
    {
      var old_ := buffer;
      var larger := new byte[newSize](i requires 0 <= i reads old_ => if i < old_.Length then old_[i] else 0);
      buffer := larger;
    }

    /** `produce_data`: room for n bytes behind the contents, or a length error. */
    method ProduceData(n: nat) returns (ok: bool)
      requires Valid()
      modifies this, buffer
      ensures Valid() && (buffer == old(buffer) || fresh(buffer))
      ensures ok <==> old(|Contents()|) + n <= maxBufferSize
      ensures ok ==> Contents() == old(Contents()) && buffer.Length - pptr >= n
    {
      ok := Reserve(n);
    }

    /** The caller's write into the memory that `ProduceData` has handed out. */
    method Store(data: seq<byte>)
      requires Valid() && |data| <= buffer.Length - pptr
      modifies buffer
      ensures Contents() == old(Contents())
      ensures buffer[pptr..pptr + |data|] == data
    {
      forall i | 0 <= i < |data| {
        buffer[pptr + i] := data[i];
      }
    }

    /** Hands over the next n bytes, or all there is room for. */
    method ProduceCommit(n: nat)
      requires Valid()
      modifies this
      ensures Valid() && buffer == old(buffer) && gptr == old(gptr) && egptr == pptr
      ensures old(buffer.Length - pptr) >= n ==> Contents() == old(Contents()) + old(buffer[pptr..pptr + n])
      ensures old(buffer.Length - pptr) < n ==> Contents() == old(Contents()) + old(buffer[pptr..])
    {
      var m := Min(n, buffer.Length - pptr);
      pptr := pptr + m;
      egptr := pptr;
    }

    /** Drops the first n bytes, or all there are. */
    method ConsumeCommit(n: nat)
      requires Valid()
      modifies this
      ensures Valid() && buffer == old(buffer) && egptr == old(egptr) && pptr == old(pptr)
      ensures Contents() == old(Contents())[Min(n, old(|Contents()|))..]
    {
      var m := Min(n, pptr - gptr);
      gptr := gptr + m;
    }

    /** One byte through the stream interface; the sentinel `eof` is never put here. */
    method Overflow(ch: byte) returns (ok: bool)
      requires Valid()
      modifies this, buffer
      ensures Valid() && (buffer == old(buffer) || fresh(buffer))
      ensures ok <==> old(|Contents()|) + BUFFER_INCREASE_SIZE <= maxBufferSize
      ensures ok ==> Contents() == old(Contents()) + [ch]
      ensures old(buffer.Length - pptr) >= BUFFER_INCREASE_SIZE ==> egptr == old(egptr)
      ensures ok && old(buffer.Length - pptr) < BUFFER_INCREASE_SIZE ==> egptr == old(|Contents()|)
      ensures !ok ==> unchanged(this) && (old(gptr) == 0 ==> Contents() == old(Contents()))
      ensures old(gptr) == 0 ==> gptr == 0
      ensures ok ==> buffer.Length == if old(buffer.Length) < old(|Contents()|) + BUFFER_INCREASE_SIZE
        then old(|Contents()|) + BUFFER_INCREASE_SIZE else old(buffer.Length)
    {
      ok := Reserve(BUFFER_INCREASE_SIZE);
      if ok {
        ghost var contents := Contents();
        buffer[pptr] := ch;
        pptr := pptr + 1;
        assert Contents() == contents + [ch];
      }
    }

    /** Copies into the room there is. */
    method Fill(chunk: seq<byte>)
      requires Valid() && |chunk| <= buffer.Length - pptr
      modifies this`pptr, buffer
      ensures Valid()
      ensures Contents() == old(Contents()) + chunk
    {
      ghost var contents := Contents();
      Store(chunk);
      assert buffer[gptr..pptr + |chunk|] == contents + chunk;
      pptr := pptr + |chunk|;
    }

    /**
     `xsputn`: copies into the room there is and calls `overflow` when there is
     none; a length error ends it early. On a buffer that has only been put into,
     exactly the bytes up to `PutLimit` are taken.
     */
    method Sputn(data: seq<byte>) returns (ok: bool, taken: nat)
      requires Valid()
      modifies this, buffer
      ensures Valid() && (buffer == old(buffer) || fresh(buffer))
      ensures taken <= |data| && (ok <==> taken == |data|)
      ensures ok ==> Contents() == old(Contents()) + data
      ensures !ok ==> old(|Contents()|) + taken + BUFFER_INCREASE_SIZE > maxBufferSize
      ensures old(OnlyPut()) ==>
        && OnlyPut()
        && taken == Min(|data|, PutLimit(maxBufferSize) - old(|Contents()|))
        && Contents() == old(Contents()) + data[..taken]
    {
      hide Contents, PutLimit;
      taken := 0;
      ghost var before := Contents();
      while taken < |data|
        invariant taken <= |data| && Valid()
        invariant buffer == old(buffer) || fresh(buffer)
        invariant old(OnlyPut()) ==> OnlyPut()
        invariant Contents() == before + data[..taken]
        decreases |data| - taken
      {
        if pptr < buffer.Length {
          var m := Min(buffer.Length - pptr, |data| - taken);
          Fill(data[taken..taken + m]);
          TakeMore(before, data, taken, m);
          taken := taken + m;
        } else {
          if gptr == 0 && Grown(buffer.Length, maxBufferSize) {
            GrowOnce(buffer.Length, maxBufferSize);
          }
          var put := Overflow(data[taken]);
          if !put {
            return false, taken;
          }
          TakeMore(before, data, taken, 1);
          taken := taken + 1;
        }
      }
      assert data[..taken] == data;
      ok := true;
    }

    /**
     One character read through the stream interface. It is visible only up to
     `egptr`, which `ProduceCommit` and `Reserve` advance but `Overflow` does not.
     */
    method Sbumpc() returns (c: Option<byte>)
      requires Valid()
      modifies this`gptr
      ensures Valid()
      ensures c.Some? <==> old(gptr) < egptr
      ensures c.Some? ==> [c.value] + Contents() == old(Contents())
      ensures c.None? ==> Contents() == old(Contents())
    {
      if gptr < egptr {
        c := Some(buffer[gptr]);
        gptr := gptr + 1;
      } else {
        c := None;
      }
    }

    /**
     Any sequence of calls treats the buffer as a plain byte queue. The first call
     that does not complete is one whose bytes do not fit.
     */
    method PerformAll(calls: seq<Call>) returns (done: nat)
      requires Valid()
      modifies this, buffer
      ensures Valid() && done <= |calls| && (buffer == old(buffer) || fresh(buffer))
      ensures done == |calls| ==> Contents() == FifoRun(old(Contents()), calls)
      ensures done < |calls| ==> Overfull(FifoRun(old(Contents()), calls[..done]), calls[done], maxBufferSize)
      ensures forall i :: 0 <= i < done ==> !Overfull(FifoRun(old(Contents()), calls[..i]), calls[i], maxBufferSize)
    {
      hide Fifo, Overfull, Min, Grown, PutLimit;
      done := 0;
      while done < |calls|
        invariant done <= |calls| && Valid() && (buffer == old(buffer) || fresh(buffer))
        invariant Contents() == FifoRun(old(Contents()), calls[..done])
        invariant forall i :: 0 <= i < done ==> !Overfull(FifoRun(old(Contents()), calls[..i]), calls[i], maxBufferSize)
      {
        FifoRunLast(old(Contents()), calls, done);
        var ok := Perform(calls[done]);
        if !ok {
          return;
        }
        done := done + 1;
      }
      assert calls[..done] == calls;
    }

    method Perform(call: Call) returns (ok: bool)
      requires Valid()
      modifies this, buffer
      ensures Valid() && (buffer == old(buffer) || fresh(buffer))
      ensures ok <==> !Overfull(old(Contents()), call, maxBufferSize)
      ensures ok ==> Contents() == Fifo(old(Contents()), call)
    {
      match call {
        case Produce(data, reserved) =>
          ok := ProduceData(reserved);
          if ok {
            var used := data[..Min(|data|, reserved)];
            Store(used);
            ProduceCommit(|used|);
          }
        case Put(ch) =>
          ok := Overflow(ch);
        case Consume(n) =>
          ok := true;
          ConsumeCommit(n);
      }
    }
  }
}
