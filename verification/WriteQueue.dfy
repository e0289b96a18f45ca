/**
 The writing half of `loopp::net::Stream`: operations are written to the socket one
 after another, each as far as the socket accepts bytes, and the event loop calls
 back when it accepts more. A queued buffer is represented by its contents; the
 buffers of different operations are distinct.
 */
module WriteQueues {
  import opened StreamBuffers

  /** How a call to `socket_write` turns out. */
  datatype Turn = Accept(most: nat) | WouldBlock | Broken

  /** One callback invocation: without error or with one, and the size it reports. */
  datatype Completion = Completion(ok: bool, reported: nat)

  /** How a round of writing ends: nothing is left, the socket accepts no more for now, or it fails. */
  datatype End = Drained | Blocked | Refused

  datatype Offered = Offered(taken: nat, used: nat, end: End)

  /**
   Offering `size` bytes to a socket: how many it takes, in how many calls, and why it
   stops. There is at least one call, and one that takes nothing is a failure, so an
   empty buffer cannot be drained.
   */
  function Offer(size: nat, turns: seq<Turn>): (o: Offered)
    ensures o.taken <= size && o.used <= |turns| && (o.end == Drained <==> o.taken == size && size > 0)
    decreases |turns|
  {
    if turns == [] then Offered(0, 0, Blocked)
    else match turns[0]
      case WouldBlock => Offered(0, 1, Blocked)
      case Broken => Offered(0, 1, Refused)
      case Accept(most) =>
        var n := Min(most, size);
        if n == 0 then Offered(0, 1, Refused)
        else if n == size then Offered(n, 1, Drained)
        else
          var rest := Offer(size - n, turns[1..]);
          Offered(n + rest.taken, 1 + rest.used, rest.end)
  }

  /** What can be observed of the queue: its contents, the socket's side, and the callbacks. */
  datatype Observed = Observed(
    queue: seq<seq<byte>>,
    accepted: seq<byte>,
    turns: seq<Turn>,
    completed: seq<Completion>)

  /** One activation of the writer: it works on the first operation only. */
  function AfterWrite(s: Observed): Observed
    requires s.queue != []
  {
    Written(s, Offer(|s.queue[0]|, s.turns))
  }

  function Written(s: Observed, o: Offered): Observed
    requires s.queue != [] && o.taken <= |s.queue[0]| && o.used <= |s.turns|
  {
    var first := s.queue[0];
    var t := s.(accepted := s.accepted + first[..o.taken], turns := s.turns[o.used..]);
    if o.end == Blocked then t.(queue := s.queue[0 := first[o.taken..]])
    else t.(queue := s.queue[1..], completed := s.completed + [Completion(o.end == Drained, |first| - o.taken)])
  }

  /** What one call to `socket_write` does. */
  function Taken(size: nat, turns: seq<Turn>): (n: nat)
    ensures n <= size
  {
    if turns != [] && turns[0].Accept? then Min(turns[0].most, size) else 0
  }

  predicate Blocking(turns: seq<Turn>) {
    turns == [] || turns[0] == WouldBlock
  }

  function Later(turns: seq<Turn>): seq<Turn> {
    if turns == [] then [] else turns[1..]
  }

  function AfterCall(s: Observed): Observed
    requires s.queue != []
  {
    var n := Taken(|s.queue[0]|, s.turns);
    s.(queue := s.queue[0 := s.queue[0][n..]], accepted := s.accepted + s.queue[0][..n], turns := Later(s.turns))
  }

  /** The first operation ends, with the size it has not written. */
  function AfterFinish(s: Observed, ok: bool): Observed
    requires s.queue != []
  {
    s.(queue := s.queue[1..], completed := s.completed + [Completion(ok, |s.queue[0]|)])
  }

  /** Writing as a loop of calls. */
  lemma WriteStep(s: Observed)
    requires s.queue != []
    ensures AfterCall(s).queue != [] && |AfterCall(s).queue[0]| == |s.queue[0]| - Taken(|s.queue[0]|, s.turns)
    ensures Blocking(s.turns) ==> Taken(|s.queue[0]|, s.turns) == 0
    ensures AfterWrite(s) ==
      if Blocking(s.turns) then AfterCall(s)
      else if Taken(|s.queue[0]|, s.turns) == 0 then AfterFinish(AfterCall(s), false)
      else if AfterCall(s).queue[0] == [] then AfterFinish(AfterCall(s), true)
      else AfterWrite(AfterCall(s))
  {
  }

  // ---------------------------------------------------------------------
  // What the turns of the socket decide

  predicate Takes(t: Turn) {
    t.Accept? && t.most > 0
  }

  /**
   One activation of the writer, by the turns it uses, all of which but the last
   accept bytes of the first operation. It completes the operation without error when
   nothing of it is left, and with one if the last turn accepts nothing; it keeps what
   is left of it if the socket has no room for now.
   */
  ghost predicate WroteFirst(s: Observed, t: Observed)
    requires s.queue != []
  {
    var first, used, n := s.queue[0], |s.turns| - |t.turns|, |t.accepted| - |s.accepted|;
    && 0 <= used && t.turns == s.turns[used..]
    && 0 <= n <= |first| && t.accepted == s.accepted + first[..n]
    && (forall i :: 0 <= i < used - 1 ==> Takes(s.turns[i]))
    && (
      || (used > 0 && Takes(s.turns[used - 1]) && 0 < n == |first|
          && t.queue == s.queue[1..] && t.completed == s.completed + [Completion(true, 0)])
      || ((if used > 0 then s.turns[used - 1] == WouldBlock || (Takes(s.turns[used - 1]) && t.turns == [])
           else s.turns == [])
          && (n < |first| || first == [])
          && t.queue == [first[n..]] + s.queue[1..] && t.completed == s.completed)
      || (used > 0 && (s.turns[used - 1] == Broken || s.turns[used - 1] == Accept(0)
                       || (s.turns[used - 1].Accept? && first == []))
          && t.queue == s.queue[1..] && t.completed == s.completed + [Completion(false, |first| - n)])
      )
  }

  lemma {:induction false} OfferTurns(size: nat, turns: seq<Turn>)
    ensures var o := Offer(size, turns);
      && (forall i :: 0 <= i < o.used - 1 ==> Takes(turns[i]))
      && (o.end == Drained ==> o.used > 0 && Takes(turns[o.used - 1]))
      && (o.end == Blocked ==> o.taken < size || size == 0)
      && (o.end == Blocked ==>
        if o.used > 0 then turns[o.used - 1] == WouldBlock || (Takes(turns[o.used - 1]) && o.used == |turns|)
        else turns == [])
      && (o.end == Refused ==>
        && o.used > 0
        && (turns[o.used - 1] == Broken || turns[o.used - 1] == Accept(0) || (turns[o.used - 1].Accept? && size == 0)))
    decreases |turns|
  {
    if turns == [] || !turns[0].Accept? || Min(turns[0].most, size) == 0 || Min(turns[0].most, size) == size {
    } else {
      var n := Min(turns[0].most, size);
      OfferTurns(size - n, turns[1..]);
      var rest := Offer(size - n, turns[1..]);
      assert rest.used > 0 ==> turns[1..][rest.used - 1] == turns[rest.used];
      assert forall i :: 0 < i < rest.used ==> turns[i] == turns[1..][i - 1];
    }
  }

  lemma AfterWriteWroteFirst(s: Observed)
    requires s.queue != []
    ensures WroteFirst(s, AfterWrite(s))
  {
    hide Offer;
    var first, o := s.queue[0], Offer(|s.queue[0]|, s.turns);
    OfferTurns(|first|, s.turns);
    assert s.queue[0 := first[o.taken..]] == [first[o.taken..]] + s.queue[1..];
  }

  /** The socket accepts something whenever it does not block. */
  predicate Steady(turns: seq<Turn>) {
    forall t :: t in turns ==> Takes(t) || t == WouldBlock
  }

  /** At how many turns it accepts something, and at how many it blocks. */
  function Takings(turns: seq<Turn>): nat {
    if turns == [] then 0 else (if Takes(turns[0]) then 1 else 0) + Takings(turns[1..])
  }

  function Blocks(turns: seq<Turn>): nat {
    if turns == [] then 0 else (if turns[0] == WouldBlock then 1 else 0) + Blocks(turns[1..])
  }

  /** A steady socket refuses nothing, and takes at least a byte at every turn at which it does not block. */
  lemma {:induction false} SteadyOffer(size: nat, turns: seq<Turn>)
    requires Steady(turns) && size > 0
    ensures var o := Offer(size, turns);
      && o.end != Refused && Steady(turns[o.used..])
      && Takings(turns[o.used..]) + o.taken >= Takings(turns)
      && Blocks(turns[o.used..]) <= Blocks(turns)
      && (o.end == Blocked && Takings(turns) >= size ==> Blocks(turns[o.used..]) < Blocks(turns))
    decreases |turns|
  {
    if turns == [] {
    } else {
      assert turns[0] in turns;
      if turns[0].Accept? && Min(turns[0].most, size) < size {
        var n := Min(turns[0].most, size);
        var rest := Offer(size - n, turns[1..]);
        SteadyOffer(size - n, turns[1..]);
        assert turns[1..][rest.used..] == turns[1 + rest.used..];
      }
    }
  }

  predicate AllOk(completed: seq<Completion>) {
    forall c :: c in completed ==> c.ok
  }

  /** Neither an error from the loop nor a submission of nothing. */
  predicate Plain(e: Event) {
    match e
    case Submitted(contents) => contents != []
    case Writable(error) => !error
  }

  /** A state in which no operation has failed, on a steady socket. */
  ghost predicate Sound(s: Observed) {
    Steady(s.turns) && AllOk(s.completed) && forall i :: 0 <= i < |s.queue| ==> s.queue[i] != []
  }

  function Bytes(e: Event): seq<byte> {
    if e.Submitted? then e.contents else []
  }

  function Operations(e: Event): nat {
    if e.Submitted? then 1 else 0
  }

  /**
   From s to t, in which the given bytes were submitted by so many operations: every byte
   has been accepted or is queued, in order, every operation has completed or is queued,
   and at every turn used a byte has been accepted, or the socket has blocked.
   */
  ghost predicate Progress(s: Observed, t: Observed, bytes: seq<byte>, operations: nat) {
    && t.accepted + Concat(t.queue) == s.accepted + Concat(s.queue) + bytes
    && |t.completed| + |t.queue| == |s.completed| + |s.queue| + operations && |t.completed| >= |s.completed|
    && Takings(t.turns) + |t.accepted| >= Takings(s.turns) + |s.accepted|
    && Blocks(t.turns) <= Blocks(s.turns)
  }

  lemma ProgressOn(s: Observed, t: Observed, u: Observed, b1: seq<byte>, b2: seq<byte>, n1: nat, n2: nat)
    requires Progress(s, t, b1, n1) && Progress(t, u, b2, n2)
    ensures Progress(s, u, b1 + b2, n1 + n2)
  {
    assert s.accepted + Concat(s.queue) + (b1 + b2) == s.accepted + Concat(s.queue) + b1 + b2;
  }

  lemma SteadyWrite(s: Observed)
    requires Sound(s) && s.queue != []
    ensures Sound(AfterWrite(s)) && Progress(s, AfterWrite(s), [], 0)
    ensures Takings(s.turns) >= |s.queue[0]| ==>
      |AfterWrite(s).queue| + Blocks(AfterWrite(s).turns) < |s.queue| + Blocks(s.turns)
  {
    hide Offer, Concat, Takings, Blocks, Steady;
    var first, o, t := s.queue[0], Offer(|s.queue[0]|, s.turns), AfterWrite(s);
    SteadyOffer(|first|, s.turns);
    OfferTurns(|first|, s.turns);
    ConcatFirst(s.queue);
    if o.end == Blocked {
      ConcatFirst(t.queue);
      assert t.queue[1..] == s.queue[1..];
      assert first[..o.taken] + first[o.taken..] == first;
      FourPieces(s.accepted, first[..o.taken], first[o.taken..], Concat(s.queue[1..]));
    } else {
      assert first[..o.taken] == first;
      FourPieces(s.accepted, first, [], Concat(s.queue[1..]));
    }
  }

  lemma FourPieces(a: seq<byte>, b: seq<byte>, c: seq<byte>, d: seq<byte>)
    ensures (a + b) + (c + d) == a + ((b + c) + d) + []
    ensures (a + b) + d == a + (b + d) + []
  {
  }

  lemma ConcatFirst(parts: seq<seq<byte>>)
    requires parts != []
    ensures Concat(parts) == parts[0] + Concat(parts[1..])
  {
    assert parts == [parts[0]] + parts[1..];
    ConcatAppend([parts[0]], parts[1..]);
    ConcatLast([], parts[0]);
    assert [] + [parts[0]] == [parts[0]] && [] + parts[0] == parts[0];
  }

  lemma SteadyEvent(s: Observed, e: Event)
    requires Sound(s) && Plain(e)
    ensures Sound(AfterEvent(s, e)) && Progress(s, AfterEvent(s, e), Bytes(e), Operations(e))
    ensures e == Writable(false) && s.queue != [] && Takings(s.turns) >= |s.queue[0]| ==>
      |AfterEvent(s, e).queue| + Blocks(AfterEvent(s, e).turns) < |s.queue| + Blocks(s.turns)
  {
    hide AfterWrite, Concat, Takings, Blocks, Steady, AllOk;
    if e.Submitted? {
      ConcatLast(s.queue, e.contents);
      var t := s.(queue := s.queue + [e.contents]);
      assert t.accepted + (Concat(s.queue) + e.contents) == s.accepted + Concat(s.queue) + e.contents;
      assert Progress(s, t, e.contents, 1);
      if s.queue == [] {
        assert t.queue == [e.contents];
        SteadyWrite(t);
        ProgressOn(s, t, AfterWrite(t), e.contents, [], 1, 0);
        assert e.contents + [] == e.contents;
      }
    } else if s.queue != [] {
      SteadyWrite(s);
    } else {
      assert s.accepted + Concat(s.queue) + [] == s.accepted + Concat(s.queue);
    }
  }

  /** On a steady socket no operation fails as long as the loop reports no error. */
  lemma {:induction false} SteadyEvents(s: Observed, events: seq<Event>)
    requires Sound(s) && forall i :: 0 <= i < |events| ==> Plain(events[i])
    ensures Sound(AfterEvents(s, events))
    ensures Progress(s, AfterEvents(s, events), Concat(Submissions(events)), |Submissions(events)|)
    decreases |events|
  {
    hide AfterEvent, Concat, Takings, Blocks, Steady, AllOk;
    if events == [] {
      EmptyConcat();
      assert s.accepted + Concat(s.queue) + [] == s.accepted + Concat(s.queue);
    } else {
      var n := |events| - 1;
      var t, e, before := AfterEvents(s, events[..n]), events[n], Submissions(events[..n]);
      SteadyEvents(s, events[..n]);
      SteadyEvent(t, e);
      ProgressOn(s, t, AfterEvent(t, e), Concat(before), Bytes(e), |before|, Operations(e));
      if e.Submitted? {
        ConcatLast(before, e.contents);
      } else {
        assert Concat(before) + [] == Concat(before);
      }
    }
  }

  lemma EmptyConcat()
    ensures Concat([]) == []
  {
  }

  /** After the last submission the loop calls back once for every operation and every time the socket blocks. */
  predicate CalledBackEnough(events: seq<Event>, turns: seq<Turn>) {
    var m := |Submissions(events)| + Blocks(turns);
    m <= |events| && forall i :: |events| - m <= i < |events| ==> events[i] == Writable(false)
  }

  /** From then on, every callback completes an operation or uses up a blocking turn. */
  lemma {:induction false} DrainStep(s: Observed, events: seq<Event>, i: nat)
    requires Sound(s) && s.queue == [] && CalledBackEnough(events, s.turns)
    requires forall j :: 0 <= j < |events| ==> Plain(events[j])
    requires Takings(s.turns) >= |Concat(Submissions(events))|
    requires |events| - (|Submissions(events)| + Blocks(s.turns)) <= i <= |events|
    ensures var t := AfterEvents(s, events[..i]);
      t.queue == [] || |t.queue| + Blocks(t.turns) <= |events| - i
    decreases i
  {
    hide AfterEvent, Concat, Takings, Blocks, Steady, AllOk, Submissions;
    EmptyConcat();
    if i == |events| - (|Submissions(events)| + Blocks(s.turns)) {
      SteadyEvents(s, events[..i]);
      SubmissionsGrow(events, i);
    } else {
      var t := AfterEvents(s, events[..i - 1]);
      DrainStep(s, events, i - 1);
      SteadyEvents(s, events[..i - 1]);
      SubmissionsGrow(events, i - 1);
      assert events[..i][..i - 1] == events[..i - 1] && events[..i][i - 1] == Writable(false);
      assert AfterEvents(s, events[..i]) == AfterEvent(t, Writable(false));
      assert s.accepted + [] == s.accepted;
      if t.queue != [] {
        ConcatFirst(t.queue);
      }
      SteadyEvent(t, Writable(false));
      EmptyStays(t);
    }
  }

  lemma EmptyStays(s: Observed)
    ensures s.queue == [] ==> AfterEvent(s, Writable(false)) == s
  {
  }

  lemma {:induction false} SubmissionsGrow(events: seq<Event>, i: nat)
    requires i <= |events|
    ensures |Submissions(events[..i])| <= |Submissions(events)|
    ensures |Concat(Submissions(events[..i]))| <= |Concat(Submissions(events))|
    decreases |events|
  {
    if i == |events| {
      assert events[..i] == events;
    } else {
      var n := |events| - 1;
      assert events[..n][..i] == events[..i];
      SubmissionsGrow(events[..n], i);
      if events[n].Submitted? {
        ConcatLast(Submissions(events[..n]), events[n].contents);
      }
    }
  }

  /**
   If the socket goes on accepting and the loop goes on calling back, everything
   submitted is written, in order, and every operation completes without error.
   */
  lemma EverythingIsWritten(s: Observed, events: seq<Event>)
    requires Sound(s) && s.queue == [] && CalledBackEnough(events, s.turns)
    requires forall j :: 0 <= j < |events| ==> Plain(events[j])
    requires Takings(s.turns) >= |Concat(Submissions(events))|
    ensures var t := AfterEvents(s, events);
      && t.queue == [] && t.accepted == s.accepted + Concat(Submissions(events))
      && |t.completed| == |s.completed| + |Submissions(events)| && AllOk(t.completed)
  {
    hide AfterEvents, Concat, Takings, Blocks, Submissions;
    EmptyConcat();
    DrainStep(s, events, |events|);
    assert events[..|events|] == events;
    SteadyEvents(s, events);
    var t := AfterEvents(s, events);
    assert s.accepted + [] == s.accepted && t.accepted + [] == t.accepted;
  }

  function AfterEvent(s: Observed, e: Event): Observed {
    match e
    case Submitted(contents) =>
      if s.queue == [] then AfterWrite(s.(queue := [contents]))
      else s.(queue := s.queue + [contents])
    case Writable(error) =>
      if s.queue == [] then s
      else if error then s.(queue := s.queue[1..], completed := s.completed + [Completion(false, 0)])
      else AfterWrite(s)
  }

  function AfterEvents(s: Observed, events: seq<Event>): Observed {
    if events == [] then s
    else AfterEvent(AfterEvents(s, events[..|events| - 1]), events[|events| - 1])
  }

  lemma {:induction false} ConcatExtendAt(parts: seq<seq<byte>>, i: nat, more: seq<byte>)
    requires i < |parts| && forall j :: i < j < |parts| ==> parts[j] == []
    ensures Concat(parts[i := parts[i] + more]) == Concat(parts) + more
    decreases |parts|
  {
    var n := |parts| - 1;
    var changed := parts[i := parts[i] + more];
    if i == n {
      assert changed[..n] == parts[..n];
    } else {
      assert changed[..n] == parts[..n][i := parts[..n][i] + more];
      ConcatExtendAt(parts[..n], i, more);
    }
  }

  /**
   The accounting of all operations ever submitted, in submission order: what was
   asked of the socket, and what it has accepted on behalf of each operation.
   */
  ghost predicate Accounts(submitted: seq<seq<byte>>, sent: seq<seq<byte>>, queue: seq<seq<byte>>,
                           completed: seq<Completion>)
  {
    && |submitted| == |sent| == |completed| + |queue|
    // a finished operation: all of it on success, a prefix of it otherwise
    && (forall i :: 0 <= i < |completed| ==>
      sent[i] <= submitted[i] && (completed[i].ok ==> sent[i] == submitted[i] && completed[i].reported == 0))
    // the operations in the queue: only the first may have been started
    && (forall i :: |completed| <= i < |submitted| ==> sent[i] + queue[i - |completed|] == submitted[i])
    && (forall i :: |completed| < i < |submitted| ==> sent[i] == [])
  }

  class WriteQueue {
    var queue: seq<seq<byte>>        // unconsumed contents of each queued buffer
    var notified: bool               // a write notification is registered with the loop
    var accepted: seq<byte>          // everything the socket has accepted
    var turns: seq<Turn>
    var completed: seq<Completion>   // callbacks invoked, in order
    ghost var submitted: seq<seq<byte>>
    ghost var sent: seq<seq<byte>>

    ghost function State(): Observed
      reads this
    {
      Observed(queue, accepted, turns, completed)
    }

    ghost predicate Balanced()
      reads this
    {
      Accounts(submitted, sent, queue, completed) && accepted == Concat(sent)
    }

    /** Holds between callbacks: a nonempty queue always has a notification pending, an empty one never. */
    ghost predicate Valid()
      reads this
    {
      Balanced() && (notified <==> queue != [])
    }

    constructor (turns: seq<Turn>)
      ensures Valid() && submitted == [] && completed == []
      ensures State() == Observed([], [], turns, [])
    {
      queue, notified, accepted, completed := [], false, [], [];
      this.turns := turns;
      submitted, sent := [], [];
    }

    /** The function that `write_async` hands to the loop. */
    method Submit(contents: seq<byte>)
      requires Valid()
      modifies this
      ensures Valid()
      ensures submitted == old(submitted) + [contents]
      ensures State() == AfterEvent(old(State()), Submitted(contents))
      ensures if old(queue) == [] then WroteFirst(old(State()).(queue := [contents]), State())
              else State() == old(State()).(queue := old(queue) + [contents])
    {
      hide Accounts, Concat, AfterWrite, WroteFirst;
      ConcatLast(sent, []);
      SubmitAccounts(submitted, sent, queue, completed, contents);
      queue := queue + [contents];
      assert old(queue) == [] ==> queue == [contents];
      submitted, sent := submitted + [contents], sent + [[]];
      if |queue| == 1 {
        DoWriteAsync();
      }
    }

    /** One call to `socket_write`: the number of bytes accepted, or none with an error or EAGAIN. */
    method SocketWrite(data: seq<byte>) returns (ret: nat, again: bool)
      modifies this`accepted, this`turns
      ensures ret <= |data| && accepted == old(accepted) + data[..ret]
      ensures ret == Taken(|data|, old(turns)) && (again <==> Blocking(old(turns))) && turns == Later(old(turns))
    {
      ret, again := 0, false;
      if turns == [] {
        again := true;
        return;
      }
      var turn := turns[0];
      turns := turns[1..];
      match turn {
        case Accept(most) => ret := Min(most, |data|);
        case WouldBlock => again := true;
        case Broken =>
      }
      accepted := accepted + data[..ret];
    }

    /** One round of the loop below: the first buffer loses what the socket accepts of it. */
    method WriteFirst() returns (ret: nat, again: bool)
      requires Balanced() && queue != []
      modifies this`queue, this`accepted, this`turns, this`sent
      ensures Balanced() && queue != []
      ensures State() == AfterCall(old(State()))
      ensures ret == Taken(|old(queue[0])|, old(turns)) && (again <==> Blocking(old(turns)))
    {
      ret, again := SocketWrite(queue[0]);
      AcceptMore(submitted, sent, queue, completed, ret);
      sent := sent[|completed| := sent[|completed|] + queue[0][..ret]];
      queue := queue[0 := queue[0][ret..]];
    }

    /** Calls the callback of the first operation and removes it. */
    method FinishOperation(c: Completion)
      requires Balanced() && queue != []
      requires c.ok ==> queue[0] == [] && c.reported == 0
      modifies this`queue, this`completed
      ensures Balanced()
      ensures State() == old(State()).(completed := old(completed) + [c], queue := old(queue)[1..])
    {
      FinishFirst(submitted, sent, queue, completed, c);
      completed := completed + [c];
      queue := queue[1..];
    }

    /** `do_write_async`: writes the first operation until it is drained, fails or must wait. */
    method DoWriteAsync()
      requires Balanced() && queue != [] && !notified
      modifies this
      ensures Valid()
      ensures submitted == old(submitted)
      ensures State() == AfterWrite(old(State()))
      ensures WroteFirst(old(State()), State())
    {
      hide Offer, Taken, Blocking, Accounts, AfterWrite, AfterCall, WroteFirst;
      AfterWriteWroteFirst(State());
      var ok, more := true, true;
      while more
        invariant Balanced() && queue != [] && !notified
        invariant submitted == old(submitted)
        invariant AfterWrite(old(State())) == if more then AfterWrite(State()) else AfterFinish(State(), ok)
        invariant !more && ok ==> queue[0] == []
        decreases more, |queue[0]|
      {
        WriteStep(State());
        var ret, again := WriteFirst();
        if again {
          DoWaitWriteAsync();
          return;
        }
        ok := ret > 0;
        more := ok && queue[0] != [];
      }
      FinishOperation(Completion(ok, |queue[0]|));
      DoWaitWriteAsync();
    }

    /** `do_wait_write_async` */
    method DoWaitWriteAsync()
      requires Balanced() && !notified
      modifies this`notified
      ensures Valid()
    {
      if queue != [] {
        notified := true;
      }
    }

    /** The loop's callback for a registered write notification, which is removed first. */
    method OnWritable(error: bool)
      requires Valid() && notified
      modifies this
      ensures Valid()
      ensures submitted == old(submitted)
      ensures State() == AfterEvent(old(State()), Writable(error))
      ensures !error ==> WroteFirst(old(State()), State())
      ensures error ==>
        && queue == old(queue)[1..] && completed == old(completed) + [Completion(false, 0)]
        && accepted == old(accepted) && turns == old(turns)
    {
      hide WroteFirst, AfterWrite;
      notified := false;
      if !error {
        DoWriteAsync();
      } else {
        FinishOperation(Completion(false, 0));
        DoWaitWriteAsync();
      }
    }

    /**
     Any sequence of submissions and loop callbacks; a callback comes only when one is
     registered. On a socket that accepts something whenever it does not block, no
     operation fails unless the loop reports an error or the operation is empty; and if
     it accepts often enough, and the loop calls back often enough, all is written.
     */
    method PerformAll(events: seq<Event>)
      requires Valid()
      modifies this
      ensures Valid()
      ensures submitted == old(submitted) + Submissions(events)
      ensures State() == AfterEvents(old(State()), events)
      ensures AllOk(completed) ==> accepted <= Concat(submitted)
      ensures
        old(queue) == [] && AllOk(old(completed)) && Steady(old(turns)) && (forall e :: e in events ==> Plain(e)) ==>
        && AllOk(completed)
        && (Takings(old(turns)) >= |Concat(Submissions(events))| && CalledBackEnough(events, old(turns)) ==>
          && queue == [] && accepted == old(accepted) + Concat(Submissions(events))
          && |completed| == |old(completed)| + |Submissions(events)|)
    {
      hide Accounts, Concat, AfterWrite, WroteFirst, Takings, Blocks, Steady, Plain, CalledBackEnough, AfterEvents;
      hide Submissions;
      Undisturbed(State(), events);
      NoEvents(State());
      var i := 0;
      while i < |events|
        invariant 0 <= i <= |events| && Valid()
        invariant submitted == old(submitted) + Submissions(events[..i])
        invariant State() == AfterEvents(old(State()), events[..i])
      {
        OneMoreEvent(old(State()), events, i);
        match events[i] {
          case Submitted(contents) =>
            Submit(contents);
          case Writable(error) =>
            if notified {
              OnWritable(error);
            }
        }
        i := i + 1;
      }
      assert events[..i] == events;
      if AllOk(completed) {
        AcceptedIsPrefix(submitted, sent, queue, completed);
      }
    }
  }

  lemma NoEvents(s: Observed)
    ensures AfterEvents(s, []) == s && Submissions([]) == []
  {
  }

  lemma OneMoreEvent(s: Observed, events: seq<Event>, i: nat)
    requires i < |events|
    ensures AfterEvents(s, events[..i + 1]) == AfterEvent(AfterEvents(s, events[..i]), events[i])
    ensures Submissions(events[..i + 1]) ==
      if events[i].Submitted? then Submissions(events[..i]) + [events[i].contents] else Submissions(events[..i])
  {
    assert events[..i + 1][..i] == events[..i];
  }

  lemma Undisturbed(s: Observed, events: seq<Event>)
    ensures s.queue == [] && AllOk(s.completed) && Steady(s.turns) && (forall e :: e in events ==> Plain(e)) ==>
      var t := AfterEvents(s, events);
      && AllOk(t.completed)
      && (Takings(s.turns) >= |Concat(Submissions(events))| && CalledBackEnough(events, s.turns) ==>
        && t.queue == [] && t.accepted == s.accepted + Concat(Submissions(events))
        && |t.completed| == |s.completed| + |Submissions(events)|)
  {
    hide AfterEvents, Concat, Takings, Blocks, Submissions, Steady, Plain, CalledBackEnough;
    if s.queue == [] && AllOk(s.completed) && Steady(s.turns) && forall e :: e in events ==> Plain(e) {
      assert forall i :: 0 <= i < |events| ==> events[i] in events;
      SteadyEvents(s, events);
      if Takings(s.turns) >= |Concat(Submissions(events))| && CalledBackEnough(events, s.turns) {
        EverythingIsWritten(s, events);
      }
    }
  }

  datatype Event = Submitted(contents: seq<byte>) | Writable(error: bool)

  function Submissions(events: seq<Event>): seq<seq<byte>> {
    if events == [] then []
    else
      var before := Submissions(events[..|events| - 1]);
      match events[|events| - 1]
      case Submitted(contents) => before + [contents]
      case Writable(_) => before
  }

  // ---------------------------------------------------------------------

  lemma SubmitAccounts(submitted: seq<seq<byte>>, sent: seq<seq<byte>>, queue: seq<seq<byte>>,
                       completed: seq<Completion>, contents: seq<byte>)
    requires Accounts(submitted, sent, queue, completed)
    ensures Accounts(submitted + [contents], sent + [[]], queue + [contents], completed)
  {
  }

  lemma AcceptMore(submitted: seq<seq<byte>>, sent: seq<seq<byte>>, queue: seq<seq<byte>>,
                   completed: seq<Completion>, ret: nat)
    requires queue != [] && Accounts(submitted, sent, queue, completed) && ret <= |queue[0]|
    ensures var sent' := sent[|completed| := sent[|completed|] + queue[0][..ret]];
      && Accounts(submitted, sent', queue[0 := queue[0][ret..]], completed)
      && Concat(sent') == Concat(sent) + queue[0][..ret]
  {
    var n := |completed|;
    ConcatExtendAt(sent, n, queue[0][..ret]);
    assert sent[n] + queue[n - n] == submitted[n];
    assert (sent[n] + queue[0][..ret]) + queue[0][ret..] == sent[n] + queue[0];
  }

  lemma FinishFirst(submitted: seq<seq<byte>>, sent: seq<seq<byte>>, queue: seq<seq<byte>>,
                    completed: seq<Completion>, c: Completion)
    requires queue != [] && Accounts(submitted, sent, queue, completed)
    requires c.ok ==> queue[0] == [] && c.reported == 0
    ensures Accounts(submitted, sent, queue[1..], completed + [c])
  {
  }

  /** While no operation has failed, the socket has accepted a prefix of the queued buffers in queue order. */
  lemma AcceptedIsPrefix(submitted: seq<seq<byte>>, sent: seq<seq<byte>>, queue: seq<seq<byte>>,
                         completed: seq<Completion>)
    requires Accounts(submitted, sent, queue, completed)
    requires forall c :: c in completed ==> c.ok
    ensures Concat(sent) <= Concat(submitted)
  {
    hide Concat;
    var n := |completed|;
    assert forall i :: 0 <= i < n ==> completed[i] in completed;
    assert sent[..n] == submitted[..n];
    if n < |submitted| {
      assert sent[n] + queue[n - n] == submitted[n];
      ConcatTail(sent, n + 1);
      ConcatPrefix(submitted, n + 1);
      assert sent[..n + 1] == sent[..n] + [sent[n]] && submitted[..n + 1] == submitted[..n] + [submitted[n]];
      ConcatLast(sent[..n], sent[n]);
      ConcatLast(submitted[..n], submitted[n]);
    } else {
      assert sent == sent[..n] && submitted == submitted[..n];
    }
  }

  lemma {:induction false} ConcatTail(parts: seq<seq<byte>>, n: nat)
    requires n <= |parts| && forall i :: n <= i < |parts| ==> parts[i] == []
    ensures Concat(parts) == Concat(parts[..n])
    decreases |parts|
  {
    if n < |parts| {
      assert parts[..|parts| - 1][..n] == parts[..n];
      ConcatTail(parts[..|parts| - 1], n);
    } else {
      assert parts[..n] == parts;
    }
  }

  lemma {:induction false} ConcatPrefix(parts: seq<seq<byte>>, n: nat)
    requires n <= |parts|
    ensures Concat(parts[..n]) <= Concat(parts)
    decreases |parts|
  {
    if n < |parts| {
      assert parts[..|parts| - 1][..n] == parts[..n];
      ConcatPrefix(parts[..|parts| - 1], n);
    } else {
      assert parts[..n] == parts;
    }
  }
}
