# Verification of the loopp runtime

A Dafny model of the `loopp` runtime for the ESP32 and of the vendored Boost
algorithms it uses, with proofs of what they keep over all inputs, all runs and all
interleavings. `dafny verify dfyconfig.toml` checks everything.

| files | what they model |
|---|---|
| `NumberTheory`, `Fractions`, `Rational` | `boost::rational`: arithmetic with small gcds, comparison by continued fractions |
| `BoundedQueue`, `InvokeProtocol` | the bounded queue, and how other FreeRTOS tasks hand functions to the event loop: interleaved atomic steps over two mutexes, two semaphores, a counter and a pipe |
| `Timers` | the timer list of the event loop |
| `StreamBuffer`, `Stream`, `WriteQueue` | the compacting byte buffer; exact-count reads and reads up to a delimiter; ordered writes |
| `MqttWire`, `MqttReader`, `MqttBodies`, `MqttPacket`, `TopicMatch`, `MqttDelivery` | MQTT Version 3.1.1: framing, the reader, the bodies of packets, the packet builders, topic filters, and all of them together |
| `Ota` | accounting for an HTTP body, and the loop that writes it to the flash |
| `Tokenizer` | `boost::escaped_list_separator` and `token_iterator` |
| `GridLayout`, `LedStrip` | grid indexing; current limiter, scaling and pulses of an LED strip |
| `Base64` | `base64_encode` |

Objects whose methods update fields are classes here, except where callers interleave
inside them (the queue and the trigger); loops are loops, and each method is proved
against a specification that does not mention its loop: a plain byte queue, a
reference parser after the standard, field arithmetic, the alphabet table of RFC 4648.
The socket is an input: the bytes a peer sends and, call by call, how many
of them arrive or why none do (`Turn`), and when the loop cancels. A connection "stays up" (`Flowing`) if no call
fails and bytes arrive often enough to deliver everything.

## What the proofs found

- `match_topic` differs from section 4.7.1 exactly where a wildcard stands for an
  empty last topic level (`a/` against `a/+`).
- `MqttPacket` writes through an output stream into a buffer of at most 10240 bytes,
  which grows by 100: 10200 bytes fit. The length error of the buffer is swallowed by
  the stream, so a longer packet is cut off silently, and the peer takes the beginning
  of whatever is sent next for its end: it dispatches one packet with wrong content
  and reads on from the middle of a packet. Over 10240 bytes of payload it stops.
- Lengths of strings are kept in 16 bits without a check, so CONNECT, PUBLISH and
  SUBSCRIBE bodies round-trip exactly if their strings are shorter than 65536 bytes.
- The sizes in `handle_publish` wrap for a payload of fewer than two bytes, and a
  length error that nothing there catches ends the reading.
- The signed multiplier of the MQTT reader overflows at a fifth length byte, which it
  does not reject. The model stops there.
- If more bytes than the announced body came with the response headers, an OTA update
  writes them too and reports success; a response of length 0 with such bytes divides
  by zero in the progress report. A response without a usable Content-Length counts as
  one of length 0: with no body in the first read the update succeeds with nothing
  written.
- A pass over the timers ends exactly if no due timer has a nonpositive period.
- `StreamBuffer::reserve` throws exactly when content plus n exceeds the bound, and
  then has already moved the bytes but not the pointers. Bytes put with `overflow` do
  not become readable through `underflow` until a later commit or move.
- A `push` from `invoke_func` into a full queue waits while holding `queue_mutex`,
  which the loop needs before it can pop; when it times out the function is dropped.
  A callback of the loop that invokes into a full queue waits for itself, as does one
  that waits for the mutex meanwhile: with a bound of n, one callback that invokes n + 1
  functions is enough. These are the only ways in which begun work can come to a halt,
  and none of them happens while at most n invoked functions have not been called.
- `escaped_list_separator` inverts escaping exactly when the separator is not also an
  escape character and `n` is not special, and quoting exactly when the quote is also
  neither escape nor separator. The characters need not be distinct otherwise.
- `convert_xy` accepts x = width and y = height, which name a neighbouring LED or leave
  the strip; layouts are one-to-one exactly up to 65536 LEDs.
- The current budget can be exceeded by base current and rounding; by how much, and
  exactly when not, is stated.
- A write callback reports what is left of its buffer: 0 on success. The write of an
  empty buffer is reported as an error.
- `base64_encode` relies on the overflow of a signed accumulator, which the model
  takes as two's complement, and on `char` being unsigned, as it is on the target.

## Model

| member | source | states |
|---|---|---|
| Rationals.SumStaysReduced | components/loopp/boost/ext/boost/rational.hpp:493-520 | The sketched number theory in full: with g = gcd(b, d), dividing a\*d1 + c\*b1 and the denominator by gcd(a\*d1 + c\*b1, g) alone yields a reduced fraction equal to a/b + c/d. |
| Rationals.ProductStaysReduced | components/loopp/boost/ext/boost/rational.hpp:551-555 | Cross-cancelling by two gcds leaves a reduced fraction with the value of the product. |
| Rationals.QuotientStaysReduced | components/loopp/boost/ext/boost/rational.hpp:575-584 | The same for a quotient by a nonzero fraction of either sign, once a common sign is moved to the numerator. |
| Rationals.IntProductStaysReduced | components/loopp/boost/ext/boost/rational.hpp:281-284 | Multiplying by an integer needs only gcd(i, den) to stay reduced and exact. |
| Rationals.IntQuotientStaysReduced | components/loopp/boost/ext/boost/rational.hpp:296-304 | Dividing by a nonzero integer needs only gcd(num, i), up to the sign. |
| Rationals.Rational.Normalize | components/loopp/boost/ext/boost/rational.hpp:858-890 | Any pair with a nonzero denominator becomes the reduced pair of the same value; a zero denominator is reported and changes nothing. |
| Rationals.Rational.AddAssign | components/loopp/boost/ext/boost/rational.hpp:489-523 | The value is the exact sum and the pair stays reduced, also when the operand is the object itself. |
| Rationals.Rational.SubtractAssign | components/loopp/boost/ext/boost/rational.hpp:525-542 | The value is the exact difference and the pair stays reduced, also for the object itself. |
| Rationals.Rational.MultiplyAssign | components/loopp/boost/ext/boost/rational.hpp:544-557 | The value is the exact product and the pair stays reduced, also for the object itself. |
| Rationals.Rational.DivideAssign | components/loopp/boost/ext/boost/rational.hpp:559-586 | Fails exactly for a zero divisor, then changing nothing; otherwise the exact quotient, reduced. |
| Rationals.Rational.AddInt | components/loopp/boost/ext/boost/rational.hpp:266-271 | Exact and reduced without any gcd. |
| Rationals.Rational.SubtractInt | components/loopp/boost/ext/boost/rational.hpp:272-277 | Exact and reduced without any gcd. |
| Rationals.Rational.MultiplyInt | components/loopp/boost/ext/boost/rational.hpp:278-286 | Exact and reduced. |
| Rationals.Rational.DivideInt | components/loopp/boost/ext/boost/rational.hpp:287-307 | Fails exactly for zero, then changing nothing; otherwise exact and reduced. |
| Rationals.Rational.PerformAll | components/loopp/boost/ext/boost/rational.hpp:260-307 | Over any sequence of compound assignments with fractions, integers or the object itself, the stored value is the result of the same field operations and the pair stays reduced; the run stops at the first exception, which leaves the object as it was. |
| Rationals.Rational.Less | components/loopp/boost/ext/boost/rational.hpp:756-840 | The continued-fraction comparison terminates and decides num\*r.den < r.num\*den, that is the order of the two numbers, for all numerators and positive denominators. |
| Rationals.NextCycle | components/loopp/boost/ext/boost/rational.hpp:802-839 | One cycle: with equal quotients, comparing the fractions is the reversed comparison of the reciprocals of their remainders, and when an expansion has ended the remainders and the reversal flag give the answer. |
| Rationals.QuotientsDecide | components/loopp/boost/ext/boost/rational.hpp:791-800 | Different whole parts decide the order of two fractions, whatever the remainders are. |
| Rationals.Rational.LessThanInt | components/loopp/boost/ext/boost/rational.hpp:352-368 | Comparing the floor with an integer decides the order of the value and the integer. |
| Rationals.IsNormalizedIsReduced | components/loopp/boost/ext/boost/rational.hpp:388-409 | The Euclid with C++ remainders used in conversions accepts exactly the pairs that satisfy the class invariant. |
| Fractions.ReducedIsCanonical | components/loopp/boost/ext/boost/rational.hpp:842-856 | Comparing members, as operator== does, decides equality of the numbers: reduced pairs are canonical. |
| Fractions.ReducedIsLowestTerms | components/loopp/boost/ext/boost/rational.hpp:849-856 | The class invariant means lowest terms: the denominator is positive and nothing but 1 and -1 divides both members. |
| NumberTheory.GcdIsGreatest | components/loopp/boost/ext/boost/rational.hpp:849-856 | The gcd of the invariant divides both arguments, and every common divisor divides it and is no larger. |
| BoundedQueue.StepInv | components/loopp/include/loopp/core/Queue.hpp:79-172 | Every atomic step of any of the callers keeps both conservation laws and first-in-first-out order, and causes no fault. |
| BoundedQueue.QueueIsSafe | components/loopp/include/loopp/core/Queue.hpp:79-172 | Under every schedule of any number of producers and consumers: at most max_size objects, front() is never taken of an empty deque, no semaphore refuses a token, objects leave in the order in which they entered, free + reserved + stored + not-yet-returned slots = max_size, and objects = tokens + stored-but-not-announced + claimed. |
| BoundedQueue.QuiescentTokens | components/loopp/include/loopp/core/Queue.hpp:79-172 | When nobody is inside, the two semaphores count exactly the objects and the free slots. |
| InvokeProtocol.StepInv | components/loopp/src/core/MainLoop.cpp:449-484 | Every step of `invoke_func`, `signal`, `confirm`, the snapshot, the pop loop and the callbacks of the loop keeps the whole invariant: mutual exclusion, roles inside the queue, pipe and count, the snapshot, no lost wakeup, and the order of execution. |
| InvokeProtocol.RecordedStep | components/loopp/src/core/MainLoop.cpp:45-51 | Every step keeps: what has entered the queue are the invocations decided so far, without the dropped ones. |
| InvokeProtocol.ExactlyOnceInOrder | components/loopp/src/core/MainLoop.cpp:449-484 | In every interleaving the functions called, in flight or queued are, in order of invocation and without repetition, exactly those handed to `invoke_func`, without those whose push gave up and without the one still being pushed; no pop of a snapshot comes back empty and no assertion of Trigger fails. |
| InvokeProtocol.NoLostWakeup | components/loopp/src/core/MainLoop.cpp:45-51 | If the queue holds more than the running pass will pop, the count is positive or a producer still holding queue_mutex is about to signal; outside critical sections the pipe holds a byte exactly while the count is positive, so a loop that selects, outside its callbacks, over a nonempty queue is woken. |
| InvokeProtocol.ClearingIsCovered | components/loopp/src/core/Trigger.cpp:124-137 | While the loop confirms the trigger its snapshot equals the queue, and no producer is between storing a function and signalling it. |
| InvokeProtocol.FullQueueStalls | components/loopp/src/core/MainLoop.cpp:45-51 | The push of the holder of queue_mutex can give up exactly when the queue is full; then that is its only step, it drops the function while the signal is still sent, and the loop cannot move if it needs the mutex or is itself the holder, in a callback. In every other state the holder moves, or somebody who moves is inside the trigger. |
| InvokeProtocol.StuckExactly | components/loopp/src/core/MainLoop.cpp:449-484 | A state in which nothing that has been begun can go on is one at rest, with an empty queue, or a stall: a push waits on a full queue holding queue_mutex, and the loop waits for that mutex, itself or in a callback, or is making that push in a callback. Both are such states. |
| InvokeProtocol.RunIsStuckExactly | components/loopp/src/core/MainLoop.cpp:449-484 | The same after every schedule of the loop and any number of callers; and a push waits only if more than max_size of the invoked functions have not been called. |
| InvokeProtocol.PushWaitsExactly | components/loopp/include/loopp/core/Queue.hpp:79-90 | A push waits exactly while the objects in the queue, and one whose slot has not been returned, make up max_size. |
| InvokeProtocol.NoWaitBelowBound | components/loopp/include/loopp/core/Queue.hpp:79-90 | As long as at most max_size of the invoked functions have not been called, no push waits, so there is no stall of either kind. |
| InvokeProtocol.StallIsReachable | components/loopp/src/core/MainLoop.cpp:45-51 | The loop, one caller and a queue of one reach a stall from the start: the second push waits when the loop has been woken. |
| InvokeProtocol.OwnStallIsReachable | components/loopp/src/core/MainLoop.cpp:460-468 | The loop alone does, for every bound: a callback that invokes one function more than the bound waits for itself. |
| InvokeProtocol.CallbackStallIsReachable | components/loopp/src/core/MainLoop.cpp:460-468 | So does a callback that only waits for queue_mutex, which a waiting caller holds. |
| Timers.Scheduler.HandleTimers | components/loopp/src/core/MainLoop.cpp:420-447 | If no due timer has a nonpositive period, terminates; the notify list is in due order, timers due at the same instant in the order in which they were added, and holds each due one-shot once and each due periodic timer floor((now - expire)/period) + 1 times, one period apart; the list left is the timers not due, untouched, and the periodic ones advanced. |
| Timers.StaysDue | components/loopp/src/core/MainLoop.cpp:428-440 | Only then: a due timer with a nonpositive period is still due after every round, so the loop condition holds for ever. |
| Timers.FiringsExactly | components/loopp/src/core/MainLoop.cpp:428-440 | A periodic timer fires at exactly those of the times expire + k\*period that have come, and is left with the first that has not; a due one-shot fires once and is gone. |
| Timers.RemainsNotDue | components/loopp/src/core/MainLoop.cpp:428-440 | After a pass no timer is due. |
| Timers.PassStep | components/loopp/src/core/MainLoop.cpp:428-440 | One round keeps what has been listed and what is still due equal to what was due at the start, keeps due order, and lowers the number of firings still due. |
| Timers.Scheduler.GetFirstExpiringTimer | components/loopp/src/core/MainLoop.cpp:217-221 | The first of the timers with the earliest due time, or the end of an empty list. |
| Timers.Scheduler.AddTimer | components/loopp/src/core/MainLoop.cpp:169-185 | Appends a one-shot under an identifier no present timer has. |
| Timers.Scheduler.AddPeriodicTimer | components/loopp/src/core/MainLoop.cpp:187-203 | Appends a periodic timer of any period, first due one period from now, under an unused identifier. |
| Timers.Scheduler.CancelTimer | components/loopp/src/core/MainLoop.cpp:205-215 | Removes exactly the timer of that identifier, if it is there. |
| StreamBuffers.StreamBuffer.constructor | components/loopp/src/net/StreamBuffer.cpp:26-32 | Empty, with the smaller of the bound and one increment as capacity. |
| StreamBuffers.StreamBuffer.Reserve | components/loopp/src/net/StreamBuffer.cpp:98-125 | Throws exactly when content plus n exceeds the bound, with the content already moved to the front and the pointers as they were; otherwise the content survives the move and the resize, at least n bytes are free, and the pointers and the capacity are as stated. |
| StreamBuffers.StreamBuffer.ProduceData | components/loopp/src/net/StreamBuffer.cpp:40-46 | Room for n bytes behind unchanged content, or a length error, exactly when content plus n exceeds the bound. |
| StreamBuffers.StreamBuffer.ProduceCommit | components/loopp/src/net/StreamBuffer.cpp:48-54 | The content grows by the n bytes written behind it, or by all there was room for, and all of it becomes readable. |
| StreamBuffers.StreamBuffer.ConsumeCommit | components/loopp/src/net/StreamBuffer.cpp:68-73 | The content loses its first n bytes, or all of them. |
| StreamBuffers.StreamBuffer.Overflow | components/loopp/src/net/StreamBuffer.cpp:81-96 | Appends one byte, or throws exactly when content plus one increment exceeds the bound; unlike a commit it does not make the byte readable. |
| StreamBuffers.StreamBuffer.Sbumpc | components/loopp/src/net/StreamBuffer.cpp:75-79 | Reads the first byte of the content, but only up to egptr. |
| StreamBuffers.StreamBuffer.Sputn | components/loopp/src/net/StreamBuffer.cpp:81-96 | Through the stream interface a buffer never consumed from takes exactly the bytes up to the bound rounded down to whole increments. |
| StreamBuffers.StreamBuffer.PerformAll | components/loopp/src/net/StreamBuffer.cpp:40-125 | Over any sequence of calls the content is that of a plain byte queue, and the first call that fails is the first whose bytes do not fit. |
| StreamBuffers.FifoRunIsSuffix | components/loopp/src/net/StreamBuffer.cpp:40-73 | What a sequence of calls leaves is the initial content and all bytes produced, minus a prefix. |
| Streams.Stream.DoReadAsync | components/loopp/src/net/Stream.cpp:243-292 | Whatever the single reads return, the buffer gains exactly the next bytes of the stream. Success exactly when all were gained, a length error exactly when they do not fit; otherwise the last turn of the socket decides: ConnectionClosed, with the property cleared, exactly after a closed connection, ReadError exactly after an error, and it waits only for a socket that had nothing to give; at every turn before bytes arrived. |
| Streams.Stream.ReadAsync | components/loopp/src/net/Stream.cpp:178-182 | The same over all resumptions by the event loop: it fails exactly if the last turn used was a closed connection, an error or a cancellation by the loop, with ConnectionClosed, ReadError or Cancelled; no turn before was one; it is left waiting only when the socket and the loop do nothing more, and then, on a connection that stays up, the peer has nothing more to send. |
| Streams.SearchedToExtends | components/loopp/src/net/Stream.cpp:294-314 | Positions refuted so far stay refuted when bytes are appended: resuming at start_pos skips no match straddling two reads. |
| Streams.Stream.MatchUntil | components/loopp/src/net/Stream.cpp:294-314 | Finds the delimiter exactly when it stands anywhere in the content, not only from the resumption point, and else resumes where the content leaves too few bytes for it. |
| Streams.Stream.DoReadUntilAsync | components/loopp/src/net/Stream.cpp:316-366 | Success exactly when the whole content contains the delimiter, at the first read that completes it: after none of the earlier reads of the call was it there; a length error exactly when it is absent and another 512 bytes do not fit; otherwise the last turn decides as for exact-count reads. |
| Streams.ResumedSearch | components/loopp/src/net/Stream.cpp:347-357 | A search cut short by EAGAIN and one that starts over on what was read make one search over all their reads. |
| Streams.Stream.ReadUntilAsync | components/loopp/src/net/Stream.cpp:184-188 | The same over all resumptions and all their reads, through compaction of the buffer: it fails exactly with the turn that breaks it off, and not on a connection that stays up. |
| Streams.AnswerDecides | components/loopp/src/net/Stream.cpp:254-288 | After turns at which bytes arrived, the first call to `socket_read` that brings none leaves the read as its return value says. |
| Streams.NextRun | components/loopp/src/net/Stream.cpp:272-284 | A read that waited after unbroken turns and was resumed is left as the resumption is left, for all turns together. |
| WriteQueues.WriteQueue.DoWriteAsync | components/loopp/src/net/Stream.cpp:190-219 | By the turns used, all but the last of which accept bytes: the operation completes without error, reporting 0, exactly when nothing of it is left; it is kept, without what was accepted, when the socket has no room for now; it fails, reporting what is left, when a turn accepts nothing, which for an empty buffer is any; afterwards a nonempty queue has a notification pending. |
| WriteQueues.WriteQueue.OnWritable | components/loopp/src/net/Stream.cpp:221-241 | A loop callback without error makes one such activation; one with an error adds exactly one failed completion reporting 0, removes exactly the first operation and leaves the accepted bytes and the socket alone; the queue re-arms itself while operations are left. |
| WriteQueues.WriteQueue.Submit | components/loopp/src/net/Stream.cpp:168-174 | Queues any buffer behind earlier operations, untouched, and writes at once only if there are none. |
| WriteQueues.WriteQueue.PerformAll | components/loopp/src/net/Stream.cpp:157-241 | Over any sequence of submissions and loop callbacks every operation's bytes are accounted for, and while none has failed the socket has accepted a prefix of all buffers concatenated in submission order. On a socket that accepts something whenever it does not block, no operation fails unless it is empty or the loop reports an error; if turns and callbacks suffice as well, all is accepted, in order, and every operation is completed. |
| WriteQueues.AcceptedIsPrefix | components/loopp/src/net/Stream.cpp:190-219 | The accounting that every step keeps implies that prefix, as long as no operation has failed. |
| WriteQueues.SteadyEvents | components/loopp/src/net/Stream.cpp:190-241 | On such a socket no operation fails; every byte submitted has been accepted or is queued, in order, every operation is completed or queued, and every turn used takes a byte or blocks. |
| WriteQueues.EverythingIsWritten | components/loopp/src/net/Stream.cpp:190-241 | With a turn for every byte, and after the last submission one callback for every operation and every blocking turn, the queue ends empty, all bytes are accepted in order and every operation is completed without error. |
| WriteQueues.WriteStep | components/loopp/src/net/Stream.cpp:196-214 | Offering a buffer to the socket is the loop of single calls: after each call it goes on, waits or fails with the rest of the same buffer. |
| MqttWire.LengthRoundTrip | components/loopp/src/mqtt/MqttPacket.cpp:53-68 | The variable-length encoding of every size below 128^k takes between 1 and k bytes and decodes to the size, whatever follows. |
| MqttWire.FourBytes | components/loopp/src/mqtt/MqttPacket.cpp:53-68 | Four bytes suffice, and the decoder returns the size, exactly up to 268435455 (section 2.2.3 of MQTT Version 3.1.1); longer encodings are malformed. |
| MqttWire.ShortLengths | components/loopp/src/mqtt/MqttPacket.cpp:53-68 | One- and two-byte encodings in bytes, low seven bits first: 321 is 193, 2. |
| MqttWire.ParseInvertsEncode | components/loopp/src/mqtt/MqttPacket.cpp:53-75 | Parsing the concatenated frames of any list of accepted packets that fit the buffer returns the list and leaves nothing over. |
| MqttWire.ParsePrefix | components/loopp/src/mqtt/MqttClient.cpp:416-548 | What part of a stream has been read determines a prefix of its packets; a rejected packet, an oversized payload or a malformed length ends the reading for good. |
| MqttWire.ReadingOfPart | components/loopp/src/mqtt/MqttClient.cpp:416-548 | Of the first n bytes of a printed stream exactly the packets whose frames end there are read. |
| MqttWire.ParseAppend | components/loopp/src/mqtt/MqttClient.cpp:416-548 | A stream of complete accepted packets followed by anything reads as its packets followed by the reading of the rest. |
| MqttWire.PacketDecides | components/loopp/src/mqtt/MqttClient.cpp:492-548 | For every header byte and every payload, whether the client reads on: after a CONNACK exactly if it has 2 bytes and return code 0, after a PUBLISH of quality of service 0 exactly if it holds its topic, after a SUBACK or UNSUBACK exactly if it has 2 bytes, after PUBACK to PUBCOMP and PINGRESP always, after other types never; a PUBLISH of fewer than 2 bytes lets a length error escape. |
| MqttWire.AnswersInBytes | components/loopp/src/mqtt/MqttClient.cpp:551-581 | The bytes 0x20 2 s c, followed by anything, are read as that packet and the reading of the rest if c is 0, and end the reading otherwise; 0x90 3 with a packet identifier and 0xD0 0 are read on after. |
| MqttReader.LengthStep | components/loopp/src/mqtt/MqttClient.cpp:453-477 | One length byte read by the multiplier loop agrees with the reference decoder; the signed multiplier would overflow exactly at the fifth byte, which is exactly where the encoding is malformed. |
| MqttReader.MqttReader.HandleRemainingLength | components/loopp/src/mqtt/MqttClient.cpp:453-477 | Keeps the state of the chain equal to the reference reading of the bytes received. |
| MqttReader.MqttReader.HandlePayload | components/loopp/src/mqtt/MqttClient.cpp:492-548 | Hands exactly one packet to its handler, consumes exactly its payload and starts over, unless the handler has closed the connection or thrown; the callbacks made are those the packet leads to. |
| MqttReader.MqttReader.Pump | components/loopp/src/mqtt/MqttClient.cpp:416-490 | Runs the chain until a read has to wait, with no byte lost between the socket and the packets; progresses on every turn, and the connection is lost exactly with the turn that breaks it off. |
| MqttReader.MqttReader.Serve | components/loopp/src/mqtt/MqttClient.cpp:416-548 | Under any chunking and any number of EAGAINs the packets dispatched are those of the reference reading of the bytes received, in order, and the callbacks those they lead to; the chain ends for the reason the reading gives, with the connection exactly if the last turn used was a closed connection, an error or a cancellation; on a connection that stays up the packets and the end are those of the reading of everything sent. |
| MqttReader.ReadingOfPrint | components/loopp/src/mqtt/MqttClient.cpp:416-548 | After any part of a printed stream a prefix of its packets has been read, and after all of it exactly its packets. |
| MqttReader.ReceivePrinted | components/loopp/src/mqtt/MqttClient.cpp:416-548 | Printer, socket and reader composed, for a printed stream or any beginning of one: exactly the packets that have arrived completely are dispatched, in order; on a connection that stays up everything arrives. |
| MqttReader.AnswerToConnect | components/loopp/src/mqtt/MqttClient.cpp:551-581 | On a connection that stays up, a CONNACK with a return code is dispatched and ends the chain as rejected, whatever follows; after one without, all that follows is read. |
| MqttBodies.TakeStringField | components/loopp/src/mqtt/MqttPacket.cpp:43-51 | A string field reads back as the string up to 65535 bytes; a longer one as its first bytes, by the length modulo 65536. |
| MqttBodies.FlagBits | components/loopp/src/mqtt/MqttClient.cpp:224-252 | Each bit of the connect flags says whether its field is set. |
| MqttBodies.ConnectRoundTrip | components/loopp/src/mqtt/MqttClient.cpp:218-277 | A CONNECT body reads back, after section 3.1, as the clean session, keep-alive, identifier, will, user name and password that were set, for every combination of optional fields, exactly when every field sent is shorter than 65536 bytes. |
| MqttBodies.PublishRoundTrip | components/loopp/src/mqtt/MqttClient.cpp:320-341 | Topic and message read back unchanged exactly when the topic is shorter than 65536 bytes. |
| MqttBodies.SubscriptionRoundTrip | components/loopp/src/mqtt/MqttClient.cpp:354-403 | SUBSCRIBE and UNSUBSCRIBE bodies read back as the packet identifier and the topic list exactly when the identifier fits 16 bits and every topic is shorter than 65536 bytes. |
| MqttPackets.MqttPacket.AddLength | components/loopp/src/mqtt/MqttPacket.cpp:53-68 | Writes the variable-length encoding of the size. |
| MqttPackets.MqttPacket.AddString | components/loopp/src/mqtt/MqttPacket.cpp:43-51 | Writes the string with its 16-bit length in front. |
| MqttPackets.MqttPacket.Insert | components/loopp/src/mqtt/MqttPacket.cpp:31-41 | The packet buffer holds what was written up to 10200 bytes; whatever would exceed that is dropped silently. |
| MqttPackets.MqttClient.SendConnect | components/loopp/src/mqtt/MqttClient.cpp:218-277 | What is written is a frame whose length field is the length of what follows it; the buffer holds all of it exactly up to 10200 bytes. |
| MqttPackets.MqttClient.SendPublish | components/loopp/src/mqtt/MqttClient.cpp:320-341 | The same for PUBLISH, with the retain flag in the header; what the buffer passes on is the frame up to 10200 bytes. |
| MqttPackets.MqttClient.SendSubscribe | components/loopp/src/mqtt/MqttClient.cpp:354-373 | The same for SUBSCRIBE with every topic list and the next packet identifier. |
| MqttPackets.MqttClient.SendUnsubscribe | components/loopp/src/mqtt/MqttClient.cpp:386-403 | The same for UNSUBSCRIBE. |
| MqttPackets.MqttClient.HandlePublish | components/loopp/src/mqtt/MqttClient.cpp:583-635 | Rejects other qualities of service than 0 and topics longer than the packet; throws a length error exactly for payloads too short for the length of a topic, where the sizes wrap; otherwise calls every filter that matches the topic, in order, or the default callback if none does, with the topic and message of the body. |
| MqttPackets.MqttClient.HandleConnectAck | components/loopp/src/mqtt/MqttClient.cpp:551-581 | Accepts exactly a payload of 2 bytes whose second is 0. |
| MqttPackets.MqttClient.HandleSubscribeAck | components/loopp/src/mqtt/MqttClient.cpp:665-723 | Accepts exactly a payload of at least 2 bytes. |
| MqttPackets.MqttClient.HandlePacket | components/loopp/src/mqtt/MqttClient.cpp:492-548 | The handler of the packet's type accepts, refuses or throws exactly as the reading of the stream takes the packet, and makes the callbacks of that packet only. |
| MqttPackets.PublishInBytes | components/loopp/src/mqtt/MqttClient.cpp:320-341 | A short PUBLISH on the wire, byte by byte: 0x31 if retained and 0x30 if not, length, topic length, topic, message. |
| MqttPackets.SubscribeInBytes | components/loopp/src/mqtt/MqttClient.cpp:354-373 | A SUBSCRIBE for one short topic on the wire, with quality of service 0 requested. |
| MqttPackets.UnsubscribeInBytes | components/loopp/src/mqtt/MqttClient.cpp:386-403 | An UNSUBSCRIBE for one short topic on the wire. |
| MqttPackets.ConnectInBytes | components/loopp/src/mqtt/MqttClient.cpp:218-277 | A CONNECT with nothing but a short client identifier on the wire: protocol name and level, clean session, keep-alive of 60 seconds. |
| MqttPackets.PublishArrives | components/loopp/src/mqtt/MqttClient.cpp:320-341 | A published message whose frame fits 10200 bytes arrives as one accepted packet with the same topic and message, whatever is sent after it. |
| MqttPackets.PublishWaits | components/loopp/src/mqtt/MqttPacket.cpp:31-51 | Of a longer one nothing is dispatched until as many further bytes have been sent as are missing. |
| MqttPackets.PublishIsCompleted | components/loopp/src/mqtt/MqttPacket.cpp:31-51 | Then those bytes become its end: one accepted packet is dispatched, which carries the topic and message exactly if they are the missing bytes, and the rest is read as if a packet began there. |
| MqttPackets.PublishTooLong | components/loopp/src/mqtt/MqttClient.cpp:479-490 | A payload over 10240 bytes is never dispatched, and nothing after it. |
| MqttDelivery.MatchingByLevels | components/loopp/src/mqtt/MqttClient.cpp:614-627 | For valid filters and topics with a nonempty last level, the filters that `handle_publish` calls are those that match by section 4.7.1. |
| MqttDelivery.Exchange | components/loopp/src/mqtt/MqttClient.cpp:320-341 | Builder, write queue, stream, reader, handler and filters composed, for any interleaving of submissions and loop callbacks: while no write fails, the messages whose last byte arrives, and no others, reach in order and once each exactly the filters that match their topics by section 4.7.1, or the default callback; on a connection that stays up all bytes written arrive; with a socket that accepts whenever it does not block, no error from the loop and enough callbacks, all messages are written. |
| TopicMatch.MatchTopic | components/loopp/src/mqtt/MqttClient.cpp:780-830 | The two-iterator loop terminates and decides the recursive reading, for every topic and every filter. |
| TopicMatch.CharMatchIsLevelMatch | components/loopp/src/mqtt/MqttClient.cpp:780-830 | For every valid filter and every topic the code matches exactly when section 4.7.1 does level by level and no wildcard stands for an empty last level of the topic. |
| TopicMatch.AgreesWithStandard | components/loopp/src/mqtt/MqttClient.cpp:780-830 | On topics with a nonempty last level the code and the standard agree on every valid filter. |
| TopicMatch.EmptyEndDiffers | components/loopp/src/mqtt/MqttClient.cpp:806-813 | They differ on the topic `a/` and the filter `a/+`. |
| TopicMatch.SimpleFilters | components/loopp/src/mqtt/MqttClient.cpp:780-830 | Without wildcards a filter matches itself only; `+` matches exactly the nonempty topics of one level, `#` all nonempty topics, and `f/#` exactly f and what lies below it. |
| OtaUpdate.HttpClient.SetBodyLength | components/loopp/src/http/HttpClient.cpp:276-299 | The length left is the announced length minus what came with the headers, or nothing; without a usable Content-Length nothing changes. |
| OtaUpdate.HttpClient.ReadBodyAsync | components/loopp/src/http/HttpClient.cpp:109-133 | Brings the buffer up to the requested fill or the end of the body, takes exactly those bytes from the stream and the count off the length left, and never trips the bound of the buffer; on a connection it fails exactly with the turn that breaks it off, and gives no answer only if the socket has no more turns. |
| OtaUpdate.Ota.WriteBuffer | components/loopp/src/ota/OTA.cpp:141-155 | Moves the buffered bytes to the flash, or on a failed write leaves everything as it was; either way keeps written + buffered + left and the order of the body; the progress report divides by zero exactly for a response of length 0. |
| OtaUpdate.Ota.Round | components/loopp/src/ota/OTA.cpp:129-171 | One call of `retrieve_body`: an error exactly from a broken connection or its write, success exactly with nothing left and nothing buffered, and otherwise less left to retrieve than before. |
| OtaUpdate.Ota.RetrieveBody | components/loopp/src/ota/OTA.cpp:129-171 | The re-arming loop terminates; every byte is written once and in order; on success exactly the announced body has been written, or all that came with the headers if that is more; it reports an error exactly if the connection was broken off or the last write failed, no write before having failed, and stays silent only if the peer does; with a sound flash and a connection that stays up it succeeds. |
| OtaUpdate.Download | components/loopp/src/ota/OTA.cpp:129-171 | The same for a whole response, from the bytes that came with its headers and those on the socket; one that announces no length and brings no body in the first read succeeds with nothing written. |
| Tokenizer.EscapedListSeparator.DoEscape | components/loopp/boost/ext/boost/token_functions.hpp:127-149 | An escape stands for a newline or for a special character, and is an error otherwise or at the end. |
| Tokenizer.EscapedListSeparator.Next | components/loopp/boost/ext/boost/token_functions.hpp:162-199 | One call yields the field that the recursive reading gives, stops behind its separator, and either advances or uses up the flag for a final blank field. |
| Tokenizer.TokenIterator.Initialize | components/loopp/boost/ext/boost/token_iterator.hpp:70-75 | The first token, or none for an empty text, with the flag reset. |
| Tokenizer.TokenIterator.Increment | components/loopp/boost/ext/boost/token_iterator.hpp:53-56 | The effect of one call of the separator where the last one stopped. |
| Tokenizer.Tokenize | components/loopp/boost/ext/boost/token_iterator.hpp:53-75 | Iterating terminates with all tokens of the text, or an exception where the text has a bad escape. |
| Tokenizer.TokensOfJoin | components/loopp/boost/ext/boost/token_functions.hpp:127-199 | Tokenizing returns the fields of a printed list, each of them divided in any way into bare, quoted and newline pieces, with separators bare inside quotes; trailing blank fields included. |
| Tokenizer.RoundTripsExactly | components/loopp/boost/ext/boost/token_functions.hpp:127-199 | Tokenizing undoes quoting, escaping and joining for every list that does not print as nothing, exactly when the separator is not also an escape character, `n` is not special, and the quote is neither escape nor separator. |
| Tokenizer.BareRoundTripsExactly | components/loopp/boost/ext/boost/token_functions.hpp:127-199 | For fields without quotes, exactly when the separator is not also an escape character and `n` is not special. |
| Tokenizer.ReadPiece | components/loopp/boost/ext/boost/token_functions.hpp:162-199 | A quoted piece is read as its text, separators inside included; an escaped `n` is read as a newline. |
| Tokenizer.OpenQuoteEnds | components/loopp/boost/ext/boost/token_functions.hpp:162-199 | A quote still open at the end of the text is closed by it. |
| Tokenizer.BadEscapeThrows | components/loopp/boost/ext/boost/token_functions.hpp:127-149 | An escape character that is the last of the text, or stands before neither `n` nor a special character, makes the iteration throw, whatever fields are printed before it. |
| Tokenizer.SingleBlankField | components/loopp/boost/ext/boost/token_iterator.hpp:70-75 | Only the empty list and a single blank field without quotes print as nothing, and nothing is read as no field. |
| GridLayout.ConvertXy | components/loopp/include/loopp/led/GridLayout.hpp:86-125 | Fails exactly beyond the width or height; inside the grid it is the index of the pixel; on the edge that the range check lets through, in all sixteen layouts, the index of the line and place next to the grid. |
| GridLayout.MirroredFromTopLeft | components/loopp/include/loopp/led/GridLayout.hpp:97-105 | The index of (x, y) from TopRight is that of (w - 1 - x, y) from TopLeft, from BottomLeft that of (x, h - 1 - y), from BottomRight that of (w - 1 - x, h - 1 - y). |
| GridLayout.IndexFromTopLeft | components/loopp/include/loopp/led/GridLayout.hpp:107-124 | From TopLeft it is y\*w + x for horizontal and x\*h + y for vertical progressive layouts, modulo 65536, and in a zigzag the odd lines run backwards. |
| GridLayout.StartsAtOrigin | components/loopp/include/loopp/led/GridLayout.hpp:97-124 | In all sixteen layouts index 0 is the corner that the layout names. |
| GridLayout.ZigZagNeighbours | components/loopp/include/loopp/led/GridLayout.hpp:107-118 | In a zigzag from any corner the pixels of consecutive indices are neighbours in the grid. |
| GridLayout.PlaceBeyond | components/loopp/include/loopp/led/GridLayout.hpp:88-124 | One place beyond a line is the first LED of the next line or the last of the line before, as origin and zigzag say, or leaves the strip. |
| GridLayout.LineBeyond | components/loopp/include/loopp/led/GridLayout.hpp:88-124 | One line beyond the grid leaves the strip, except exactly where the 16-bit index wraps into it. |
| GridLayout.LayoutIsBijection | components/loopp/include/loopp/led/GridLayout.hpp:60-125 | Each of the sixteen layouts is one-to-one onto the strip of width times height LEDs, exactly when that product is at most 65536. |
| GridLayout.EdgeAliases | components/loopp/include/loopp/led/GridLayout.hpp:88-95 | The range check is one too lax: x = width is accepted and names the first LED of the next line. |
| LedStrip.RoundBounds | components/loopp/include/loopp/led/Color.hpp:96-100 | A scaled channel stays within the channel and is within half a step of the exact product; a factor of 1 changes nothing. |
| LedStrip.ScaledDraw | components/loopp/include/loopp/led/Color.hpp:96-100 | A scaled frame draws exactly the scaled current, the unscaled part of the base current, and what rounding adds. |
| LedStrip.TotalExcessBound | components/loopp/include/loopp/led/Color.hpp:96-100 | Rounding adds or saves at most half a step per channel. |
| LedStrip.LimitedDraw | components/loopp/include/loopp/led/CurrentLimiter.hpp:65-99 | A frame that fits the budget is unchanged; any other draws exactly budget + (1 - scale)\*n\*base + rounding, the rounding being at most (n/2)\*(red + green + blue) either way. |
| LedStrip.BudgetMetExactly | components/loopp/include/loopp/led/CurrentLimiter.hpp:65-99 | A limited frame stays within the budget exactly if it fits it unscaled or rounding saves the unscaled part of the base current. |
| LedStrip.BudgetCanBeExceeded | components/loopp/include/loopp/led/CurrentLimiter.hpp:65-80 | The budget alone is not a bound: one dim LED rounds up to its old color. |
| LedStrip.LedStrip.CalculateCurrent | components/loopp/include/loopp/led/CurrentLimiter.hpp:82-99 | The sums per channel, which fit 32 bits, give the sum of the currents of the LEDs, or before `clear` their base current. |
| LedStrip.LedStrip.ApplyHook | components/loopp/include/loopp/led/CurrentLimiter.hpp:65-80 | The scale is budget/current exactly when a positive budget is exceeded, else 1. |
| LedStrip.LedStrip.SetColor | components/loopp/include/loopp/led/LedStrip.hpp:71-79 | Sets exactly that LED, or fails exactly out of range. |
| LedStrip.LedStrip.Clear | components/loopp/include/loopp/led/LedStrip.hpp:81-84 | Every LED has a color, and it is black. |
| LedStrip.LedStrip.AddByte | components/loopp/include/loopp/led/WS28xxLedStrip.hpp:171-180 | Fills eight items with the pulses of the bits, most significant first, and touches nothing before them. |
| LedStrip.LedStrip.Execute | components/loopp/include/loopp/led/WS28xxLedStrip.hpp:154-168 | The items are the pulses of the scaled green, red and blue of each LED in order, and a reset. |
| LedStrip.LedStrip.Apply | components/loopp/include/loopp/led/LedStrip.hpp:91-95 | The limiter's scale is chosen first and the frame of 24n + 1 items is that of the colors scaled by it. |
| LedStrip.FrameRoundTrip | components/loopp/include/loopp/led/WS28xxLedStrip.hpp:154-180 | A receiver that tells the two pulses apart reads back the color of every LED of a frame. |
| LedStrip.WireOrder | components/loopp/include/loopp/led/WS28xxLedStrip.hpp:154-180 | Item 24i + j of a frame is bit 7 - j of the green of LED i, item 24i + 8 + j of its red, item 24i + 16 + j of its blue. |
| LedStrip.ColorsReadable | components/loopp/include/loopp/led/WS28xxLedStrip.hpp:154-180 | All colors can be read back exactly when the two pulses differ. |
| Base64.Base64Encode | components/loopp/src/drivers/BLEScannerDriver.cpp:98-123 | The accumulator loop computes the encoding of section 4 of RFC 4648 for every byte string, in spite of the overflow of its 32-bit accumulator. |
| Base64.ShiftIn | components/loopp/src/drivers/BLEScannerDriver.cpp:106-107 | Shifting a byte in moves the pending bits up and the overflow does not reach them or the new byte. |
| Base64.ByteStep | components/loopp/src/drivers/BLEScannerDriver.cpp:104-113 | After each byte the low end of the accumulator holds exactly the pending 0, 2 or 4 bits of what is still to be emitted. |
| Base64.LastGroup | components/loopp/src/drivers/BLEScannerDriver.cpp:114-117 | The last incomplete group is filled up with zeros, and there is one exactly when bits are pending. |
| Base64.RoundTrip | components/loopp/src/drivers/BLEScannerDriver.cpp:98-123 | Decoding returns the input, and there are 4\*ceil(n/3) characters. |
| Base64.TestVectors | components/loopp/src/drivers/BLEScannerDriver.cpp:98-123 | The encodings of the empty string, f, fo and foo that section 10 of RFC 4648 lists. |
| Base64.LongTestVector | components/loopp/src/drivers/BLEScannerDriver.cpp:98-123 | The encoding of foobar listed there. |
| Base64.PaddingAtEnd | components/loopp/src/drivers/BLEScannerDriver.cpp:118-121 | Padding stands exactly in the last (3 - n % 3) % 3 positions. |

## Left out

- Sockets, `select`, DNS, TLS, Wi-Fi, BLE, GPIO, RMT, flash and FreeRTOS calls: inputs of the model, or atomic steps for semaphores and mutexes. The pipe is taken as reliable.
- The queue, the trigger and `handle_queue` are transitions on values and not methods, because callers interleave inside them; copies of functions and exceptions thrown by them are not modelled.
- Liveness of `invoke` beyond the fact that somebody can move: no fairness is assumed of the scheduler. The mutexes of the timer and poll lists, under which some callers signal, are not part of the protocol.
- Timers.Scheduler.HandleTimers: callbacks that change the list afterwards are calls of their own.
- `get_first_expiring_timer_duration`, `handle_timeout`, `handle_io` and their error codes, which are shared between entries and reach entries that were not notified.
- StreamBuffers.StreamBuffer.Reserve: after a length error the pointers are stale when bytes had been consumed; what calls made then would do is not modelled.
- WriteQueues.WriteQueue.PerformAll: a queued buffer is its contents, so buffers shared between operations, or changed by their owner while queued, are not captured. Submissions after the connection is lost, which are refused at once, are left out.
- WriteQueues.AcceptedIsPrefix: ends at the first failed operation; the code goes on with the next one.
- `Stream::close`, connecting, and reads and writes at the same time on one buffer.
- MQTT reconnects, pings, subscriptions renewed after a ConnAck, and what `handle_error` does beyond ending the chain of reads.
- MqttReader.MqttReader.Serve: the reader stops at a fifth length byte, where the code overflows; of what the handlers of CONNACK, SUBACK, UNSUBACK and PINGRESP do, only how they leave the chain of reads.
- MqttPackets.MqttClient.HandleConnectAck: a return code closes the connection through `handle_error`, but the handler's error code stays empty, so the code also starts a read on the connection that replaces it, as it does after a packet type without a handler; that read is not modelled.
- MqttPackets.MqttClient.HandlePublish: the bytes that the code reads behind a payload of fewer than two are an input, and that they are readable is taken for granted.
- MqttDelivery.Exchange: a server is assumed that passes PUBLISH packets on unchanged and in order; what arrives after a failed write is not described; topics whose last level is empty are the subject of `CharMatchIsLevelMatch`.
- TopicMatch.CharMatchIsLevelMatch: filters that are not valid, and the rule of section 4.7.2 for topics beginning with `$`.
- Parsing of HTTP headers, chunked transfer encoding, the status line, and the other callbacks of an update.
- Rationals.Rational.PerformAll: integers are unbounded, so overflow and the exception for a most negative denominator do not occur; increment, conversions and streaming are left out.
- GridLayout.LayoutIsBijection: for the default stride.
- LedStrip.LimitedDraw: real numbers instead of floating point; gamma correction and the conversion of timings to pulse durations are left out.
- JSON, logging, error tables, URIs, headers, drivers, properties and the rest of the vendored Boost: wrappers, or easy.
