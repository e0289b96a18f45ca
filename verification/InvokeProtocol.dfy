/**
 How other tasks hand functions to the event loop: `MainLoop::invoke_func` and
 `MainLoop::handle_queue`, over the bounded queue and the self-pipe of `Trigger`.

 Task 0 is the loop. Every other task is a producer of functions, or a caller of one
 of the methods that only signal (`terminate`, `notify`, `add_timer`, ...). The loop
 does the same while it is inside a callback: a function it has popped, or an I/O or
 timer callback outside `handle_queue`; until the callback returns it does nothing
 else. Steps of all tasks interleave freely; the only exclusion is that of
 `queue_mutex`, of the trigger's mutex, and of the two semaphores inside the queue.
 */
module InvokeProtocol {
  import opened Wrappers
  import opened BoundedQueue

  /** Inside `Trigger::signal`. */
  datatype SignalStage =
    | Want    // about to lock the trigger
    | Locked  // about to increment count
    | Counted // about to write, if count became 1
    | Written // about to unlock

  datatype Pc<F> =
    | Outside
    | Calling(f: F)                                     // in invoke_func, about to lock queue_mutex
    | Invoking(f: F)                                    // inside queue.push, holding queue_mutex
    | Signalling(stage: SignalStage, holdsQueue: bool)

  datatype LoopStage =
    | Selecting   // outside handle_queue
    | Locking     // about to lock queue_mutex
    | Sizing      // about to read queue.size()
    | WantTrigger // about to lock the trigger
    | Reading     // about to read the pipe, if count > 0
    | Clearing    // about to reset count
    | Unlocking   // about to unlock both
    | Draining    // in the pop loop

  /**
   `inCallback` says that the loop is executing a callback, whose steps are in pcs[0].
   `left` is the number of pops the current pass still has to make, and `missed`
   counts pops that came back empty. `executed` is the list of functions called,
   `invoked` that of all functions for which `invoke_func` has locked queue_mutex, and
   `dropped` holds the numbers, counted from 1, of those whose push gave up.
   `fault` records a failed assertion of `Trigger`.
   */
  datatype State<F> = State(
    queue: Queue<F>,
    queueMutex: Option<nat>,
    triggerMutex: Option<nat>,
    count: nat,
    pipe: nat,
    pcs: seq<Pc<F>>,
    loopStage: LoopStage,
    inCallback: bool,
    left: nat,
    running: Option<F>,
    executed: seq<F>,
    invoked: seq<F>,
    dropped: set<nat>,
    missed: nat,
    fault: bool)

  datatype Event<F> =
    // producers and signallers
    | Call(f: F)
    | EnterInvoke
    | PushStep(a: Action<F>)
    | PushGivesUp
    | BeginSignal
    | LockTrigger
    | Increment
    | WriteByte
    | EndSignal
    // the loop
    | SelectWakes
    | LockQueue
    | ReadSize
    | LoopLocksTrigger
    | ReadByte
    | ClearCount
    | Unlock
    | PopStep(b: Action<F>)
    | PopMisses
    | StartFunction
    | EndPass
    | StartCallback
    | EndCallback

  function Init<F>(maxSize: nat, tasks: nat): State<F> {
    State(BoundedQueue.Init(maxSize, tasks), None, None, 0, 0, seq(tasks, _ => Outside), Selecting, false, 0,
          None, [], [], {}, 0, false)
  }

  /** A task that executes code outside the loop's own: any but task 0, and that one inside a callback. */
  predicate Acting<F>(s: State<F>, t: nat) {
    t < |s.pcs| && (t == 0 ==> s.inCallback)
  }

  predicate Enabled<F(==)>(s: State<F>, t: nat, e: Event<F>) {
    t < |s.pcs| &&
    if !Acting(s, t) then LoopEnabled(s, e)
    else if e == EndCallback then t == 0 && s.pcs[0].Outside?
    else ProducerEnabled(s, t, e)
  }

  predicate ProducerEnabled<F(==)>(s: State<F>, t: nat, e: Event<F>)
    requires t < |s.pcs|
  {
    var pc := s.pcs[t];
    match e
    case Call(_) => pc.Outside?
    case EnterInvoke => pc.Calling? && s.queueMutex == None
    case PushStep(a) =>
      && pc.Invoking? && BoundedQueue.Enabled(s.queue, t, a)
      && (a == TakeSlot(pc.f) || a == PushBack || a == GiveItem)
    case PushGivesUp => pc.Invoking? && BoundedQueue.Enabled(s.queue, t, PushTimeout)
    case BeginSignal => pc.Outside?
    case LockTrigger => pc.Signalling? && pc.stage == Want && s.triggerMutex == None
    case Increment => pc.Signalling? && pc.stage == Locked
    case WriteByte => pc.Signalling? && pc.stage == Counted
    case EndSignal => pc.Signalling? && pc.stage == Written
    case _ => false
  }

  predicate LoopEnabled<F(==)>(s: State<F>, e: Event<F>) {
    match e
    // the trigger's descriptor is readable exactly while a byte is in the pipe
    case SelectWakes => s.loopStage == Selecting && s.pipe > 0
    case LockQueue => s.loopStage == Locking && s.queueMutex == None
    case ReadSize => s.loopStage == Sizing
    case LoopLocksTrigger => s.loopStage == WantTrigger && s.triggerMutex == None
    case ReadByte => s.loopStage == Reading
    case ClearCount => s.loopStage == Clearing
    case Unlock => s.loopStage == Unlocking
    case PopStep(a) =>
      && s.loopStage == Draining && s.running == None && BoundedQueue.Enabled(s.queue, 0, a)
      && (a == PopFront || a == GiveSlot || (a == TakeItem && s.left > 0))
    case PopMisses =>
      s.loopStage == Draining && s.running == None && s.left > 0 && BoundedQueue.Enabled(s.queue, 0, PopTimeout)
    case StartFunction => s.loopStage == Draining && s.running.Some?
    case StartCallback => s.loopStage == Selecting
    case EndPass =>
      && s.loopStage == Draining && s.running == None && s.left == 0
      && 0 < |s.queue.tasks| && s.queue.tasks[0].stage == Idle
    case _ => false
  }

  function Step<F>(s: State<F>, t: nat, e: Event<F>): State<F>
    requires Enabled(s, t, e)
  {
    if !Acting(s, t) then LoopStep(s, e)
    else if e == EndCallback then s.(inCallback := false)
    else ProducerStep(s, t, e)
  }

  function ProducerStep<F>(s: State<F>, t: nat, e: Event<F>): State<F>
    requires t < |s.pcs| && ProducerEnabled(s, t, e)
  {
    var pc := s.pcs[t];
    match e
    case Call(f) => s.(pcs := s.pcs[t := Calling(f)])
    case EnterInvoke =>
      s.(queueMutex := Some(t), pcs := s.pcs[t := Invoking(pc.f)], invoked := s.invoked + [pc.f])
    case PushStep(a) =>
      s.(queue := BoundedQueue.Step(s.queue, t, a),
         pcs := if a == GiveItem then s.pcs[t := Signalling(Want, true)] else s.pcs)
    case PushGivesUp =>
      s.(pcs := s.pcs[t := Signalling(Want, true)], dropped := s.dropped + {|s.invoked|})
    case BeginSignal => s.(pcs := s.pcs[t := Signalling(Want, false)])
    case LockTrigger => s.(triggerMutex := Some(t), pcs := s.pcs[t := pc.(stage := Locked)])
    case Increment => s.(count := s.count + 1, pcs := s.pcs[t := pc.(stage := Counted)])
    case WriteByte =>
      s.(pipe := if s.count == 1 then s.pipe + 1 else s.pipe, pcs := s.pcs[t := pc.(stage := Written)])
    case EndSignal =>
      s.(triggerMutex := None,
         queueMutex := if pc.holdsQueue then None else s.queueMutex,
         pcs := s.pcs[t := Outside])
  }

  function LoopStep<F>(s: State<F>, e: Event<F>): State<F>
    requires LoopEnabled(s, e)
  {
    match e
    case SelectWakes => s.(loopStage := Locking)
    case LockQueue => s.(queueMutex := Some(0), loopStage := Sizing)
    case ReadSize => s.(left := |s.queue.items|, loopStage := WantTrigger)
    case LoopLocksTrigger => s.(triggerMutex := Some(0), loopStage := Reading)
    case ReadByte =>
      if s.count == 0 then s.(loopStage := Clearing)
      else if s.pipe > 0 then s.(pipe := s.pipe - 1, loopStage := Clearing)
      else s.(fault := true, loopStage := Clearing)
    case ClearCount => s.(count := 0, loopStage := Unlocking)
    case Unlock => s.(triggerMutex := None, queueMutex := None, loopStage := Draining)
    case PopStep(a) =>
      s.(queue := BoundedQueue.Step(s.queue, 0, a),
         left := if a == TakeItem then s.left - 1 else s.left,
         running := if a == GiveSlot then s.queue.tasks[0].held else s.running)
    case PopMisses => s.(left := s.left - 1, missed := s.missed + 1)
    case StartFunction =>
      s.(executed := s.executed + [s.running.value], running := None, inCallback := true)
    case StartCallback => s.(inCallback := true)
    case EndPass => s.(loopStage := Selecting)
  }

  // ---------------------------------------------------------------------
  // The invariant

  predicate LoopHoldsQueue<F>(s: State<F>) {
    s.loopStage in {Sizing, WantTrigger, Reading, Clearing, Unlocking}
  }

  predicate HoldsQueue<F>(s: State<F>, t: nat)
    requires t < |s.pcs|
  {
    || (t == 0 && LoopHoldsQueue(s))
    || s.pcs[t].Invoking?
    || (s.pcs[t].Signalling? && s.pcs[t].holdsQueue)
  }

  predicate HoldsTrigger<F>(s: State<F>, t: nat)
    requires t < |s.pcs|
  {
    || (t == 0 && s.loopStage in {Reading, Clearing, Unlocking})
    || (s.pcs[t].Signalling? && s.pcs[t].stage != Want)
  }

  /** Mutual exclusion: a mutex is held exactly by whoever is inside its section. */
  predicate Exclusion<F>(s: State<F>) {
    && (s.queueMutex.Some? ==> s.queueMutex.value < |s.pcs|)
    && (s.triggerMutex.Some? ==> s.triggerMutex.value < |s.pcs|)
    && (forall t: nat :: t < |s.pcs| ==> (HoldsQueue(s, t) <==> s.queueMutex == Some(t)))
    && (forall t: nat :: t < |s.pcs| ==> (HoldsTrigger(s, t) <==> s.triggerMutex == Some(t)))
  }

  /** A producer is inside the queue only while it holds queue_mutex; only the loop pops. */
  predicate Roles<F(==)>(s: State<F>) {
    && 0 < |s.pcs| == |s.queue.tasks|
    && (forall t: nat :: t < |s.pcs| && Acting(s, t) ==> ProducerRole(s.queue.tasks[t], s.pcs[t]))
    && if s.inCallback then s.loopStage in {Selecting, Draining} && s.running == None
       else s.pcs[0].Outside? && LoopRole(s)
  }

  predicate ProducerRole<F(==)>(task: Task<F>, pc: Pc<F>) {
    && (task.stage != Idle ==> pc.Invoking?)
    && task.stage != Claimed && task.stage != Removed
    && (task.stage == Reserved ==> task.held == Some(pc.f))
  }

  predicate LoopRole<F>(s: State<F>)
    requires 0 < |s.queue.tasks|
  {
    var task := s.queue.tasks[0];
    && task.stage != Reserved && task.stage != Stored
    && (task.stage != Idle ==> s.loopStage == Draining && s.running == None)
    && (task.stage == Removed ==> task.held.Some?)
    && (s.running.Some? ==> s.loopStage == Draining)
  }

  /** A producer has incremented count and may still have to write the byte. */
  predicate MidSignal<F>(s: State<F>) {
    s.triggerMutex.Some? && s.triggerMutex.value < |s.pcs|
    && s.pcs[s.triggerMutex.value].Signalling? && s.pcs[s.triggerMutex.value].stage == Counted
  }

  /** The pipe holds one byte exactly while count is positive, except in the middle of a critical section. */
  predicate PipeFollowsCount<F>(s: State<F>) {
    && !s.fault
    && if MidSignal(s) then s.count > 0 && s.pipe == (if s.count == 1 then 0 else 1)
       else if s.loopStage == Clearing then s.pipe == 0
       else s.pipe == (if s.count > 0 then 1 else 0)
  }

  /** A producer has stored its function but not yet counted its signal; it still holds queue_mutex. */
  predicate SignalDue<F>(s: State<F>) {
    s.queueMutex.Some? && s.queueMutex.value < |s.pcs| && s.queueMutex.value < |s.queue.tasks|
    && var t := s.queueMutex.value;
    || s.queue.tasks[t].stage == Stored
    || (s.pcs[t].Signalling? && (s.pcs[t].stage == Want || s.pcs[t].stage == Locked))
  }

  /** Pops the running pass is still going to make. */
  function Committed<F>(s: State<F>): nat
    requires 0 < |s.queue.tasks|
  {
    s.left + if s.queue.tasks[0].stage == Claimed then 1 else 0
  }

  /** No lost wakeup: functions beyond the running pass are signalled, or about to be. */
  predicate Awake<F>(s: State<F>)
    requires 0 < |s.queue.tasks|
  {
    |s.queue.items| > Committed(s) ==> s.count > 0 || SignalDue(s)
  }

  /** The snapshot is exact when taken, and every pop it promises has a token. */
  predicate SnapshotHolds<F>(s: State<F>) {
    && s.missed == 0
    && s.left <= s.queue.consumeSem
    && (s.loopStage in {Selecting, Locking, Sizing} ==> s.left == 0)
    && (s.loopStage in {WantTrigger, Reading, Clearing, Unlocking} ==> s.left == |s.queue.items|)
  }

  /** The function that has left the queue but has not been called yet. */
  function InFlight<F>(s: State<F>): seq<F>
    requires 0 < |s.queue.tasks|
  {
    var task := s.queue.tasks[0];
    if task.stage == Removed && task.held.Some? then [task.held.value]
    else if s.running.Some? then [s.running.value] else []
  }

  predicate Inv<F(==)>(s: State<F>) {
    && BoundedQueue.Inv(s.queue)
    && Exclusion(s)
    && Roles(s)
    && PipeFollowsCount(s)
    && Awake(s)
    && SnapshotHolds(s)
    && s.queue.popped == s.executed + InFlight(s)
  }

  lemma InitInv<F>(maxSize: nat, tasks: nat)
    requires tasks > 0
    ensures Inv(Init<F>(maxSize, tasks))
  {
    BoundedQueue.InitInv<F>(maxSize, tasks);
  }

  /** While the loop holds queue_mutex nobody else is inside the queue, so every item is announced. */
  lemma AllAnnounced<F>(s: State<F>)
    requires Inv(s) && LoopHoldsQueue(s)
    ensures s.queue.consumeSem == |s.queue.items|
  {
    assert HoldsQueue(s, 0);
    forall t | 0 <= t < |s.queue.tasks|
      ensures s.queue.tasks[t].stage == Idle
    {
      assert t > 0 ==> !HoldsQueue(s, t);
    }
    CountIdle(s.queue.tasks, Stored);
    CountIdle(s.queue.tasks, Claimed);
  }

  /** Inside `queue.push`, with queue_mutex held. */
  lemma PushStepInv<F>(s: State<F>, t: nat, e: Event<F>)
    requires Inv(s) && Acting(s, t) && ProducerEnabled(s, t, e)
    requires e.PushStep?
    ensures Inv(ProducerStep(s, t, e))
  {
    hide BoundedQueue.SlotsConserved, BoundedQueue.Count;
    assert HoldsTrigger(s, t) <==> s.triggerMutex == Some(t);
    assert HoldsQueue(s, t) <==> s.queueMutex == Some(t);
    assert HoldsQueue(s, 0) <==> s.queueMutex == Some(0);
    BoundedQueue.StepInv(s.queue, t, e.a);
    var p := ProducerStep(s, t, e);
    assert Exclusion(p);
    assert Roles(p);
  }

  /** What is the same before and after a step that does not touch the queue. */
  lemma Unqueued<F>(s: State<F>, p: State<F>)
    requires Inv(s) && p.queue == s.queue && p.left == s.left && p.loopStage == s.loopStage
    requires p.missed == s.missed && p.executed == s.executed && p.running == s.running
    requires Exclusion(p) && Roles(p) && PipeFollowsCount(p) && Awake(p)
    ensures Inv(p)
  {
    hide BoundedQueue.Inv, Exclusion, PipeFollowsCount, Awake;
  }

  /** Entering `invoke_func` and beginning to signal. */
  lemma BeginStepInv<F>(s: State<F>, t: nat, e: Event<F>)
    requires Inv(s) && Acting(s, t) && ProducerEnabled(s, t, e)
    requires e.Call? || e.BeginSignal?
    ensures Inv(ProducerStep(s, t, e))
  {
    hide BoundedQueue.Inv;
    assert HoldsTrigger(s, t) <==> s.triggerMutex == Some(t);
    assert HoldsQueue(s, t) <==> s.queueMutex == Some(t);
    Unqueued(s, ProducerStep(s, t, e));
  }

  /** Locking queue_mutex, and giving up on a full queue. */
  lemma EnterStepInv<F>(s: State<F>, t: nat, e: Event<F>)
    requires Inv(s) && Acting(s, t) && ProducerEnabled(s, t, e)
    requires e.EnterInvoke? || e.PushGivesUp?
    ensures Inv(ProducerStep(s, t, e))
  {
    hide BoundedQueue.Inv;
    assert HoldsTrigger(s, t) <==> s.triggerMutex == Some(t);
    assert HoldsQueue(s, t) <==> s.queueMutex == Some(t);
    assert HoldsQueue(s, 0) <==> s.queueMutex == Some(0);
    Unqueued(s, ProducerStep(s, t, e));
  }

  /** Locking the trigger. */
  lemma TriggerLockInv<F>(s: State<F>, t: nat)
    requires Inv(s) && Acting(s, t) && ProducerEnabled(s, t, LockTrigger)
    ensures Inv(ProducerStep(s, t, LockTrigger))
  {
    hide BoundedQueue.Inv;
    assert HoldsTrigger(s, t) <==> s.triggerMutex == Some(t);
    assert HoldsTrigger(s, 0) <==> s.triggerMutex == Some(0);
    assert HoldsQueue(s, t) <==> s.queueMutex == Some(t);
    Unqueued(s, ProducerStep(s, t, LockTrigger));
  }

  /** Unlocking the trigger, and with it leaving `invoke_func`. */
  lemma TriggerUnlockInv<F>(s: State<F>, t: nat)
    requires Inv(s) && Acting(s, t) && ProducerEnabled(s, t, EndSignal)
    ensures Inv(ProducerStep(s, t, EndSignal))
  {
    hide BoundedQueue.Inv;
    assert HoldsTrigger(s, t) <==> s.triggerMutex == Some(t);
    assert HoldsTrigger(s, 0) <==> s.triggerMutex == Some(0);
    assert HoldsQueue(s, t) <==> s.queueMutex == Some(t);
    assert HoldsQueue(s, 0) <==> s.queueMutex == Some(0);
    Unqueued(s, ProducerStep(s, t, EndSignal));
  }

  /** Counting the signal and writing the byte. */
  lemma TriggerCountInv<F>(s: State<F>, t: nat, e: Event<F>)
    requires Inv(s) && Acting(s, t) && ProducerEnabled(s, t, e)
    requires e.Increment? || e.WriteByte?
    ensures Inv(ProducerStep(s, t, e))
  {
    hide BoundedQueue.Inv;
    assert HoldsTrigger(s, t) <==> s.triggerMutex == Some(t);
    assert HoldsTrigger(s, 0) <==> s.triggerMutex == Some(0);
    assert HoldsQueue(s, t) <==> s.queueMutex == Some(t);
    assert HoldsQueue(s, 0) <==> s.queueMutex == Some(0);
    Unqueued(s, ProducerStep(s, t, e));
  }

  /** From select to the end of the critical section that takes the snapshot. */
  lemma SnapshotStepInv<F>(s: State<F>, e: Event<F>)
    requires Inv(s) && !s.inCallback && LoopEnabled(s, e) && s.loopStage != Draining
    ensures Inv(LoopStep(s, e))
  {
    hide BoundedQueue.Inv;
    if LoopHoldsQueue(s) {
      AllAnnounced(s);
    }
    assert HoldsTrigger(s, 0) <==> s.triggerMutex == Some(0);
    assert HoldsQueue(s, 0) <==> s.queueMutex == Some(0);
  }

  /** Inside `queue.pop_for`. */
  lemma PopStepInv<F>(s: State<F>, e: Event<F>)
    requires Inv(s) && !s.inCallback && LoopEnabled(s, e) && e.PopStep?
    ensures Inv(LoopStep(s, e))
  {
    hide BoundedQueue.SlotsConserved, BoundedQueue.ItemsConserved, BoundedQueue.Count;
    assert HoldsTrigger(s, 0) <==> s.triggerMutex == Some(0);
    assert HoldsQueue(s, 0) <==> s.queueMutex == Some(0);
    BoundedQueue.StepInv(s.queue, 0, e.b);
  }

  /** The rest of the pop loop; a pop that the snapshot promises cannot come back empty. */
  lemma DrainStepInv<F>(s: State<F>, e: Event<F>)
    requires Inv(s) && !s.inCallback && LoopEnabled(s, e) && s.loopStage == Draining && !e.PopStep?
    ensures Inv(LoopStep(s, e))
  {
    hide BoundedQueue.Inv;
    assert HoldsTrigger(s, 0) <==> s.triggerMutex == Some(0);
    assert HoldsQueue(s, 0) <==> s.queueMutex == Some(0);
  }

  /** A callback returns when it is outside everything. */
  lemma EndCallbackInv<F>(s: State<F>)
    requires Inv(s) && s.inCallback && s.pcs[0].Outside?
    ensures Inv(s.(inCallback := false))
  {
    hide BoundedQueue.Inv;
    assert Acting(s, 0);
  }

  lemma StepInv<F>(s: State<F>, t: nat, e: Event<F>)
    requires Inv(s) && Enabled(s, t, e)
    ensures Inv(Step(s, t, e))
  {
    hide Inv;
    if !Acting(s, t) {
      if e.PopStep? {
        PopStepInv(s, e);
      } else if s.loopStage == Draining {
        DrainStepInv(s, e);
      } else {
        SnapshotStepInv(s, e);
      }
    } else if e == EndCallback {
      EndCallbackInv(s);
    } else if e.PushStep? {
      PushStepInv(s, t, e);
    } else if e.Call? || e.BeginSignal? {
      BeginStepInv(s, t, e);
    } else if e.EnterInvoke? || e.PushGivesUp? {
      EnterStepInv(s, t, e);
    } else if e.LockTrigger? {
      TriggerLockInv(s, t);
    } else if e.EndSignal? {
      TriggerUnlockInv(s, t);
    } else {
      TriggerCountInv(s, t, e);
    }
  }

  // ---------------------------------------------------------------------
  // What becomes of every invocation

  /** The invoked functions without the dropped ones, in order of invocation. */
  function Kept<F>(invoked: seq<F>, dropped: set<nat>): seq<F> {
    if invoked == [] then []
    else
      var n := |invoked|;
      Kept(invoked[..n - 1], dropped) + (if n in dropped then [] else [invoked[n - 1]])
  }

  /** The task that holds queue_mutex has not stored its function yet. */
  predicate Pushing<F>(s: State<F>) {
    s.queueMutex.Some? && s.queueMutex.value < |s.pcs| && s.queueMutex.value < |s.queue.tasks|
    && s.pcs[s.queueMutex.value].Invoking? && s.queue.tasks[s.queueMutex.value].stage != Stored
  }

  /** The invocations that are decided: all, but the one still being pushed, which is the last. */
  function Decided<F>(s: State<F>): seq<F> {
    if Pushing(s) && s.invoked != [] then s.invoked[..|s.invoked| - 1] else s.invoked
  }

  /** What has entered the queue are the decided invocations without the dropped ones. */
  predicate Recorded<F(==)>(s: State<F>) {
    && s.queue.pushed == Kept(Decided(s), s.dropped)
    && (forall k :: k in s.dropped ==> 0 < k <= |Decided(s)|)
    && (Pushing(s) ==> s.invoked != [] && s.pcs[s.queueMutex.value].f == s.invoked[|s.invoked| - 1])
  }

  lemma {:induction false} KeptIgnores<F>(invoked: seq<F>, dropped: set<nat>, n: nat)
    requires n > |invoked|
    ensures Kept(invoked, dropped + {n}) == Kept(invoked, dropped)
    decreases |invoked|
  {
    if invoked == [] {
    } else {
      KeptIgnores(invoked[..|invoked| - 1], dropped, n);
    }
  }

  lemma RecordedStep<F>(s: State<F>, t: nat, e: Event<F>)
    requires Inv(s) && Recorded(s) && Enabled(s, t, e)
    ensures Recorded(Step(s, t, e))
  {
    hide Inv;
    if !Acting(s, t) {
      RecordedLoop(s, e);
    } else if e == EndCallback {
      assert Pushing(Step(s, t, e)) == Pushing(s);
    } else if e.PushStep? {
      RecordedPush(s, t, e);
    } else if e.EnterInvoke? {
      RecordedInvoke(s, t);
    } else if e.PushGivesUp? {
      RecordedDrop(s, t);
    } else {
      RecordedSignal(s, t, e);
    }
  }

  /** Outside callbacks the loop invokes nothing. */
  lemma RecordedLoop<F>(s: State<F>, e: Event<F>)
    requires Inv(s) && Recorded(s) && !s.inCallback && LoopEnabled(s, e)
    ensures Recorded(LoopStep(s, e))
  {
    hide BoundedQueue.Inv, Awake, PipeFollowsCount, SnapshotHolds, Kept;
    assert HoldsQueue(s, 0) <==> s.queueMutex == Some(0);
    var p := LoopStep(s, e);
    assert p.queue.pushed == s.queue.pushed;
    assert Pushing(p) == Pushing(s);
  }

  lemma RecordedPush<F>(s: State<F>, t: nat, e: Event<F>)
    requires Inv(s) && Recorded(s) && Acting(s, t) && ProducerEnabled(s, t, e) && e.PushStep?
    ensures Recorded(ProducerStep(s, t, e))
  {
    hide BoundedQueue.Inv, Awake, PipeFollowsCount, SnapshotHolds;
    assert HoldsQueue(s, t);
    assert ProducerRole(s.queue.tasks[t], s.pcs[t]);
  }

  lemma RecordedInvoke<F>(s: State<F>, t: nat)
    requires Inv(s) && Recorded(s) && Acting(s, t) && ProducerEnabled(s, t, EnterInvoke)
    ensures Recorded(ProducerStep(s, t, EnterInvoke))
  {
    hide BoundedQueue.Inv, Awake, PipeFollowsCount, SnapshotHolds, Kept, Exclusion, LoopRole;
    assert ProducerRole(s.queue.tasks[t], s.pcs[t]);
    assert (s.invoked + [s.pcs[t].f])[..|s.invoked|] == s.invoked;
  }

  lemma RecordedDrop<F>(s: State<F>, t: nat)
    requires Inv(s) && Recorded(s) && Acting(s, t) && ProducerEnabled(s, t, PushGivesUp)
    ensures Recorded(ProducerStep(s, t, PushGivesUp))
  {
    hide BoundedQueue.Inv, Awake, PipeFollowsCount, SnapshotHolds, LoopRole;
    assert HoldsQueue(s, t);
    KeptIgnores(Decided(s), s.dropped, |s.invoked|);
  }

  lemma RecordedSignal<F>(s: State<F>, t: nat, e: Event<F>)
    requires Inv(s) && Recorded(s) && Acting(s, t) && ProducerEnabled(s, t, e)
    requires e.Call? || e.BeginSignal? || e.LockTrigger? || e.Increment? || e.WriteByte? || e.EndSignal?
    ensures Recorded(ProducerStep(s, t, e))
  {
    hide BoundedQueue.Inv, Awake, PipeFollowsCount, SnapshotHolds, Kept;
    assert HoldsQueue(s, t) <==> s.queueMutex == Some(t);
    assert Pushing(ProducerStep(s, t, e)) == Pushing(s);
  }

  /** The state after a schedule of steps; a step that is not enabled does not happen. */
  function Run<F(==)>(s: State<F>, schedule: seq<(nat, Event<F>)>): State<F>
    decreases |schedule|
  {
    if schedule == [] then s
    else
      var (t, e) := schedule[0];
      Run(if Enabled(s, t, e) then Step(s, t, e) else s, schedule[1..])
  }

  lemma {:induction false} RunInv<F>(s: State<F>, schedule: seq<(nat, Event<F>)>)
    requires Inv(s) && Recorded(s)
    ensures Inv(Run(s, schedule)) && Recorded(Run(s, schedule))
    decreases |schedule|
  {
    if schedule == [] {
    } else {
      var (t, e) := schedule[0];
      if Enabled(s, t, e) {
        StepInv(s, t, e);
        RecordedStep(s, t, e);
        RunInv(Step(s, t, e), schedule[1..]);
      } else {
        RunInv(s, schedule[1..]);
      }
    }
  }

  /**
   Every invoked function whose push did not give up is called exactly once, in order
   of invocation: what has been called, is about to be or is queued are the decided
   invocations without the dropped ones. Every pop of the snapshot finds an item, and neither
   assertion of `Trigger` fails, in every interleaving.
   */
  lemma ExactlyOnceInOrder<F>(maxSize: nat, tasks: nat, schedule: seq<(nat, Event<F>)>)
    requires tasks > 0
    ensures var s := Run(Init<F>(maxSize, tasks), schedule);
      && 0 < |s.queue.tasks|
      && Kept(Decided(s), s.dropped) == s.executed + InFlight(s) + s.queue.items
      && s.missed == 0
      && !s.fault && !s.queue.fault
      && s.pipe <= 1
  {
    InitInv<F>(maxSize, tasks);
    RunInv(Init<F>(maxSize, tasks), schedule);
  }

  /**
   No lost wakeup: whenever the queue holds more functions than the running pass
   will pop, the trigger is set or a producer that still holds queue_mutex is
   about to set it. So once producers are out of their critical sections, a
   loop in `select` over a nonempty queue is woken.
   */
  lemma NoLostWakeup<F>(maxSize: nat, tasks: nat, schedule: seq<(nat, Event<F>)>)
    requires tasks > 0
    ensures var s := Run(Init<F>(maxSize, tasks), schedule);
      && 0 < |s.queue.tasks|
      && (|s.queue.items| > Committed(s) ==> s.count > 0 || SignalDue(s))
      && (s.triggerMutex == None ==> (s.pipe == 1 <==> s.count > 0))
      && (s.queueMutex == None && s.triggerMutex == None && s.loopStage == Selecting && s.queue.items != []
          ==> s.inCallback || Enabled(s, 0, SelectWakes))
  {
    InitInv<F>(maxSize, tasks);
    RunInv(Init<F>(maxSize, tasks), schedule);
    var s := Run(Init<F>(maxSize, tasks), schedule);
    assert HoldsTrigger(s, 0) <==> s.triggerMutex == Some(0);
  }

  /**
   While the loop is clearing the trigger, its snapshot covers every function in
   the queue: no producer is between storing a function and signalling it.
   */
  lemma ClearingIsCovered<F>(s: State<F>)
    requires Inv(s) && s.loopStage in {WantTrigger, Reading, Clearing, Unlocking}
    ensures s.left == |s.queue.items| == s.queue.consumeSem
    ensures forall t: nat :: 0 < t < |s.pcs| ==> s.queue.tasks[t].stage == Idle
  {
    AllAnnounced(s);
    assert HoldsQueue(s, 0);
    forall t: nat | 0 < t < |s.pcs|
      ensures s.queue.tasks[t].stage == Idle
    {
      assert !HoldsQueue(s, t);
    }
  }

  // ---------------------------------------------------------------------
  // Who can be kept from moving

  /** The holder of queue_mutex finds the queue full. */
  predicate Waiting<F>(s: State<F>, t: nat) {
    && t < |s.pcs| && t < |s.queue.tasks| && s.queueMutex == Some(t)
    && s.pcs[t].Invoking? && s.queue.tasks[t].stage == Idle && s.queue.produceSem == 0
  }

  /** The step that a task is about to take. */
  function Onward<F>(s: State<F>, t: nat): Event<F>
    requires t < |s.pcs| == |s.queue.tasks|
  {
    if !Acting(s, t) then
      match s.loopStage
      case Selecting => SelectWakes
      case Locking => LockQueue
      case Sizing => ReadSize
      case WantTrigger => LoopLocksTrigger
      case Reading => ReadByte
      case Clearing => ClearCount
      case Unlocking => Unlock
      case Draining =>
        if s.running.Some? then StartFunction
        else match s.queue.tasks[0].stage
          case Claimed => PopStep(PopFront)
          case Removed => PopStep(GiveSlot)
          case _ => if s.left > 0 then PopStep(TakeItem) else EndPass
    else
      match s.pcs[t]
      case Outside => if t == 0 then EndCallback else BeginSignal
      case Calling(_) => EnterInvoke
      case Invoking(f) =>
        (match s.queue.tasks[t].stage
         case Reserved => PushStep(PushBack)
         case Stored => PushStep(GiveItem)
         case _ => PushStep(TakeSlot(f)))
      case Signalling(stage, _) =>
        match stage
        case Want => LockTrigger
        case Locked => Increment
        case Counted => WriteByte
        case Written => EndSignal
  }

  /** The holder of the trigger's mutex always moves. */
  lemma TriggerHolderMoves<F>(s: State<F>, u: nat)
    requires Inv(s) && s.triggerMutex == Some(u)
    ensures u < |s.pcs| && Enabled(s, u, Onward(s, u))
  {
    assert HoldsTrigger(s, u);
  }

  /** The loop waits for queue_mutex, or is its holder t in a callback of its own. */
  predicate LoopNeedsMutex<F>(s: State<F>, t: nat)
    requires 0 < |s.pcs|
  {
    if s.inCallback then t == 0 || s.pcs[0].Calling? else s.loopStage == Locking
  }

  /**
   The holder of queue_mutex can be kept from moving only by the full queue, or for as
   long as somebody else, who moves, is inside the trigger. On a full queue its push
   can only give up, and then its function is dropped, although `invoke_func` signals
   and returns as always; until then a loop that needs the mutex, or is the holder
   itself, cannot move either.
   */
  lemma FullQueueStalls<F>(s: State<F>, t: nat, e: Event<F>)
    requires Inv(s) && s.queueMutex == Some(t)
    ensures t < |s.pcs| && 0 < |s.pcs|
    ensures Enabled(s, t, PushGivesUp) <==> Waiting(s, t)
    ensures Waiting(s, t) ==> (Enabled(s, t, e) <==> e == PushGivesUp)
    ensures Waiting(s, t) && LoopNeedsMutex(s, t) ==> (Enabled(s, 0, e) <==> t == 0 && e == PushGivesUp)
    ensures Waiting(s, t) ==>
      var p := Step(s, t, PushGivesUp);
      p.queue == s.queue && p.dropped == s.dropped + {|s.invoked|} && p.pcs[t] == Signalling(Want, true)
    ensures !Waiting(s, t) ==>
      || Enabled(s, t, Onward(s, t))
      || (s.triggerMutex.Some? && s.triggerMutex.value < |s.pcs|
          && Enabled(s, s.triggerMutex.value, Onward(s, s.triggerMutex.value)))
  {
    hide BoundedQueue.Inv, Awake, PipeFollowsCount, SnapshotHolds, Onward;
    assert HoldsQueue(s, t);
    if !Waiting(s, t) {
      HolderMoves(s, t);
    }
  }

  /** Unless it waits on a full queue, the holder of queue_mutex moves, or the holder of the trigger does. */
  lemma HolderMoves<F>(s: State<F>, t: nat)
    requires Inv(s) && s.queueMutex == Some(t) && !Waiting(s, t)
    ensures t < |s.pcs| == |s.queue.tasks|
    ensures s.triggerMutex == None ==> Enabled(s, t, Onward(s, t))
    ensures s.triggerMutex.Some? ==>
      var u := s.triggerMutex.value;
      u < |s.pcs| && Enabled(s, u, Onward(s, u))
  {
    hide BoundedQueue.Inv, Awake, PipeFollowsCount, SnapshotHolds;
    assert HoldsQueue(s, t);
    assert HoldsTrigger(s, t) <==> s.triggerMutex == Some(t);
    if s.triggerMutex.Some? {
      TriggerHolderMoves(s, s.triggerMutex.value);
    }
  }

  /** A push waits exactly while the queue is full, counting an item whose slot has not been returned. */
  lemma PushWaitsExactly<F>(s: State<F>, t: nat)
    requires Inv(s) && t < |s.pcs| && s.pcs[t].Invoking? && s.queue.tasks[t].stage == Idle
    ensures Waiting(s, t) <==>
      |s.queue.items| + (if s.queue.tasks[0].stage == Removed then 1 else 0) == s.queue.maxSize
  {
    assert HoldsQueue(s, t);
    forall u | 0 <= u < |s.queue.tasks|
      ensures s.queue.tasks[u].stage != Reserved
      ensures u != 0 ==> s.queue.tasks[u].stage != Removed
    {
      assert u != t ==> !HoldsQueue(s, u);
      assert Acting(s, u) ==> ProducerRole(s.queue.tasks[u], s.pcs[u]);
    }
    CountOnly(s.queue.tasks, 0, Reserved);
    CountOnly(s.queue.tasks, 0, Removed);
  }

  /** No push ever waits as long as at most maxSize of the invoked functions have not been called. */
  lemma NoWaitBelowBound<F>(s: State<F>, t: nat)
    requires Inv(s) && Recorded(s) && Waiting(s, t)
    ensures |s.invoked| > |s.executed| + s.queue.maxSize
  {
    PushWaitsExactly(s, t);
    KeptIsShorter(Decided(s), s.dropped);
  }

  lemma {:induction false} KeptIsShorter<F>(invoked: seq<F>, dropped: set<nat>)
    ensures |Kept(invoked, dropped)| <= |invoked|
    decreases |invoked|
  {
    if invoked == [] {
    } else {
      KeptIsShorter(invoked[..|invoked| - 1], dropped);
    }
  }

  /** Steps that begin something new, and the one by which a push gives up. */
  predicate Optional<F>(e: Event<F>) {
    e.Call? || e.BeginSignal? || e.StartCallback? || e.PushGivesUp?
  }

  /** Nothing that has been begun can go on. */
  ghost predicate Stuck<F(!new)>(s: State<F>) {
    forall t: nat, e: Event<F> :: Enabled(s, t, e) ==> Optional(e)
  }

  /** All work is done, and the loop waits in `select`. */
  ghost predicate AtRest<F>(s: State<F>) {
    && s.loopStage == Selecting && !s.inCallback && s.pipe == 0
    && forall u: nat :: 0 < u < |s.pcs| ==> s.pcs[u].Outside?
  }

  /** Of the other tasks, none is inside, but some may wait for queue_mutex. */
  ghost predicate OthersWait<F>(s: State<F>, t: nat) {
    forall u: nat :: 0 < u < |s.pcs| && u != t ==> s.pcs[u].Outside? || s.pcs[u].Calling?
  }

  /**
   A push waits on a full queue with queue_mutex held, and the loop, which alone could
   empty the queue, waits for that mutex or is making that push in a callback of its
   own. A queue without slots stalls anyway.
   */
  ghost predicate Stalled<F>(s: State<F>) {
    && 0 < |s.pcs| && s.queueMutex.Some? && Waiting(s, s.queueMutex.value) && OthersWait(s, s.queueMutex.value)
    && (|| LoopNeedsMutex(s, s.queueMutex.value)
        || (!s.inCallback && s.loopStage == Selecting && s.pipe == 0 && s.queue.maxSize == 0))
  }

  /** In every reachable state something can go on, except at rest and in a stall. */
  lemma StuckExactly<F(!new)>(s: State<F>)
    requires Inv(s)
    ensures Stuck(s) <==> AtRest(s) || Stalled(s)
    ensures AtRest(s) ==> s.queue.items == [] && s.count == 0
  {
    hide Inv, Stuck, AtRest, Stalled;
    if AtRest(s) {
      RestIsEmpty(s);
      RestIsStuck(s);
    } else if Stalled(s) {
      StallIsStuck(s);
    } else if Stuck(s) {
      StuckTasks(s);
      StuckLoop(s);
    }
  }

  /** In every interleaving. */
  lemma RunIsStuckExactly<F(!new)>(maxSize: nat, tasks: nat, schedule: seq<(nat, Event<F>)>)
    requires tasks > 0
    ensures var s := Run(Init<F>(maxSize, tasks), schedule);
      && (Stuck(s) <==> AtRest(s) || Stalled(s))
      && (forall t: nat :: Waiting(s, t) ==> |s.invoked| > |s.executed| + s.queue.maxSize)
  {
    InitInv<F>(maxSize, tasks);
    RunInv(Init<F>(maxSize, tasks), schedule);
    var s := Run(Init<F>(maxSize, tasks), schedule);
    StuckExactly(s);
    forall t: nat | Waiting(s, t)
      ensures |s.invoked| > |s.executed| + s.queue.maxSize
    {
      NoWaitBelowBound(s, t);
    }
  }

  lemma RestIsEmpty<F>(s: State<F>)
    requires Inv(s) && AtRest(s)
    ensures s.queue.items == [] && s.count == 0
  {
    assert !HoldsQueue(s, 0) && !HoldsTrigger(s, 0);
    forall u: nat | u < |s.pcs|
      ensures !HoldsQueue(s, u) && !HoldsTrigger(s, u)
    {
    }
  }

  lemma RestIsStuck<F(!new)>(s: State<F>)
    requires AtRest(s)
    ensures Stuck(s)
  {
  }

  lemma StallIsStuck<F(!new)>(s: State<F>)
    requires Inv(s) && Stalled(s)
    ensures Stuck(s)
  {
    forall t: nat, e: Event<F> | Enabled(s, t, e)
      ensures Optional(e)
    {
      FullQueueStalls(s, s.queueMutex.value, e);
    }
  }

  /** Of the tasks of a stuck state, only one that waits on a full queue is inside. */
  lemma StuckTasks<F(!new)>(s: State<F>)
    requires Inv(s) && Stuck(s)
    ensures s.triggerMutex == None
    ensures forall u: nat :: Acting(s, u) ==>
      || (u > 0 && s.pcs[u].Outside?)
      || (s.pcs[u].Calling? && s.queueMutex.Some?)
      || Waiting(s, u)
  {
    hide BoundedQueue.Inv, Awake, PipeFollowsCount, SnapshotHolds;
    if s.triggerMutex.Some? {
      TriggerHolderMoves(s, s.triggerMutex.value);
    }
    forall u: nat | Acting(s, u)
      ensures (u > 0 && s.pcs[u].Outside?) || (s.pcs[u].Calling? && s.queueMutex.Some?) || Waiting(s, u)
    {
      assert !HoldsTrigger(s, u);
      assert HoldsQueue(s, u) <==> s.queueMutex == Some(u);
      assert (u > 0 && s.pcs[u].Outside?) || !Enabled(s, u, Onward(s, u));
    }
  }

  /** And the loop waits in `select` or for the mutex, or in its own push. */
  lemma StuckLoop<F(!new)>(s: State<F>)
    requires Inv(s) && Stuck(s) && s.triggerMutex == None
    requires forall u: nat :: Acting(s, u) ==>
      || (u > 0 && s.pcs[u].Outside?)
      || (s.pcs[u].Calling? && s.queueMutex.Some?)
      || Waiting(s, u)
    ensures AtRest(s) || Stalled(s)
  {
    assert s.inCallback || !Enabled(s, 0, Onward(s, 0));
    assert HoldsQueue(s, 0) <==> s.queueMutex == Some(0);
    assert !HoldsTrigger(s, 0);
    assert s.inCallback ==> Acting(s, 0);
    if s.queueMutex.Some? {
      var t := s.queueMutex.value;
      assert HoldsQueue(s, t);
      if Acting(s, t) {
        PushWaitsExactly(s, t);
      }
    }
    if s.queueMutex == None {
      assert forall u: nat :: Acting(s, u) ==> u > 0 && s.pcs[u].Outside?;
    }
  }

  // ---------------------------------------------------------------------
  // The stalls can be reached

  lemma RunNext<F>(s: State<F>, t: nat, e: Event<F>, rest: seq<(nat, Event<F>)>)
    requires Enabled(s, t, e)
    ensures Run(s, [(t, e)] + rest) == Run(Step(s, t, e), rest)
  {
    assert ([(t, e)] + rest)[1..] == rest;
  }

  lemma RunNothing<F>(s: State<F>)
    ensures Run(s, []) == s
  {
  }

  /** One call of `invoke_func` up to the signal. */
  function PushSchedule<F>(t: nat, f: F, rest: seq<(nat, Event<F>)>): seq<(nat, Event<F>)> {
    [(t, Call(f))] + ([(t, EnterInvoke)] + ([(t, PushStep(TakeSlot(f)))] + ([(t, PushStep(PushBack))] +
    ([(t, PushStep(GiveItem))] + rest))))
  }

  function SignalSchedule<F>(t: nat, rest: seq<(nat, Event<F>)>): seq<(nat, Event<F>)> {
    [(t, LockTrigger)] + ([(t, Increment)] + ([(t, WriteByte)] + ([(t, EndSignal)] + rest)))
  }

  function CallSchedule<F>(t: nat, f: F, rest: seq<(nat, Event<F>)>): seq<(nat, Event<F>)> {
    [(t, Call(f))] + ([(t, EnterInvoke)] + rest)
  }

  predicate CanCall<F>(s: State<F>, t: nat) {
    Acting(s, t) && |s.queue.tasks| == |s.pcs| && s.pcs[t].Outside? && s.queueMutex == None
  }

  lemma CallAlone<F>(s: State<F>, t: nat, f: F, rest: seq<(nat, Event<F>)>) returns (p: State<F>)
    requires CanCall(s, t)
    ensures Run(s, CallSchedule(t, f, rest)) == Run(p, rest)
    ensures p == s.(queueMutex := Some(t), pcs := s.pcs[t := Invoking(f)], invoked := s.invoked + [f])
  {
    hide Run;
    RunNext(s, t, Call(f), [(t, EnterInvoke)] + rest);
    var s1 := Step(s, t, Call(f));
    RunNext(s1, t, EnterInvoke, rest);
    p := Step(s1, t, EnterInvoke);
    assert p.pcs == s.pcs[t := Invoking(f)];
  }

  lemma PushAlone<F>(s: State<F>, t: nat, f: F, rest: seq<(nat, Event<F>)>) returns (p: State<F>)
    requires CanCall(s, t) && s.queue.tasks[t] == Task(Idle, None)
    requires s.queue.produceSem > 0 && s.queue.consumeSem < s.queue.maxSize
    ensures Run(s, PushSchedule(t, f, rest)) == Run(p, rest)
    ensures p == s.(
      queue := s.queue.(
        produceSem := s.queue.produceSem - 1, consumeSem := s.queue.consumeSem + 1,
        items := s.queue.items + [f], pushed := s.queue.pushed + [f]),
      queueMutex := Some(t), pcs := s.pcs[t := Signalling(Want, true)], invoked := s.invoked + [f])
  {
    hide Run;
    var r3 := [(t, PushStep(GiveItem))] + rest;
    var r2 := [(t, PushStep(PushBack))] + r3;
    var r1 := [(t, PushStep(TakeSlot(f)))] + r2;
    var s0 := CallAlone(s, t, f, r1);
    RunNext(s0, t, PushStep(TakeSlot(f)), r2);
    var s1 := Step(s0, t, PushStep(TakeSlot(f)));
    RunNext(s1, t, PushStep(PushBack), r3);
    var s2 := Step(s1, t, PushStep(PushBack));
    RunNext(s2, t, PushStep(GiveItem), rest);
    p := Step(s2, t, PushStep(GiveItem));
    assert p.queue.tasks == s.queue.tasks && p.pcs == s.pcs[t := Signalling(Want, true)];
  }

  lemma SignalAlone<F>(s: State<F>, t: nat, rest: seq<(nat, Event<F>)>) returns (p: State<F>)
    requires Acting(s, t) && s.pcs[t] == Signalling(Want, true)
    requires s.triggerMutex == None
    ensures Run(s, SignalSchedule(t, rest)) == Run(p, rest)
    ensures p == s.(
      queueMutex := None, count := s.count + 1, pipe := if s.count == 0 then s.pipe + 1 else s.pipe,
      pcs := s.pcs[t := Outside])
  {
    hide Run;
    var r3 := [(t, EndSignal)] + rest;
    var r2 := [(t, WriteByte)] + r3;
    var r1 := [(t, Increment)] + r2;
    RunNext(s, t, LockTrigger, r1);
    var s1 := Step(s, t, LockTrigger);
    RunNext(s1, t, Increment, r2);
    var s2 := Step(s1, t, Increment);
    RunNext(s2, t, WriteByte, r3);
    var s3 := Step(s2, t, WriteByte);
    RunNext(s3, t, EndSignal, rest);
    p := Step(s3, t, EndSignal);
    assert p.pcs == s.pcs[t := Outside];
  }

  /** A task invokes twice into a queue of one: the first function fills it, the second waits. */
  function TwoCalls<F>(t: nat, f: F, g: F, between: seq<(nat, Event<F>)>, rest: seq<(nat, Event<F>)>):
    seq<(nat, Event<F>)>
  {
    PushSchedule(t, f, SignalSchedule(t, between + CallSchedule(t, g, rest)))
  }

  /** One other caller and a queue of one suffice: the loop has been woken when the second push waits. */
  lemma StallIsReachable<F>(f: F, g: F)
    ensures Stalled(Run(Init<F>(1, 2), TwoCalls(1, f, g, [(0, SelectWakes)], [])))
  {
    hide Run;
    var s0 := Init<F>(1, 2);
    var r2 := CallSchedule(1, g, []);
    var r1 := [(0, SelectWakes)] + r2;
    var s1 := PushAlone(s0, 1, f, SignalSchedule(1, r1));
    var s2 := SignalAlone(s1, 1, r1);
    RunNext(s2, 0, SelectWakes, r2);
    var s3 := CallAlone(Step(s2, 0, SelectWakes), 1, g, []);
    RunNothing(s3);
  }

  function FillSchedule<F>(fs: seq<F>, rest: seq<(nat, Event<F>)>): seq<(nat, Event<F>)> {
    if fs == [] then rest else PushSchedule(0, fs[0], SignalSchedule(0, FillSchedule(fs[1..], rest)))
  }

  /** The loop is in a callback, alone. */
  predicate OwnCallback<F>(s: State<F>) {
    s.inCallback && CanCall(s, 0) && |s.pcs| == 1 && s.queue.tasks[0] == Task(Idle, None) && s.triggerMutex == None
  }

  lemma {:induction false} FillAlone<F>(s: State<F>, fs: seq<F>, rest: seq<(nat, Event<F>)>) returns (p: State<F>)
    requires OwnCallback(s) && |fs| <= s.queue.produceSem && s.queue.consumeSem + |fs| <= s.queue.maxSize
    ensures Run(s, FillSchedule(fs, rest)) == Run(p, rest)
    ensures OwnCallback(p) && p.queue.produceSem == s.queue.produceSem - |fs|
    decreases |fs|
  {
    if fs == [] {
      p := s;
    } else {
      hide Run;
      var more := FillSchedule(fs[1..], rest);
      var s1 := PushAlone(s, 0, fs[0], SignalSchedule(0, more));
      var s2 := SignalAlone(s1, 0, more);
      p := FillAlone(s2, fs[1..], rest);
    }
  }

  lemma CallbackStarts<F>(n: nat)
    ensures var s := Init<F>(n, 1);
      && Enabled(s, 0, StartCallback)
      && var p := Step(s, 0, StartCallback);
      OwnCallback(p) && p.queue.produceSem == p.queue.maxSize == n && p.queue.consumeSem == 0
  {
  }

  lemma OwnCallStalls<F>(s: State<F>, g: F)
    requires OwnCallback(s) && s.queue.produceSem == 0
    ensures Stalled(Run(s, CallSchedule(0, g, [])))
  {
    hide Run;
    var p := CallAlone(s, 0, g, []);
    RunNothing(p);
  }

  /** No other caller is needed: a callback of the loop that invokes one function more than the bound halts it. */
  lemma OwnStallIsReachable<F>(fs: seq<F>, g: F)
    ensures Stalled(Run(Init<F>(|fs|, 1), [(0, StartCallback)] + FillSchedule(fs, CallSchedule(0, g, []))))
  {
    hide Run, Init, Enabled, Step, OwnCallback, Stalled, FillSchedule, CallSchedule;
    var s, rest := Init<F>(|fs|, 1), CallSchedule(0, g, []);
    CallbackStarts<F>(|fs|);
    RunNext(s, 0, StartCallback, FillSchedule(fs, rest));
    var p := FillAlone(Step(s, 0, StartCallback), fs, rest);
    OwnCallStalls(p, g);
  }

  /** And a callback that only waits for the mutex does, too. */
  lemma CallbackStallIsReachable<F>(f: F, g: F, h: F)
    ensures Stalled(Run(Init<F>(1, 2), [(0, StartCallback)] + TwoCalls(1, f, g, [], [(0, Call(h))] + [])))
  {
    hide Run;
    var s0 := Init<F>(1, 2);
    var last: seq<(nat, Event<F>)> := [(0, Call(h))] + [];
    var r1 := CallSchedule(1, g, last);
    RunNext(s0, 0, StartCallback, TwoCalls(1, f, g, [], last));
    assert [] + r1 == r1;
    var s1 := PushAlone(Step(s0, 0, StartCallback), 1, f, SignalSchedule(1, r1));
    var s2 := SignalAlone(s1, 1, r1);
    var s3 := CallAlone(s2, 1, g, last);
    RunNext(s3, 0, Call(h), []);
    RunNothing(Step(s3, 0, Call(h)));
  }
}
