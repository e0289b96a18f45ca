/**
 `loopp::core::Queue`: a bounded queue guarded by two counting semaphores and a
 mutex, used by any number of tasks at once. Each task executes `push_for` or
 `pop_for` one atomic step at a time, and the steps of different tasks interleave
 freely. The body of the mutex touches only the deque, so locking it, changing the
 deque and unlocking it is one step.
 */
module BoundedQueue {
  import opened Wrappers

  /** Where a task stands inside `push_for` (Reserved, Stored) or `pop_for` (Claimed, Removed). */
  datatype Stage =
    | Idle
    | Reserved  // took a token of produce_sem, has not stored its object
    | Stored    // stored its object, has not given consume_sem
    | Claimed   // took a token of consume_sem, has not removed an object
    | Removed   // removed an object, has not given produce_sem

  datatype Task<T> = Task(stage: Stage, held: Option<T>)

  /**
   `pushed` and `popped` record every object stored in and removed from the deque.
   `fault` records an event the code cannot survive: `front()` of an empty deque,
   or a token that a full semaphore refuses, whose refusal the code ignores.
   */
  datatype Queue<T> = Queue(
    maxSize: nat,
    produceSem: nat,
    consumeSem: nat,
    items: seq<T>,
    tasks: seq<Task<T>>,
    pushed: seq<T>,
    popped: seq<T>,
    fault: bool)

  datatype Action<T> =
    | TakeSlot(x: T)
    | PushTimeout
    | PushBack
    | GiveItem
    | TakeItem
    | PopTimeout
    | PopFront
    | GiveSlot

  function Init<T>(maxSize: nat, tasks: nat): Queue<T> {
    Queue(maxSize, maxSize, 0, [], seq(tasks, _ => Task(Idle, None)), [], [], false)
  }

  /** Whether task t can perform the action next. A timed-out `take` found no token. */
  predicate Enabled<T>(q: Queue<T>, t: nat, a: Action<T>) {
    t < |q.tasks| &&
    match a
    case TakeSlot(_) => q.tasks[t].stage == Idle && q.produceSem > 0
    case PushTimeout => q.tasks[t].stage == Idle && q.produceSem == 0
    case PushBack => q.tasks[t].stage == Reserved && q.tasks[t].held.Some?
    case GiveItem => q.tasks[t].stage == Stored
    case TakeItem => q.tasks[t].stage == Idle && q.consumeSem > 0
    case PopTimeout => q.tasks[t].stage == Idle && q.consumeSem == 0
    case PopFront => q.tasks[t].stage == Claimed
    case GiveSlot => q.tasks[t].stage == Removed
  }

  function Step<T>(q: Queue<T>, t: nat, a: Action<T>): Queue<T>
    requires Enabled(q, t, a)
  {
    match a
    case TakeSlot(x) =>
      q.(produceSem := q.produceSem - 1, tasks := q.tasks[t := Task(Reserved, Some(x))])
    case PushTimeout => q
    case PushBack =>
      var x := q.tasks[t].held.value;
      q.(items := q.items + [x], pushed := q.pushed + [x], tasks := q.tasks[t := Task(Stored, None)])
    case GiveItem =>
      if q.consumeSem < q.maxSize
      then q.(consumeSem := q.consumeSem + 1, tasks := q.tasks[t := Task(Idle, None)])
      else q.(fault := true, tasks := q.tasks[t := Task(Idle, None)])
    case TakeItem =>
      q.(consumeSem := q.consumeSem - 1, tasks := q.tasks[t := Task(Claimed, None)])
    case PopTimeout => q
    case PopFront =>
      if q.items != [] then
        var x := q.items[0];
        q.(items := q.items[1..], popped := q.popped + [x], tasks := q.tasks[t := Task(Removed, Some(x))])
      else q.(fault := true)
    case GiveSlot =>
      if q.produceSem < q.maxSize
      then q.(produceSem := q.produceSem + 1, tasks := q.tasks[t := Task(Idle, None)])
      else q.(fault := true, tasks := q.tasks[t := Task(Idle, None)])
  }

  /** The number of tasks at a stage. */
  function Count<T>(tasks: seq<Task<T>>, stage: Stage): nat {
    if tasks == [] then 0
    else (if tasks[0].stage == stage then 1 else 0) + Count(tasks[1..], stage)
  }

  /** Slot conservation: every slot is free, reserved, filled, or about to be returned. */
  predicate SlotsConserved<T>(q: Queue<T>) {
    q.produceSem + Count(q.tasks, Reserved) + |q.items| + Count(q.tasks, Removed) == q.maxSize
  }

  /** Item conservation: every stored object is announced, about to be announced, or claimed. */
  predicate ItemsConserved<T>(q: Queue<T>) {
    |q.items| == q.consumeSem + Count(q.tasks, Stored) + Count(q.tasks, Claimed)
  }

  predicate Inv<T(==)>(q: Queue<T>) {
    && SlotsConserved(q)
    && ItemsConserved(q)
    && !q.fault
    && q.pushed == q.popped + q.items
  }

  lemma {:induction false} CountUpdate<T>(tasks: seq<Task<T>>, t: nat, task: Task<T>, stage: Stage)
    requires t < |tasks|
    ensures Count(tasks[t := task], stage) + (if tasks[t].stage == stage then 1 else 0)
         == Count(tasks, stage) + (if task.stage == stage then 1 else 0)
  {
    if t == 0 {
      assert tasks[t := task][1..] == tasks[1..];
    } else {
      assert tasks[t := task][1..] == tasks[1..][t - 1 := task];
      CountUpdate(tasks[1..], t - 1, task, stage);
    }
  }

  lemma {:induction false} CountBound<T>(tasks: seq<Task<T>>, t: nat, stage: Stage)
    requires t < |tasks| && tasks[t].stage == stage
    ensures Count(tasks, stage) > 0
  {
    if t == 0 {
    } else {
      CountBound(tasks[1..], t - 1, stage);
    }
  }

  /** When no task but t can be at the stage, the count tells where t is. */
  lemma {:induction false} CountOnly<T>(tasks: seq<Task<T>>, t: nat, stage: Stage)
    requires forall u :: 0 <= u < |tasks| && u != t ==> tasks[u].stage != stage
    ensures Count(tasks, stage) == if t < |tasks| && tasks[t].stage == stage then 1 else 0
  {
    if tasks == [] {
    } else {
      forall u | 0 <= u < |tasks[1..]| && (t == 0 || u != t - 1)
        ensures tasks[1..][u].stage != stage
      {
        assert tasks[1..][u] == tasks[u + 1];
      }
      CountOnly(tasks[1..], if t == 0 then |tasks| else t - 1, stage);
    }
  }

  lemma CountIdle<T>(tasks: seq<Task<T>>, stage: Stage)
    requires forall u :: 0 <= u < |tasks| ==> tasks[u].stage == Idle
    requires stage != Idle
    ensures Count(tasks, stage) == 0
  {
  }

  lemma InitInv<T>(maxSize: nat, tasks: nat)
    ensures Inv(Init<T>(maxSize, tasks))
  {
    var q := Init<T>(maxSize, tasks);
    CountIdle(q.tasks, Reserved);
    CountIdle(q.tasks, Removed);
    CountIdle(q.tasks, Stored);
    CountIdle(q.tasks, Claimed);
  }

  /** Every step of every task keeps both conservation laws, and none of them faults. */
  lemma StepInv<T>(q: Queue<T>, t: nat, a: Action<T>)
    requires Inv(q) && Enabled(q, t, a)
    ensures Inv(Step(q, t, a))
  {
    var p := Step(q, t, a);
    if a != PushTimeout && a != PopTimeout {
      forall stage {
        CountBoundAt(q.tasks, t, stage);
      }
      CountUpdate(q.tasks, t, p.tasks[t], Reserved);
      CountUpdate(q.tasks, t, p.tasks[t], Removed);
      CountUpdate(q.tasks, t, p.tasks[t], Stored);
      CountUpdate(q.tasks, t, p.tasks[t], Claimed);
    }
  }

  lemma CountBoundAt<T>(tasks: seq<Task<T>>, t: nat, stage: Stage)
    requires t < |tasks|
    ensures tasks[t].stage == stage ==> Count(tasks, stage) > 0
  {
    if tasks[t].stage == stage {
      CountBound(tasks, t, stage);
    }
  }

  /** The state after a schedule: which task acts, and how. A step that is not enabled does not happen. */
  function Run<T>(q: Queue<T>, schedule: seq<(nat, Action<T>)>): Queue<T>
    decreases |schedule|
  {
    if schedule == [] then q
    else
      var (t, a) := schedule[0];
      Run(if Enabled(q, t, a) then Step(q, t, a) else q, schedule[1..])
  }

  lemma {:induction false} RunInv<T>(q: Queue<T>, schedule: seq<(nat, Action<T>)>)
    requires Inv(q)
    ensures Inv(Run(q, schedule))
    ensures Run(q, schedule).maxSize == q.maxSize
    decreases |schedule|
  {
    if schedule == [] {
    } else {
      var (t, a) := schedule[0];
      if Enabled(q, t, a) {
        StepInv(q, t, a);
        RunInv(Step(q, t, a), schedule[1..]);
      } else {
        RunInv(q, schedule[1..]);
      }
    }
  }

  /**
   Safety under every schedule of any number of tasks: the deque never holds more
   than its bound, `front()` is never taken of an empty deque, no semaphore
   refuses a token, and objects leave in the order in which they entered.
   */
  lemma QueueIsSafe<T>(maxSize: nat, tasks: nat, schedule: seq<(nat, Action<T>)>)
    ensures var q := Run(Init<T>(maxSize, tasks), schedule);
      && |q.items| <= maxSize
      && !q.fault
      && (forall t :: 0 <= t < |q.tasks| && q.tasks[t].stage == Claimed ==> q.items != [])
      && q.popped <= q.pushed && q.pushed[|q.popped|..] == q.items
      && q.produceSem + Count(q.tasks, Reserved) + |q.items| + Count(q.tasks, Removed) == maxSize
      && |q.items| == q.consumeSem + Count(q.tasks, Stored) + Count(q.tasks, Claimed)
  {
    InitInv<T>(maxSize, tasks);
    RunInv(Init<T>(maxSize, tasks), schedule);
    var q := Run(Init<T>(maxSize, tasks), schedule);
    forall t | 0 <= t < |q.tasks| && q.tasks[t].stage == Claimed
      ensures q.items != []
    {
      CountBound(q.tasks, t, Claimed);
    }
  }

  /** When every task is outside the queue, the semaphores count exactly the items and the free slots. */
  lemma QuiescentTokens<T>(maxSize: nat, tasks: nat, schedule: seq<(nat, Action<T>)>)
    ensures var q := Run(Init<T>(maxSize, tasks), schedule);
      (forall t :: 0 <= t < |q.tasks| ==> q.tasks[t].stage == Idle)
      ==> q.consumeSem == |q.items| && q.produceSem == maxSize - |q.items|
  {
    QueueIsSafe<T>(maxSize, tasks, schedule);
    var q := Run(Init<T>(maxSize, tasks), schedule);
    if forall t :: 0 <= t < |q.tasks| ==> q.tasks[t].stage == Idle {
      CountIdle(q.tasks, Reserved);
      CountIdle(q.tasks, Removed);
      CountIdle(q.tasks, Stored);
      CountIdle(q.tasks, Claimed);
    }
  }
}
