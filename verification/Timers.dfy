/**
 The timer scheduler of `MainLoop`: `handle_timers` repeatedly fires the timer with
 the earliest due time until none is due, advancing periodic timers by whole
 periods. Times and periods are in one unit; the clock reading is an input.
 */
module Timers {
  import opened NumberTheory

  /** `milliseconds::max()`: the period that marks a one-shot timer. */
  const ONE_SHOT: int := 0x7FFF_FFFF_FFFF_FFFF

  datatype Timer = Timer(id: int, period: int, expireTime: int)

  predicate Due(t: Timer, now: int) {
    now >= t.expireTime
  }

  /** A due timer is used up, or advances when it fires. */
  predicate Ends(t: Timer, now: int) {
    Due(t, now) ==> t.period > 0
  }

  ghost predicate AllEnd(ts: seq<Timer>, now: int) {
    forall i :: 0 <= i < |ts| ==> Ends(ts[i], now)
  }

  /** How often a timer fires in one pass. */
  function Fires(t: Timer, now: int): nat
    requires Ends(t, now)
  {
    if !Due(t, now) then 0
    else if t.period == ONE_SHOT then 1
    else (now - t.expireTime) / t.period + 1
  }

  /** The firings of one timer in a pass, one period apart. */
  function Firings(t: Timer, now: int): seq<Timer>
    requires Ends(t, now)
  {
    seq(Fires(t, now), k requires 0 <= k => t.(expireTime := t.expireTime + k * t.period))
  }

  /** What a pass leaves of one timer: nothing of a one-shot that was due. */
  function Remains(t: Timer, now: int): seq<Timer>
    requires Ends(t, now)
  {
    if !Due(t, now) then [t]
    else if t.period == ONE_SHOT then []
    else [t.(expireTime := t.expireTime + Fires(t, now) * t.period)]
  }

  /** Timers stand in the order in which they were added. */
  ghost predicate IdsAscend(ts: seq<Timer>) {
    forall i, j :: 0 <= i < j < |ts| ==> ts[i].id < ts[j].id
  }

  ghost predicate WellFormed(ts: seq<Timer>, now: int) {
    AllEnd(ts, now) && IdsAscend(ts)
  }

  /** Identifiers are handed out in increasing order. */
  ghost predicate IdsBelow(ts: seq<Timer>, bound: int) {
    forall i :: 0 <= i < |ts| ==> ts[i].id < bound
  }

  function RemainsAll(ts: seq<Timer>, now: int): seq<Timer>
    requires AllEnd(ts, now)
  {
    if ts == [] then [] else Remains(ts[0], now) + RemainsAll(ts[1..], now)
  }

  /** The firings due for the timer with the given id, if there is one. */
  function FiringsOf(ts: seq<Timer>, id: int, now: int): seq<Timer>
    requires AllEnd(ts, now)
  {
    if ts == [] then []
    else if ts[0].id == id then Firings(ts[0], now)
    else FiringsOf(ts[1..], id, now)
  }

  function TotalFires(ts: seq<Timer>, now: int): nat
    requires AllEnd(ts, now)
  {
    if ts == [] then 0 else Fires(ts[0], now) + TotalFires(ts[1..], now)
  }

  /** The entries of a notify list that belong to one timer, in order. */
  function Of(notify: seq<Timer>, id: int): seq<Timer> {
    if notify == [] then []
    else
      var rest := Of(notify[..|notify| - 1], id);
      var last := notify[|notify| - 1];
      if last.id == id then rest + [last] else rest
  }

  /** Earlier due, or due at the same instant and added earlier. */
  predicate Before(t: Timer, u: Timer) {
    t.expireTime < u.expireTime || (t.expireTime == u.expireTime && t.id < u.id)
  }

  ghost predicate InDueOrder(notify: seq<Timer>) {
    forall i, j :: 0 <= i < j < |notify| ==> Before(notify[i], notify[j])
  }

  /** The timer list after its i-th timer has fired once. */
  function FireOnce(ts: seq<Timer>, i: nat): seq<Timer>
    requires i < |ts|
  {
    if ts[i].period != ONE_SHOT
    then ts[i := ts[i].(expireTime := ts[i].expireTime + ts[i].period)]
    else ts[..i] + ts[i + 1..]
  }

  // ---------------------------------------------------------------------

  lemma FiringsUnfold(t: Timer, now: int)
    requires t.period > 0 && Due(t, now)
    ensures t.period == ONE_SHOT ==> Firings(t, now) == [t]
    ensures t.period != ONE_SHOT ==>
      var next := t.(expireTime := t.expireTime + t.period);
      && Firings(t, now) == [t] + Firings(next, now)
      && Fires(t, now) == 1 + Fires(next, now)
      && Remains(t, now) == Remains(next, now)
  {
    assert t.(expireTime := t.expireTime + 0 * t.period) == t;
    if t.period != ONE_SHOT {
      var next := t.(expireTime := t.expireTime + t.period);
      DivideOnce(now - t.expireTime, t.period);
      assert Fires(t, now) == 1 + Fires(next, now);
      forall k | 0 < k < Fires(t, now)
        ensures Firings(t, now)[k] == Firings(next, now)[k - 1]
      {
        assert t.expireTime + k * t.period == next.expireTime + (k - 1) * t.period;
      }
      assert Fires(t, now) * t.period == t.period + Fires(next, now) * t.period;
      assert Fires(next, now) == 0 ==> Fires(next, now) * t.period == 0;
    }
  }

  /**
   In a pass a periodic timer fires at exactly those of its times, one period apart,
   that have come, and stays with the first that has not; a one-shot that is due fires
   once and goes.
   */
  lemma FiringsExactly(t: Timer, now: int)
    requires t.period > 0
    ensures t.period == ONE_SHOT ==>
      if now >= t.expireTime then Firings(t, now) == [t] && Remains(t, now) == []
      else Firings(t, now) == [] && Remains(t, now) == [t]
    ensures t.period != ONE_SHOT ==>
      var n := |Firings(t, now)|;
      && (forall k: nat :: k < n <==> t.expireTime + k * t.period <= now)
      && (forall k :: 0 <= k < n ==> Firings(t, now)[k] == Timer(t.id, t.period, t.expireTime + k * t.period))
      && Remains(t, now) == [Timer(t.id, t.period, t.expireTime + n * t.period)]
  {
    if t.period == ONE_SHOT {
      assert t.(expireTime := t.expireTime + 0 * t.period) == t;
    } else {
      var n := Fires(t, now);
      forall k: nat
        ensures k < n <==> t.expireTime + k * t.period <= now
      {
        TimesUpTo(now - t.expireTime, t.period, k);
      }
      assert n == 0 ==> t.(expireTime := t.expireTime + n * t.period) == t;
    }
  }

  lemma TimesUpTo(x: int, p: int, k: nat)
    requires p > 0
    ensures if x < 0 then k * p > x else k < x / p + 1 <==> k * p <= x
  {
    if x >= 0 {
      var q, r := x / p, x % p;
      assert x == q * p + r;
      assert k * p - q * p == (k - q) * p;
      MulAtLeast(k - q, p);
    } else {
      MulAtLeast(k, p);
    }
  }

  lemma DivideOnce(x: nat, p: int)
    requires p > 0
    ensures x < p ==> x / p == 0
    ensures x >= p ==> x / p == 1 + (x - p) / p
  {
    if x < p {
      DivUnique(x, p, 0, x);
    } else {
      var q, r := (x - p) / p, (x - p) % p;
      assert (1 + q) * p == p + q * p;
      DivUnique(x, p, 1 + q, r);
    }
  }

  lemma FireOnceWellFormed(ts: seq<Timer>, i: nat, now: int)
    requires WellFormed(ts, now) && i < |ts| && Due(ts[i], now)
    ensures WellFormed(FireOnce(ts, i), now)
  {
  }

  lemma FireOnceIds(ts: seq<Timer>, i: nat, bound: int)
    requires i < |ts| && IdsBelow(ts, bound)
    ensures IdsBelow(FireOnce(ts, i), bound)
  {
  }

  lemma {:induction false} FireOnceRemains(ts: seq<Timer>, i: nat, now: int)
    requires WellFormed(ts, now) && i < |ts| && Due(ts[i], now) && WellFormed(FireOnce(ts, i), now)
    ensures RemainsAll(FireOnce(ts, i), now) == RemainsAll(ts, now)
    ensures TotalFires(FireOnce(ts, i), now) + 1 == TotalFires(ts, now)
  {
    var fired := FireOnce(ts, i);
    if i == 0 {
      FiringsUnfold(ts[0], now);
      assert fired == ts[1..] || fired[1..] == ts[1..];
    } else {
      FireOnceWellFormed(ts[1..], i - 1, now);
      FireOnceRemains(ts[1..], i - 1, now);
      FireOnceTail(ts, i);
    }
  }

  lemma {:induction false} FireOnceFirings(ts: seq<Timer>, i: nat, now: int, id: int)
    requires WellFormed(ts, now) && i < |ts| && Due(ts[i], now) && WellFormed(FireOnce(ts, i), now)
    ensures FiringsOf(ts, id, now) == (if id == ts[i].id then [ts[i]] else []) + FiringsOf(FireOnce(ts, i), id, now)
  {
    hide Fires, Firings, FiringsOf, FireOnce;
    if i == 0 {
      FirstFires(ts, now, id);
    } else {
      FireOnceWellFormed(ts[1..], i - 1, now);
      FireOnceFirings(ts[1..], i - 1, now, id);
      FireOnceTail(ts, i);
      FiringsOfTail(ts, id, now);
      FiringsOfTail(FireOnce(ts, i), id, now);
    }
  }

  lemma FireOnceTail(ts: seq<Timer>, i: nat)
    requires 0 < i < |ts|
    ensures var fired := FireOnce(ts, i);
      fired != [] && fired[0] == ts[0] && fired[1..] == FireOnce(ts[1..], i - 1)
  {
    UpdateTail(ts, i, ts[i].(expireTime := ts[i].expireTime + ts[i].period));
    RemoveTail(ts, i);
  }

  lemma UpdateTail(ts: seq<Timer>, i: nat, t: Timer)
    requires 0 < i < |ts|
    ensures ts[i := t][1..] == ts[1..][i - 1 := t]
  {
  }

  lemma RemoveTail(ts: seq<Timer>, i: nat)
    requires 0 < i < |ts|
    ensures (ts[..i] + ts[i + 1..])[1..] == ts[1..][..i - 1] + ts[1..][i..]
  {
  }

  lemma FiringsOfTail(ts: seq<Timer>, id: int, now: int)
    requires AllEnd(ts, now) && ts != []
    ensures FiringsOf(ts, id, now) == if ts[0].id == id then Firings(ts[0], now) else FiringsOf(ts[1..], id, now)
  {
  }

  lemma FirstFires(ts: seq<Timer>, now: int, id: int)
    requires WellFormed(ts, now) && 0 < |ts| && Due(ts[0], now) && WellFormed(FireOnce(ts, 0), now)
    ensures FiringsOf(ts, id, now) == (if id == ts[0].id then [ts[0]] else []) + FiringsOf(FireOnce(ts, 0), id, now)
  {
    hide Fires, Firings;
    FiringsUnfold(ts[0], now);
    var fired := FireOnce(ts, 0);
    if ts[0].period == ONE_SHOT {
      assert fired == ts[1..];
      NoFirings(ts[1..], ts[0].id, now);
    } else {
      assert fired[0] == ts[0].(expireTime := ts[0].expireTime + ts[0].period);
      assert fired[1..] == ts[1..];
    }
  }

  lemma {:induction false} NoFirings(ts: seq<Timer>, id: int, now: int)
    requires AllEnd(ts, now)
    requires forall i :: 0 <= i < |ts| ==> ts[i].id != id
    ensures FiringsOf(ts, id, now) == []
  {
    if ts == [] {
    } else {
      NoFirings(ts[1..], id, now);
    }
  }

  lemma {:induction false} NoneDue(ts: seq<Timer>, now: int)
    requires WellFormed(ts, now)
    requires forall i :: 0 <= i < |ts| ==> !Due(ts[i], now)
    ensures RemainsAll(ts, now) == ts
    ensures forall id :: FiringsOf(ts, id, now) == []
  {
    if ts == [] {
    } else {
      NoneDue(ts[1..], now);
    }
  }

  /** A pass leaves no timer due. */
  lemma {:induction false} RemainsNotDue(ts: seq<Timer>, now: int)
    requires AllEnd(ts, now)
    ensures forall t :: t in RemainsAll(ts, now) ==> !Due(t, now)
  {
    if ts == [] {
    } else {
      RemainsNotDue(ts[1..], now);
      if Due(ts[0], now) && ts[0].period != ONE_SHOT {
        FloorBound(now - ts[0].expireTime, ts[0].period);
      }
    }
  }

  lemma FloorBound(x: nat, p: int)
    requires p > 0
    ensures x < (x / p + 1) * p
  {
  }

  lemma OfAppend(notify: seq<Timer>, t: Timer, id: int)
    ensures Of(notify + [t], id) == if t.id == id then Of(notify, id) + [t] else Of(notify, id)
  {
  }

  /** `first` is the earliest timer, the first of several, or the end of an empty list. */
  ghost predicate Earliest(ts: seq<Timer>, first: nat) {
    && first <= |ts| && (first == |ts| <==> ts == [])
    && (forall j :: 0 <= j < |ts| ==> ts[first].expireTime <= ts[j].expireTime)
    && (forall j :: 0 <= j < first < |ts| ==> ts[first].expireTime < ts[j].expireTime)
  }

  /** What is listed and what is still due make up what was due. */
  ghost predicate FiringsSplit(start: seq<Timer>, ts: seq<Timer>, notify: seq<Timer>, now: int)
    requires WellFormed(start, now) && WellFormed(ts, now)
  {
    forall id :: FiringsOf(start, id, now) == Of(notify, id) + FiringsOf(ts, id, now)
  }

  /** Nothing listed is due later than anything that is left. */
  ghost predicate ListedFirst(ts: seq<Timer>, notify: seq<Timer>) {
    && InDueOrder(notify)
    && (forall i, j :: 0 <= i < |notify| && 0 <= j < |ts| ==> Before(notify[i], ts[j]))
  }

  /** In the middle of a pass. */
  ghost predicate PassInv(start: seq<Timer>, ts: seq<Timer>, notify: seq<Timer>, now: int) {
    && WellFormed(start, now) && WellFormed(ts, now)
    && RemainsAll(ts, now) == RemainsAll(start, now)
    && FiringsSplit(start, ts, notify, now)
    && ListedFirst(ts, notify)
  }

  lemma PassStart(ts: seq<Timer>, now: int)
    requires WellFormed(ts, now)
    ensures PassInv(ts, ts, [], now)
  {
  }

  lemma PassStep(start: seq<Timer>, ts: seq<Timer>, notify: seq<Timer>, first: nat, now: int)
    requires PassInv(start, ts, notify, now)
    requires first < |ts| && Due(ts[first], now) && Earliest(ts, first)
    ensures PassInv(start, FireOnce(ts, first), notify + [ts[first]], now)
    ensures TotalFires(FireOnce(ts, first), now) < TotalFires(ts, now)
  {
    FireOnceWellFormed(ts, first, now);
    FireOnceRemains(ts, first, now);
    FireOnceSplit(start, ts, notify, first, now);
    FireOnceListed(ts, notify, first, now);
  }

  lemma FireOnceSplit(start: seq<Timer>, ts: seq<Timer>, notify: seq<Timer>, first: nat, now: int)
    requires WellFormed(start, now) && WellFormed(ts, now) && FiringsSplit(start, ts, notify, now)
    requires first < |ts| && Due(ts[first], now) && WellFormed(FireOnce(ts, first), now)
    ensures FiringsSplit(start, FireOnce(ts, first), notify + [ts[first]], now)
  {
    forall id
      ensures FiringsOf(start, id, now) == Of(notify + [ts[first]], id) + FiringsOf(FireOnce(ts, first), id, now)
    {
      OfAppend(notify, ts[first], id);
      FireOnceFirings(ts, first, now, id);
    }
  }

  lemma FireOnceListed(ts: seq<Timer>, notify: seq<Timer>, first: nat, now: int)
    requires WellFormed(ts, now) && ListedFirst(ts, notify)
    requires first < |ts| && Earliest(ts, first) && Due(ts[first], now)
    ensures ListedFirst(FireOnce(ts, first), notify + [ts[first]])
  {
  }

  lemma PassDone(start: seq<Timer>, ts: seq<Timer>, notify: seq<Timer>, first: nat, now: int)
    requires PassInv(start, ts, notify, now) && Earliest(ts, first)
    requires first < |ts| ==> !Due(ts[first], now)
    ensures ts == RemainsAll(start, now)
    ensures forall t :: t in ts ==> !Due(t, now)
    ensures forall id :: Of(notify, id) == FiringsOf(start, id, now)
    ensures InDueOrder(notify)
  {
    NoneDue(ts, now);
    forall id
      ensures Of(notify, id) == FiringsOf(start, id, now)
    {
      assert FiringsOf(start, id, now) == Of(notify, id) + FiringsOf(ts, id, now);
    }
  }

  /**
   A due timer whose period is not positive is still due when it has fired: with one
   in the list the loop condition holds in every round, and the pass never ends.
   */
  lemma StaysDue(ts: seq<Timer>, first: nat, now: int)
    requires !AllEnd(ts, now) && Earliest(ts, first)
    ensures first < |ts| && Due(ts[first], now)
    ensures !AllEnd(FireOnce(ts, first), now)
  {
    var i :| 0 <= i < |ts| && !Ends(ts[i], now);
    var fired := FireOnce(ts, first);
    var k := if i <= first || |fired| == |ts| then i else i - 1;
    assert !Ends(fired[k], now);
  }

  /** The timer of that id was the i-th, and it alone is gone. */
  predicate RemovedOnly(before: seq<Timer>, after: seq<Timer>, i: int, id: int) {
    0 <= i < |before| && before[i].id == id && after == before[..i] + before[i + 1..]
  }

  /** Removing a timer keeps the order, and nothing of it is left. */
  lemma RemovedAt(ts: seq<Timer>, i: nat, bound: int)
    requires i < |ts| && IdsAscend(ts) && IdsBelow(ts, bound)
    ensures var left := ts[..i] + ts[i + 1..];
      IdsAscend(left) && IdsBelow(left, bound) && forall t :: t in left ==> t.id != ts[i].id
  {
  }

  // ---------------------------------------------------------------------

  class Scheduler {
    var timers: seq<Timer>
    var nextTimerId: int

    ghost predicate Valid()
      reads this
    {
      IdsAscend(timers) && IdsBelow(timers, nextTimerId)
    }

    constructor ()
      ensures Valid() && timers == []
    {
      timers := [];
      nextTimerId := 1;
    }

    method AddTimer(now: int, duration: int) returns (id: int)
      requires Valid()
      modifies this
      ensures Valid()
      ensures timers == old(timers) + [Timer(id, ONE_SHOT, now + duration)]
      ensures forall t :: t in old(timers) ==> t.id != id
    {
      id := nextTimerId;
      nextTimerId := nextTimerId + 1;
      timers := timers + [Timer(id, ONE_SHOT, now + duration)];
    }

    method AddPeriodicTimer(now: int, period: int) returns (id: int)
      requires Valid()
      modifies this
      ensures Valid()
      ensures timers == old(timers) + [Timer(id, period, now + period)]
      ensures forall t :: t in old(timers) ==> t.id != id
    {
      id := nextTimerId;
      nextTimerId := nextTimerId + 1;
      timers := timers + [Timer(id, period, now + period)];
    }

    /** Removes the timer if it is there; a one-shot that has fired is not. */
    method CancelTimer(id: int)
      requires Valid()
      modifies this
      ensures Valid()
      ensures forall t :: t in timers ==> t.id != id
      ensures timers == old(timers) || exists i :: RemovedOnly(old(timers), timers, i, id)
    {
      hide IdsAscend, IdsBelow;
      var i := 0;
      while i < |timers| && timers[i].id != id
        invariant 0 <= i <= |timers|
        invariant forall j :: 0 <= j < i ==> timers[j].id != id
      {
        i := i + 1;
      }
      if i < |timers| {
        RemovedAt(timers, i, nextTimerId);
        timers := timers[..i] + timers[i + 1..];
        assert RemovedOnly(old(timers), timers, i, id);
      }
    }

    /** `std::min_element` on the due time: the first of the earliest timers, or the end. */
    method GetFirstExpiringTimer() returns (first: nat)
      ensures Earliest(timers, first)
    {
      first := 0;
      for k := 0 to |timers|
        invariant first <= |timers| && (first == |timers| <==> timers == [])
        invariant forall j :: 0 <= j < k ==> timers[first].expireTime <= timers[j].expireTime
        invariant forall j :: 0 <= j < first ==> timers[first].expireTime < timers[j].expireTime
      {
        if timers[k].expireTime < timers[first].expireTime {
          first := k;
        }
      }
    }

    /**
     One pass at time `now`, which ends exactly because every due timer does. The
     notify list, whose callbacks are then run in order, is in due order, timers due
     at the same instant in the order in which they were added, and holds for each
     timer exactly its firings; the timers left are those not due, unchanged, and the
     periodic ones advanced past `now`.
     */
    method HandleTimers(now: int) returns (notify: seq<Timer>)
      requires Valid() && AllEnd(timers, now)
      modifies this
      ensures Valid()
      ensures timers == RemainsAll(old(timers), now)
      ensures forall t :: t in timers ==> !Due(t, now)
      ensures forall id :: Of(notify, id) == FiringsOf(old(timers), id, now)
      ensures InDueOrder(notify)
    {
      hide RemainsAll, TotalFires, FiringsSplit, ListedFirst, FiringsOf;
      notify := [];
      PassStart(timers, now);
      var first: nat := GetFirstExpiringTimer();
      while first < |timers| && now >= timers[first].expireTime
        invariant Earliest(timers, first)
        invariant PassInv(old(timers), timers, notify, now)
        invariant IdsBelow(timers, nextTimerId)
        decreases TotalFires(timers, now)
      {
        PassStep(old(timers), timers, notify, first, now);
        FireOnceIds(timers, first, nextTimerId);
        notify := notify + [timers[first]];
        ghost var fired := FireOnce(timers, first);
        if timers[first].period != ONE_SHOT {
          timers := timers[first := timers[first].(expireTime := timers[first].expireTime + timers[first].period)];
        } else {
          timers := timers[..first] + timers[first + 1..];
        }
        assert timers == fired;
        first := GetFirstExpiringTimer();
      }
      PassDone(old(timers), timers, notify, first, now);
    }
  }
}
