/** The debounce of `scheduleCompile` in main.js: every edit clears the timer
    held in `compileTimer` and arms a new 500 ms one in its place.  Time is not
    modelled, only which timers the browser still holds: a timer either fires
    (the `Elapse` event) or is cleared before it can. */
module Debounce {
  import opened Wrappers

  /** `compileTimer` (the handle last returned by `setTimeout`), the timers
      that are armed (neither fired nor cleared) and the next handle. */
  datatype Timers = Timers(compileTimer: Option<nat>, armed: set<nat>, nextId: nat)

  function Held(t: Timers): set<nat>
  {
    if t.compileTimer.Some? then {t.compileTimer.value} else {}
  }

  /** Only the timer in `compileTimer` can still be armed, and no handle is
      ahead of the counter. */
  ghost predicate Inv(t: Timers)
  {
    && t.armed <= Held(t)
    && (t.compileTimer.Some? ==> t.compileTimer.value < t.nextId)
  }

  /** No timer armed and none held: the state before the first edit. */
  function Initial(): (t: Timers)
    ensures Inv(t) && t.armed == {}
    ensures t.compileTimer.None?
  {
    Timers(None, {}, 1)
  }

  /** `clearTimeout(compileTimer); compileTimer = setTimeout(compile, 500)`. */
  function Schedule(t: Timers): (r: Timers)
    ensures r.compileTimer == Some(t.nextId) && r.nextId == t.nextId + 1
    ensures Inv(t) ==> Inv(r) && r.armed == {t.nextId}
  {
    var cleared := t.armed - Held(t);
    Timers(Some(t.nextId), cleared + {t.nextId}, t.nextId + 1)
  }

  /** The timer `id` elapses: if it is still armed it is used up and the
      compile runs (`true`); a cleared timer does nothing. */
  function Fire(t: Timers, id: nat): (Timers, bool)
  {
    if id in t.armed then (t.(armed := t.armed - {id}), true) else (t, false)
  }

  /** A timer that fires is the one armed by the most recent edit. */
  lemma FireOnlyLatest(t: Timers, id: nat)
    requires Inv(t)
    ensures Fire(t, id).1 ==> t.compileTimer == Some(id)
    ensures Inv(Fire(t, id).0)
    ensures Fire(t, id).1 ==> Fire(t, id).0.armed == {}
  {
  }

  /** Under the invariant at most one compile is pending. */
  lemma AtMostOnePending(t: Timers)
    requires Inv(t)
    ensures |t.armed| <= 1
  {
    if t.compileTimer.Some? {
      var x := t.compileTimer.value;
      assert t.armed == {} || t.armed == {x};
    } else {
      assert t.armed == {};
    }
  }

  datatype Event = Edit | Elapse(id: nat)

  /** The timers after a sequence of edits and elapsed timers. */
  function Run(t: Timers, events: seq<Event>): Timers
    decreases |events|
  {
    if events == [] then t
    else
      var t' := match events[0]
        case Edit => Schedule(t)
        case Elapse(id) => Fire(t, id).0;
      Run(t', events[1..])
  }

  /** The number of compiles a sequence of events triggers. */
  function Compiles(t: Timers, events: seq<Event>): nat
    decreases |events|
  {
    if events == [] then 0
    else match events[0]
      case Edit => Compiles(Schedule(t), events[1..])
      case Elapse(id) => (if Fire(t, id).1 then 1 else 0) + Compiles(Fire(t, id).0, events[1..])
  }

  /** Whatever happens, at most one compile stays pending. */
  lemma {:induction false} RunKeepsInv(t: Timers, events: seq<Event>)
    requires Inv(t)
    ensures Inv(Run(t, events))
    ensures |Run(t, events).armed| <= 1
    decreases |events|
  {
    if events == [] {
      AtMostOnePending(t);
    } else {
      match events[0]
      case Edit =>
        RunKeepsInv(Schedule(t), events[1..]);
      case Elapse(id) =>
        FireOnlyLatest(t, id);
        RunKeepsInv(Fire(t, id).0, events[1..]);
    }
  }

  /** `n` edits in a row. */
  function Burst(n: nat): (events: seq<Event>)
    ensures |events| == n && forall k :: 0 <= k < n ==> events[k] == Edit
  {
    if n == 0 then [] else [Edit] + Burst(n - 1)
  }

  /** After a burst of `n` edits only the last one's timer is armed, and the
      burst itself compiles nothing. */
  lemma {:induction false} BurstArmsOnlyLast(t: Timers, n: nat)
    requires Inv(t) && n > 0
    ensures Run(t, Burst(n)).armed == {t.nextId + n - 1}
    ensures Run(t, Burst(n)).compileTimer == Some(t.nextId + n - 1)
    ensures Run(t, Burst(n)).nextId == t.nextId + n
    ensures Compiles(t, Burst(n)) == 0
    decreases n
  {
    var b := Burst(n);
    assert b[0] == Edit && b[1..] == Burst(n - 1);
    if n > 1 {
      BurstArmsOnlyLast(Schedule(t), n - 1);
    }
  }

  /** The timers of the earlier edits of a burst never compile: once the burst
      is over, every elapse but the last edit's is ignored. */
  lemma {:induction false} StaleTimersIgnored(t: Timers, n: nat, id: nat)
    requires Inv(t) && n > 0 && id != t.nextId + n - 1
    ensures !Fire(Run(t, Burst(n)), id).1
    ensures Fire(Run(t, Burst(n)), t.nextId + n - 1).1
  {
    BurstArmsOnlyLast(t, n);
  }

  /** The number of edits in a sequence of events. */
  function EditCount(events: seq<Event>): nat
    decreases |events|
  {
    if events == [] then 0 else (if events[0].Edit? then 1 else 0) + EditCount(events[1..])
  }

  /** No compile is ever duplicated: a run compiles at most once per edit,
      plus once for a compile already pending when it starts. */
  lemma {:induction false} CompilesBounded(t: Timers, events: seq<Event>)
    requires Inv(t)
    ensures Compiles(t, events) <= EditCount(events) + |t.armed|
    decreases |events|
  {
    if events != [] {
      match events[0]
      case Edit =>
        CompilesBounded(Schedule(t), events[1..]);
      case Elapse(id) =>
        FireOnlyLatest(t, id);
        CompilesBounded(Fire(t, id).0, events[1..]);
        if Fire(t, id).1 {
          assert t.armed == {id};
        }
    }
  }
}
