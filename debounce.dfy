/**
 The `debounce` helper of the Pokemon list page: a wrapper around a function
 `func` and a delay. Every call of the wrapper cancels the timer it set before
 (if any) and sets a new one that, `delay` milliseconds later, calls `func` with
 the arguments of that call. Time is discrete: each event carries the clock
 reading `at` (in milliseconds) at which it happens, and a timer whose deadline
 has come fires at the first `TickAt` event that reads the clock at or after it.
 */
module Debounce {

  datatype Option<T> = None | Some(value: T)

  /** The one scheduled `setTimeout`: the arguments it will pass and when it fires. */
  datatype Task<A> = Task(arg: A, deadline: int)

  /** What the outside world does to a debounced function: call it, or let time pass. */
  datatype Event<A> = CallAt(arg: A, at: int) | TickAt(at: int)

  /** One invocation of `func`: the arguments it received and the clock reading. */
  datatype Firing<A> = Firing(arg: A, at: int)

  /** The pending timer (if any) and every invocation of `func` so far, in order. */
  datatype Trace<A> = Trace(pending: Option<Task<A>>, firings: seq<Firing<A>>)

  /** The delay used by the list page's search box. */
  const SearchDelay: nat := 300

  // ---------------------------------------------------------------------------
  // Semantics
  // ---------------------------------------------------------------------------

  /**
   One event. A call clears the pending timer and schedules a fresh one for
   `at + delay`; a tick fires the pending timer when its deadline has come, and
   the timer is then spent.
   */
  function Step<A>(pending: Option<Task<A>>, e: Event<A>, delay: nat): Trace<A>
  {
    match e
    case CallAt(arg, at) => Trace(Some(Task(arg, at + delay)), [])
    case TickAt(at) =>
      if pending.Some? && at >= pending.value.deadline
      then Trace(None, [Firing(pending.value.arg, at)])
      else Trace(pending, [])
  }

  /** A freshly created debounced function (no timer) driven by `events` in order. */
  function Run<A>(events: seq<Event<A>>, delay: nat): Trace<A>
  {
    if events == [] then Trace(None, [])
    else
      var before := Run(events[..|events| - 1], delay);
      var last := Step(before.pending, events[|events| - 1], delay);
      Trace(last.pending, before.firings + last.firings)
  }

  // ---------------------------------------------------------------------------
  // Reference description
  // ---------------------------------------------------------------------------

  /** The position of the most recent call, if there was one. */
  function LastCall<A>(events: seq<Event<A>>): (r: Option<nat>)
    ensures r.None? ==> forall j :: 0 <= j < |events| ==> events[j].TickAt?
    ensures r.Some? ==> r.value < |events| && events[r.value].CallAt?
    ensures r.Some? ==> forall j :: r.value < j < |events| ==> events[j].TickAt?
  {
    if events == [] then None
    else if events[|events| - 1].CallAt? then Some(|events| - 1)
    else LastCall(events[..|events| - 1])
  }

  /** The task the most recent call scheduled, if there was a call. */
  function LastTask<A>(events: seq<Event<A>>, delay: nat): Option<Task<A>>
  {
    match LastCall(events)
    case None => None
    case Some(i) => Some(Task(events[i].arg, events[i].at + delay))
  }

  /** Some tick after the most recent call came at or after that call's deadline. */
  ghost predicate DeadlineReached<A>(events: seq<Event<A>>, delay: nat)
  {
    LastCall(events).Some? &&
    exists j :: LastCall(events).value < j < |events| && events[j].at >= LastTask(events, delay).value.deadline
  }

  /** Every clock reading is at least the one before it. */
  ghost predicate Chronological<A>(events: seq<Event<A>>)
  {
    forall i, j :: 0 <= i < j < |events| ==> events[i].at <= events[j].at
  }

  /** A burst: each call comes less than `delay` after the call before it. */
  ghost predicate Burst<A>(events: seq<Event<A>>, delay: nat)
  {
    events == [] ||
    var before := events[..|events| - 1];
    && Burst(before, delay)
    && (events[|events| - 1].CallAt? && LastCall(before).Some? ==>
          events[|events| - 1].at < LastTask(before, delay).value.deadline)
  }

  // ---------------------------------------------------------------------------
  // Properties
  // ---------------------------------------------------------------------------

  /** Running one more event is one more `Step` after the run so far. */
  lemma RunSnoc<A>(events: seq<Event<A>>, e: Event<A>, delay: nat) returns (evs: seq<Event<A>>)
    ensures evs == events + [e]
    ensures var before := Run(events, delay);
      var last := Step(before.pending, e, delay);
      Run(evs, delay) == Trace(last.pending, before.firings + last.firings)
  {
    evs := events + [e];
    assert evs[..|events|] == events;
  }

  /** One tick after a prefix: the deadline is reached exactly when it was already, or this tick reaches it. */
  lemma DeadlineReachedTick<A>(events: seq<Event<A>>, at: int, delay: nat)
    ensures var evs := events + [TickAt(at)];
      DeadlineReached(evs, delay) <==>
      DeadlineReached(events, delay) || (LastCall(events).Some? && at >= LastTask(events, delay).value.deadline)
  {
    var evs := events + [TickAt(at)];
    assert evs[..|events|] == events;
    if LastCall(events).Some? {
      var i := LastCall(events).value;
      var d := LastTask(events, delay).value.deadline;
      if DeadlineReached(evs, delay) && !(at >= d) {
        var j :| i < j < |evs| && evs[j].at >= d;
        assert j < |events| && events[j] == evs[j];
      }
      if DeadlineReached(events, delay) {
        var j :| i < j < |events| && events[j].at >= d;
        assert evs[j] == events[j];
      }
      if at >= d {
        assert evs[|events|].at >= d;
      }
    }
  }

  /**
   At most one timer is ever pending, and it is the one the most recent call
   set, until a tick at or after its deadline has fired it.
   */
  lemma {:induction false} PendingIsLastCall<A>(events: seq<Event<A>>, delay: nat)
    ensures Run(events, delay).pending == if DeadlineReached(events, delay) then None else LastTask(events, delay)
  {
    if events != [] {
      var before := events[..|events| - 1];
      var e := events[|events| - 1];
      assert events == before + [e];
      PendingIsLastCall(before, delay);
      match e
      case CallAt(arg, at) =>
        assert !DeadlineReached(events, delay);
      case TickAt(at) =>
        DeadlineReachedTick(before, at, delay);
    }
  }

  /**
   Last call wins: a tick adds at most one invocation of `func`, and when it
   adds one, that invocation receives the arguments of the most recent call,
   no earlier than `delay` after that call.
   */
  lemma TickDeliversLastCall<A>(events: seq<Event<A>>, at: int, delay: nat)
    ensures var before := Run(events, delay).firings;
      var after := Run(events + [TickAt(at)], delay).firings;
      && before <= after && |after| <= |before| + 1
      && (|after| == |before| + 1 <==>
            LastCall(events).Some? && !DeadlineReached(events, delay) && at >= LastTask(events, delay).value.deadline)
      && (|after| == |before| + 1 ==> after[|before|] == Firing(LastTask(events, delay).value.arg, at))
  {
    assert (events + [TickAt(at)])[..|events|] == events;
    PendingIsLastCall(events, delay);
  }

  /**
   At most one invocation per quiet period: after the most recent call, any
   number of ticks adds at most one invocation, and it carries that call's
   arguments.
   */
  lemma {:induction false} QuietPeriodFiresOnce<A>(events: seq<Event<A>>, ticks: seq<Event<A>>, delay: nat)
    requires forall k :: 0 <= k < |ticks| ==> ticks[k].TickAt?
    ensures var before := Run(events, delay).firings;
      var after := Run(events + ticks, delay).firings;
      && before <= after && |after| <= |before| + 1
      && (|after| == |before| + 1 ==>
            LastCall(events).Some? && after[|before|].arg == LastTask(events, delay).value.arg)
    decreases |ticks|
  {
    if ticks != [] {
      var init := ticks[..|ticks| - 1];
      var t := ticks[|ticks| - 1];
      assert t == TickAt(t.at);
      assert events + ticks == (events + init) + [t];
      assert (events + ticks)[..|events + ticks| - 1] == events + init;
      QuietPeriodFiresOnce(events, init, delay);
      TickDeliversLastCall(events + init, t.at, delay);
      LastCallOverTicks(events, init);
      var mid := Run(events + init, delay).firings;
      var before := Run(events, delay).firings;
      if |mid| == |before| + 1 {
        DeadlineReachedOverTicks(events, init, delay);
      }
    } else {
      assert events + ticks == events;
    }
  }

  /** Ticks do not change which call was the most recent. */
  lemma {:induction false} LastCallOverTicks<A>(events: seq<Event<A>>, ticks: seq<Event<A>>)
    requires forall k :: 0 <= k < |ticks| ==> ticks[k].TickAt?
    ensures LastCall(events + ticks) == LastCall(events)
    decreases |ticks|
  {
    if ticks != [] {
      var init := ticks[..|ticks| - 1];
      assert (events + ticks)[..|events + ticks| - 1] == events + init;
      assert (events + ticks)[|events + ticks| - 1] == ticks[|ticks| - 1];
      assert ticks[|ticks| - 1].TickAt?;
      LastCallOverTicks(events, init);
    } else {
      assert events + ticks == events;
    }
  }

  /**
   When ticks after the last call have made it fire, the deadline was reached
   by then (so no further tick fires again).
   */
  lemma DeadlineReachedOverTicks<A>(events: seq<Event<A>>, ticks: seq<Event<A>>, delay: nat)
    requires forall k :: 0 <= k < |ticks| ==> ticks[k].TickAt?
    requires |Run(events + ticks, delay).firings| == |Run(events, delay).firings| + 1
    ensures DeadlineReached(events + ticks, delay)
  {
    LastCallOverTicks(events, ticks);
    PendingIsLastCall(events, delay);
    PendingIsLastCall(events + ticks, delay);
    if !DeadlineReached(events + ticks, delay) {
      NoFiringBeforeDeadline(events, ticks, delay);
    }
  }

  /** While the deadline is not reached, ticks after the last call add no invocation. */
  lemma {:induction false} NoFiringBeforeDeadline<A>(events: seq<Event<A>>, ticks: seq<Event<A>>, delay: nat)
    requires forall k :: 0 <= k < |ticks| ==> ticks[k].TickAt?
    requires !DeadlineReached(events + ticks, delay)
    ensures Run(events + ticks, delay).firings == Run(events, delay).firings
    decreases |ticks|
  {
    if ticks != [] {
      var init := ticks[..|ticks| - 1];
      var t := ticks[|ticks| - 1];
      assert t == TickAt(t.at);
      assert events + ticks == (events + init) + [t];
      assert (events + ticks)[..|events + ticks| - 1] == events + init;
      LastCallOverTicks(events, init);
      DeadlineReachedTick(events + init, t.at, delay);
      NoFiringBeforeDeadline(events, init, delay);
      TickDeliversLastCall(events + init, t.at, delay);
    } else {
      assert events + ticks == events;
    }
  }

  /**
   A burst of calls, each less than `delay` after the previous one, with ticks
   in between: `func` runs at most once, exactly when some tick comes at or
   after the last call's deadline, with the last call's arguments, and never
   earlier than `delay` after the last call.
   */
  lemma {:induction false} BurstFiresOnce<A>(events: seq<Event<A>>, delay: nat)
    requires Chronological(events) && Burst(events, delay)
    ensures var fs := Run(events, delay).firings;
      && |fs| <= 1
      && (|fs| == 1 <==> DeadlineReached(events, delay))
      && (|fs| == 1 ==> fs[0].arg == LastTask(events, delay).value.arg
                        && fs[0].at >= LastTask(events, delay).value.deadline)
  {
    if events != [] {
      var before := events[..|events| - 1];
      var e := events[|events| - 1];
      assert events == before + [e];
      assert Chronological(before);
      BurstFiresOnce(before, delay);
      match e
      case CallAt(arg, at) =>
        assert !DeadlineReached(events, delay);
      case TickAt(at) =>
        TickDeliversLastCall(before, at, delay);
        DeadlineReachedTick(before, at, delay);
        if DeadlineReached(before, delay) {
          assert |Run(events, delay).firings| == 1;
        }
    }
  }

  /**
   Typing "pika", "pikac", "pikach" within 300 ms runs the filter once, with
   "pikach", 300 ms after the last keystroke; later ticks run nothing.
   */
  lemma TypingBurst()
    ensures Run([CallAt("pika", 0), CallAt("pikac", 100), TickAt(150), CallAt("pikach", 200),
                 TickAt(499), TickAt(500), TickAt(800)], SearchDelay).firings == [Firing("pikach", 500)]
  {
    var e0: seq<Event<string>> := [];
    var e1 := RunSnoc(e0, CallAt("pika", 0), SearchDelay);
    var e2 := RunSnoc(e1, CallAt("pikac", 100), SearchDelay);
    var e3 := RunSnoc(e2, TickAt(150), SearchDelay);
    var e4 := RunSnoc(e3, CallAt("pikach", 200), SearchDelay);
    var e5 := RunSnoc(e4, TickAt(499), SearchDelay);
    var e6 := RunSnoc(e5, TickAt(500), SearchDelay);
    var e7 := RunSnoc(e6, TickAt(800), SearchDelay);
    assert Run(e4, SearchDelay).pending == Some(Task("pikach", 500));
    assert Run(e6, SearchDelay).firings == [Firing("pikach", 500)];
    assert e7 == [CallAt("pika", 0), CallAt("pikac", 100), TickAt(150), CallAt("pikach", 200),
                  TickAt(499), TickAt(500), TickAt(800)];
  }

  // ---------------------------------------------------------------------------
  // The debounced function as an object
  // ---------------------------------------------------------------------------

  /**
   The closure `debounce(func, delay)` returns, with its captured `timeoutId`:
   `pending` is the scheduled timer together with the arguments it will pass.
   The ghost `history` and `delivered` record what happened to it so far.
   */
  class Debouncer<A> {
    const delay: nat
    var pending: Option<Task<A>>
    ghost var history: seq<Event<A>>
    ghost var delivered: seq<Firing<A>>

    /** The object is in the state that running its history gives. */
    ghost predicate Valid()
      reads this
    {
      Run(history, delay) == Trace(pending, delivered)
    }

    /** `debounce(func, delay)`: no timer yet. */
    constructor (delay: nat)
      ensures Valid() && this.delay == delay
      ensures pending == None && history == [] && delivered == []
    {
      this.delay := delay;
      pending := None;
      history := [];
      delivered := [];
    }

    /** A call of the debounced function: cancel-and-replace the pending timer. */
    method Call(arg: A, now: int)
      requires Valid()
      modifies this
      ensures Valid()
      ensures history == old(history) + [CallAt(arg, now)]
      ensures pending == Some(Task(arg, now + delay))
      ensures delivered == old(delivered)
    {
      // clearTimeout(timeoutId), then a fresh setTimeout in its place
      pending := Some(Task(arg, now + delay));
      history := history + [CallAt(arg, now)];
      assert history[..|history| - 1] == old(history);
    }

    /**
     The clock reads `now`: the pending timer fires if its deadline has come,
     and `fired` is what `func` receives: the arguments of the most recent call.
     */
    method Tick(now: int) returns (fired: Option<A>)
      requires Valid()
      modifies this
      ensures Valid()
      ensures history == old(history) + [TickAt(now)]
      ensures fired.Some? <==> old(pending).Some? && now >= old(pending).value.deadline
      ensures fired.Some? ==> pending == None && delivered == old(delivered) + [Firing(fired.value, now)]
      ensures fired.None? ==> pending == old(pending) && delivered == old(delivered)
      ensures fired.Some? ==> LastCall(old(history)).Some? && fired == Some(LastTask(old(history), delay).value.arg)
    {
      PendingIsLastCall(history, delay);
      if pending.Some? && now >= pending.value.deadline {
        fired := Some(pending.value.arg);
        delivered := delivered + [Firing(pending.value.arg, now)];
        pending := None;
      } else {
        fired := None;
      }
      history := history + [TickAt(now)];
      assert history[..|history| - 1] == old(history);
    }
  }
}
