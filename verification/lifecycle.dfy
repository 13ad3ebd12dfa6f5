/**
 * The whole toast system as a discrete-time state machine: the provider's
 * collection, a millisecond clock, and the deadline of every mounted
 * renderer's pending timer.
 *
 * Events are `addToast` calls, clicks on a toast's close control,
 * programmatic `removeToast` calls, and the clock advancing. When the clock
 * advances, every timer whose deadline has been reached fires and its
 * `onClose` removes its entry; the removal unmounts the renderer, whose
 * cleanup clears its timer, so the entry's deadline disappears with it.
 *
 * At least one `ToastContainer` is assumed mounted under the provider. Every
 * container mounts its renderers at the same clock with the same duration, so
 * one deadline per id stands for all of them, and the later `onClose` calls
 * remove nothing more.
 */
module Lifecycle {
  import opened Wrappers
  import opened ToastContext
  import Toast
  import ToastContainer

  datatype State = State(toasts: seq<Entry>, clock: nat, deadlines: map<Id, nat>)

  datatype Event =
    | Add(request: Request, id: Id)   // `addToast(request)`, with `id` the uuid it draws
    | Close(id: Id)                   // a click on the close control of toast `id`
    | Remove(id: Id)                  // a direct `removeToast(id)`
    | Tick(dt: nat)                   // the clock advances `dt` milliseconds

  /** A freshly mounted provider: no toasts, no timers. */
  function Init(): (s: State)
    ensures Valid(s)
    ensures |s.toasts| == 0 && |s.deadlines| == 0
  {
    State(Initial(), 0, map[])
  }

  /**
   * The state invariant: ids are unique; exactly the entries with a non-zero
   * duration have a pending deadline; and every pending deadline lies in the
   * future of the clock.
   */
  ghost predicate Valid(s: State) {
    && UniqueIds(s.toasts)
    && (forall id | id in s.deadlines :: id in Ids(s.toasts) && s.clock < s.deadlines[id])
    && (forall e | e in s.toasts :: e.id in s.deadlines <==> e.duration != 0)
  }

  /** An `addToast` is only issued with an id not already in the collection. */
  predicate Admissible(s: State, e: Event) {
    e.Add? ==> e.id !in Ids(s.toasts)
  }

  /** The ids whose timers are due once the clock reads `now`. */
  function DueIds(deadlines: map<Id, nat>, now: nat): set<Id> {
    set id | id in deadlines && deadlines[id] <= now
  }

  /**
   * The mounted renderer of entry `x`: its id and duration, and the deadline
   * of its timer if one is pending.
   */
  function RendererOf(s: State, x: Entry): (r: Toast.Renderer)
    ensures r.id == x.id && r.duration == x.duration
    ensures r.pending.Some? <==> x.id in s.deadlines
    ensures r.pending.Some? ==> r.pending.value == s.deadlines[x.id]
  {
    Toast.Renderer(x.id, x.duration, if x.id in s.deadlines then Some(s.deadlines[x.id]) else None)
  }

  /**
   * Removal of one entry, by its close control or by `removeToast`: the entries
   * with the called id leave, the clock stands still, and the removed
   * renderer unmounts, so its timer (and no other) is cleared.
   */
  function Dismiss(s: State, call: Toast.Call): (r: State)
    ensures forall x :: x in r.toasts <==> x in s.toasts && x.id != call.id
    ensures r.clock == s.clock
    ensures forall k :: k in r.deadlines <==> k in s.deadlines && k != call.id
    ensures forall k | k in r.deadlines :: r.deadlines[k] == s.deadlines[k]
  {
    State(ToastContainer.Dispatch(s.toasts, call), s.clock, s.deadlines - {call.id})
  }

  /**
   * One event. Only an add lengthens the collection, by exactly one; only a
   * tick moves the clock, by exactly its length.
   */
  function Step(s: State, e: Event): (r: State)
    ensures r.clock == s.clock + (if e.Tick? then e.dt else 0)
    ensures e.Add? ==> |r.toasts| == |s.toasts| + 1
    ensures !e.Add? ==> |r.toasts| <= |s.toasts|
  {
    match e
    case Add(request, id) =>
      var mounted := Toast.Mount(id, NewEntry(request, id).duration, s.clock);
      var deadlines := if mounted.pending.Some? then s.deadlines[id := mounted.pending.value] else s.deadlines;
      State(AddToast(s.toasts, request, id), s.clock, deadlines)
    case Close(id) =>
      Dismiss(s, Toast.OnClose(id))
    case Remove(id) =>
      Dismiss(s, Toast.OnClose(id))
    case Tick(dt) =>
      Elapse(s, dt)
  }

  /**
   * The clock advances `dt` milliseconds: every timer due by then fires and
   * its entry is removed, and those renderers unmount.
   */
  function Elapse(s: State, dt: nat): (r: State)
    ensures r.clock == s.clock + dt
    ensures forall x :: (x in r.toasts
      <==> x in s.toasts && !(x.id in s.deadlines && s.deadlines[x.id] <= r.clock))
    ensures forall k :: k in r.deadlines <==> k in s.deadlines && r.clock < s.deadlines[k]
    ensures forall k | k in r.deadlines :: r.deadlines[k] == s.deadlines[k]
  {
    var now := s.clock + dt;
    var due := DueIds(s.deadlines, now);
    WithoutMembers(s.toasts, due);
    State(Without(s.toasts, due), now, s.deadlines - due)
  }

  /** A sequence of events, applied in order. */
  function Run(s: State, trace: seq<Event>): State
    decreases |trace|
  {
    if |trace| == 0 then s else Run(Step(s, trace[0]), trace[1..])
  }

  /** Every event of the trace is admissible in the state it is applied to. */
  predicate AdmissibleTrace(s: State, trace: seq<Event>)
    decreases |trace|
  {
    |trace| == 0 || (Admissible(s, trace[0]) && AdmissibleTrace(Step(s, trace[0]), trace[1..]))
  }

  /** The milliseconds a trace lets pass. */
  function Elapsed(trace: seq<Event>): nat
    decreases |trace|
  {
    if |trace| == 0 then 0
    else (if trace[0].Tick? then trace[0].dt else 0) + Elapsed(trace[1..])
  }

  /** No event of the trace adds a toast with id `id`. */
  predicate NoAddOf(trace: seq<Event>, id: Id) {
    forall k | 0 <= k < |trace| :: !(trace[k].Add? && trace[k].id == id)
  }

  /** No event of the trace closes or removes the toast with id `id`. */
  predicate NoDismissOf(trace: seq<Event>, id: Id) {
    forall k | 0 <= k < |trace| :: trace[k] != Close(id) && trace[k] != Remove(id)
  }

  // ---------------------------------------------------------------------------
  // One step
  // ---------------------------------------------------------------------------

  /** An event only keeps entries or adds the one its `addToast` builds; entries never change. */
  lemma StepEntries(s: State, e: Event, x: Entry)
    requires x in Step(s, e).toasts
    ensures x in s.toasts || (e.Add? && x == NewEntry(e.request, e.id))
  {
    if e.Add? {
      assert Step(s, e).toasts == s.toasts + [NewEntry(e.request, e.id)];
    }
  }

  /** An event can only bring in the id its `addToast` draws. */
  lemma StepIds(s: State, e: Event)
    ensures Ids(Step(s, e).toasts) <= Ids(s.toasts) + (if e.Add? then {e.id} else {})
  {
  }

  /** Every event keeps the invariant. */
  lemma StepKeepsValid(s: State, e: Event)
    requires Valid(s) && Admissible(s, e)
    ensures Valid(Step(s, e))
  {
    var t := Step(s, e);
    match e
    case Add(request, id) =>
      AddKeepsUniqueIff(s.toasts, request, id);
      forall x | x in t.toasts ensures x.id in t.deadlines <==> x.duration != 0 {
        StepEntries(s, e, x);
      }
    case Close(id) =>
      WithoutKeepsUnique(s.toasts, {id});
    case Remove(id) =>
      WithoutKeepsUnique(s.toasts, {id});
    case Tick(dt) =>
      WithoutKeepsUnique(s.toasts, DueIds(s.deadlines, s.clock + dt));
      WithoutMembers(s.toasts, DueIds(s.deadlines, s.clock + dt));
  }

  /**
   * A pending deadline never moves: an event other than the toast's own
   * removal or the tick that fires it leaves its deadline as it was, so adding
   * or removing other toasts does not restart its timer.
   */
  lemma DeadlineStable(s: State, e: Event, id: Id)
    requires Valid(s) && Admissible(s, e)
    requires id in s.deadlines
    ensures id in Step(s, e).deadlines ==> Step(s, e).deadlines[id] == s.deadlines[id]
    ensures id !in Step(s, e).deadlines
        <==> e == Close(id) || e == Remove(id) || (e.Tick? && s.deadlines[id] <= s.clock + e.dt)
    ensures id !in Step(s, e).deadlines ==> id !in Ids(Step(s, e).toasts)
  {
  }

  /**
   * `addToast` appends the new entry and mounts its renderer: a timer is
   * pending exactly when the stored duration is non-zero, due that many
   * milliseconds after the add; an omitted duration means 6000.
   */
  lemma AddSchedules(s: State, request: Request, id: Id)
    requires Valid(s) && id !in Ids(s.toasts)
    ensures Step(s, Add(request, id)).toasts == s.toasts + [NewEntry(request, id)]
    ensures id in Step(s, Add(request, id)).deadlines <==> NewEntry(request, id).duration != 0
    ensures id in Step(s, Add(request, id)).deadlines ==>
      Step(s, Add(request, id)).deadlines[id] == s.clock + NewEntry(request, id).duration
    ensures request.duration.None? ==> Step(s, Add(request, id)).deadlines[id] == s.clock + DefaultDuration
    ensures forall k | k in s.deadlines ::
      (k in Step(s, Add(request, id)).deadlines && Step(s, Add(request, id)).deadlines[k] == s.deadlines[k])
  {
  }

  /**
   * Closing a toast removes it at once, whatever its timer state: exactly that
   * entry leaves the collection, the others stay in order, and its pending
   * deadline is dropped so no stale removal can fire later.
   */
  lemma CloseRemovesNow(s: State, i: nat)
    requires Valid(s) && i < |s.toasts|
    ensures Step(s, Close(s.toasts[i].id)).toasts == s.toasts[..i] + s.toasts[i + 1..]
    ensures s.toasts[i].id !in Step(s, Close(s.toasts[i].id)).deadlines
    ensures Step(s, Close(s.toasts[i].id)).clock == s.clock
  {
    RemoveAt(s.toasts, i);
  }

  /** Closing or removing the same toast again changes nothing. */
  lemma DismissIdempotent(s: State, id: Id)
    ensures Step(Step(s, Remove(id)), Remove(id)) == Step(s, Remove(id))
    ensures Step(Step(s, Close(id)), Remove(id)) == Step(s, Close(id))
  {
    RemoveIdempotent(s.toasts, id);
    assert s.deadlines - {id} - {id} == s.deadlines - {id};
  }

  /**
   * When several timers are due, the order in which they fire does not
   * matter: delivering their `onClose` calls in any order leaves the
   * collection the tick leaves.
   */
  lemma TickFiresInAnyOrder(s: State, dt: nat, calls: seq<Toast.Call>)
    requires (set c | c in calls :: c.id) == DueIds(s.deadlines, s.clock + dt)
    ensures ToastContainer.DispatchAll(s.toasts, calls) == Step(s, Tick(dt)).toasts
  {
    ToastContainer.DispatchAllIsWithout(s.toasts, calls);
  }

  /**
   * The state after advancing the clock of `t` until it reads `now`. Stated
   * separately, like `FilterInTwoRounds`, so that `ElapseAdditive` unfolds
   * `Elapse` only where it needs to and stays within the solver's budget.
   */
  lemma ElapseUntil(t: State, dt: nat, now: nat)
    requires now == t.clock + dt
    ensures Elapse(t, dt) == State(Without(t.toasts, DueIds(t.deadlines, now)), now, t.deadlines - DueIds(t.deadlines, now))
  {
  }

  /**
   * Firing the timers due by `lo` and then those due by `hi` fires exactly the
   * timers due by `hi`, and leaves the same timers pending.
   */
  lemma DueInTwoRounds(d: map<Id, nat>, lo: nat, hi: nat)
    requires lo <= hi
    ensures DueIds(d, lo) + DueIds(d - DueIds(d, lo), hi) == DueIds(d, hi)
    ensures (d - DueIds(d, lo)) - DueIds(d - DueIds(d, lo), hi) == d - DueIds(d, hi)
  {
    var early := DueIds(d, lo);
    var rest := d - early;
    var late := DueIds(rest, hi);
    var all := DueIds(d, hi);
    assert early + late == all;
    assert rest - late == d - all;
  }

  /**
   * Filtering by `early` and then by `late` is filtering by their union `all`:
   * `WithoutTwice` with every term named, so `ElapseAdditive` stays cheap.
   */
  lemma FilterInTwoRounds(twice: seq<Entry>, once: seq<Entry>, late: set<Id>, toasts: seq<Entry>, early: set<Id>, all: set<Id>)
    requires once == Without(toasts, early) && twice == Without(once, late)
    requires early + late == all
    ensures twice == Without(toasts, all)
  {
    WithoutTwice(toasts, early, late);
  }

  /**
   * Advancing the clock of `s` by `a` to reach `once`, and then by `b`, is
   * advancing it by `a + b`. The intermediate state is given by its fields.
   */
  lemma ElapseAdditive(s: State, once: State, a: nat, b: nat)
    requires once.clock == s.clock + a
    requires once.deadlines == s.deadlines - DueIds(s.deadlines, s.clock + a)
    requires once.toasts == Without(s.toasts, DueIds(s.deadlines, s.clock + a))
    ensures Elapse(once, b) == Elapse(s, a + b)
  {
    var d := s.deadlines;
    var lo := s.clock + a;
    var hi := lo + b;
    DueInTwoRounds(d, lo, hi);
    ElapseUntil(once, b, hi);
    ElapseUntil(s, a + b, hi);
    FilterInTwoRounds(Elapse(once, b).toasts, once.toasts, DueIds(once.deadlines, hi),
                      s.toasts, DueIds(d, lo), DueIds(d, hi));
  }

  /** Two ticks in a row are one tick of their total length. */
  lemma TickAdditive(s: State, a: nat, b: nat)
    ensures Step(Step(s, Tick(a)), Tick(b)) == Step(s, Tick(a + b))
  {
    ElapseUntil(s, a, s.clock + a);
    ElapseAdditive(s, Step(s, Tick(a)), a, b);
  }

  // ---------------------------------------------------------------------------
  // The deadline map against the renderers
  // ---------------------------------------------------------------------------

  /** A close event is the click on that toast's renderer: its one `onClose` call. */
  lemma CloseIsClick(s: State, x: Entry)
    ensures Step(s, Close(x.id)) == Dismiss(s, Toast.CloseClick(RendererOf(s, x))[0])
  {
  }

  /** Adding a toast mounts its renderer at the current clock. */
  lemma AddMountsRenderer(s: State, request: Request, id: Id)
    requires Valid(s) && id !in Ids(s.toasts)
    ensures RendererOf(Step(s, Add(request, id)), NewEntry(request, id))
         == Toast.Mount(id, NewEntry(request, id).duration, s.clock)
  {
    assert id !in s.deadlines;
  }

  /**
   * A renderer's own timer fires on a tick exactly when its id is among the
   * due ids of the deadline map, so both views of the timer agree.
   */
  lemma AdvanceMatchesDue(s: State, dt: nat, x: Entry)
    ensures Toast.Advance(RendererOf(s, x), s.clock + dt).1
         == (if x.id in DueIds(s.deadlines, s.clock + dt) then [Toast.OnClose(x.id)] else [])
  {
  }

  /**
   * Adding or removing other toasts, or a tick that does not reach its
   * deadline, re-renders a surviving toast with its unchanged duration: the
   * effect does not run again, and the renderer it keeps is exactly the one
   * the next state records, so its timer is not restarted.
   */
  lemma RerenderKeepsTimer(s: State, e: Event, x: Entry)
    requires Valid(s) && Admissible(s, e)
    requires x in s.toasts && x in Step(s, e).toasts
    ensures Toast.Rerender(RendererOf(s, x), x.duration, Step(s, e).clock) == RendererOf(Step(s, e), x)
  {
    var t := Step(s, e);
    assert x.id in Ids(t.toasts);
    if x.id in s.deadlines {
      DeadlineStable(s, e, x.id);
    } else if e.Add? {
      assert x.id in Ids(s.toasts);
    }
  }

  // ---------------------------------------------------------------------------
  // Traces
  // ---------------------------------------------------------------------------

  /** A trace of admissible events keeps the invariant. */
  lemma {:induction false} RunKeepsValid(s: State, trace: seq<Event>)
    requires Valid(s) && AdmissibleTrace(s, trace)
    ensures Valid(Run(s, trace))
    decreases |trace|
  {
    if |trace| > 0 {
      StepKeepsValid(s, trace[0]);
      RunKeepsValid(Step(s, trace[0]), trace[1..]);
    }
  }

  /** A toast that is gone stays gone while no `addToast` draws its id again. */
  lemma {:induction false} StaysGone(s: State, trace: seq<Event>, id: Id)
    requires id !in Ids(s.toasts)
    requires NoAddOf(trace, id)
    ensures id !in Ids(Run(s, trace).toasts)
    decreases |trace|
  {
    if |trace| > 0 {
      var t := Step(s, trace[0]);
      StepIds(s, trace[0]);
      assert !(trace[0].Add? && trace[0].id == id);
      assert NoAddOf(trace[1..], id) by {
        forall k | 0 <= k < |trace[1..]| ensures !(trace[1..][k].Add? && trace[1..][k].id == id) {
          assert trace[1..][k] == trace[k + 1];
        }
      }
      StaysGone(t, trace[1..], id);
    }
  }

  /**
   * Auto-dismiss: a toast whose timer is pending is gone once the clock has
   * reached its deadline, whatever else happened meanwhile.
   */
  lemma {:induction false} GoneByDeadline(s: State, trace: seq<Event>, id: Id)
    requires Valid(s) && AdmissibleTrace(s, trace)
    requires id in s.deadlines
    requires NoAddOf(trace, id)
    requires s.deadlines[id] <= s.clock + Elapsed(trace)
    ensures id !in Ids(Run(s, trace).toasts)
    decreases |trace|
  {
    var e := trace[0];
    var t := Step(s, e);
    StepKeepsValid(s, e);
    DeadlineStable(s, e, id);
    assert NoAddOf(trace[1..], id) by {
      forall k | 0 <= k < |trace[1..]| ensures !(trace[1..][k].Add? && trace[1..][k].id == id) {
        assert trace[1..][k] == trace[k + 1];
      }
    }
    if id in t.deadlines {
      GoneByDeadline(t, trace[1..], id);
    } else {
      StaysGone(t, trace[1..], id);
    }
  }

  /**
   * Not early: a toast whose timer is pending is still shown, with the same
   * deadline, while the clock has not reached it and nobody closed or removed it.
   */
  lemma {:induction false} PendingUntilDeadline(s: State, trace: seq<Event>, id: Id)
    requires Valid(s) && AdmissibleTrace(s, trace)
    requires id in s.deadlines
    requires NoDismissOf(trace, id)
    requires s.clock + Elapsed(trace) < s.deadlines[id]
    ensures id in Ids(Run(s, trace).toasts)
    ensures id in Run(s, trace).deadlines && Run(s, trace).deadlines[id] == s.deadlines[id]
    decreases |trace|
  {
    if |trace| > 0 {
      var e := trace[0];
      StepKeepsValid(s, e);
      DeadlineStable(s, e, id);
      assert NoDismissOf(trace[1..], id) by {
        forall k | 0 <= k < |trace[1..]| ensures trace[1..][k] != Close(id) && trace[1..][k] != Remove(id) {
          assert trace[1..][k] == trace[k + 1];
        }
      }
      PendingUntilDeadline(Step(s, e), trace[1..], id);
    }
  }

  /**
   * The end-to-end timer contract of one toast: added with a non-zero
   * duration `d` at clock `t`, it is gone by `t + d`, and until then it stays
   * unless it is closed or removed.
   */
  lemma AddedToastLifetime(s: State, request: Request, id: Id, trace: seq<Event>)
    requires Valid(s) && id !in Ids(s.toasts)
    requires NewEntry(request, id).duration != 0
    requires AdmissibleTrace(Step(s, Add(request, id)), trace)
    requires NoAddOf(trace, id)
    ensures Elapsed(trace) >= NewEntry(request, id).duration ==>
      id !in Ids(Run(Step(s, Add(request, id)), trace).toasts)
    ensures Elapsed(trace) < NewEntry(request, id).duration && NoDismissOf(trace, id) ==>
      id in Ids(Run(Step(s, Add(request, id)), trace).toasts)
  {
    var t := Step(s, Add(request, id));
    StepKeepsValid(s, Add(request, id));
    AddSchedules(s, request, id);
    if Elapsed(trace) >= NewEntry(request, id).duration {
      GoneByDeadline(t, trace, id);
    }
    if Elapsed(trace) < NewEntry(request, id).duration && NoDismissOf(trace, id) {
      PendingUntilDeadline(t, trace, id);
    }
  }

  /** A toast with duration 0 has no timer: it stays until it is closed or removed. */
  lemma {:induction false} ZeroDurationStays(s: State, trace: seq<Event>, x: Entry)
    requires Valid(s) && AdmissibleTrace(s, trace)
    requires x in s.toasts && x.duration == 0
    requires NoDismissOf(trace, x.id)
    ensures x in Run(s, trace).toasts
    decreases |trace|
  {
    if |trace| > 0 {
      var e := trace[0];
      StepKeepsValid(s, e);
      if e.Add? {
        assert Step(s, e).toasts == s.toasts + [NewEntry(e.request, e.id)];
      } else if e.Tick? {
        WithoutMembers(s.toasts, DueIds(s.deadlines, s.clock + e.dt));
      }
      assert NoDismissOf(trace[1..], x.id) by {
        forall k | 0 <= k < |trace[1..]| ensures trace[1..][k] != Close(x.id) && trace[1..][k] != Remove(x.id) {
          assert trace[1..][k] == trace[k + 1];
        }
      }
      ZeroDurationStays(Step(s, e), trace[1..], x);
    }
  }
}
