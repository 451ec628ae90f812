/**
 * The autosave debounce: every edit of a form control cancels the pending
 * timer and starts a new one two seconds later; when a timer runs out, the
 * snapshot of the form at that moment becomes the draft. A single optional
 * deadline stands for the one timer handle the page keeps, and time passes
 * through tick events that carry the clock and the form as they are then.
 */
module Autosave {
  import opened Common
  import opened Form
  import opened RecordStore

  /** Milliseconds between the last edit and the autosave. */
  const Delay: int := 2000

  /**
   * An edit at a moment, or the clock reaching a moment; a tick carries the
   * snapshot the form would produce at that moment.
   */
  datatype Event =
    | Edit(at: int)
    | Tick(at: int, data: Record)

  /** The one timer handle: no timer, or a timer due at a moment. */
  datatype Timer = Idle | Due(at: int)

  /** The timer and the store. */
  datatype State = State(timer: Timer, store: Store)

  /** Whether the event runs out the pending timer. */
  predicate Fires(st: State, e: Event)
  {
    e.Tick? && st.timer.Due? && e.at >= st.timer.at
  }

  /** One event. */
  function Step(st: State, e: Event): (r: State)
    ensures e.Edit? ==> r.timer == Due(e.at + Delay) && r.store == st.store
    ensures Fires(st, e) ==>
      && r.timer.Idle?
      && r.store.saved == st.store.saved
      && r.store.draft == Some(e.data)
    ensures e.Tick? && !Fires(st, e) ==> r == st
  {
    match e
    case Edit(at) => State(Due(at + Delay), st.store)
    case Tick(at, data) =>
      if Fires(st, e) then State(Idle, AutoSave(st.store, data)) else st
  }

  /** A sequence of events, in order. */
  function Run(st: State, es: seq<Event>): State
    decreases |es|
  {
    if es == [] then st else Run(Step(st, es[0]), es[1..])
  }

  /** How many times the timer runs out along a sequence of events. */
  function Firings(st: State, es: seq<Event>): nat
    decreases |es|
  {
    if es == [] then 0
    else (if Fires(st, es[0]) then 1 else 0) + Firings(Step(st, es[0]), es[1..])
  }

  /** How many edits a sequence of events holds. */
  function Edits(es: seq<Event>): nat
  {
    if es == [] then 0 else (if es[0].Edit? then 1 else 0) + Edits(es[1..])
  }

  function Pending(st: State): nat
  {
    if st.timer.Due? then 1 else 0
  }

  /**
   * Every firing consumes a timer that an edit set (or that was already
   * pending): firings plus the timer left pending never exceed the edits
   * plus the timer pending at the start.
   */
  lemma {:induction false} FiringsBounded(st: State, es: seq<Event>)
    ensures Firings(st, es) + Pending(Run(st, es)) <= Edits(es) + Pending(st)
    decreases |es|
  {
    if es != [] {
      FiringsBounded(Step(st, es[0]), es[1..]);
    }
  }

  /** The saved list is never touched by editing or autosaving. */
  lemma {:induction false} RunKeepsSaved(st: State, es: seq<Event>)
    ensures Run(st, es).store.saved == st.store.saved
    decreases |es|
  {
    if es != [] {
      RunKeepsSaved(Step(st, es[0]), es[1..]);
    }
  }

  /** Running two sequences one after the other is running them joined. */
  lemma {:induction false} RunAppend(st: State, a: seq<Event>, b: seq<Event>)
    ensures Run(st, a + b) == Run(Run(st, a), b)
    decreases |a|
  {
    if a == [] {
      assert a + b == b;
    } else {
      assert (a + b)[1..] == a[1..] + b;
      RunAppend(Step(st, a[0]), a[1..], b);
    }
  }

  /** Whether every event is a tick before the moment `t`. */
  predicate TicksBefore(es: seq<Event>, t: int)
  {
    forall i :: 0 <= i < |es| ==> es[i].Tick? && es[i].at < t
  }

  /** Ticks before the deadline change nothing. */
  lemma {:induction false} EarlyTicksIdle(st: State, es: seq<Event>)
    requires st.timer.Due? && TicksBefore(es, st.timer.at)
    ensures Run(st, es) == st
    decreases |es|
  {
    if es != [] {
      assert TicksBefore(es[1..], st.timer.at) by {
        forall i | 0 <= i < |es[1..]| ensures es[1..][i].Tick? && es[1..][i].at < st.timer.at {
          assert es[1..][i] == es[i + 1];
        }
      }
      EarlyTicksIdle(Step(st, es[0]), es[1..]);
    }
  }

  /**
   * The last edit wins: after an edit at `t`, whatever came before, ticks
   * earlier than `t` plus the delay leave the draft as it was and the timer
   * set for `t` plus the delay.
   */
  lemma LastEditWins(st: State, before: seq<Event>, t: int, after: seq<Event>)
    requires TicksBefore(after, t + Delay)
    ensures var r := Run(st, before + [Edit(t)] + after);
      r.timer == Due(t + Delay) && r.store == Run(st, before).store
  {
    var mid := Run(st, before);
    RunAppend(st, before + [Edit(t)], after);
    RunAppend(st, before, [Edit(t)]);
    var edited := Step(mid, Edit(t));
    assert Run(mid, [Edit(t)]) == edited;
    EarlyTicksIdle(edited, after);
  }
}
