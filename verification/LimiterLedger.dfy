/** What becomes of every error event: conservation over whole runs, and recovery after a reset. */
module LimiterLedger {
  import opened LogLimiter

  function Errors(events: seq<Event>): (n: nat)
    ensures n <= |events|
  {
    if events == [] then 0
    else Errors(events[..|events| - 1]) + if events[|events| - 1].IsError() then 1 else 0
  }

  /** Lines and summaries written, and the held-back errors the summaries report. */
  datatype LogTally = LogTally(lines: nat, summaries: nat, reported: nat)

  function Tally(outs: seq<Output>): LogTally {
    if outs == [] then LogTally(0, 0, 0)
    else
      var w := Tally(outs[..|outs| - 1]);
      match outs[|outs| - 1]
      case Nothing => w
      case Line(_, _) => w.(lines := w.lines + 1)
      case Summary(_, count, _) => w.(summaries := w.summaries + 1, reported := w.reported + count)
  }

  /** The event ends reduced mode without a summary: silence, a success, or another key. */
  predicate Interrupts(s: State, ev: Event) {
    s.mode.Reduced? && (!ev.IsError() || ev.message.key != s.key)
  }

  /** Held-back errors that no line will ever mention. */
  function Dropped(cfg: Config, s: State, events: seq<Event>): nat
    requires cfg.Valid() && AllWellFormed(events)
  {
    if events == [] then 0
    else
      var past, ev := events[..|events| - 1], events[|events| - 1];
      var before := After(cfg, s, past);
      Dropped(cfg, s, past) + if Interrupts(before, ev) then before.Pending() else 0
  }

  /**
   Every error event is exactly one of: a full line, a summary, reported inside a summary, still
   pending, or dropped when reduced mode was interrupted.
   */
  lemma {:induction false} EventsAreConserved(cfg: Config, s: State, events: seq<Event>)
    requires cfg.Valid() && AllWellFormed(events)
    ensures
      var w := Tally(Outputs(cfg, s, events));
      s.Pending() + Errors(events)
      == w.lines + w.summaries + w.reported + After(cfg, s, events).Pending() + Dropped(cfg, s, events)
  {
    if events != [] {
      var past := events[..|events| - 1];
      EventsAreConserved(cfg, s, past);
      var outs := Outputs(cfg, s, events);
      assert outs[..|outs| - 1] == Outputs(cfg, s, past);
    }
  }

  /** Success and silence in reduced mode, and a summary of few errors, are such resets. */
  lemma ResetsLeaveBlank(cfg: Config, s: State, ev: Event)
    requires cfg.Valid() && WellFormed(ev) && s.mode.Reduced?
    ensures Step(cfg, s, ev).0.Blank() <==>
      || !ev.IsError()
      || (ClosesInterval(cfg, s, ev.message.key, ev.at) && s.mode.number < cfg.maxCount)
  {
  }

  /** The events start right after a reset to normal mode, or with the key change that is one. */
  predicate StartsFresh(s: State, events: seq<Event>) {
    s.Blank() || (events != [] && events[0].IsError() && events[0].message.key != s.key)
  }

  /**
   From a reset on, the first `maxCount` errors are all written in full, with their own fields,
   whatever their keys and times and whatever successes and silences come between them.
   */
  lemma {:induction false} RecoveryIsFull(cfg: Config, s: State, events: seq<Event>)
    requires cfg.Valid() && AllWellFormed(events) && StartsFresh(s, events)
    requires Errors(events) <= cfg.maxCount
    ensures events != [] || s.Blank() ==>
      var end := After(cfg, s, events).mode;
      end.Normal? && |end.emitted| <= Errors(events)
    ensures forall i :: 0 <= i < |events| && events[i].IsError() ==>
      var out := Outputs(cfg, s, events)[i];
      out.Line? && out.keyvals == events[i].message.keyvals
  {
    if events != [] {
      var past := events[..|events| - 1];
      if past != [] || s.Blank() {
        RecoveryIsFull(cfg, s, past);
      } else {
        assert After(cfg, s, past) == s;
      }
      assert forall i :: 0 <= i < |past| ==> events[i] == past[i];
    }
  }
}
