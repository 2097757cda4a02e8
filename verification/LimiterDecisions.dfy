/**
 What becomes of each error, in the numbers of the configuration and the dates of the lines written so
 far, without the machine's own notions: when it is withheld, when it is reported, when it is written.
 */
module LimiterDecisions {
  import opened LogLimiter
  import opened LimiterRates

  // ----- One event -----

  /**
   A same-key error is withheld exactly when, in normal mode, the maxCount-th most recent emission is at
   most an interval old, and, in reduced mode, less than an interval has passed since the start. An error
   with another key never is.
   */
  lemma WithheldIff(cfg: Config, s: State, ev: Event)
    requires cfg.Valid() && WellFormed(ev) && ev.IsError()
    ensures Step(cfg, s, ev).1.Nothing? <==>
      && ev.message.key == s.key
      && match s.mode
         case Normal(e) => |e| >= cfg.maxCount && ev.at.first - e[|e| - cfg.maxCount] <= cfg.interval
         case Reduced(start, _) => ev.at.first - start < cfg.interval
  {
  }

  /**
   A same-key error is answered by a summary exactly when it comes an interval or more after the start of
   reduced mode. The summary is the error's own line with element 1 replaced by a report of the errors held
   back, the whole seconds since the start, and the key.
   */
  lemma SummaryReports(cfg: Config, s: State, ev: Event)
    requires cfg.Valid() && WellFormed(ev) && ev.IsError()
    ensures Step(cfg, s, ev).1.Summary? <==>
      ev.message.key == s.key && s.mode.Reduced? && ev.at.first - s.mode.start >= cfg.interval
    ensures
      var out, fields := Step(cfg, s, ev).1, ev.message.keyvals;
      out.Summary? ==>
        && out.at == ev.at.second && out.count == s.mode.number && |out.keyvals| == |fields|
        && out.keyvals[1] == Report(s.mode.number, (ev.at.second - s.mode.start) / 1_000_000_000, s.key)
        && forall i :: 0 <= i < |fields| && i != 1 ==> out.keyvals[i] == fields[i]
  {
  }

  /** Any other error is written in full with its own fields, and its date is remembered under its key. */
  lemma LinesAreRemembered(cfg: Config, s: State, ev: Event)
    requires cfg.Valid() && WellFormed(ev) && ev.IsError() && Step(cfg, s, ev).1.Line?
    ensures
      var (s', out) := Step(cfg, s, ev);
      var before := if ev.message.key == s.key && s.mode.Normal? then s.mode.emitted else [];
      && out.keyvals == ev.message.keyvals
      && out.at == (if |before| < cfg.maxCount then ev.at.first else ev.at.second)
      && s' == State(ev.message.key, Normal(before + [out.at]))
  {
    assert [] + [ev.at.first] == [ev.at.first];
  }

  // ----- Runs, spelled out -----

  /** Event `i` has ordered readings, room for a report and a clock that goes on; a timer waits a full interval. */
  predicate InOrder(cfg: Config, t0: Time, events: seq<Event>, i: nat)
    requires i < |events|
  {
    var clock :=
      if i == 0 then t0
      else match events[i - 1] case Receive(_, at) => at.third case Silence(expiry) => expiry;
    match events[i]
    case Receive(message, at) =>
      && clock <= at.first <= at.second <= at.third
      && (message.key == "metrics forwarded successfully" || |message.keyvals| >= 2)
    case Silence(expiry) => expiry >= clock && expiry >= clock + cfg.interval
  }

  /** A run is any sequence of events each of which is in order, and nothing less. */
  lemma {:induction false} RunExactly(cfg: Config, t0: Time, events: seq<Event>)
    ensures Run(cfg, t0, events) <==> forall i: nat :: i < |events| ==> InOrder(cfg, t0, events, i)
  {
    if events != [] {
      var n := |events| - 1;
      var past := events[..n];
      RunExactly(cfg, t0, past);
      assert forall i: nat :: i < n ==> (InOrder(cfg, t0, past, i) <==> InOrder(cfg, t0, events, i));
      assert InOrder(cfg, t0, events, n) <==> Enabled(cfg, Clock(t0, past), events[n]);
    }
  }

  // ----- Normal mode over runs -----

  /** The dates of the full lines, in order. */
  function LineDates(outs: seq<Output>): seq<Time> {
    if outs == [] then []
    else
      var out := outs[|outs| - 1];
      LineDates(outs[..|outs| - 1]) + if out.Line? then [out.at] else []
  }

  /** The position from which on lines count: of the last key change, or after the last end of reduced mode. */
  function LastReset(cfg: Config, events: seq<Event>): (i: nat)
    requires cfg.Valid() && AllWellFormed(events)
    ensures i <= |events|
  {
    if events == [] then 0
    else
      var past, ev := events[..|events| - 1], events[|events| - 1];
      var s := After(cfg, INITIAL, past);
      if ev.IsError() && ev.message.key != s.key then |past|
      else if s.mode.Reduced? && After(cfg, INITIAL, events).mode.Normal? then |events|
      else LastReset(cfg, past)
  }

  lemma DatesOneMore(outs: seq<Output>, out: Output, k: nat)
    requires k <= |outs|
    ensures LineDates((outs + [out])[k..]) == LineDates(outs[k..]) + if out.Line? then [out.at] else []
  {
    var rest := (outs + [out])[k..];
    assert rest[..|rest| - 1] == outs[k..] && rest[|rest| - 1] == out;
  }

  /** In normal mode the limiter remembers exactly the dates of the lines since the last reset. */
  lemma {:induction false} RemembersLinesSinceReset(cfg: Config, events: seq<Event>)
    requires cfg.Valid() && AllWellFormed(events)
    ensures
      var s := After(cfg, INITIAL, events);
      s.mode.Normal? ==> s.mode.emitted == LineDates(Outputs(cfg, INITIAL, events)[LastReset(cfg, events)..])
  {
    if events != [] {
      var past, ev := events[..|events| - 1], events[|events| - 1];
      RemembersLinesSinceReset(cfg, past);
      var s, before := After(cfg, INITIAL, past), Outputs(cfg, INITIAL, past);
      var outs, out := Outputs(cfg, INITIAL, events), Step(cfg, s, ev).1;
      assert outs == before + [out];
      if ev.IsError() && ev.message.key != s.key {
        DatesOneMore(before, out, |past|);
        assert before[|past|..] == [];
      } else {
        DatesOneMore(before, out, LastReset(cfg, past));
      }
    }
  }

  function CountFrom(dates: seq<Time>, from: Time): nat {
    if dates == [] then 0
    else CountFrom(dates[..|dates| - 1], from) + if dates[|dates| - 1] >= from then 1 else 0
  }

  /** Among dates in order, `n` are no earlier than `from` exactly when the n-th from the end is not. */
  lemma {:induction false} CountFromTheEnd(dates: seq<Time>, from: Time, n: nat)
    requires forall i, j :: 0 <= i < j < |dates| ==> dates[i] <= dates[j]
    requires n > 0
    ensures CountFrom(dates, from) >= n <==> |dates| >= n && dates[|dates| - n] >= from
  {
    if dates != [] {
      var rest := dates[..|dates| - 1];
      if n > 1 {
        CountFromTheEnd(rest, from, n - 1);
      }
      if dates[|dates| - 1] < from {
        CountFromTheEnd(rest, from, n);
      }
    }
  }

  lemma WithheldByCount(cfg: Config, clock: Time, s: State, ev: Event)
    requires cfg.Valid() && WellFormed(ev) && ev.IsError() && ev.message.key == s.key
    requires s.mode.Normal? && Spaced(cfg, clock, s.mode.emitted)
    ensures Step(cfg, s, ev).1.Nothing? <==>
      CountFrom(s.mode.emitted, ev.at.first - cfg.interval) >= cfg.maxCount
  {
    WithheldIff(cfg, s, ev);
    CountFromTheEnd(s.mode.emitted, ev.at.first - cfg.interval, cfg.maxCount);
  }

  /**
   In every run, a same-key error that finds normal mode is withheld exactly when at least maxCount lines
   written since the last reset are dated no earlier than an interval before the error's first reading.
   */
  lemma WithheldOverRuns(cfg: Config, t0: Time, events: seq<Event>, ev: Event)
    requires cfg.Valid() && Run(cfg, t0, events) && AllWellFormed(events)
    requires Enabled(cfg, Clock(t0, events), ev) && ev.IsError()
    requires After(cfg, INITIAL, events).mode.Normal? && After(cfg, INITIAL, events).key == ev.message.key
    ensures Step(cfg, After(cfg, INITIAL, events), ev).1.Nothing? <==>
      var lines := LineDates(Outputs(cfg, INITIAL, events)[LastReset(cfg, events)..]);
      CountFrom(lines, ev.at.first - cfg.interval) >= cfg.maxCount
  {
    EmissionsAreSpaced(cfg, t0, events);
    RemembersLinesSinceReset(cfg, events);
    WithheldByCount(cfg, Clock(t0, events), After(cfg, INITIAL, events), ev);
  }

  // ----- Reduced mode over runs -----

  /** The event opens a reduced interval: it is withheld in normal mode, or it closes the one before. */
  predicate Opens(cfg: Config, s: State, ev: Event, start: Time)
    requires cfg.Valid() && WellFormed(ev)
  {
    && ev.IsError() && ev.message.key == s.key
    && if s.mode.Normal? then Step(cfg, s, ev).1.Nothing? && start == ev.at.second
       else Step(cfg, s, ev).1.Summary? && s.mode.number >= cfg.maxCount && start == ev.at.third
  }

  /** A step into reduced mode opens an interval or goes on with one. */
  lemma StepIntoReduced(cfg: Config, s: State, ev: Event)
    requires cfg.Valid() && WellFormed(ev) && Step(cfg, s, ev).0.mode.Reduced?
    ensures
      var (s', out) := Step(cfg, s, ev);
      && s'.key == s.key && ev.IsError() && ev.message.key == s.key
      && if s.mode.Reduced? && out.Nothing? then
           && s' == s.(mode := Reduced(s.mode.start, s.mode.number + 1))
           && ev.at.first - s.mode.start < cfg.interval
         else
           Opens(cfg, s, ev, s'.mode.start) && s'.mode.number == if s.mode.Normal? then 1 else 0
  {
  }

  /** Event `i` opened the interval that still runs; what came since were errors of the key, all withheld. */
  ghost predicate ReducedSince(cfg: Config, events: seq<Event>, key: string, start: Time, number: nat, i: nat)
    requires cfg.Valid() && AllWellFormed(events) && i < |events|
  {
    var before := After(cfg, INITIAL, events[..i]);
    && before.key == key && Opens(cfg, before, events[i], start)
    && number == |events| - i - (if before.mode.Normal? then 0 else 1)
    && forall j :: i < j < |events| ==>
         && Outputs(cfg, INITIAL, events)[j].Nothing?
         && events[j].IsError() && events[j].message.key == key && events[j].at.first - start < cfg.interval
  }

  lemma ReducedOpensNow(cfg: Config, past: seq<Event>, ev: Event, start: Time)
    requires cfg.Valid() && AllWellFormed(past) && WellFormed(ev)
    requires Opens(cfg, After(cfg, INITIAL, past), ev, start)
    ensures
      var s := After(cfg, INITIAL, past);
      && AllWellFormed(past + [ev])
      && ReducedSince(cfg, past + [ev], s.key, start, if s.mode.Normal? then 1 else 0, |past|)
  {
    assert (past + [ev])[..|past|] == past;
  }

  lemma ReducedGoesOn(cfg: Config, past: seq<Event>, ev: Event, i: nat)
    requires cfg.Valid() && AllWellFormed(past) && WellFormed(ev) && i < |past|
    requires After(cfg, INITIAL, past).mode.Reduced?
    requires
      var s := After(cfg, INITIAL, past);
      && ReducedSince(cfg, past, s.key, s.mode.start, s.mode.number, i)
      && ev.IsError() && ev.message.key == s.key && ev.at.first - s.mode.start < cfg.interval
      && Step(cfg, s, ev).1.Nothing?
    ensures
      var s := After(cfg, INITIAL, past);
      && AllWellFormed(past + [ev])
      && ReducedSince(cfg, past + [ev], s.key, s.mode.start, s.mode.number + 1, i)
  {
    var events := past + [ev];
    AfterOneMore(cfg, INITIAL, past, ev);
    assert events[..i] == past[..i] && events[i] == past[i];
  }

  /**
   In every run, reduced mode goes back to the event that opened it: its start is that event's reading, all
   events since were errors of its key inside the interval, none was written, and they are what is pending.
   */
  lemma {:induction false} ReducedModeIsOpened(cfg: Config, events: seq<Event>) returns (i: nat)
    requires cfg.Valid() && AllWellFormed(events) && After(cfg, INITIAL, events).mode.Reduced?
    ensures
      var s := After(cfg, INITIAL, events);
      i < |events| && ReducedSince(cfg, events, s.key, s.mode.start, s.mode.number, i)
  {
    var n := |events| - 1;
    var past, ev := events[..n], events[n];
    var s := After(cfg, INITIAL, past);
    assert events == past + [ev];
    StepIntoReduced(cfg, s, ev);
    if s.mode.Reduced? && Step(cfg, s, ev).1.Nothing? {
      i := ReducedModeIsOpened(cfg, past);
      ReducedGoesOn(cfg, past, ev, i);
    } else {
      ReducedOpensNow(cfg, past, ev, After(cfg, INITIAL, events).mode.start);
      i := n;
    }
  }
}
