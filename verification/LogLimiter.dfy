/**
 The error-log rate limiter of the remote-write proxy.

 The limiter is described by a machine that remembers every emission since its last reset.
 The running code keeps only the last `maxCount` of them; `LogCounter` is that code, and its
 contracts say that it decides exactly as the machine with the full memory does.

 One handled message may read the clock up to three times, so every message carries three
 nondecreasing readings and each branch uses the ones the code takes.
 */
module LogLimiter {
  /** Nanoseconds on the process's monotonic clock. */
  type Time = int

  const SECOND: Time := 1_000_000_000

  const SUCCESS_WRITE := "metrics forwarded successfully"

  /** One element of a structured log line; a summary replaces the element at index 1 by a report. */
  datatype Value = Text(text: string) | Report(count: nat, seconds: int, key: string)

  datatype Message = Message(key: string, keyvals: seq<Value>) {

    /** Every message that can end in a log line has an element at index 1 for a report. */
    predicate HasReportSlot() {
      key != SUCCESS_WRITE ==> |keyvals| >= 2
    }
  }

  datatype Config = Config(maxCount: nat, interval: Time) {
    predicate Valid() {
      maxCount >= 1 && interval > 0
    }
  }

  datatype Readings = Readings(first: Time, second: Time, third: Time) {
    predicate Ordered() {
      first <= second <= third
    }
  }

  /** What one pass of the `select` loop can take: a message, or the expiry of its timer. */
  datatype Event = Receive(message: Message, at: Readings) | Silence(expiry: Time) {

    function Begin(): Time {
      if Receive? then at.first else expiry
    }

    function End(): Time {
      if Receive? then at.third else expiry
    }

    predicate IsError() {
      Receive? && message.key != SUCCESS_WRITE
    }
  }

  /** Either every error is written, or errors are counted since `start` and `number` are held back. */
  datatype Mode = Normal(emitted: seq<Time>) | Reduced(start: Time, number: nat)

  datatype State = State(key: string, mode: Mode) {

    /** Errors held back that no line has accounted for yet. */
    function Pending(): nat {
      if mode.Reduced? then mode.number else 0
    }

    /** Nothing is remembered: the next error is treated as a first one. */
    predicate Blank() {
      mode == Normal([])
    }
  }

  const INITIAL := State("", Normal([]))

  datatype Output =
    | Nothing
    | Line(at: Time, keyvals: seq<Value>)
    | Summary(at: Time, count: nat, keyvals: seq<Value>)

  /** The `maxCount`-th most recent emission exists and is at most `interval` old. */
  predicate Saturated(cfg: Config, emitted: seq<Time>, now: Time)
    requires cfg.Valid()
  {
    |emitted| >= cfg.maxCount && now - emitted[|emitted| - cfg.maxCount] <= cfg.interval
  }

  /** A same-key error closes a reduced interval and is answered by a summary. */
  predicate ClosesInterval(cfg: Config, s: State, key: string, at: Readings) {
    key == s.key && s.mode.Reduced? && at.first - s.mode.start >= cfg.interval
  }

  /** Success and silence end reduced mode; in normal mode they change nothing. */
  function Revert(s: State): State {
    if s.mode.Reduced? then s.(mode := Normal([])) else s
  }

  /** The effect of one error event. */
  function Check(cfg: Config, s: State, key: string, keyvals: seq<Value>, at: Readings): (State, Output)
    requires cfg.Valid() && at.Ordered()
    requires ClosesInterval(cfg, s, key, at) ==> |keyvals| >= 2
  {
    if key != s.key then
      (State(key, Normal([at.first])), Line(at.first, keyvals))
    else match s.mode
      case Reduced(start, number) =>
        if at.first - start < cfg.interval then
          (s.(mode := Reduced(start, number + 1)), Nothing)
        else
          var report := Report(number, (at.second - start) / SECOND, key);
          (s.(mode := if number < cfg.maxCount then Normal([]) else Reduced(at.third, 0)),
           Summary(at.second, number, keyvals[1 := report]))
      case Normal(emitted) =>
        if Saturated(cfg, emitted, at.first) then
          (s.(mode := Reduced(at.second, 1)), Nothing)
        else
          var stamp := if |emitted| < cfg.maxCount then at.first else at.second;
          (s.(mode := Normal(emitted + [stamp])), Line(stamp, keyvals))
  }

  /** What an event must satisfy to be taken at all, whatever the state. */
  predicate WellFormed(ev: Event) {
    ev.Receive? ==> ev.at.Ordered() && ev.message.HasReportSlot()
  }

  /** One pass of the `select` loop. */
  function Step(cfg: Config, s: State, ev: Event): (State, Output)
    requires cfg.Valid() && WellFormed(ev)
  {
    if ev.IsError() then
      Check(cfg, s, ev.message.key, ev.message.keyvals, ev.at)
    else
      (Revert(s), Nothing)
  }

  // ----- Runs -----

  /** When the previous pass ended; the loop's timer is restarted then. */
  function Clock(t0: Time, events: seq<Event>): Time {
    if events == [] then t0 else events[|events| - 1].End()
  }

  /** `ev` may be taken by a loop that has been waiting since `clock`: the timer needs a full interval. */
  predicate Enabled(cfg: Config, clock: Time, ev: Event) {
    && WellFormed(ev)
    && ev.Begin() >= clock
    && (ev.Silence? ==> ev.expiry >= clock + cfg.interval)
  }

  /** `events` is a run of a loop started at `t0`. */
  predicate Run(cfg: Config, t0: Time, events: seq<Event>) {
    events == [] ||
    var past := events[..|events| - 1];
    Run(cfg, t0, past) && Enabled(cfg, Clock(t0, past), events[|events| - 1])
  }

  /** The order of readings plays no part here: these events merely make sense one by one. */
  predicate AllWellFormed(events: seq<Event>) {
    forall i :: 0 <= i < |events| ==> WellFormed(events[i])
  }

  function After(cfg: Config, s: State, events: seq<Event>): State
    requires cfg.Valid() && AllWellFormed(events)
  {
    if events == [] then s
    else Step(cfg, After(cfg, s, events[..|events| - 1]), events[|events| - 1]).0
  }

  function Outputs(cfg: Config, s: State, events: seq<Event>): (outs: seq<Output>)
    requires cfg.Valid() && AllWellFormed(events)
    ensures |outs| == |events|
  {
    if events == [] then []
    else
      var past := events[..|events| - 1];
      Outputs(cfg, s, past) + [Step(cfg, After(cfg, s, past), events[|events| - 1]).1]
  }

  lemma {:induction false} RunIsWellFormed(cfg: Config, t0: Time, events: seq<Event>)
    requires Run(cfg, t0, events)
    ensures AllWellFormed(events)
  {
    if events != [] {
      RunIsWellFormed(cfg, t0, events[..|events| - 1]);
      assert events == events[..|events| - 1] + [events[|events| - 1]];
    }
  }

  lemma AfterOneMore(cfg: Config, s: State, events: seq<Event>, ev: Event)
    requires cfg.Valid() && AllWellFormed(events) && WellFormed(ev)
    ensures AllWellFormed(events + [ev])
    ensures After(cfg, s, events + [ev]) == Step(cfg, After(cfg, s, events), ev).0
    ensures Outputs(cfg, s, events + [ev]) == Outputs(cfg, s, events) + [Step(cfg, After(cfg, s, events), ev).1]
  {
    assert (events + [ev])[..|events|] == events;
  }

  lemma RunOneMore(cfg: Config, t0: Time, events: seq<Event>, ev: Event)
    requires Run(cfg, t0, events) && Enabled(cfg, Clock(t0, events), ev)
    ensures Run(cfg, t0, events + [ev]) && Clock(t0, events + [ev]) == ev.End()
  {
    assert (events + [ev])[..|events|] == events;
  }
}
