/** How many lines the limiter can write in one interval, over every run. */
module LimiterRates {
  import opened LogLimiter

  /** The time lies in the half-open window of one interval that starts at `w`. */
  predicate Within(cfg: Config, w: Time, t: Time) {
    w <= t < w + cfg.interval
  }

  predicate WrittenWithin(cfg: Config, w: Time, out: Output) {
    !out.Nothing? && Within(cfg, w, out.at)
  }

  /** How many of `outs`, full lines and summaries together, fall in the window. */
  function LinesWithin(cfg: Config, w: Time, outs: seq<Output>): nat {
    if outs == [] then 0
    else LinesWithin(cfg, w, outs[..|outs| - 1]) + if WrittenWithin(cfg, w, outs[|outs| - 1]) then 1 else 0
  }

  /**
   The event throws away what the limiter remembers before its time: another key while something is
   remembered, or a success that ends reduced mode.
   */
  predicate Resets(s: State, ev: Event) {
    && ev.Receive?
    && (if ev.message.key == SUCCESS_WRITE then s.mode.Reduced? else ev.message.key != s.key && !s.Blank())
  }

  function ResetsWithin(cfg: Config, w: Time, s: State, events: seq<Event>): nat
    requires cfg.Valid() && AllWellFormed(events)
  {
    if events == [] then 0
    else
      var past, ev := events[..|events| - 1], events[|events| - 1];
      ResetsWithin(cfg, w, s, past) + if Resets(After(cfg, s, past), ev) && Within(cfg, w, ev.Begin()) then 1 else 0
  }

  // ----- Spacing inside one normal phase -----

  /** Emissions since a reset are in order, and any `maxCount` + 1 of them in a row span more than an interval. */
  ghost predicate Spaced(cfg: Config, clock: Time, emitted: seq<Time>) {
    && (forall i, j :: 0 <= i < j < |emitted| ==> emitted[i] <= emitted[j])
    && (forall i :: 0 <= i < |emitted| ==> emitted[i] <= clock)
    && (forall i, j :: 0 <= i && j == i + cfg.maxCount && j < |emitted| ==> emitted[j] - emitted[i] > cfg.interval)
  }

  lemma SpacedAppend(cfg: Config, clock: Time, emitted: seq<Time>, stamp: Time, end: Time)
    requires Spaced(cfg, clock, emitted) && clock <= stamp <= end
    requires |emitted| >= cfg.maxCount > 0 ==> stamp - emitted[|emitted| - cfg.maxCount] > cfg.interval
    requires cfg.Valid()
    ensures Spaced(cfg, end, emitted + [stamp])
  {
  }

  /** The clock has passed everything the limiter remembers. */
  ghost predicate Timely(cfg: Config, clock: Time, s: State) {
    match s.mode
    case Normal(emitted) => Spaced(cfg, clock, emitted)
    case Reduced(start, _) => start <= clock
  }

  lemma TimelyStep(cfg: Config, clock: Time, s: State, ev: Event)
    requires cfg.Valid() && Timely(cfg, clock, s) && Enabled(cfg, clock, ev)
    ensures Timely(cfg, ev.End(), Step(cfg, s, ev).0)
  {
    if ev.IsError() && ev.message.key == s.key && s.mode.Normal? {
      var emitted := s.mode.emitted;
      if !Saturated(cfg, emitted, ev.at.first) {
        SpacedAppend(cfg, clock, emitted, if |emitted| < cfg.maxCount then ev.at.first else ev.at.second, ev.End());
      }
    }
  }

  /** In every run, emissions i and i + maxCount since a reset are more than an interval apart. */
  lemma {:induction false} EmissionsAreSpaced(cfg: Config, t0: Time, events: seq<Event>)
    requires cfg.Valid() && Run(cfg, t0, events)
    ensures AllWellFormed(events)
    ensures Timely(cfg, Clock(t0, events), After(cfg, INITIAL, events))
  {
    RunIsWellFormed(cfg, t0, events);
    if events != [] {
      var past := events[..|events| - 1];
      EmissionsAreSpaced(cfg, t0, past);
      TimelyStep(cfg, Clock(t0, past), After(cfg, INITIAL, past), events[|events| - 1]);
    }
  }

  // ----- The window bound -----

  /** How many emissions at the end of `emitted` are no older than `w`. */
  function Recent(emitted: seq<Time>, w: Time): (n: nat)
    ensures n <= |emitted|
  {
    if emitted == [] || emitted[|emitted| - 1] < w then 0 else 1 + Recent(emitted[..|emitted| - 1], w)
  }

  lemma {:induction false} RecentStopsAt(emitted: seq<Time>, w: Time, i: nat)
    requires i < |emitted| && emitted[i] < w
    ensures Recent(emitted, w) <= |emitted| - 1 - i
  {
    if i < |emitted| - 1 {
      RecentStopsAt(emitted[..|emitted| - 1], w, i);
    }
  }

  lemma RecentAppend(emitted: seq<Time>, w: Time, t: Time)
    requires t >= w
    ensures Recent(emitted + [t], w) == Recent(emitted, w) + 1
  {
    assert (emitted + [t])[..|emitted|] == emitted;
  }

  function Allowance(cfg: Config, resets: nat): nat {
    cfg.maxCount * (resets + 1) + 1
  }

  lemma AllowanceGrows(cfg: Config, resets: nat)
    ensures Allowance(cfg, resets + 1) == Allowance(cfg, resets) + cfg.maxCount
    ensures Allowance(cfg, resets) >= cfg.maxCount + 1
  {
    assert cfg.maxCount * (resets + 2) == cfg.maxCount * (resets + 1) + cfg.maxCount;
  }

  /** `c` lines and `r` resets so far in the window at `w`: what they say about the state at `clock`. */
  ghost predicate Budget(cfg: Config, w: Time, clock: Time, s: State, c: nat, r: nat) {
    && c <= Allowance(cfg, r)
    && (clock < w ==> c == 0 && r == 0)
    && (clock < w + cfg.interval ==>
          match s.mode
          case Reduced(start, _) => start < w ==> c == 0 && r == 0
          case Normal(emitted) =>
            && Recent(emitted, w) <= cfg.maxCount
            && c + cfg.maxCount <= Allowance(cfg, r) + Recent(emitted, w))
  }

  ghost predicate BudgetKept(cfg: Config, w: Time, s: State, ev: Event, c: nat, r: nat)
    requires cfg.Valid() && WellFormed(ev)
  {
    var (s', out) := Step(cfg, s, ev);
    Budget(cfg, w, ev.End(), s',
           c + if WrittenWithin(cfg, w, out) then 1 else 0,
           r + if Resets(s, ev) && Within(cfg, w, ev.Begin()) then 1 else 0)
  }

  /** A line written in normal mode uses up one of the `maxCount` recent emissions the window may hold. */
  lemma NormalLineKeepsBudget(cfg: Config, w: Time, clock: Time, s: State, ev: Event, c: nat, r: nat)
    requires cfg.Valid() && Budget(cfg, w, clock, s, c, r) && Enabled(cfg, clock, ev)
    requires ev.IsError() && ev.message.key == s.key && s.mode.Normal?
    ensures BudgetKept(cfg, w, s, ev, c, r)
  {
    var emitted := s.mode.emitted;
    AllowanceGrows(cfg, r);
    if !Saturated(cfg, emitted, ev.at.first) {
      var stamp := if |emitted| < cfg.maxCount then ev.at.first else ev.at.second;
      if w <= stamp {
        RecentAppend(emitted, w, stamp);
      }
      if stamp < w + cfg.interval && |emitted| >= cfg.maxCount {
        if ev.at.first < w + cfg.interval {
          RecentStopsAt(emitted, w, |emitted| - cfg.maxCount);
        }
      }
    }
  }

  /** Any other event either adds no line, or adds one that the window has room for. */
  lemma BudgetStep(cfg: Config, w: Time, clock: Time, s: State, ev: Event, c: nat, r: nat)
    requires cfg.Valid() && Budget(cfg, w, clock, s, c, r) && Enabled(cfg, clock, ev)
    requires Timely(cfg, clock, s)
    ensures BudgetKept(cfg, w, s, ev, c, r)
  {
    AllowanceGrows(cfg, r);
    if ev.IsError() && ev.message.key == s.key && s.mode.Normal? {
      NormalLineKeepsBudget(cfg, w, clock, s, ev, c, r);
    } else if ev.IsError() && ev.message.key != s.key {
      assert [ev.at.first][..0] == [];
      assert Recent([ev.at.first], w) == if ev.at.first < w then 0 else 1;
    }
  }

  lemma {:induction false} BudgetOfRun(cfg: Config, t0: Time, events: seq<Event>, w: Time)
    requires cfg.Valid() && Run(cfg, t0, events) && AllWellFormed(events)
    ensures Budget(cfg, w, Clock(t0, events), After(cfg, INITIAL, events),
                   LinesWithin(cfg, w, Outputs(cfg, INITIAL, events)), ResetsWithin(cfg, w, INITIAL, events))
  {
    if events == [] {
      AllowanceGrows(cfg, 0);
    } else {
      var past := events[..|events| - 1];
      BudgetOfRun(cfg, t0, past, w);
      EmissionsAreSpaced(cfg, t0, past);
      BudgetStep(cfg, w, Clock(t0, past), After(cfg, INITIAL, past), events[|events| - 1],
                 LinesWithin(cfg, w, Outputs(cfg, INITIAL, past)), ResetsWithin(cfg, w, INITIAL, past));
      var outs := Outputs(cfg, INITIAL, events);
      assert outs[..|outs| - 1] == Outputs(cfg, INITIAL, past);
    }
  }

  /**
   In every run, a window of one interval that contains R resets contains at most
   maxCount * (R + 1) + 1 written lines.
   */
  lemma GeneralBound(cfg: Config, t0: Time, events: seq<Event>, w: Time)
    requires cfg.Valid() && Run(cfg, t0, events)
    ensures AllWellFormed(events)
    ensures LinesWithin(cfg, w, Outputs(cfg, INITIAL, events))
         <= cfg.maxCount * (ResetsWithin(cfg, w, INITIAL, events) + 1) + 1
  {
    RunIsWellFormed(cfg, t0, events);
    BudgetOfRun(cfg, t0, events, w);
  }

  // ----- One key, no success -----

  /** Every error has the key `k`, and nothing else is received. */
  predicate OnlyErrors(k: string, events: seq<Event>) {
    forall i :: 0 <= i < |events| && events[i].Receive? ==> events[i].IsError() && events[i].message.key == k
  }

  lemma {:induction false} OneKeyNeverResets(cfg: Config, k: string, events: seq<Event>, w: Time)
    requires cfg.Valid() && AllWellFormed(events) && OnlyErrors(k, events)
    ensures After(cfg, INITIAL, events).key == k || After(cfg, INITIAL, events).Blank()
    ensures ResetsWithin(cfg, w, INITIAL, events) == 0
  {
    if events != [] {
      OneKeyNeverResets(cfg, k, events[..|events| - 1], w);
    }
  }

  /** While one error repeats, no window of one interval holds more than maxCount + 1 lines. */
  lemma RateBound(cfg: Config, t0: Time, k: string, events: seq<Event>, w: Time)
    requires cfg.Valid() && Run(cfg, t0, events) && OnlyErrors(k, events)
    ensures AllWellFormed(events)
    ensures LinesWithin(cfg, w, Outputs(cfg, INITIAL, events)) <= cfg.maxCount + 1
  {
    GeneralBound(cfg, t0, events, w);
    OneKeyNeverResets(cfg, k, events, w);
  }
}
