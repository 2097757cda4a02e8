/** The bounds of `LimiterRates` cannot be lowered: for every number of resets some run meets them. */
module LimiterWitness {
  import opened LogLimiter
  import opened LimiterRates

  const KEY := "failed to send request to the server"

  function Failure(t: Time): Event {
    Receive(Message(KEY, [Text("msg"), Text(KEY)]), Readings(t, t, t))
  }

  function Success(t: Time): Event {
    Receive(Message(SUCCESS_WRITE, []), Readings(t, t, t))
  }

  /** A run that ends at `t` in state `s`, with `c` lines and `r` resets in the window that starts at `w`. */
  ghost predicate Reaches(cfg: Config, events: seq<Event>, t: Time, s: State, w: Time, c: nat, r: nat)
    requires cfg.Valid()
  {
    && Run(cfg, 0, events) && AllWellFormed(events) && (r == 0 ==> OnlyErrors(KEY, events))
    && Clock(0, events) == t
    && After(cfg, INITIAL, events) == s
    && LinesWithin(cfg, w, Outputs(cfg, INITIAL, events)) == c
    && ResetsWithin(cfg, w, INITIAL, events) == r
  }

  lemma LinesOneMore(cfg: Config, w: Time, outs: seq<Output>, out: Output)
    ensures LinesWithin(cfg, w, outs + [out]) == LinesWithin(cfg, w, outs) + if WrittenWithin(cfg, w, out) then 1 else 0
  {
    var outs' := outs + [out];
    assert outs'[..|outs'| - 1] == outs && outs'[|outs'| - 1] == out;
  }

  lemma ResetsOneMore(cfg: Config, w: Time, events: seq<Event>, ev: Event)
    requires cfg.Valid() && AllWellFormed(events) && WellFormed(ev)
    ensures AllWellFormed(events + [ev])
    ensures ResetsWithin(cfg, w, INITIAL, events + [ev])
         == ResetsWithin(cfg, w, INITIAL, events)
            + if Resets(After(cfg, INITIAL, events), ev) && Within(cfg, w, ev.Begin()) then 1 else 0
  {
    var events' := events + [ev];
    assert events'[..|events'| - 1] == events && events'[|events'| - 1] == ev;
  }

  /** One more event, at a single instant `t'`. */
  lemma Extend(cfg: Config, events: seq<Event>, t: Time, s: State, w: Time, c: nat, r: nat, ev: Event, t': Time)
    returns (events': seq<Event>)
    requires cfg.Valid() && Reaches(cfg, events, t, s, w, c, r) && t <= t'
    requires ev == Failure(t') || (ev == Success(t') && Resets(s, ev) && Within(cfg, w, t'))
    ensures
      var (s', out) := Step(cfg, s, ev);
      Reaches(cfg, events', t', s', w, c + if WrittenWithin(cfg, w, out) then 1 else 0,
              r + if Resets(s, ev) && Within(cfg, w, t') then 1 else 0)
  {
    events' := events + [ev];
    AfterOneMore(cfg, INITIAL, events, ev);
    RunOneMore(cfg, 0, events, ev);
    LinesOneMore(cfg, w, Outputs(cfg, INITIAL, events), Step(cfg, s, ev).1);
    ResetsOneMore(cfg, w, events, ev);
  }

  /** The state after `n` errors at the instant `t`, none of them remembered from before. */
  function Filled(s: State, t: Time, n: nat): State {
    if n == 0 then s else State(KEY, Normal(seq(n, _ => t)))
  }

  /** One error more still fits, and is written in full. */
  lemma FillOneMore(cfg: Config, s: State, t: Time, n: nat)
    requires cfg.Valid() && s.Blank() && n < cfg.maxCount
    ensures
      var (s', out) := Step(cfg, Filled(s, t, n), Failure(t));
      s' == Filled(s, t, n + 1) && out.Line? && out.at == t
    ensures !Resets(Filled(s, t, n), Failure(t))
  {
    assert [t] == seq(1, _ => t) == [] + [t];
    assert seq(n, _ => t) + [t] == seq(n + 1, _ => t);
  }

  /** `n` errors at the same instant, from a state that remembers nothing. */
  lemma {:induction false} Burst(cfg: Config, events: seq<Event>, t: Time, s: State, w: Time, c: nat, r: nat, n: nat)
    returns (events': seq<Event>)
    requires cfg.Valid() && Reaches(cfg, events, t, s, w, c, r) && s.Blank() && n <= cfg.maxCount
    ensures Reaches(cfg, events', t, Filled(s, t, n), w, c + (if Within(cfg, w, t) then n else 0), r)
  {
    events' := events;
    if n > 0 {
      var shorter := Burst(cfg, events, t, s, w, c, r, n - 1);
      FillOneMore(cfg, s, t, n - 1);
      var c' := c + if Within(cfg, w, t) then n - 1 else 0;
      events' := Extend(cfg, shorter, t, Filled(s, t, n - 1), w, c', r, Failure(t), t);
    }
  }

  /** `maxCount` errors at one instant and one more: the limiter holds that one back from then on. */
  lemma Saturate(cfg: Config, events: seq<Event>, t: Time, s: State, w: Time, c: nat, r: nat)
    returns (events': seq<Event>)
    requires cfg.Valid() && Reaches(cfg, events, t, s, w, c, r) && s.Blank()
    ensures Reaches(cfg, events', t, State(KEY, Reduced(t, 1)), w,
                    c + (if Within(cfg, w, t) then cfg.maxCount else 0), r)
  {
    var filled := Burst(cfg, events, t, s, w, c, r, cfg.maxCount);
    var full, c' := Filled(s, t, cfg.maxCount), c + if Within(cfg, w, t) then cfg.maxCount else 0;
    assert Step(cfg, full, Failure(t)) == (State(KEY, Reduced(t, 1)), Nothing);
    events' := Extend(cfg, filled, t, full, w, c', r, Failure(t), t);
  }

  /** The limiter is saturated, holds back, reports once the interval is over and starts afresh. */
  lemma ReportThenFresh(cfg: Config) returns (events: seq<Event>, w: Time)
    requires cfg.Valid()
    ensures Reaches(cfg, events, w, State(KEY, Normal([])), w, 1, 0)
  {
    w := if cfg.maxCount == 1 then 2 * cfg.interval else cfg.interval;
    events := Saturate(cfg, [], 0, INITIAL, w, 0, 0);
    var held := State(KEY, Reduced(0, 1));
    if cfg.maxCount == 1 {
      events := Extend(cfg, events, 0, held, w, 0, 0, Failure(cfg.interval), cfg.interval);
      held := State(KEY, Reduced(cfg.interval, 0));
      events := Extend(cfg, events, cfg.interval, held, w, 0, 0, Failure(w), w);
    } else {
      events := Extend(cfg, events, 0, held, w, 0, 0, Failure(w), w);
    }
  }

  /** Each further round saturates the limiter, holds one error back and resets it by a success. */
  lemma {:induction false} Rounds(cfg: Config, r: nat) returns (events: seq<Event>, w: Time)
    requires cfg.Valid()
    ensures Reaches(cfg, events, w, State(KEY, Normal([])), w, cfg.maxCount * r + 1, r)
  {
    if r == 0 {
      events, w := ReportThenFresh(cfg);
    } else {
      events, w := Rounds(cfg, r - 1);
      var c, held := cfg.maxCount * (r - 1) + 1, State(KEY, Reduced(w, 1));
      assert c + cfg.maxCount == cfg.maxCount * r + 1;
      events := Saturate(cfg, events, w, State(KEY, Normal([])), w, c, r - 1);
      events := Extend(cfg, events, w, held, w, c + cfg.maxCount, r - 1, Success(w), w);
    }
  }

  /** For every configuration and every R, a run with R resets in a window that holds maxCount * (R + 1) + 1 lines. */
  lemma BoundIsAttained(cfg: Config, r: nat) returns (events: seq<Event>, w: Time)
    requires cfg.Valid()
    ensures Run(cfg, 0, events) && AllWellFormed(events) && (r == 0 ==> OnlyErrors(KEY, events))
    ensures ResetsWithin(cfg, w, INITIAL, events) == r
    ensures LinesWithin(cfg, w, Outputs(cfg, INITIAL, events)) == cfg.maxCount * (r + 1) + 1
  {
    events, w := Rounds(cfg, r);
    events := Burst(cfg, events, w, State(KEY, Normal([])), w, cfg.maxCount * r + 1, r, cfg.maxCount);
    assert cfg.maxCount * (r + 1) == cfg.maxCount * r + cfg.maxCount;
  }
}
