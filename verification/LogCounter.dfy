/**
 The limiter as it runs: a counter whose fields are updated in place and whose buffer never holds
 more than `maxCount` emission times.
 */
module LogCounters {
  import opened Common
  import opened LogLimiter

  function Last(history: seq<Time>, n: nat): seq<Time> {
    if |history| <= n then history else history[|history| - n..]
  }

  class LogCounter {
    const cfg: Config

    var logKey: string
    var timestamps: seq<Time>
    var startTime: Option<Time>
    var number: nat
    var reduced: bool

    /** Every emission since the last reset, including those the buffer has already let go. */
    ghost var history: seq<Time>

    /** Reduced mode has a start time and an empty buffer; the buffer is the end of the history. */
    ghost predicate Valid()
      reads this
    {
      && cfg.Valid()
      && (reduced ==> startTime.Some? && timestamps == [])
      && (!reduced ==> timestamps == Last(history, cfg.maxCount))
    }

    ghost function View(): State
      requires Valid()
      reads this
    {
      State(logKey, if reduced then Reduced(startTime.value, number) else Normal(history))
    }

    constructor (cfg: Config)
      requires cfg.Valid()
      ensures Valid() && View() == INITIAL && this.cfg == cfg
    {
      this.cfg := cfg;
      logKey, timestamps, startTime, number, reduced := "", [], None, 0, false;
      history := [];
    }

    method RevertCounter()
      requires Valid()
      modifies this
      ensures Valid() && View() == Revert(old(View()))
      ensures number == old(number) && startTime == old(startTime)
    {
      if reduced {
        reduced := false;
        timestamps := [];
        history := [];
      }
    }

    method CheckLog(key: string, keyvals: seq<Value>, at: Readings) returns (out: Output)
      requires Valid() && at.Ordered()
      requires ClosesInterval(cfg, View(), key, at) ==> |keyvals| >= 2
      modifies this
      ensures Valid() && (View(), out) == Check(cfg, old(View()), key, keyvals, at)
      ensures !reduced ==> number == old(number) && startTime == old(startTime)
      ensures |timestamps| <= cfg.maxCount
      ensures out.Nothing? <==>
        && key == old(logKey)
        && if old(reduced) then at.first - old(startTime).value < cfg.interval
           else |old(timestamps)| == cfg.maxCount && at.first - old(timestamps)[0] <= cfg.interval
    {
      out := Nothing;
      if key != logKey {
        logKey := key;
        timestamps := [at.first];
        reduced := false;
        history := [at.first];
        return Line(at.first, keyvals);
      }
      if reduced {
        if at.first - startTime.value >= cfg.interval {
          var report := Report(number, (at.second - startTime.value) / SECOND, key);
          out := Summary(at.second, number, keyvals[1 := report]);
          if number < cfg.maxCount {
            reduced := false;
            timestamps := [];
            history := [];
          } else {
            number := 0;
            startTime := Some(at.third);
          }
        } else {
          number := number + 1;
        }
      } else if |timestamps| == cfg.maxCount {
        if at.first - timestamps[0] <= cfg.interval {
          reduced := true;
          timestamps := [];
          number := 1;
          startTime := Some(at.second);
        } else {
          timestamps := timestamps[1..];
          timestamps := timestamps + [at.second];
          history := history + [at.second];
          out := Line(at.second, keyvals);
        }
      } else {
        timestamps := timestamps + [at.first];
        history := history + [at.first];
        out := Line(at.first, keyvals);
      }
    }

    /** The `select` loop over the events it is given, with everything it writes. */
    method Serve(events: seq<Event>) returns (outs: seq<Output>)
      requires Valid() && AllWellFormed(events)
      modifies this
      ensures Valid() && View() == After(cfg, old(View()), events)
      ensures outs == Outputs(cfg, old(View()), events)
    {
      outs := [];
      for i := 0 to |events|
        invariant Valid() && View() == After(cfg, old(View()), events[..i])
        invariant outs == Outputs(cfg, old(View()), events[..i])
      {
        assert events[..i + 1][..i] == events[..i];
        if events[i].Receive? {
          if events[i].message.key == SUCCESS_WRITE {
            RevertCounter();
            outs := outs + [Nothing];
          } else {
            var out := CheckLog(events[i].message.key, events[i].message.keyvals, events[i].at);
            outs := outs + [out];
          }
        } else {
          RevertCounter();
          outs := outs + [Nothing];
        }
      }
      assert events[..|events|] == events;
    }
  }
}
