/**
 The fan-out handler: it copies a request to every endpoint in its own goroutine, waits for all of
 them on a WaitGroup, and answers from an atomic count of the successes. Handler and workers
 interleave freely; an action is one indivisible step of one of them.
 */
module Fanout {
  import opened Common

  type Body = seq<int>

  /** What an endpoint's worker meets: an unusable URL, an unbuildable request, no reply, or a status. */
  datatype Answer = BadUrl | BadRequest | NoReply | Status(code: int) {

    /** The 2xx class, section 15.3 of RFC 9110. */
    predicate Succeeds() {
      Status? && 200 <= code < 300
    }

    /** The worker gets as far as sending the request. */
    predicate Sends() {
      NoReply? || Status?
    }
  }

  /** `body` is None when the request body cannot be read; there is one answer per endpoint. */
  datatype Input = Input(body: Option<Body>, answers: seq<Answer>)

  datatype Worker = Absent | Joining | Building | Calling | Counting | Judging | Leaving | Gone

  datatype Handler = Reading | Launching(next: nat) | Waiting | Checking | Closing | Returned

  datatype System = System(
    handler: Handler,
    workers: seq<Worker>,
    waitGroup: int,
    successes: int,
    counted: seq<nat>,         // increments of fanout_requests_total, by endpoint
    sent: seq<seq<Body>>,      // bodies sent, by endpoint
    response: Option<int>)     // the status line, once written

  const OK := 200
  const BAD_REQUEST := 400
  const INTERNAL_ERROR := 500
  const BAD_GATEWAY := 502

  function Start(input: Input): System {
    var n := |input.answers|;
    System(Reading, seq(n, _ => Absent), 0, 0, seq(n, _ => 0), seq(n, _ => []), None)
  }

  /** Only the first status written to a response takes effect. */
  function WriteHeader(response: Option<int>, status: int): Option<int> {
    if response.None? then Some(status) else response
  }

  datatype Action = Handle | Work(worker: nat)

  predicate Can(input: Input, sys: System, a: Action) {
    match a
    case Handle => !sys.handler.Returned? && (sys.handler.Waiting? ==> sys.waitGroup == 0)
    case Work(i) => i < |sys.workers| && !sys.workers[i].Absent? && !sys.workers[i].Gone?
  }

  /** The arrays of the state have one cell per endpoint. */
  predicate Shaped(input: Input, sys: System) {
    && |sys.workers| == |sys.counted| == |sys.sent| == |input.answers|
    && (sys.handler.Launching? ==> sys.handler.next <= |input.answers|)
    && (!sys.handler.Reading? && !sys.handler.Returned? ==> input.body.Some?)
  }

  function HandlerStep(input: Input, sys: System): System
    requires Shaped(input, sys)
  {
    match sys.handler
    case Reading =>
      if input.body.None? then
        sys.(handler := Returned, response := WriteHeader(sys.response, INTERNAL_ERROR))
      else if |input.answers| == 0 then
        sys.(handler := Returned, response := WriteHeader(sys.response, BAD_REQUEST))
      else
        sys.(handler := Launching(0))
    case Launching(i) =>
      if i == |sys.workers| then sys.(handler := Waiting)
      else sys.(handler := Launching(i + 1), workers := sys.workers[i := Joining], waitGroup := sys.waitGroup + 1)
    case Waiting => sys.(handler := Checking)
    case Checking =>
      sys.(handler := Closing,
           response := if sys.successes < |input.answers| then WriteHeader(sys.response, BAD_GATEWAY) else sys.response)
    case Closing => sys.(handler := Returned, response := WriteHeader(sys.response, OK))
    case Returned => sys
  }

  function WorkerStep(input: Input, sys: System, i: nat): System
    requires Shaped(input, sys) && i < |sys.workers|
  {
    var answer := input.answers[i];
    match sys.workers[i]
    case Joining => sys.(workers := sys.workers[i := if answer.BadUrl? then Leaving else Building])
    case Building => sys.(workers := sys.workers[i := if answer.BadRequest? then Leaving else Calling])
    case Calling =>
      sys.(workers := sys.workers[i := Counting],
           sent := if input.body.Some? then sys.sent[i := sys.sent[i] + [input.body.value]] else sys.sent)
    case Counting =>
      sys.(workers := sys.workers[i := if answer.Status? then Judging else Leaving],
           counted := sys.counted[i := sys.counted[i] + 1])
    case Judging =>
      sys.(workers := sys.workers[i := Leaving],
           successes := if answer.Succeeds() then sys.successes + 1 else sys.successes)
    case Leaving => sys.(workers := sys.workers[i := Gone], waitGroup := sys.waitGroup - 1)
    case Absent => sys
    case Gone => sys
  }

  function Do(input: Input, sys: System, a: Action): System
    requires Shaped(input, sys) && Can(input, sys, a)
  {
    match a
    case Handle => HandlerStep(input, sys)
    case Work(i) => WorkerStep(input, sys, i)
  }

  ghost predicate Next(input: Input, sys: System, sys': System) {
    exists a :: Can(input, sys, a) && Shaped(input, sys) && sys' == Do(input, sys, a)
  }

  /** The states an execution goes through, from the start. */
  ghost predicate Execution(input: Input, b: seq<System>) {
    && |b| > 0 && b[0] == Start(input)
    && forall i, j :: 0 <= i && j == i + 1 && j < |b| ==> Next(input, b[i], b[j])
  }

  // ----- Sums over the endpoints -----

  function Sum(xs: seq<nat>): nat {
    if xs == [] then 0 else xs[0] + Sum(xs[1..])
  }

  lemma {:induction false} SumUpdate(xs: seq<nat>, i: nat, x: nat)
    requires i < |xs|
    ensures Sum(xs[i := x]) == Sum(xs) - xs[i] + x
  {
    if i > 0 {
      SumUpdate(xs[1..], i - 1, x);
      assert xs[i := x][1..] == xs[1..][i - 1 := x];
    }
  }

  lemma {:induction false} SumOfEqual(xs: seq<nat>, x: nat)
    requires forall i :: 0 <= i < |xs| ==> xs[i] == x
    ensures Sum(xs) == |xs| * x
  {
    if xs != [] {
      SumOfEqual(xs[1..], x);
      assert |xs| * x == (|xs| - 1) * x + x;
    }
  }

  /** A sum of zeros and ones is full only if no term is zero, and empty only if no term is one. */
  lemma {:induction false} SumOfBits(xs: seq<nat>)
    requires forall i :: 0 <= i < |xs| ==> xs[i] <= 1
    ensures Sum(xs) <= |xs|
    ensures Sum(xs) == |xs| <==> forall i :: 0 <= i < |xs| ==> xs[i] == 1
    ensures Sum(xs) == 0 <==> forall i :: 0 <= i < |xs| ==> xs[i] == 0
  {
    if xs != [] {
      SumOfBits(xs[1..]);
      assert xs == [xs[0]] + xs[1..];
    }
  }

  function Bit(b: bool): nat {
    if b then 1 else 0
  }

  /** The worker still holds its place in the WaitGroup. */
  predicate Active(w: Worker) {
    !w.Absent? && !w.Gone?
  }

  /** The worker has passed the point where it would have added its success. */
  predicate Judged(w: Worker) {
    w.Leaving? || w.Gone?
  }

  function ActiveBits(workers: seq<Worker>): seq<nat> {
    seq(|workers|, i requires 0 <= i < |workers| => Bit(Active(workers[i])))
  }

  function SuccessBits(answers: seq<Answer>, workers: seq<Worker>): seq<nat>
    requires |answers| == |workers|
  {
    seq(|workers|, i requires 0 <= i < |workers| => Bit(Judged(workers[i]) && answers[i].Succeeds()))
  }

  /** The number of endpoints that answer with a status of the 2xx class. */
  function Successes(answers: seq<Answer>): nat {
    Sum(seq(|answers|, i requires 0 <= i < |answers| => Bit(answers[i].Succeeds())))
  }

  // ----- The invariant -----

  /** A worker's place fits its answer, and its traces are those of a worker that has come this far. */
  predicate WorkerSound(input: Input, sys: System, i: nat)
    requires Shaped(input, sys) && i < |sys.workers|
  {
    var w, answer := sys.workers[i], input.answers[i];
    && (w.Building? ==> !answer.BadUrl?)
    && (w.Calling? || w.Counting? ==> answer.Sends())
    && (w.Judging? ==> answer.Status?)
    && (!w.Absent? ==> input.body.Some?)
    && sys.counted[i] == Bit(answer.Sends() && (w.Judging? || Judged(w)))
    && (if answer.Sends() && (w.Counting? || w.Judging? || Judged(w))
        then input.body.Some? && sys.sent[i] == [input.body.value]
        else sys.sent[i] == [])
  }

  /** The status a client should see: section 15.6.3 of RFC 9110 describes 502. */
  function Expected(input: Input): int {
    if input.body.None? then INTERNAL_ERROR
    else if |input.answers| == 0 then BAD_REQUEST
    else if forall i :: 0 <= i < |input.answers| ==> input.answers[i].Succeeds() then OK
    else BAD_GATEWAY
  }

  /** Which workers have been launched, and what the handler knows once it stops waiting. */
  predicate HandlerSound(input: Input, sys: System)
    requires Shaped(input, sys)
  {
    var all := |sys.workers|;
    match sys.handler
    case Reading => sys.response.None? && forall i :: 0 <= i < all ==> sys.workers[i].Absent?
    case Launching(next) =>
      && sys.response.None? && all > 0
      && forall i :: 0 <= i < all ==> (sys.workers[i].Absent? <==> i >= next)
    case Waiting => sys.response.None? && all > 0 && forall i :: 0 <= i < all ==> !sys.workers[i].Absent?
    case Checking => sys.response.None? && all > 0 && forall i :: 0 <= i < all ==> sys.workers[i].Gone?
    case Closing =>
      && all > 0 && (forall i :: 0 <= i < all ==> sys.workers[i].Gone?)
      && sys.response == if Successes(input.answers) < all then Some(BAD_GATEWAY) else None
    case Returned =>
      && sys.response == Some(Expected(input))
      && forall i :: 0 <= i < all ==> if input.body.Some? then sys.workers[i].Gone? else sys.workers[i].Absent?
  }

  ghost predicate Invariant(input: Input, sys: System) {
    && Shaped(input, sys)
    && sys.waitGroup == Sum(ActiveBits(sys.workers))
    && sys.successes == Sum(SuccessBits(input.answers, sys.workers))
    && (forall i: nat :: i < |sys.workers| ==> WorkerSound(input, sys, i))
    && HandlerSound(input, sys)
  }

  lemma AllSucceedIffFull(answers: seq<Answer>)
    ensures Successes(answers) <= |answers|
    ensures Successes(answers) == |answers| <==> forall i :: 0 <= i < |answers| ==> answers[i].Succeeds()
  {
    var bits := seq(|answers|, i requires 0 <= i < |answers| => Bit(answers[i].Succeeds()));
    SumOfBits(bits);
    assert forall i :: 0 <= i < |answers| ==> (bits[i] == 1 <==> answers[i].Succeeds());
  }

  lemma InvariantAtStart(input: Input)
    ensures Invariant(input, Start(input))
  {
    var sys := Start(input);
    SumOfBits(ActiveBits(sys.workers));
    SumOfBits(SuccessBits(input.answers, sys.workers));
  }

  /** Moving worker `i` to `w` changes the two sums by worker `i`'s own bits. */
  lemma SumsMove(input: Input, sys: System, i: nat, w: Worker)
    requires Shaped(input, sys) && i < |sys.workers|
    ensures Sum(ActiveBits(sys.workers[i := w]))
         == Sum(ActiveBits(sys.workers)) - Bit(Active(sys.workers[i])) + Bit(Active(w))
    ensures Sum(SuccessBits(input.answers, sys.workers[i := w]))
         == Sum(SuccessBits(input.answers, sys.workers))
            - Bit(Judged(sys.workers[i]) && input.answers[i].Succeeds())
            + Bit(Judged(w) && input.answers[i].Succeeds())
  {
    var active, success := ActiveBits(sys.workers), SuccessBits(input.answers, sys.workers);
    var bit := Bit(Judged(w) && input.answers[i].Succeeds());
    SumUpdate(active, i, Bit(Active(w)));
    SumUpdate(success, i, bit);
    assert ActiveBits(sys.workers[i := w]) == active[i := Bit(Active(w))];
    assert SuccessBits(input.answers, sys.workers[i := w]) == success[i := bit];
  }

  /** A step of worker `i` keeps its own traces sound and leaves those of the others alone. */
  lemma WorkerStepKeepsSound(input: Input, sys: System, i: nat, k: nat)
    requires Shaped(input, sys) && Can(input, sys, Work(i)) && k < |sys.workers|
    requires WorkerSound(input, sys, i) && WorkerSound(input, sys, k)
    ensures Shaped(input, WorkerStep(input, sys, i)) && WorkerSound(input, WorkerStep(input, sys, i), k)
  {
  }

  /** A step of worker `i` moves the two counters as it moves the two sums. */
  lemma WorkerStepKeepsSums(input: Input, sys: System, i: nat)
    requires Invariant(input, sys) && Can(input, sys, Work(i))
    ensures
      var sys' := WorkerStep(input, sys, i);
      && |sys'.workers| == |input.answers|
      && sys'.waitGroup == Sum(ActiveBits(sys'.workers))
      && sys'.successes == Sum(SuccessBits(input.answers, sys'.workers))
  {
    var sys' := WorkerStep(input, sys, i);
    assert WorkerSound(input, sys, i);
    SumsMove(input, sys, i, sys'.workers[i]);
    assert sys'.workers == sys.workers[i := sys'.workers[i]];
  }

  lemma WorkerStepKeepsInvariant(input: Input, sys: System, i: nat)
    requires Invariant(input, sys) && Can(input, sys, Work(i))
    ensures Invariant(input, WorkerStep(input, sys, i))
  {
    WorkerStepKeepsSums(input, sys, i);
    forall k: nat | k < |sys.workers| ensures WorkerSound(input, WorkerStep(input, sys, i), k) {
      WorkerStepKeepsSound(input, sys, i, k);
    }
  }

  /** When the WaitGroup is at zero, nobody is left behind and every success has been added. */
  lemma ZeroMeansAllGone(input: Input, sys: System)
    requires Invariant(input, sys) && sys.handler.Waiting? && sys.waitGroup == 0
    ensures forall i :: 0 <= i < |sys.workers| ==> sys.workers[i].Gone?
  {
    var bits := ActiveBits(sys.workers);
    SumOfBits(bits);
    forall i | 0 <= i < |sys.workers| ensures sys.workers[i].Gone? {
      assert bits[i] == 0;
    }
  }

  lemma AllGoneMeansAllCounted(input: Input, sys: System)
    requires Invariant(input, sys) && forall i :: 0 <= i < |sys.workers| ==> sys.workers[i].Gone?
    ensures sys.successes == Successes(input.answers)
  {
    var n := |input.answers|;
    assert SuccessBits(input.answers, sys.workers)
        == seq(n, i requires 0 <= i < n => Bit(input.answers[i].Succeeds()));
  }

  lemma LaunchKeepsInvariant(input: Input, sys: System)
    requires Invariant(input, sys) && sys.handler.Launching?
    ensures Invariant(input, HandlerStep(input, sys))
  {
    var sys', i := HandlerStep(input, sys), sys.handler.next;
    if i < |sys.workers| {
      SumsMove(input, sys, i, Joining);
      forall k: nat | k < |sys.workers| ensures WorkerSound(input, sys', k) {
        assert WorkerSound(input, sys, k);
      }
    } else {
      forall k: nat | k < |sys.workers| ensures WorkerSound(input, sys', k) {
        assert WorkerSound(input, sys, k);
      }
    }
  }

  lemma HandlerStepKeepsInvariant(input: Input, sys: System)
    requires Invariant(input, sys) && Can(input, sys, Handle)
    ensures Invariant(input, HandlerStep(input, sys))
  {
    var sys' := HandlerStep(input, sys);
    if sys.handler.Launching? {
      LaunchKeepsInvariant(input, sys);
    } else {
      assert sys'.workers == sys.workers && sys'.counted == sys.counted && sys'.sent == sys.sent;
      forall k: nat | k < |sys.workers| ensures WorkerSound(input, sys', k) {
        assert WorkerSound(input, sys, k);
      }
      if sys.handler.Waiting? {
        ZeroMeansAllGone(input, sys);
      } else if sys.handler.Checking? {
        AllGoneMeansAllCounted(input, sys);
        AllSucceedIffFull(input.answers);
      } else if sys.handler.Closing? {
        AllSucceedIffFull(input.answers);
      }
    }
  }

  lemma {:induction false} InvariantAlways(input: Input, b: seq<System>, i: nat)
    requires Execution(input, b) && i < |b|
    ensures Invariant(input, b[i])
  {
    if i == 0 {
      InvariantAtStart(input);
    } else {
      InvariantAlways(input, b, i - 1);
      assert Next(input, b[i - 1], b[i]);
      var a :| Can(input, b[i - 1], a) && b[i] == Do(input, b[i - 1], a);
      match a
      case Handle => HandlerStepKeepsInvariant(input, b[i - 1]);
      case Work(k) => WorkerStepKeepsInvariant(input, b[i - 1], k);
    }
  }

  // ----- Progress -----

  function WorkerWork(w: Worker): nat {
    match w
    case Absent => 6
    case Joining => 6
    case Building => 5
    case Calling => 4
    case Counting => 3
    case Judging => 2
    case Leaving => 1
    case Gone => 0
  }

  function WorkLeft(workers: seq<Worker>): nat {
    Sum(seq(|workers|, i requires 0 <= i < |workers| => WorkerWork(workers[i])))
  }

  function HandlerWork(h: Handler, n: nat): nat {
    match h
    case Reading => n + 5
    case Launching(next) => if next <= n then n - next + 4 else 4
    case Waiting => 3
    case Checking => 2
    case Closing => 1
    case Returned => 0
  }

  /** Steps that can still be taken at most. */
  function Remaining(sys: System): nat {
    HandlerWork(sys.handler, |sys.workers|) + WorkLeft(sys.workers)
  }

  lemma WorkMoves(workers: seq<Worker>, i: nat, w: Worker)
    requires i < |workers|
    ensures WorkLeft(workers[i := w]) == WorkLeft(workers) - WorkerWork(workers[i]) + WorkerWork(w)
  {
    var work := seq(|workers|, k requires 0 <= k < |workers| => WorkerWork(workers[k]));
    SumUpdate(work, i, WorkerWork(w));
    var workers' := workers[i := w];
    assert work[i := WorkerWork(w)] == seq(|workers'|, k requires 0 <= k < |workers'| => WorkerWork(workers'[k]));
  }

  /** Every step of anybody brings the end nearer. */
  lemma StepsDecrease(input: Input, sys: System, a: Action)
    requires Invariant(input, sys) && Can(input, sys, a)
    ensures Remaining(Do(input, sys, a)) < Remaining(sys)
  {
    var sys' := Do(input, sys, a);
    match a
    case Handle =>
      if sys.handler.Launching? && sys.handler.next < |sys.workers| {
        var i := sys.handler.next;
        WorkMoves(sys.workers, i, Joining);
      }
    case Work(i) =>
      WorkMoves(sys.workers, i, sys'.workers[i]);
      assert sys'.workers == sys.workers[i := sys'.workers[i]];
  }

  // ----- Results -----

  /** Neither the handler nor any worker can take a step. */
  ghost predicate Stuck(input: Input, sys: System) {
    forall a :: !Can(input, sys, a)
  }

  /** No reachable state short of the handler's return is stuck. */
  lemma NoDeadlock(input: Input, b: seq<System>, i: nat) returns (a: Action)
    requires Execution(input, b) && i < |b| && !b[i].handler.Returned?
    ensures Can(input, b[i], a)
  {
    InvariantAlways(input, b, i);
    var sys := b[i];
    a := Handle;
    if sys.handler.Waiting? && sys.waitGroup != 0 {
      var bits := ActiveBits(sys.workers);
      SumOfBits(bits);
      var k :| 0 <= k < |bits| && bits[k] != 0;
      a := Work(k);
    }
  }

  /** However the steps interleave, there are at most 7 per endpoint and 5 more. */
  lemma {:induction false} ExecutionsAreShort(input: Input, b: seq<System>)
    requires Execution(input, b)
    ensures |b| + Remaining(b[|b| - 1]) <= 7 * |input.answers| + 6
  {
    if |b| == 1 {
      var n := |input.answers|;
      var work := seq(n, _ => 6);
      assert work == seq(n, i requires 0 <= i < n => WorkerWork(b[0].workers[i]));
      SumOfEqual(work, 6);
    } else {
      var past := b[..|b| - 1];
      ExecutionsAreShort(input, past);
      var sys, sys' := past[|past| - 1], b[|b| - 1];
      assert Next(input, sys, sys');
      InvariantAlways(input, past, |past| - 1);
      var a :| Can(input, sys, a) && Shaped(input, sys) && sys' == Do(input, sys, a);
      StepsDecrease(input, sys, a);
    }
  }

  /** The handler looks at the count only when no worker is running and the count is final. */
  lemma DecidesAfterAllWorkers(input: Input, b: seq<System>, i: nat)
    requires Execution(input, b) && i < |b| && (b[i].handler.Checking? || b[i].handler.Closing?)
    ensures b[i].successes == Successes(input.answers)
    ensures |b[i].workers| == |input.answers| && forall k :: 0 <= k < |b[i].workers| ==> b[i].workers[k].Gone?
  {
    InvariantAlways(input, b, i);
    AllGoneMeansAllCounted(input, b[i]);
  }

  /**
   An execution that cannot be continued has returned, with 200 if every one of at least one endpoint
   answered 2xx, 502 if some did not, 400 without endpoints and 500 without a body.
   */
  lemma ResponseIsRight(input: Input, b: seq<System>)
    requires Execution(input, b)
    requires b[|b| - 1].handler.Returned? || Stuck(input, b[|b| - 1])
    ensures b[|b| - 1].handler.Returned?
    ensures b[|b| - 1].response == Some(
      if input.body.None? then 500
      else if input.answers == [] then 400
      else if forall i :: 0 <= i < |input.answers| ==>
        input.answers[i].Status? && 200 <= input.answers[i].code < 300 then 200
      else 502)
  {
    InvariantAlways(input, b, |b| - 1);
    if !b[|b| - 1].handler.Returned? {
      var a := NoDeadlock(input, b, |b| - 1);
    }
  }

  /** At every moment an endpoint has been sent the body at most once and counted only if it was sent. */
  lemma NeverSentTwice(input: Input, b: seq<System>, i: nat, k: nat)
    requires Execution(input, b) && i < |b| && k < |input.answers|
    ensures |b[i].sent| == |b[i].counted| == |input.answers|
    ensures b[i].counted[k] <= |b[i].sent[k]| <= 1
    ensures b[i].sent[k] != [] ==> input.body.Some? && b[i].sent[k] == [input.body.value]
  {
    InvariantAlways(input, b, i);
    assert WorkerSound(input, b[i], k);
  }

  /** After the return, the counted endpoints are those whose worker reached the client, once each. */
  lemma SendsAreCounted(input: Input, b: seq<System>, k: nat)
    requires Execution(input, b) && b[|b| - 1].handler.Returned? && input.body.Some? && k < |input.answers|
    ensures
      var end := b[|b| - 1];
      && |end.sent| == |end.counted| == |input.answers|
      && end.counted[k] == |end.sent[k]| == Bit(input.answers[k].Sends())
      && (input.answers[k].Sends() ==> end.sent[k] == [input.body.value])
  {
    InvariantAlways(input, b, |b| - 1);
    assert WorkerSound(input, b[|b| - 1], k);
  }
}
