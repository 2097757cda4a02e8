/**
 The remote-write dispatcher: every request starts one forwarding goroutine per endpoint, every
 goroutine increments a counter and sends one message on its endpoint's channel, and behind each
 channel runs one limiter. All of them interleave freely; an action is one indivisible step.
 */
module RemoteWrite {
  import opened Common
  import opened LogLimiter
  import opened LimiterLedger
  import opened LimiterRates

  /** How a forwarded request ended; the body of an answer may turn out to be unreadable. */
  datatype Reply = Unreachable(err: string) | Answered(code: int, status: string, body: Option<string>) {

    predicate Succeeded() {
      Answered? && 200 <= code < 300
    }
  }

  /** The message a forwarding goroutine sends for its reply. */
  function MessageFor(reply: Reply, url: string): Message {
    if reply.Succeeded() then
      Message(SUCCESS_WRITE, [])
    else match reply
      case Unreachable(err) =>
        Message("failed to send request to the server",
                [Text("msg"), Text("failed to send request to the server"), Text("err"), Text(err)])
      case Answered(_, status, None) =>
        Message("failed to forward metrics" + status,
                [Text("msg"), Text("failed to forward metrics"), Text("return code"), Text(status),
                 Text("url"), Text(url)])
      case Answered(_, status, Some(body)) =>
        Message("Failed to forward metrics" + status,
                [Text("msg"), Text("failed to forward metrics"), Text("return code"), Text(status),
                 Text("response"), Text(body), Text("url"), Text(url)])
  }

  /** A message is a success exactly when the reply is, and any other has room for a report. */
  lemma MessagesAreSafe(reply: Reply, url: string)
    ensures MessageFor(reply, url).key == SUCCESS_WRITE <==> reply.Answered? && 200 <= reply.code < 300
    ensures MessageFor(reply, url).HasReportSlot()
  {
    var key := MessageFor(reply, url).key;
    assert SUCCESS_WRITE[0] == 'm';
    assert !reply.Succeeded() ==> key[0] == 'f' || key[0] == 'F';
  }

  /** Strings with different first characters differ, whatever follows. */
  lemma FirstCharacterTells(a: string, b: string)
    requires a != [] && b != [] && a[0] != b[0]
    ensures a != b
  {
  }

  lemma SuffixTells(front: string, a: string, b: string)
    ensures front + a == front + b <==> a == b
  {
    assert (front + a)[|front|..] == a && (front + b)[|front|..] == b;
  }

  /** No status makes the key of an unreadable answer that of an unreachable endpoint. */
  lemma UnreadableIsNotUnreachable(status: string)
    ensures "failed to forward metrics" + status != "failed to send request to the server"
  {
    assert ("failed to forward metrics" + status)[10] == 'f';
    assert "failed to send request to the server"[10] == 's';
  }

  lemma AnsweredIsNotUnreachable(
    status: string, body: Option<string>, urlA: string, urlB: string, code: int, err: string)
    requires !(200 <= code < 300)
    ensures MessageFor(Answered(code, status, body), urlA).key != MessageFor(Unreachable(err), urlB).key
  {
    if body.Some? {
      FirstCharacterTells("Failed to forward metrics" + status, "failed to send request to the server");
    } else {
      UnreadableIsNotUnreachable(status);
    }
  }

  /**
   Two failures are counted as the same event exactly when both endpoints were unreachable, or both
   answered with the same status and both answers, or neither, could be read.
   */
  lemma KeysTellFailuresApart(a: Reply, b: Reply, urlA: string, urlB: string)
    requires !(a.Answered? && 200 <= a.code < 300) && !(b.Answered? && 200 <= b.code < 300)
    ensures MessageFor(a, urlA).key == MessageFor(b, urlB).key <==>
      match (a, b)
      case (Unreachable(_), Unreachable(_)) => true
      case (Answered(_, s, bodyA), Answered(_, t, bodyB)) => s == t && (bodyA.Some? <==> bodyB.Some?)
      case _ => false
  {
    match (a, b)
    case (Unreachable(_), Unreachable(_)) =>
    case (Answered(_, s, _), Unreachable(_)) => AnsweredIsNotUnreachable(s, a.body, urlA, urlB, a.code, b.err);
    case (Unreachable(_), Answered(_, t, _)) => AnsweredIsNotUnreachable(t, b.body, urlB, urlA, b.code, a.err);
    case (Answered(_, s, bodyA), Answered(_, t, bodyB)) =>
      if bodyA.Some? && bodyB.Some? {
        SuffixTells("Failed to forward metrics", s, t);
      } else if bodyA.None? && bodyB.None? {
        SuffixTells("failed to forward metrics", s, t);
      } else {
        FirstCharacterTells(MessageFor(a, urlA).key, MessageFor(b, urlB).key);
      }
  }

  /** The fields of a line: the error, or the status, the answer if it was readable, and the URL; a success has none. */
  lemma MessagesCarryTheirReply(reply: Reply, url: string)
    ensures
      var fields := MessageFor(reply, url).keyvals;
      match reply
      case Unreachable(err) =>
        fields == [Text("msg"), Text("failed to send request to the server"), Text("err"), Text(err)]
      case Answered(code, status, body) =>
        if 200 <= code < 300 then fields == []
        else
          && |fields| == (if body.Some? then 8 else 6)
          && fields[..4] == [Text("msg"), Text("failed to forward metrics"), Text("return code"), Text(status)]
          && (body.Some? ==> fields[4..6] == [Text("response"), Text(body.value)])
          && fields[|fields| - 2..] == [Text("url"), Text(url)]
  {
  }

  datatype TaskId = TaskId(request: nat, endpoint: nat)

  /** A forwarding goroutine: waiting for its reply, then sending its message, then finished. */
  datatype Task =
    | InFlight(url: string)
    | Sending(reply: Reply, url: string, message: Message)
    | Finished(reply: Reply, url: string)
  {

    /** A message on its way is a success exactly when the reply is, and any other can carry a report. */
    predicate Fits() {
      Sending? ==> (message.key == SUCCESS_WRITE <==> reply.Succeeded()) && message.HasReportSlot()
    }
  }

  datatype Increment = Increment(task: TaskId, reply: Reply)

  /** Something a limiter loop took: a message with its sender, or a timer expiry. */
  datatype Taken = Taken(channel: nat, event: Event, sender: Option<TaskId>)

  datatype Written = Written(channel: nat, out: Output)

  datatype Setup = Setup(cfg: Config, t0: Time, endpoints: nat) {
    predicate Valid() {
      cfg.Valid()
    }
  }

  datatype System = System(
    looped: map<nat, nat>,        // per request, how many endpoints its handler loop has passed
    tasks: map<TaskId, Task>,
    increments: seq<Increment>,   // on remote_write_requests_total, oldest first
    limiters: seq<State>,
    taken: seq<Taken>,
    written: seq<Written>)

  function Start(p: Setup): System {
    System(map[], map[], [], seq(p.endpoints, _ => INITIAL), [], [])
  }

  datatype Action =
    | Accept(request: nat)
    | Spawn(of: nat, url: string)
    | Settle(settled: TaskId, reply: Reply)
    | Deliver(sender: TaskId, at: Readings)
    | Expire(channel: nat, expiry: Time)

  /** The events that reached one channel, in order. */
  function Events(taken: seq<Taken>, j: nat): seq<Event> {
    if taken == [] then []
    else
      var t := taken[|taken| - 1];
      Events(taken[..|taken| - 1], j) + if t.channel == j then [t.event] else []
  }

  /** What was written on behalf of one channel, in order. */
  function WrittenBy(written: seq<Written>, j: nat): seq<Output> {
    if written == [] then []
    else
      var t := written[|written| - 1];
      WrittenBy(written[..|written| - 1], j) + if t.channel == j then [t.out] else []
  }

  function MessageEvent(sys: System, id: TaskId, at: Readings): Event
    requires id in sys.tasks && sys.tasks[id].Sending?
  {
    Receive(sys.tasks[id].message, at)
  }

  predicate Ready(p: Setup, sys: System, j: nat, ev: Event) {
    j < |sys.limiters| && Enabled(p.cfg, Clock(p.t0, Events(sys.taken, j)), ev)
  }

  predicate Can(p: Setup, sys: System, a: Action) {
    match a
    case Accept(r) => r !in sys.looped
    case Spawn(r, _) => r in sys.looped && sys.looped[r] < p.endpoints
    case Settle(id, _) => id in sys.tasks && sys.tasks[id].InFlight?
    case Deliver(id, at) =>
      id in sys.tasks && sys.tasks[id].Sending? && Ready(p, sys, id.endpoint, MessageEvent(sys, id, at))
    case Expire(j, t) => Ready(p, sys, j, Silence(t))
  }

  /** What an action does outside the limiters. */
  function Record(p: Setup, sys: System, a: Action): System
    requires Can(p, sys, a)
  {
    match a
    case Accept(r) => sys.(looped := sys.looped[r := 0])
    case Spawn(r, url) =>
      sys.(looped := sys.looped[r := sys.looped[r] + 1],
           tasks := sys.tasks[TaskId(r, sys.looped[r]) := InFlight(url)])
    case Settle(id, reply) =>
      sys.(tasks := sys.tasks[id := Sending(reply, sys.tasks[id].url, MessageFor(reply, sys.tasks[id].url))],
           increments := sys.increments + [Increment(id, reply)])
    case Deliver(id, at) =>
      sys.(tasks := sys.tasks[id := Finished(sys.tasks[id].reply, sys.tasks[id].url)],
           taken := sys.taken + [Taken(id.endpoint, MessageEvent(sys, id, at), Some(id))])
    case Expire(j, t) => sys.(taken := sys.taken + [Taken(j, Silence(t), None)])
  }

  /** Limiter `j` takes `ev`; the other limiters are not touched. */
  function Take(p: Setup, sys: System, j: nat, ev: Event): System
    requires p.Valid() && WellFormed(ev) && j < |sys.limiters|
  {
    var (s, out) := Step(p.cfg, sys.limiters[j], ev);
    sys.(limiters := sys.limiters[j := s], written := sys.written + [Written(j, out)])
  }

  function Do(p: Setup, sys: System, a: Action): System
    requires p.Valid() && Can(p, sys, a)
  {
    match a
    case Deliver(id, at) => Take(p, Record(p, sys, a), id.endpoint, MessageEvent(sys, id, at))
    case Expire(j, t) => Take(p, Record(p, sys, a), j, Silence(t))
    case _ => Record(p, sys, a)
  }

  ghost predicate Next(p: Setup, sys: System, sys': System)
    requires p.Valid()
  {
    exists a :: Can(p, sys, a) && sys' == Do(p, sys, a)
  }

  /** The states an execution goes through, from the start. */
  ghost predicate Execution(p: Setup, b: seq<System>)
    requires p.Valid()
  {
    && |b| > 0 && b[0] == Start(p)
    && forall i, j :: 0 <= i && j == i + 1 && j < |b| ==> Next(p, b[i], b[j])
  }

  /** One limiter per endpoint, one task for each endpoint a handler loop has passed, and fitting messages. */
  ghost predicate Domains(p: Setup, sys: System) {
    && |sys.limiters| == p.endpoints
    && (forall r :: r in sys.looped ==> sys.looped[r] <= p.endpoints)
    && (forall id :: id in sys.tasks <==> id.request in sys.looped && id.endpoint < sys.looped[id.request])
    && (forall id :: id in sys.tasks ==> sys.tasks[id].Fits())
  }

  // ----- Each limiter sees only its own channel -----

  ghost predicate Projected(p: Setup, sys: System, j: nat)
    requires p.Valid() && j < |sys.limiters|
  {
    var events := Events(sys.taken, j);
    && Run(p.cfg, p.t0, events) && AllWellFormed(events)
    && sys.limiters[j] == After(p.cfg, INITIAL, events)
    && WrittenBy(sys.written, j) == Outputs(p.cfg, INITIAL, events)
  }

  lemma EventsAppend(taken: seq<Taken>, t: Taken, j: nat)
    ensures Events(taken + [t], j) == Events(taken, j) + if t.channel == j then [t.event] else []
  {
    assert (taken + [t])[..|taken|] == taken;
  }

  lemma WrittenAppend(written: seq<Written>, t: Written, j: nat)
    ensures WrittenBy(written + [t], j) == WrittenBy(written, j) + if t.channel == j then [t.out] else []
  {
    assert (written + [t])[..|written|] == written;
  }

  lemma TakeKeepsProjection(p: Setup, sys: System, t: Taken, k: nat)
    requires p.Valid() && Ready(p, sys, t.channel, t.event) && k < |sys.limiters| && Projected(p, sys, k)
    ensures Projected(p, Take(p, sys.(taken := sys.taken + [t]), t.channel, t.event), k)
  {
    var events := Events(sys.taken, k);
    EventsAppend(sys.taken, t, k);
    WrittenAppend(sys.written, Written(t.channel, Step(p.cfg, sys.limiters[t.channel], t.event).1), k);
    if k == t.channel {
      AfterOneMore(p.cfg, INITIAL, events, t.event);
      RunOneMore(p.cfg, p.t0, events, t.event);
    } else {
      assert events + [] == events && WrittenBy(sys.written, k) + [] == WrittenBy(sys.written, k);
    }
  }

  lemma StepKeepsProjection(p: Setup, sys: System, a: Action, k: nat)
    requires p.Valid() && Can(p, sys, a) && k < |sys.limiters| && Projected(p, sys, k)
    ensures k < |Do(p, sys, a).limiters| && Projected(p, Do(p, sys, a), k)
  {
    match a
    case Deliver(id, at) => TakeKeepsProjection(p, sys, Taken(id.endpoint, MessageEvent(sys, id, at), Some(id)), k);
    case Expire(j, t) => TakeKeepsProjection(p, sys, Taken(j, Silence(t), None), k);
    case _ =>
  }

  // ----- Accounting per task -----

  function IncrementsOf(increments: seq<Increment>, id: TaskId): nat {
    if increments == [] then 0
    else IncrementsOf(increments[..|increments| - 1], id) + if increments[|increments| - 1].task == id then 1 else 0
  }

  function MessagesOf(taken: seq<Taken>, id: TaskId, channel: nat): nat {
    if taken == [] then 0
    else
      var t := taken[|taken| - 1];
      MessagesOf(taken[..|taken| - 1], id, channel) + if t.sender == Some(id) && t.channel == channel then 1 else 0
  }

  /** A settled task has been counted once; a finished one has sent one message, on its own channel. */
  ghost predicate TaskAccounted(sys: System, id: TaskId, channel: nat) {
    var settled := id in sys.tasks && !sys.tasks[id].InFlight?;
    var finished := id in sys.tasks && sys.tasks[id].Finished?;
    && IncrementsOf(sys.increments, id) == (if settled then 1 else 0)
    && MessagesOf(sys.taken, id, channel) == (if finished && channel == id.endpoint then 1 else 0)
  }

  lemma IncrementsAppend(increments: seq<Increment>, i: Increment, id: TaskId)
    ensures IncrementsOf(increments + [i], id) == IncrementsOf(increments, id) + if i.task == id then 1 else 0
  {
    assert (increments + [i])[..|increments|] == increments;
  }

  lemma MessagesAppend(taken: seq<Taken>, t: Taken, id: TaskId, channel: nat)
    ensures MessagesOf(taken + [t], id, channel)
         == MessagesOf(taken, id, channel) + if t.sender == Some(id) && t.channel == channel then 1 else 0
  {
    assert (taken + [t])[..|taken|] == taken;
  }

  lemma DeliverKeepsTaskAccount(p: Setup, sys: System, a: Action, id: TaskId, channel: nat)
    requires Can(p, sys, a) && a.Deliver? && TaskAccounted(sys, id, channel)
    ensures TaskAccounted(Record(p, sys, a), id, channel)
  {
    var sender := a.sender;
    MessagesAppend(sys.taken, Taken(sender.endpoint, MessageEvent(sys, sender, a.at), Some(sender)), id, channel);
  }

  lemma StepKeepsTaskAccount(p: Setup, sys: System, a: Action, id: TaskId, channel: nat)
    requires Can(p, sys, a) && Domains(p, sys) && TaskAccounted(sys, id, channel)
    ensures TaskAccounted(Record(p, sys, a), id, channel)
  {
    match a
    case Accept(_) =>
    case Spawn(_, _) =>
    case Settle(settled, reply) => IncrementsAppend(sys.increments, Increment(settled, reply), id);
    case Deliver(_, _) => DeliverKeepsTaskAccount(p, sys, a, id, channel);
    case Expire(j, t) => MessagesAppend(sys.taken, Taken(j, Silence(t), None), id, channel);
  }

  // ----- What travels -----

  /** A task's message on its way is the one for its reply, and its reply is the one that was counted. */
  ghost predicate Honest(sys: System, id: TaskId)
    requires id in sys.tasks
  {
    var task := sys.tasks[id];
    && (task.Sending? ==> task.message == MessageFor(task.reply, task.url))
    && (!task.InFlight? ==> Increment(id, task.reply) in sys.increments)
  }

  /** What a limiter took from a sender is the message for the reply that sender has finished with. */
  ghost predicate Genuine(sys: System, t: Taken) {
    t.sender.Some? ==>
      var id := t.sender.value;
      && id in sys.tasks && sys.tasks[id].Finished? && t.channel == id.endpoint && t.event.Receive?
      && t.event.message == MessageFor(sys.tasks[id].reply, sys.tasks[id].url)
  }

  lemma StepKeepsHonest(p: Setup, sys: System, a: Action, id: TaskId)
    requires Can(p, sys, a) && id in Record(p, sys, a).tasks && (id in sys.tasks ==> Honest(sys, id))
    requires Domains(p, sys)
    ensures Honest(Record(p, sys, a), id)
  {
    match a
    case Settle(settled, reply) =>
      var all := sys.increments + [Increment(settled, reply)];
      assert all[|all| - 1] == Increment(settled, reply);
      assert forall i :: i in sys.increments ==> i in all;
    case _ =>
  }

  lemma StepKeepsGenuine(p: Setup, sys: System, a: Action, t: Taken)
    requires Can(p, sys, a) && t in Record(p, sys, a).taken && (t in sys.taken ==> Genuine(sys, t))
    requires Domains(p, sys) && forall id :: id in sys.tasks ==> Honest(sys, id)
    ensures Genuine(Record(p, sys, a), t)
  {
    match a
    case Deliver(id, at) =>
      var entry := Taken(id.endpoint, MessageEvent(sys, id, at), Some(id));
      assert t in sys.taken || t == entry;
      assert Honest(sys, id);
    case _ =>
  }

  // ----- Metrics against log lines -----

  /** Counter increments of one endpoint whose label is an error or a status outside 200 to 299. */
  function FailuresCounted(increments: seq<Increment>, j: nat): nat {
    if increments == [] then 0
    else
      var i := increments[|increments| - 1];
      FailuresCounted(increments[..|increments| - 1], j)
      + if i.task.endpoint == j && !i.reply.Succeeded() then 1 else 0
  }

  /** Goroutines of one endpoint that still have a failure to report. */
  ghost function Unsent(tasks: map<TaskId, Task>, j: nat): set<TaskId> {
    set id | id in tasks && id.endpoint == j && tasks[id].Sending? && !tasks[id].reply.Succeeded()
  }

  ghost predicate FailuresAccounted(sys: System, j: nat) {
    FailuresCounted(sys.increments, j) == Errors(Events(sys.taken, j)) + |Unsent(sys.tasks, j)|
  }

  lemma ErrorsAppend(events: seq<Event>, ev: Event)
    ensures Errors(events + [ev]) == Errors(events) + if ev.IsError() then 1 else 0
  {
    assert (events + [ev])[..|events|] == events;
  }

  /** One more event on channel `t.channel` adds to the errors of that channel only. */
  lemma ErrorsOfChannel(taken: seq<Taken>, t: Taken, j: nat)
    ensures Errors(Events(taken + [t], j))
         == Errors(Events(taken, j)) + if t.channel == j && t.event.IsError() then 1 else 0
  {
    EventsAppend(taken, t, j);
    ErrorsAppend(Events(taken, j), t.event);
    assert Events(taken, j) + [] == Events(taken, j);
  }

  lemma FailuresAppend(increments: seq<Increment>, i: Increment, j: nat)
    ensures FailuresCounted(increments + [i], j)
         == FailuresCounted(increments, j) + if i.task.endpoint == j && !i.reply.Succeeded() then 1 else 0
  {
    assert (increments + [i])[..|increments|] == increments;
  }

  lemma UnsentGrows(
    tasks: map<TaskId, Task>, id: TaskId, reply: Reply, url: string, message: Message, j: nat)
    requires id in tasks && tasks[id].InFlight?
    ensures |Unsent(tasks[id := Sending(reply, url, message)], j)|
         == |Unsent(tasks, j)| + if id.endpoint == j && !reply.Succeeded() then 1 else 0
  {
    var more := if id.endpoint == j && !reply.Succeeded() then {id} else {};
    assert Unsent(tasks[id := Sending(reply, url, message)], j) == Unsent(tasks, j) + more;
  }

  lemma UnsentShrinks(tasks: map<TaskId, Task>, id: TaskId, j: nat)
    requires id in tasks && tasks[id].Sending?
    ensures |Unsent(tasks[id := Finished(tasks[id].reply, tasks[id].url)], j)|
         == |Unsent(tasks, j)| - if id.endpoint == j && !tasks[id].reply.Succeeded() then 1 else 0
  {
    var gone := if id.endpoint == j && !tasks[id].reply.Succeeded() then {id} else {};
    assert Unsent(tasks[id := Finished(tasks[id].reply, tasks[id].url)], j) == Unsent(tasks, j) - gone;
  }

  lemma StepKeepsFailures(p: Setup, sys: System, a: Action, j: nat)
    requires Can(p, sys, a) && Domains(p, sys) && FailuresAccounted(sys, j)
    ensures FailuresAccounted(Record(p, sys, a), j)
  {
    var sys' := Record(p, sys, a);
    match a
    case Accept(_) =>
    case Spawn(_, _) => assert Unsent(sys'.tasks, j) == Unsent(sys.tasks, j);
    case Settle(id, reply) =>
      FailuresAppend(sys.increments, Increment(id, reply), j);
      UnsentGrows(sys.tasks, id, reply, sys'.tasks[id].url, sys'.tasks[id].message, j);
    case Deliver(id, at) =>
      assert sys.tasks[id].Fits();
      ErrorsOfChannel(sys.taken, Taken(id.endpoint, MessageEvent(sys, id, at), Some(id)), j);
      UnsentShrinks(sys.tasks, id, j);
    case Expire(c, t) => ErrorsOfChannel(sys.taken, Taken(c, Silence(t), None), j);
  }

  // ----- The invariant of every execution -----

  ghost predicate Invariant(p: Setup, sys: System)
    requires p.Valid()
  {
    && Domains(p, sys)
    && (forall j: nat :: j < p.endpoints ==> Projected(p, sys, j))
    && (forall id, c :: TaskAccounted(sys, id, c))
    && (forall j: nat :: FailuresAccounted(sys, j))
    && (forall id :: id in sys.tasks ==> Honest(sys, id))
    && (forall t :: t in sys.taken ==> Genuine(sys, t))
  }

  lemma InvariantAtStart(p: Setup)
    requires p.Valid()
    ensures Invariant(p, Start(p))
  {
    forall j: nat ensures FailuresAccounted(Start(p), j) {
      assert Unsent(map[], j) == {};
    }
  }

  lemma DomainsKept(p: Setup, sys: System, a: Action)
    requires Domains(p, sys) && Can(p, sys, a)
    ensures Domains(p, Record(p, sys, a))
  {
    if a.Settle? {
      MessagesAreSafe(a.reply, sys.tasks[a.settled].url);
    }
  }

  lemma InvariantKept(p: Setup, sys: System, a: Action)
    requires p.Valid() && Invariant(p, sys) && Can(p, sys, a)
    ensures Invariant(p, Do(p, sys, a))
  {
    var sys', recorded := Do(p, sys, a), Record(p, sys, a);
    assert sys'.looped == recorded.looped && sys'.tasks == recorded.tasks && sys'.increments == recorded.increments
        && sys'.taken == recorded.taken;
    DomainsKept(p, sys, a);
    forall j: nat | j < p.endpoints ensures Projected(p, sys', j) {
      StepKeepsProjection(p, sys, a, j);
    }
    forall id, c ensures TaskAccounted(sys', id, c) {
      StepKeepsTaskAccount(p, sys, a, id, c);
      assert TaskAccounted(recorded, id, c);
    }
    forall j: nat ensures FailuresAccounted(sys', j) {
      StepKeepsFailures(p, sys, a, j);
      assert FailuresAccounted(recorded, j);
    }
    forall id | id in sys'.tasks ensures Honest(sys', id) {
      StepKeepsHonest(p, sys, a, id);
    }
    forall t | t in sys'.taken ensures Genuine(sys', t) {
      StepKeepsGenuine(p, sys, a, t);
    }
  }

  lemma {:induction false} InvariantAlways(p: Setup, b: seq<System>, i: nat)
    requires p.Valid() && Execution(p, b) && i < |b|
    ensures Invariant(p, b[i])
  {
    if i == 0 {
      InvariantAtStart(p);
    } else {
      InvariantAlways(p, b, i - 1);
      assert Next(p, b[i - 1], b[i]);
      var a :| Can(p, b[i - 1], a) && b[i] == Do(p, b[i - 1], a);
      InvariantKept(p, b[i - 1], a);
    }
  }

  // ----- Results -----

  /** All handler loops and all forwarding goroutines have finished. */
  ghost predicate Quiescent(p: Setup, sys: System) {
    && (forall r :: r in sys.looped ==> sys.looped[r] == p.endpoints)
    && (forall id :: id in sys.tasks ==> sys.tasks[id].Finished?)
  }

  /**
   Whatever the interleaving, limiter `j` is where its own channel's events alone would have taken it,
   it has written what they alone would have produced, and its channel carried a genuine run.
   */
  lemma LimitersAreIndependent(p: Setup, b: seq<System>, i: nat, j: nat)
    requires p.Valid() && Execution(p, b) && i < |b| && j < p.endpoints
    ensures |b[i].limiters| == p.endpoints
    ensures
      var events := Events(b[i].taken, j);
      && Run(p.cfg, p.t0, events) && AllWellFormed(events)
      && b[i].limiters[j] == After(p.cfg, INITIAL, events)
      && WrittenBy(b[i].written, j) == Outputs(p.cfg, INITIAL, events)
  {
    InvariantAlways(p, b, i);
    assert Projected(p, b[i], j);
  }

  /** The rate bound holds endpoint by endpoint, for the lines the whole system writes. */
  lemma EveryEndpointIsLimited(p: Setup, b: seq<System>, i: nat, j: nat, w: Time)
    requires p.Valid() && Execution(p, b) && i < |b| && j < p.endpoints
    ensures
      var events := Events(b[i].taken, j);
      && AllWellFormed(events)
      && LinesWithin(p.cfg, w, WrittenBy(b[i].written, j))
         <= p.cfg.maxCount * (ResetsWithin(p.cfg, w, INITIAL, events) + 1) + 1
  {
    LimitersAreIndependent(p, b, i, j);
    GeneralBound(p.cfg, p.t0, Events(b[i].taken, j), w);
  }

  /**
   Once everything has finished, every (request, endpoint) pair has incremented the counter once and
   has sent one message, on its own endpoint's channel and on no other.
   */
  lemma ForwardsAreAccounted(p: Setup, b: seq<System>, i: nat, r: nat, j: nat, channel: nat)
    requires p.Valid() && Execution(p, b) && i < |b| && Quiescent(p, b[i])
    requires r in b[i].looped && j < p.endpoints
    ensures IncrementsOf(b[i].increments, TaskId(r, j)) == 1
    ensures MessagesOf(b[i].taken, TaskId(r, j), channel) == if channel == j then 1 else 0
  {
    InvariantAlways(p, b, i);
    assert TaskAccounted(b[i], TaskId(r, j), channel);
    assert TaskId(r, j) in b[i].tasks;
  }

  /**
   Whatever a limiter takes from a forwarding goroutine is, on that goroutine's own channel, the message
   for the very reply and URL the goroutine ended with, and that reply is the one the counter recorded.
   */
  lemma MessagesAreGenuine(p: Setup, b: seq<System>, i: nat, k: nat)
    requires p.Valid() && Execution(p, b) && i < |b| && k < |b[i].taken| && b[i].taken[k].sender.Some?
    ensures
      var t, id := b[i].taken[k], b[i].taken[k].sender.value;
      && id in b[i].tasks && b[i].tasks[id].Finished? && t.channel == id.endpoint && t.event.Receive?
      && t.event.message == MessageFor(b[i].tasks[id].reply, b[i].tasks[id].url)
      && Increment(id, b[i].tasks[id].reply) in b[i].increments
  {
    InvariantAlways(p, b, i);
    assert Genuine(b[i], b[i].taken[k]) && Honest(b[i], b[i].taken[k].sender.value);
  }

  /** At no moment has a pair been counted or reported twice, nor reported before it was counted or elsewhere. */
  lemma ForwardsNeverRepeat(p: Setup, b: seq<System>, i: nat, id: TaskId, channel: nat)
    requires p.Valid() && Execution(p, b) && i < |b|
    ensures MessagesOf(b[i].taken, id, channel) <= IncrementsOf(b[i].increments, id) <= 1
    ensures channel != id.endpoint ==> MessagesOf(b[i].taken, id, channel) == 0
  {
    InvariantAlways(p, b, i);
    assert TaskAccounted(b[i], id, channel);
  }

  /**
   The metrics and the log agree at every moment: the failures counted for an endpoint are those its
   log accounts for - in full lines, in summaries, inside summaries, still pending, or dropped by an
   interruption of reduced mode - and those whose goroutines have yet to hand over their message.
   */
  lemma MetricsMatchLog(p: Setup, b: seq<System>, i: nat, j: nat)
    requires p.Valid() && Execution(p, b) && i < |b| && j < p.endpoints
    ensures |b[i].limiters| == p.endpoints && AllWellFormed(Events(b[i].taken, j))
    ensures
      var log := Tally(WrittenBy(b[i].written, j));
      FailuresCounted(b[i].increments, j)
      == log.lines + log.summaries + log.reported
         + b[i].limiters[j].Pending() + Dropped(p.cfg, INITIAL, Events(b[i].taken, j))
         + |Unsent(b[i].tasks, j)|
    ensures Quiescent(p, b[i]) ==> Unsent(b[i].tasks, j) == {}
  {
    InvariantAlways(p, b, i);
    LimitersAreIndependent(p, b, i, j);
    assert FailuresAccounted(b[i], j);
    EventsAreConserved(p.cfg, INITIAL, Events(b[i].taken, j));
  }

  /** No forwarding goroutine or handler loop is ever stuck: some step other than a timer's is possible. */
  lemma NeverStuck(p: Setup, b: seq<System>, i: nat) returns (a: Action)
    requires p.Valid() && Execution(p, b) && i < |b| && !Quiescent(p, b[i])
    ensures Can(p, b[i], a) && !a.Accept? && !a.Expire?
  {
    InvariantAlways(p, b, i);
    var sys := b[i];
    if r :| r in sys.looped && sys.looped[r] != p.endpoints {
      a := Spawn(r, "");
    } else {
      var id :| id in sys.tasks && !sys.tasks[id].Finished?;
      if sys.tasks[id].InFlight? {
        a := Settle(id, Unreachable(""));
      } else {
        var now := Clock(p.t0, Events(sys.taken, id.endpoint));
        a := Deliver(id, Readings(now, now, now));
      }
    }
  }

  // ----- Progress -----

  ghost predicate TookAt(p: Setup, b: seq<System>, actions: seq<Action>, i: nat)
    requires p.Valid() && i < |actions| < |b|
  {
    Can(p, b[i], actions[i]) && b[i + 1] == Do(p, b[i], actions[i])
  }

  /** The actions an execution took, one between each two of its states. */
  ghost predicate Took(p: Setup, b: seq<System>, actions: seq<Action>)
    requires p.Valid()
  {
    |b| == |actions| + 1 && b[0] == Start(p) && forall i: nat :: i < |actions| ==> TookAt(p, b, actions, i)
  }

  lemma TookIsExecution(p: Setup, b: seq<System>, actions: seq<Action>)
    requires p.Valid() && Took(p, b, actions)
    ensures Execution(p, b)
  {
    forall i, j | 0 <= i && j == i + 1 && j < |b| ensures Next(p, b[i], b[j]) {
      assert TookAt(p, b, actions, i);
    }
  }

  /** How many of the actions were steps of a handler loop or of a forwarding goroutine. */
  function Forwarding(actions: seq<Action>): nat {
    if actions == [] then 0
    else
      var a := actions[|actions| - 1];
      Forwarding(actions[..|actions| - 1]) + if a.Accept? || a.Expire? then 0 else 1
  }

  ghost function Settled(tasks: map<TaskId, Task>): set<TaskId> {
    set id | id in tasks && !tasks[id].InFlight?
  }

  ghost function Ended(tasks: map<TaskId, Task>): set<TaskId> {
    set id | id in tasks && tasks[id].Finished?
  }

  /** Steps the tasks have behind them: they were started, then settled, then finished. */
  ghost function Behind(tasks: map<TaskId, Task>): nat {
    |tasks.Keys| + |Settled(tasks)| + |Ended(tasks)|
  }

  lemma StartLiesBehind(tasks: map<TaskId, Task>, id: TaskId, url: string)
    requires id !in tasks
    ensures Behind(tasks[id := InFlight(url)]) == Behind(tasks) + 1
  {
    var now := tasks[id := InFlight(url)];
    assert now.Keys == tasks.Keys + {id} && Settled(now) == Settled(tasks) && Ended(now) == Ended(tasks);
  }

  lemma SettlingLiesBehind(tasks: map<TaskId, Task>, id: TaskId, reply: Reply, url: string, message: Message)
    requires id in tasks && tasks[id].InFlight?
    ensures Behind(tasks[id := Sending(reply, url, message)]) == Behind(tasks) + 1
  {
    var now := tasks[id := Sending(reply, url, message)];
    assert now.Keys == tasks.Keys && Settled(now) == Settled(tasks) + {id} && Ended(now) == Ended(tasks);
  }

  lemma EndLiesBehind(tasks: map<TaskId, Task>, id: TaskId, reply: Reply, url: string)
    requires id in tasks && tasks[id].Sending?
    ensures Behind(tasks[id := Finished(reply, url)]) == Behind(tasks) + 1
  {
    var now := tasks[id := Finished(reply, url)];
    assert now.Keys == tasks.Keys && Settled(now) == Settled(tasks) && Ended(now) == Ended(tasks) + {id};
  }

  lemma StepsLieBehind(p: Setup, sys: System, a: Action)
    requires Can(p, sys, a) && Domains(p, sys)
    ensures Behind(Record(p, sys, a).tasks) == Behind(sys.tasks) + if a.Accept? || a.Expire? then 0 else 1
  {
    match a
    case Spawn(r, url) =>
      assert TaskId(r, sys.looped[r]) !in sys.tasks;
      StartLiesBehind(sys.tasks, TaskId(r, sys.looped[r]), url);
    case Settle(id, reply) => 
      SettlingLiesBehind(sys.tasks, id, reply, sys.tasks[id].url, MessageFor(reply, sys.tasks[id].url));
    case Deliver(id, _) => EndLiesBehind(sys.tasks, id, sys.tasks[id].reply, sys.tasks[id].url);
    case _ =>
  }

  lemma {:induction false} ForwardingLiesBehind(p: Setup, b: seq<System>, actions: seq<Action>)
    requires p.Valid() && Took(p, b, actions)
    ensures Forwarding(actions) == Behind(b[|actions|].tasks)
  {
    if actions == [] {
      assert Settled(map[]) == {} && Ended(map[]) == {};
    } else {
      var n := |actions| - 1;
      var past, before := b[..n + 1], actions[..n];
      forall i: nat | i < n ensures TookAt(p, past, before, i) {
        assert TookAt(p, b, actions, i);
      }
      ForwardingLiesBehind(p, past, before);
      TookIsExecution(p, b, actions);
      InvariantAlways(p, b, n);
      assert TookAt(p, b, actions, n);
      StepsLieBehind(p, b[n], actions[n]);
      assert Do(p, b[n], actions[n]).tasks == Record(p, b[n], actions[n]).tasks;
    }
  }

  ghost function Pairs(requests: set<nat>, n: nat): set<TaskId> {
    set r, j: nat | r in requests && j < n :: TaskId(r, j)
  }

  lemma {:induction false} RowSize(r: nat, n: nat)
    ensures |Pairs({r}, n)| == n
  {
    if n == 0 {
      assert Pairs({r}, n) == {};
    } else {
      RowSize(r, n - 1);
      assert Pairs({r}, n) == Pairs({r}, n - 1) + {TaskId(r, n - 1)};
    }
  }

  lemma PairsSplit(rest: set<nat>, r: nat, n: nat)
    requires r !in rest
    ensures |Pairs(rest + {r}, n)| == |Pairs(rest, n)| + |Pairs({r}, n)|
  {
    assert Pairs(rest + {r}, n) == Pairs(rest, n) + Pairs({r}, n);
    assert Pairs(rest, n) !! Pairs({r}, n);
  }

  lemma {:induction false} PairsSize(requests: set<nat>, n: nat)
    ensures |Pairs(requests, n)| == n * |requests|
  {
    if requests == {} {
      assert Pairs(requests, n) == {};
    } else {
      var r :| r in requests;
      var rest := requests - {r};
      PairsSize(rest, n);
      RowSize(r, n);
      PairsSplit(rest, r, n);
      assert requests == rest + {r};
      assert n * (|rest| + 1) == n * |rest| + n;
    }
  }

  lemma {:induction false} SubsetSize<T>(a: set<T>, b: set<T>)
    requires a <= b
    ensures |a| <= |b| && (|a| == |b| ==> a == b)
  {
    assert b == a + (b - a);
    assert |b| == |a| + |b - a|;
  }

  lemma AllLooped(p: Setup, sys: System)
    requires Domains(p, sys) && sys.tasks.Keys == Pairs(sys.looped.Keys, p.endpoints)
    ensures forall r :: r in sys.looped ==> sys.looped[r] == p.endpoints
  {
    forall r | r in sys.looped ensures sys.looped[r] == p.endpoints {
      if p.endpoints > 0 {
        assert TaskId(r, p.endpoints - 1) in Pairs(sys.looped.Keys, p.endpoints);
      }
    }
  }

  /**
   However the steps interleave, the handler loops and forwarding goroutines of R accepted requests take
   at most 3 steps per endpoint and request, and have taken that many exactly when all have finished.
   */
  lemma ForwardingEnds(p: Setup, b: seq<System>, actions: seq<Action>)
    requires p.Valid() && Took(p, b, actions)
    ensures
      var end := b[|actions|];
      && Forwarding(actions) <= 3 * (p.endpoints * |end.looped.Keys|)
      && (Forwarding(actions) == 3 * (p.endpoints * |end.looped.Keys|) <==> Quiescent(p, end))
  {
    var end := b[|actions|];
    TookIsExecution(p, b, actions);
    InvariantAlways(p, b, |actions|);
    ForwardingLiesBehind(p, b, actions);
    var all, started := Pairs(end.looped.Keys, p.endpoints), end.tasks.Keys;
    PairsSize(end.looped.Keys, p.endpoints);
    forall id | id in started ensures id in all {
      assert id == TaskId(id.request, id.endpoint);
    }
    SubsetSize(started, all);
    SubsetSize(Settled(end.tasks), started);
    SubsetSize(Ended(end.tasks), started);
    if started == all {
      AllLooped(p, end);
    }
    if Quiescent(p, end) {
      assert started == all && Settled(end.tasks) == started && Ended(end.tasks) == started;
    } else if started == all {
      var id :| id in end.tasks && !end.tasks[id].Finished?;
      assert id !in Ended(end.tasks);
    }
  }
}
