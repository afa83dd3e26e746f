/**
 * The request map of CRegServer: callers blocked on a device's answer.  A caller's RequestInfo object is
 * known by a number; the map holds, under the id sent to the device, the caller to release.  Every region
 * the request mutex protects is one step, and replies may be lost, late, repeated or forged.
 */
module CallTable {
  import opened Common
  import opened Messages

  /** RequestInfo; `id` is the id it was registered under and `expiredAt` the sweep that gave up on it. */
  datatype Call = Call(timeout: int, request: Message, id: Option<int>, response: Option<Message>,
                       signals: nat, expiredAt: Option<int>, returned: bool)

  /** What the server holds: m_request_map and the RequestInfo objects. */
  datatype Table = Table(pending: map<int, int>, calls: map<int, Call>)

  ghost predicate WellFormed(t: Table) {
    forall id :: id in t.pending ==> t.pending[id] in t.calls && t.calls[t.pending[id]].id == Some(id)
  }

  // ---------- operations ----------

  /** sendRequest without a connection: answered at once, never registered. */
  function Refuse(t: Table, c: int, timeout: int, request: Message): Table {
    t.(calls := t.calls[c := Call(timeout, request, None, Some(NotFound(request)), 0, None, true)])
  }

  /** sendRequest's region: std::map::insert, which never overwrites. */
  function Register(t: Table, c: int, timeout: int, request: Message, id: int): Table {
    Table(if id in t.pending then t.pending else t.pending[id := c],
          t.calls[c := Call(timeout, request, Some(id), None, 0, None, false)])
  }

  /** handleTaskFinish's region for a reply with the given request id. */
  function MatchReply(t: Table, id: int, reply: Message): Table {
    if id == 0 || id == 1 || id !in t.pending || t.pending[id] !in t.calls then t
    else
      var c := t.pending[id];
      Table(t.pending - {id}, t.calls[c := t.calls[c].(response := Some(reply), signals := t.calls[c].signals + 1)])
  }

  predicate Overdue(t: Table, id: int, now: int)
    requires id in t.pending
  {
    t.pending[id] in t.calls && now - id > t.calls[t.pending[id]].timeout
  }

  /** The caller c is registered and its request is overdue. */
  predicate GivesUp(t: Table, c: int, now: int)
    requires c in t.calls
  {
    var id := t.calls[c].id;
    id.Some? && id.value in t.pending && t.pending[id.value] == c && Overdue(t, id.value, now)
  }

  /** httpRequestTimer's pass: overdue callers are signalled without a response, the rest stay. */
  ghost function Expire(t: Table, now: int): Table {
    Table(map id | id in t.pending && !Overdue(t, id, now) :: t.pending[id],
          map c | c in t.calls :: if GivesUp(t, c, now)
                                  then t.calls[c].(signals := t.calls[c].signals + 1, expiredAt := Some(now))
                                  else t.calls[c])
  }

  /** httpRequestTimer's loop body for one entry. */
  function ExpireOne(t: Table, id: int, now: int): Table {
    if id in t.pending && Overdue(t, id, now) then
      var c := t.pending[id];
      Table(t.pending - {id}, t.calls[c := t.calls[c].(signals := t.calls[c].signals + 1, expiredAt := Some(now))])
    else t
  }

  /** The pass over t0 has come so far that the entries in todo are left. */
  ghost predicate ExpiredSoFar(t0: Table, now: int, todo: set<int>, t: Table) {
    && todo <= t.pending.Keys <= t0.pending.Keys
    && (forall id :: id in t0.pending ==> (id in t.pending <==> id in todo || !Overdue(t0, id, now)))
    && (forall id :: id in t.pending ==> t.pending[id] == t0.pending[id])
    && t.calls.Keys == t0.calls.Keys
    && forall c :: c in t.calls ==> t.calls[c] == ExpiredCall(t0, now, todo, c)
  }

  function ExpiredCall(t0: Table, now: int, todo: set<int>, c: int): Call
    requires c in t0.calls
  {
    var call := t0.calls[c];
    if GivesUp(t0, c, now) && call.id.value !in todo
    then call.(signals := call.signals + 1, expiredAt := Some(now))
    else call
  }

  lemma ExpireStep(t0: Table, now: int, todo: set<int>, t: Table, id: int)
    requires WellFormed(t0) && ExpiredSoFar(t0, now, todo, t) && id in todo
    ensures ExpiredSoFar(t0, now, todo - {id}, ExpireOne(t, id, now))
  {
    var c := t.pending[id];
    assert t0.calls[c].id == Some(id);
    assert t.calls[c] == t0.calls[c];
  }

  lemma ExpireEnds(t0: Table, now: int, t: Table)
    requires ExpiredSoFar(t0, now, {}, t)
    ensures t == Expire(t0, now)
  {
    assert t.pending.Keys == Expire(t0, now).pending.Keys;
    assert t.calls == Expire(t0, now).calls;
  }

  /** The blocked caller goes on once its semaphore was signalled. */
  function Return(t: Table, c: int): Table
    requires c in t.calls
  {
    t.(calls := t.calls[c := t.calls[c].(returned := true)])
  }

  /** What the HTTP caller is told. */
  function HttpAnswer(call: Call): Message {
    if call.response.Some? then call.response.value
    else call.request.(result := Some("failed"), detail := Some("timeout"))
  }

  // ---------- the protocol ----------

  /**
   * The table together with the world around it: every id ever issued and for whom, every message ever
   * sent to devices, every message devices ever sent back, and those among them no worker produced.
   */
  datatype Relay = Relay(table: Table, issued: map<int, int>, downlink: set<Message>, uplink: set<Message>,
                         forged: set<Message>)

  datatype Step =
    | DoRefuse(c: int, timeout: int, request: Message)
    | DoRegister(c: int, timeout: int, request: Message, id: int)
    | Send(c: int)
    | Answer(message: Message, outcome: Outcome)
    | Forge(message: Message)
    | DoMatch(reply: Message)
    | Sweep(now: int)
    | DoReturn(c: int)

  const INITIAL_RELAY := Relay(Table(map[], map[]), map[], {}, {}, {})

  /** Ids are fresh timestamps; everything else may happen at any time. */
  predicate Can(r: Relay, step: Step) {
    match step
    case DoRefuse(c, _, _) => c !in r.table.calls
    case DoRegister(c, _, _, id) => c !in r.table.calls && id !in r.issued && id >= 2
    case Send(c) => c in r.table.calls && r.table.calls[c].id.Some?
    case Answer(message, outcome) => message in r.downlink && WorkerReply(Some(message), outcome).Some?
    case Forge(_) => true
    case DoMatch(reply) => reply in r.uplink
    case Sweep(_) => true
    case DoReturn(c) => c in r.table.calls && r.table.calls[c].signals > 0 && !r.table.calls[c].returned
  }

  ghost function Next(r: Relay, step: Step): Relay
    requires Can(r, step)
  {
    match step
    case DoRefuse(c, timeout, request) => r.(table := Refuse(r.table, c, timeout, request))
    case DoRegister(c, timeout, request, id) =>
      r.(table := Register(r.table, c, timeout, request, id), issued := r.issued[id := c])
    case Send(c) => r.(downlink := r.downlink + {WithId(r.table.calls[c].request, r.table.calls[c].id.value)})
    case Answer(message, outcome) => r.(uplink := r.uplink + {WorkerReply(Some(message), outcome).value})
    case Forge(message) => r.(uplink := r.uplink + {message}, forged := r.forged + {message})
    case DoMatch(reply) => r.(table := MatchReply(r.table, ReplyId(reply), reply))
    case Sweep(now) => r.(table := Expire(r.table, now))
    case DoReturn(c) => r.(table := Return(r.table, c))
  }

  // ---------- what every step keeps ----------

  /** Ids and callers correspond one to one. */
  ghost predicate IdsMatch(r: Relay) {
    && (forall id :: id in r.issued ==> id >= 2 && r.issued[id] in r.table.calls
                                        && r.table.calls[r.issued[id]].id == Some(id))
    && (forall c :: c in r.table.calls && r.table.calls[c].id.Some?
                    ==> r.table.calls[c].id.value in r.issued && r.issued[r.table.calls[c].id.value] == c)
  }

  /** A registered caller is in the pending map exactly while unsignalled, and is signalled at most once. */
  ghost predicate PendingWhileUnsignalled(r: Relay) {
    && (forall id :: id in r.table.pending ==> id in r.issued && r.table.pending[id] == r.issued[id])
    && (forall c :: c in r.table.calls && r.table.calls[c].id.Some? ==>
          var call := r.table.calls[c];
          && call.signals <= 1
          && (call.signals == 0 <==> call.id.value in r.table.pending)
          && (call.returned ==> call.signals == 1))
  }

  /** A released caller holds a reply received under its own id, or nothing because its time was over. */
  ghost predicate OwnReply(r: Relay) {
    forall c :: c in r.table.calls && r.table.calls[c].id.Some? ==>
      var call := r.table.calls[c];
      && (call.signals == 0 ==> call.response.None?)
      && (call.response.Some? ==> call.response.value in r.uplink && ReplyId(call.response.value) == call.id.value)
      && (call.signals == 1 && call.response.None? ==>
            call.expiredAt.Some? && call.expiredAt.value - call.id.value > call.timeout)
  }

  ghost predicate FromWorker(m: Message, downlink: set<Message>) {
    exists request, outcome :: request in downlink && AnswersTo(m, request, outcome)
  }

  /** Devices were sent only stamped requests of registered callers, and unforged replies answer those. */
  ghost predicate LinksHonest(r: Relay) {
    && (forall m :: m in r.downlink ==>
          && m.requestId.Some? && m.requestId.value in r.issued
          && r.issued[m.requestId.value] in r.table.calls
          && m == WithId(r.table.calls[r.issued[m.requestId.value]].request, m.requestId.value))
    && (forall m :: m in r.uplink ==> m in r.forged || FromWorker(m, r.downlink))
  }

  ghost predicate CallersServed(r: Relay) {
    IdsMatch(r) && PendingWhileUnsignalled(r) && OwnReply(r) && WellFormed(r.table)
  }

  ghost predicate Inv(r: Relay) {
    CallersServed(r) && LinksHonest(r)
  }

  lemma SendKeepsInv(r: Relay, c: int)
    requires Inv(r) && Can(r, Send(c))
    ensures Inv(Next(r, Send(c)))
  {
    var r' := Next(r, Send(c));
    forall m | m in r'.uplink ensures m in r'.forged || FromWorker(m, r'.downlink) {
      if m !in r.forged {
        var request, outcome :| request in r.downlink && AnswersTo(m, request, outcome);
        assert request in r'.downlink;
      }
    }
  }

  lemma AnswerKeepsInv(r: Relay, message: Message, outcome: Outcome)
    requires Inv(r) && Can(r, Answer(message, outcome))
    ensures Inv(Next(r, Answer(message, outcome)))
  {
    assert AnswersTo(WorkerReply(Some(message), outcome).value, message, outcome);
  }

  /** The links stay honest while ids, requests and messages stay. */
  lemma LinksStay(r: Relay, r': Relay)
    requires LinksHonest(r) && r'.downlink == r.downlink && r'.uplink == r.uplink && r'.forged == r.forged
    requires forall id :: id in r.issued ==> id in r'.issued && r'.issued[id] == r.issued[id]
    requires forall c :: c in r.table.calls ==>
               c in r'.table.calls && r'.table.calls[c].request == r.table.calls[c].request
    ensures LinksHonest(r')
  {
  }

  lemma RegisterServes(r: Relay, c: int, timeout: int, request: Message, id: int)
    requires CallersServed(r) && Can(r, DoRegister(c, timeout, request, id))
    ensures CallersServed(Next(r, DoRegister(c, timeout, request, id)))
  {
  }

  lemma MatchServes(r: Relay, reply: Message)
    requires CallersServed(r) && reply in r.uplink
    ensures CallersServed(Next(r, DoMatch(reply)))
  {
  }

  lemma SweepServes(r: Relay, now: int)
    requires CallersServed(r)
    ensures CallersServed(Next(r, Sweep(now)))
  {
  }

  lemma RegisterKeepsInv(r: Relay, c: int, timeout: int, request: Message, id: int)
    requires Inv(r) && Can(r, DoRegister(c, timeout, request, id))
    ensures Inv(Next(r, DoRegister(c, timeout, request, id)))
  {
    RegisterServes(r, c, timeout, request, id);
    LinksStay(r, Next(r, DoRegister(c, timeout, request, id)));
  }

  lemma MatchKeepsInv(r: Relay, reply: Message)
    requires Inv(r) && Can(r, DoMatch(reply))
    ensures Inv(Next(r, DoMatch(reply)))
  {
    MatchServes(r, reply);
    LinksStay(r, Next(r, DoMatch(reply)));
  }

  lemma SweepKeepsInv(r: Relay, now: int)
    requires Inv(r)
    ensures Inv(Next(r, Sweep(now)))
  {
    SweepServes(r, now);
    LinksStay(r, Next(r, Sweep(now)));
  }

  lemma NextKeepsInv(r: Relay, step: Step)
    requires Inv(r) && Can(r, step)
    ensures Inv(Next(r, step))
  {
    match step
    case DoRegister(c, timeout, request, id) => RegisterKeepsInv(r, c, timeout, request, id);
    case Send(c) => SendKeepsInv(r, c);
    case Answer(message, outcome) => AnswerKeepsInv(r, message, outcome);
    case DoMatch(reply) => MatchKeepsInv(r, reply);
    case Sweep(now) => SweepKeepsInv(r, now);
    case _ =>
  }

  // ---------- whole runs ----------

  ghost predicate IsRun(states: seq<Relay>, steps: seq<Step>) {
    && |states| == |steps| + 1
    && states[0] == INITIAL_RELAY
    && forall i :: 0 <= i < |steps| ==> Can(states[i], steps[i]) && states[i + 1] == Next(states[i], steps[i])
  }

  lemma {:induction false} EveryRunKeepsInv(states: seq<Relay>, steps: seq<Step>, n: nat)
    requires IsRun(states, steps) && n < |states|
    ensures Inv(states[n])
  {
    if n > 0 {
      EveryRunKeepsInv(states, steps, n - 1);
      assert Can(states[n - 1], steps[n - 1]);
      NextKeepsInv(states[n - 1], steps[n - 1]);
    }
  }

  /**
   * In every interleaving: a registered caller is signalled at most once and is pending exactly while it is
   * not; a caller released with a response got a reply carrying the id of its own request, and unless some
   * device made that reply up, it is the worker's answer to exactly this caller's request.
   */
  lemma CallerGetsItsOwnAnswer(states: seq<Relay>, steps: seq<Step>, n: nat, c: int)
    requires IsRun(states, steps) && n < |states| && c in states[n].table.calls
    requires states[n].table.calls[c].id.Some?
    ensures var r := states[n];
            var call := r.table.calls[c];
            && call.signals <= 1
            && (call.signals == 0 <==> call.id.value in r.table.pending && r.table.pending[call.id.value] == c)
            && (call.response.Some? ==>
                  && ReplyId(call.response.value) == call.id.value
                  && (call.response.value in r.forged
                      || exists outcome ::
                           AnswersTo(call.response.value, WithId(call.request, call.id.value), outcome)))
            && (call.returned && call.response.None? ==>
                  call.expiredAt.Some? && call.expiredAt.value - call.id.value > call.timeout)
  {
    EveryRunKeepsInv(states, steps, n);
    var r := states[n];
    var call := r.table.calls[c];
    if call.response.Some? && call.response.value !in r.forged {
      var reply := call.response.value;
      var request, outcome :| request in r.downlink && AnswersTo(reply, request, outcome);
      WorkerEchoesId(request, outcome, reply);
    }
  }

  /** What a caller registered with stays as it was. */
  lemma {:induction false} CallIsAsRegistered(states: seq<Relay>, steps: seq<Step>, i: nat, n: nat)
    requires IsRun(states, steps) && i < n < |states| && steps[i].DoRegister?
    ensures var c := steps[i].c;
            && c in states[n].table.calls
            && states[n].table.calls[c].timeout == steps[i].timeout
            && states[n].table.calls[c].request == steps[i].request
            && states[n].table.calls[c].id == Some(steps[i].id)
  {
    if n == i + 1 {
      assert states[n] == Next(states[i], steps[i]);
    } else {
      CallIsAsRegistered(states, steps, i, n - 1);
      CallStays(states[n - 1], steps[n - 1], steps[i].c);
    }
  }

  lemma CallStays(r: Relay, step: Step, c: int)
    requires Can(r, step) && c in r.table.calls
    ensures var r' := Next(r, step);
            && c in r'.table.calls
            && r'.table.calls[c].timeout == r.table.calls[c].timeout
            && r'.table.calls[c].request == r.table.calls[c].request
            && r'.table.calls[c].id == r.table.calls[c].id
  {
  }

  /** A caller was given up by a sweep that read the clock then. */
  lemma {:induction false} ExpiredBySweep(states: seq<Relay>, steps: seq<Step>, n: nat, c: int) returns (j: nat)
    requires IsRun(states, steps) && n < |states|
    requires c in states[n].table.calls && states[n].table.calls[c].expiredAt.Some?
    ensures j < n && steps[j] == Sweep(states[n].table.calls[c].expiredAt.value)
  {
    assert Can(states[n - 1], steps[n - 1]) && states[n] == Next(states[n - 1], steps[n - 1]);
    if c in states[n - 1].table.calls && states[n - 1].table.calls[c].expiredAt == states[n].table.calls[c].expiredAt {
      j := ExpiredBySweep(states, steps, n - 1, c);
    } else {
      j := n - 1;
    }
  }

  /** A message from a device that no device made up was answered by a worker in some step. */
  lemma {:induction false} AnsweredInStep(states: seq<Relay>, steps: seq<Step>, n: nat, m: Message) returns (j: nat)
    requires IsRun(states, steps) && n < |states| && m in states[n].uplink && m !in states[n].forged
    ensures j < n && steps[j].Answer? && AnswersTo(m, steps[j].message, steps[j].outcome)
  {
    assert Can(states[n - 1], steps[n - 1]) && states[n] == Next(states[n - 1], steps[n - 1]);
    if m in states[n - 1].uplink {
      j := AnsweredInStep(states, steps, n - 1, m);
    } else {
      j := n - 1;
    }
  }

  /** A stamped message on its way down is the request registered under that id. */
  lemma SentAsRegistered(states: seq<Relay>, steps: seq<Step>, i: nat, j: nat, n: nat, message: Message)
    requires IsRun(states, steps) && i < n < |states| && j < n && steps[i].DoRegister?
    requires message in states[j].downlink && message.requestId == Some(steps[i].id)
    ensures message == WithId(steps[i].request, steps[i].id)
  {
    DownlinkStays(states, steps, j, n);
    EveryRunKeepsInv(states, steps, n);
    CallIsAsRegistered(states, steps, i, n);
  }

  lemma {:induction false} DownlinkStays(states: seq<Relay>, steps: seq<Step>, j: nat, n: nat)
    requires IsRun(states, steps) && j <= n < |states|
    ensures states[j].downlink <= states[n].downlink
  {
    if j < n {
      DownlinkStays(states, steps, j, n - 1);
      assert states[n] == Next(states[n - 1], steps[n - 1]);
    }
  }

  /**
   * End to end, for a forwarded HTTP request registered by step i: once its caller goes on, and unless some
   * device made its reply up, step j is what it is told of.  Either a worker answered this very request in step
   * j, and the caller is told good with the outcome's parameters or failed with its detail code; or step j was a
   * sweep after more than the request's timeout, and the caller gets its own request back as failed by timeout.
   */
  lemma ForwardedCallerIsToldItsOutcome(states: seq<Relay>, steps: seq<Step>, i: nat, n: nat) returns (j: nat)
    requires IsRun(states, steps) && i < n < |states| && steps[i].DoRegister? && Forwarded(steps[i].request)
    requires steps[i].c in states[n].table.calls && states[n].table.calls[steps[i].c].returned
    requires var response := states[n].table.calls[steps[i].c].response;
             response.Some? ==> response.value !in states[n].forged
    ensures j < n
    ensures var told := HttpAnswer(states[n].table.calls[steps[i].c]);
            var request := steps[i].request;
            && told.action == request.action
            && match steps[j]
               case Answer(message, outcome) =>
                 && message == request.(requestId := Some(steps[i].id))
                 && told.kind == Some("response") && told.requestId == Some(steps[i].id)
                 && (told.result == Some("good") <==> outcome.Good?)
                 && (told.result == Some("failed") <==> outcome.Bad?)
                 && (outcome.Good? ==> told.param == Some(outcome.param) && told.detail.None?)
                 && (outcome.Bad? ==> told.detail == Some(outcome.detail) && told.param.None?)
               case Sweep(now) =>
                 && now - steps[i].id > steps[i].timeout
                 && told.result == Some("failed") && told.detail == Some("timeout")
                 && told.kind == request.kind && told.param == request.param && told.requestId == request.requestId
               case _ => false
  {
    var c, id := steps[i].c, steps[i].id;
    CallIsAsRegistered(states, steps, i, n);
    CallerGetsItsOwnAnswer(states, steps, n, c);
    EveryRunKeepsInv(states, steps, n);
    var call := states[n].table.calls[c];
    if call.response.Some? {
      j := AnsweredInStep(states, steps, n, call.response.value);
      WorkerEchoesId(steps[j].message, steps[j].outcome, call.response.value);
      assert Can(states[i], steps[i]) && Can(states[j], steps[j]);
      SentAsRegistered(states, steps, i, j, n, steps[j].message);
      ForwardedRequestIsAnswered(steps[i].request, id, steps[j].outcome);
    } else {
      j := ExpiredBySweep(states, steps, n, c);
    }
  }

  /** A caller refused for want of a connection is told 404 with its own action and parameters, and does not wait. */
  lemma RefusedCallerIsTold404(t: Table, c: int, timeout: int, request: Message)
    ensures var t' := Refuse(t, c, timeout, request);
            && t'.pending == t.pending && t'.calls[c].returned
            && HttpAnswer(t'.calls[c]) == Message(Some("response"), request.action, request.param, request.requestId,
                                                  Some("failed"), Some("404"))
  {
  }

  /** A request from a device, or a response without an id, releases nobody. */
  lemma UnlabelledReleasesNobody(t: Table, m: Message)
    requires m.kind != Some("response") || m.requestId.None?
    ensures MatchReply(t, ReplyId(m), m) == t
  {
  }

  /** No entry of the request map ever points at a caller that has already gone on and freed its request. */
  lemma PendingCallersAreStillWaiting(states: seq<Relay>, steps: seq<Step>, n: nat, id: int)
    requires IsRun(states, steps) && n < |states| && id in states[n].table.pending
    ensures var c := states[n].table.pending[id];
            c in states[n].table.calls && !states[n].table.calls[c].returned && states[n].table.calls[c].signals == 0
  {
    EveryRunKeepsInv(states, steps, n);
  }

  /** After a sweep no pending request is overdue. */
  lemma SweepLeavesNoneOverdue(t: Table, now: int)
    requires WellFormed(t)
    ensures WellFormed(Expire(t, now))
    ensures forall id :: id in Expire(t, now).pending ==> !Overdue(Expire(t, now), id, now)
  {
    var t' := Expire(t, now);
    forall id | id in t'.pending ensures t'.calls[t'.pending[id]] == t.calls[t.pending[id]] {
      assert !GivesUp(t, t.pending[id], now);
    }
  }

  // ---------- why ids must be fresh ----------

  /** Registration puts the caller in the map exactly when its id is not pending already. */
  lemma RegisteredExactlyIfIdIsFree(t: Table, c: int, timeout: int, request: Message, id: int)
    requires WellFormed(t) && c !in t.calls
    ensures var t' := Register(t, c, timeout, request, id);
            && WellFormed(t')
            && ((id in t'.pending && t'.pending[id] == c) <==> id !in t.pending)
  {
  }

  /** The caller is in no entry of the map. */
  predicate Stranded(t: Table, c: int) {
    c in t.calls && forall id :: id in t.pending ==> t.pending[id] != c
  }

  /** Otherwise it is stranded: no reply and no sweep ever signals it. */
  lemma StrandedIsNeverSignalled(t: Table, c: int, id: int, reply: Message, now: int)
    requires WellFormed(t) && Stranded(t, c)
    ensures Stranded(MatchReply(t, id, reply), c) && MatchReply(t, id, reply).calls[c] == t.calls[c]
    ensures Stranded(Expire(t, now), c) && Expire(t, now).calls[c] == t.calls[c]
  {
  }

  /** Whoever holds an id gets the answer to a request registered under it: its caller exactly if the id was free. */
  lemma AnswerGoesToTheHolder(t: Table, c: int, timeout: int, request: Message, id: int, outcome: Outcome)
    requires WellFormed(t) && c !in t.calls && id >= 2 && Forwarded(request)
    ensures var reply := WorkerReply(Some(request.(requestId := Some(id))), outcome);
            && reply.Some?
            && var t' := MatchReply(Register(t, c, timeout, request, id), ReplyId(reply.value), reply.value);
            && var holder := if id in t.pending then t.pending[id] else c;
            && t'.calls[holder].response == reply
            && (t'.calls[c].response == reply <==> id !in t.pending)
  {
    ForwardedRequestIsAnswered(request, id, outcome);
  }

  /**
   * A second request under a pending id, as two in one microsecond would be: the second caller is stranded, and
   * the first is handed the answer to the second's request.
   */
  lemma SameMicrosecondStrandsTheSecond(t: Table, c: int, timeout: int, request: Message, id: int, outcome: Outcome)
    requires WellFormed(t) && c !in t.calls && id >= 2 && Forwarded(request) && id in t.pending
    ensures var t' := Register(t, c, timeout, request, id);
            var answer := WorkerReply(Some(request.(requestId := Some(id))), outcome);
            && WellFormed(t') && Stranded(t', c) && answer.Some?
            && MatchReply(t', ReplyId(answer.value), answer.value).calls[t.pending[id]].response == answer
  {
    AnswerGoesToTheHolder(t, c, timeout, request, id, outcome);
  }
}
