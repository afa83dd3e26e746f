/**
 * The device sockets of CRegServer: the map of idle sockets, the select list, the worker tasks, the
 * closed sockets, and the inner socket whose bytes wake the select loop.  Every region that the
 * register mutex protects is one step; the write that handleTaskFinish performs after it has released the
 * mutex is a step of its own.
 */
module SocketPool {
  import opened Common
  import Messages

  /** A member of the select list: the read end of the inner socket, or a device socket by its impl number. */
  datatype Sock = Inner | Device(impl: int)

  /** SocketTime::state; no code ever sets Connecting. */
  datatype Link = Disconnected | Connecting | Connected

  /** What receiveBytes meets: data, None if it is no message, an orderly close, or an exception. */
  datatype Received = Data(message: Option<Messages.Message>) | Eof | Failure

  /** Outcome of a handler task: m_receive, m_req_id and m_http_response. */
  datatype Result = Result(receive: bool, reqId: int, response: Option<Messages.Message>)

  const NOTHING_RECEIVED := Result(false, 0, None)

  /** handleRegMsg: only a response carries a request id and is kept for its caller. */
  function ResultOf(message: Option<Messages.Message>): Result {
    if message.Some? && message.value.kind == Some(Messages.RESPONSE)
    then Result(true, Messages.ReplyId(message.value), message)
    else Result(true, 0, None)
  }

  /** handleTaskFinish closes the socket of a task with this outcome. */
  predicate Disconnects(result: Result) {
    result.reqId == 0 && !result.receive
  }

  /** A CRegMsgHandler task holding one socket. */
  datatype Handler = Handler(impl: int, link: Link, result: Option<Result>)

  /** The select loop: between rounds, blocked in select, or walking the readable sockets. */
  datatype Loop = Ready | Blocked(watched: seq<Sock>) | Scanning(todo: seq<Sock>)

  datatype Pool = Pool(
    regMap: map<int, Link>,        // m_pReg_map
    list: seq<Sock>,               // m_reg_sock_list
    tasks: map<int, Handler>,      // handler tasks that hold a socket
    writers: set<int>,             // handleTaskFinish calls between their push and their write
    bytes: nat,                    // bytes waiting in the inner socket
    loop: Loop,
    closed: seq<int>,              // every close of a device socket, in order
    accepted: set<int>,            // every socket ever accepted
    pushed: nat,                   // pushes to the list that owe the inner socket a byte
    consumed: nat)                 // bytes read from the inner socket

  datatype Step =
    | Accept(impl: int)
    | Snapshot
    | Wake(readable: seq<Sock>)
    | Timeout
    | Scan(task: int)
    | ScanDone
    | Receive(task: int, event: Received)
    | CloseFinished(task: int)
    | Reinsert(task: int)
    | Write(task: int)
    | Offline(impl: int)

  const INITIAL_POOL := Pool(map[], [Inner], map[], {}, 0, Ready, [], {}, 0, 0)

  function PositionOf(list: seq<Sock>, s: Sock): nat {
    IndexWhere(list, (x: Sock) => x == s)
  }

  /** std::find followed by erase. */
  function Erase(list: seq<Sock>, s: Sock): seq<Sock> {
    Without(list, PositionOf(list, s))
  }

  /** std::map::insert. */
  function InsertIdle(regMap: map<int, Link>, impl: int, link: Link): map<int, Link> {
    if impl in regMap then regMap else regMap[impl := link]
  }

  ghost predicate NoRepeats<T>(s: seq<T>) {
    forall i, j :: 0 <= i < j < |s| ==> s[i] != s[j]
  }

  // ---------- the steps ----------

  /** receiveBytes and runTask of a handler: the socket's state afterwards and the task's outcome. */
  function Handled(h: Handler, event: Received): Handler {
    match event
    case Data(message) => h.(link := Connected, result := Some(ResultOf(message)))
    case Eof => h.(link := Disconnected, result := Some(NOTHING_RECEIVED))
    case Failure =>
      h.(link := if h.link.Connecting? then Disconnected else h.link, result := Some(NOTHING_RECEIVED))
  }

  /** Which steps the environment and the program counter allow. */
  ghost predicate Can(p: Pool, step: Step) {
    match step
    case Accept(impl) => impl !in p.accepted
    case Snapshot => p.loop.Ready?
    case Wake(readable) =>
      && p.loop.Blocked? && NoRepeats(readable) && (forall s :: s in readable ==> s in p.loop.watched)
      && (Inner in readable ==> p.bytes > 0)
    case Timeout => p.loop.Blocked?
    case Scan(task) =>
      && p.loop.Scanning? && p.loop.todo != [] && task !in p.tasks && task !in p.writers
      && (p.loop.todo[0] == Inner ==> p.bytes > 0)
    case ScanDone => p.loop == Scanning([])
    case Receive(task, _) => task in p.tasks && p.tasks[task].result.None?
    case CloseFinished(task) => task in p.tasks && p.tasks[task].result.Some? && Disconnects(p.tasks[task].result.value)
    case Reinsert(task) =>
      task in p.tasks && p.tasks[task].result.Some? && !Disconnects(p.tasks[task].result.value)
    case Write(task) => task in p.writers
    case Offline(_) => true
  }

  /** regHandler's loop body for the head of the readable list; reading the inner socket blocks without a byte. */
  function ScanOne(p: Pool, task: int): Pool
    requires p.loop.Scanning? && p.loop.todo != []
    requires p.loop.todo[0] == Inner ==> p.bytes > 0
  {
    var rest := Scanning(p.loop.todo[1..]);
    match p.loop.todo[0]
    case Inner => p.(loop := rest, bytes := p.bytes - 1, consumed := p.consumed + 1)
    case Device(impl) =>
      var q := p.(loop := rest, list := Erase(p.list, Device(impl)));
      if impl in p.regMap
      then q.(regMap := p.regMap - {impl}, tasks := p.tasks[task := Handler(impl, p.regMap[impl], None)])
      else q
  }

  function RemoveSocket(p: Pool, impl: int): Pool {
    if impl in p.regMap
    then p.(list := Erase(p.list, Device(impl)), closed := p.closed + [impl], regMap := p.regMap - {impl})
    else p
  }

  ghost function Next(p: Pool, step: Step): Pool
    requires Can(p, step)
  {
    match step
    case Accept(impl) =>
      p.(regMap := InsertIdle(p.regMap, impl, Disconnected), list := p.list + [Device(impl)],
         bytes := p.bytes + 1, accepted := p.accepted + {impl}, pushed := p.pushed + 1)
    case Snapshot => p.(loop := Blocked(p.list))
    case Wake(readable) => p.(loop := Scanning(readable))
    case Timeout => p.(loop := Ready)
    case Scan(task) => ScanOne(p, task)
    case ScanDone => p.(loop := Ready)
    case Receive(task, event) => p.(tasks := p.tasks[task := Handled(p.tasks[task], event)])
    case CloseFinished(task) => p.(closed := p.closed + [p.tasks[task].impl], tasks := p.tasks - {task})
    case Reinsert(task) =>
      var h := p.tasks[task];
      p.(list := p.list + [Device(h.impl)], regMap := InsertIdle(p.regMap, h.impl, h.link),
         tasks := p.tasks - {task}, writers := p.writers + {task}, pushed := p.pushed + 1)
    case Write(task) => p.(bytes := p.bytes + 1, writers := p.writers - {task})
    case Offline(impl) => RemoveSocket(p, impl)
  }

  // ---------- what every step keeps ----------

  /** The list holds the inner socket and each idle device socket exactly once, and nothing else. */
  ghost predicate ListMatches(p: Pool) {
    && NoRepeats(p.list)
    && Inner in p.list
    && forall impl :: Device(impl) in p.list <==> impl in p.regMap
  }

  ghost predicate Held(p: Pool, impl: int) {
    exists task :: task in p.tasks && p.tasks[task].impl == impl
  }

  /** Every accepted socket is idle, held by exactly one task, or closed exactly once; never two of these. */
  ghost predicate OnePlace(p: Pool) {
    && (forall impl :: impl in p.accepted <==> impl in p.regMap || Held(p, impl) || impl in p.closed)
    && (forall impl :: impl in p.regMap ==> !Held(p, impl) && impl !in p.closed)
    && (forall impl :: Held(p, impl) ==> impl !in p.closed)
    && (forall a, b :: a in p.tasks && b in p.tasks && p.tasks[a].impl == p.tasks[b].impl ==> a == b)
    && NoRepeats(p.closed)
  }

  /**
   * No lost wake-up: while the loop is blocked on a snapshot, a listed socket outside the snapshot
   * means that a byte is waiting in the inner socket or that a writer is between its push and its write.
   */
  ghost predicate NoLostWakeUp(p: Pool) {
    p.loop.Blocked? ==>
      && Inner in p.loop.watched
      && forall s :: s in p.list && s !in p.loop.watched ==> p.bytes > 0 || p.writers != {}
  }

  /** Reading the inner socket never blocks the loop. */
  ghost predicate ScanSafe(p: Pool) {
    p.loop.Scanning? ==> NoRepeats(p.loop.todo) && (Inner in p.loop.todo ==> p.bytes > 0)
  }

  /** Every push owes one byte: written and waiting, already read, or still to be written. */
  ghost predicate BytesConserved(p: Pool) {
    && p.bytes + p.consumed + |p.writers| == p.pushed
    && p.writers !! p.tasks.Keys
  }

  /** A finished task's request id is the one its own response carries. */
  ghost predicate ResultsMatch(p: Pool) {
    forall task :: task in p.tasks && p.tasks[task].result.Some? ==>
      var result := p.tasks[task].result.value;
      match result.response
      case Some(response) => result.receive && result.reqId == Messages.ReplyId(response)
      case None => result.reqId == 0
  }

  ghost predicate Inv(p: Pool) {
    ListMatches(p) && OnePlace(p) && NoLostWakeUp(p) && ScanSafe(p) && BytesConserved(p) && ResultsMatch(p)
  }

  lemma InitialInv()
    ensures Inv(INITIAL_POOL)
  {
    assert INITIAL_POOL.list[0] == Inner;
  }

  /** Erasing a listed element keeps all the others, in order. */
  lemma EraseFacts(list: seq<Sock>, s: Sock)
    requires NoRepeats(list)
    ensures NoRepeats(Erase(list, s))
    ensures forall x :: x in Erase(list, s) <==> x in list && x != s
  {
    var at := PositionOf(list, s);
    var list' := Erase(list, s);
    assert forall j :: 0 <= j < |list'| ==> list'[j] == list[if j < at then j else j + 1];
    forall x | x in list && x != s ensures x in list' {
      var i :| 0 <= i < |list| && list[i] == x;
      assert list'[if i < at then i else i - 1] == x;
    }
  }

  lemma AppendNoRepeats<T>(s: seq<T>, x: T)
    requires NoRepeats(s) && x !in s
    ensures NoRepeats(s + [x])
  {
  }

  lemma TasksOnlyLose(p: Pool, q: Pool, task: int)
    requires OnePlace(p) && task in p.tasks && q.tasks == p.tasks - {task}
    ensures forall impl :: Held(q, impl) <==> Held(p, impl) && impl != p.tasks[task].impl
  {
    forall impl ensures Held(q, impl) <==> Held(p, impl) && impl != p.tasks[task].impl {
      if Held(p, impl) && impl != p.tasks[task].impl {
        var a :| a in p.tasks && p.tasks[a].impl == impl;
        assert a in q.tasks && q.tasks[a].impl == impl;
      }
    }
  }

  lemma AcceptKeepsInv(p: Pool, impl: int)
    requires Inv(p) && Can(p, Accept(impl))
    ensures Inv(Next(p, Accept(impl)))
  {
    var q := Next(p, Accept(impl));
    AppendNoRepeats(p.list, Device(impl));
    assert forall i :: Held(q, i) <==> Held(p, i);
  }

  lemma ScanInnerKeepsInv(p: Pool, task: int)
    requires Inv(p) && Can(p, Scan(task)) && p.loop.todo[0] == Inner
    ensures Inv(Next(p, Scan(task)))
  {
    var q := Next(p, Scan(task));
    assert forall i :: 0 <= i < |q.loop.todo| ==> q.loop.todo[i] == p.loop.todo[i + 1];
    assert forall impl :: Held(q, impl) <==> Held(p, impl);
  }

  lemma DispatchedIsHeld(p: Pool, q: Pool, task: int, h: Handler)
    requires task !in p.tasks && q.tasks == p.tasks[task := h]
    ensures forall impl :: Held(q, impl) <==> Held(p, impl) || impl == h.impl
  {
    forall impl ensures Held(q, impl) <==> Held(p, impl) || impl == h.impl {
      if Held(p, impl) {
        var a :| a in p.tasks && p.tasks[a].impl == impl;
        assert a in q.tasks && q.tasks[a].impl == impl;
      }
      assert task in q.tasks && q.tasks[task].impl == h.impl;
    }
  }

  lemma ScanDeviceKeepsInv(p: Pool, task: int)
    requires Inv(p) && Can(p, Scan(task)) && p.loop.todo[0] != Inner
    ensures Inv(Next(p, Scan(task)))
  {
    var q := Next(p, Scan(task));
    var head := p.loop.todo[0];
    assert forall i :: 0 <= i < |q.loop.todo| ==> q.loop.todo[i] == p.loop.todo[i + 1];
    EraseFacts(p.list, head);
    if head.impl in p.regMap {
      DispatchedIsHeld(p, q, task, Handler(head.impl, p.regMap[head.impl], None));
    } else {
      assert forall impl :: Held(q, impl) <==> Held(p, impl);
    }
  }

  lemma ReceiveKeepsInv(p: Pool, task: int, event: Received)
    requires Inv(p) && Can(p, Receive(task, event))
    ensures Inv(Next(p, Receive(task, event)))
  {
    var q := Next(p, Receive(task, event));
    assert forall a :: a in p.tasks <==> a in q.tasks;
    assert forall a :: a in p.tasks ==> p.tasks[a].impl == q.tasks[a].impl;
    assert forall impl :: Held(q, impl) <==> Held(p, impl);
  }

  lemma CloseKeepsInv(p: Pool, task: int)
    requires Inv(p) && Can(p, CloseFinished(task))
    ensures Inv(Next(p, CloseFinished(task)))
  {
    var q := Next(p, CloseFinished(task));
    TasksOnlyLose(p, q, task);
    assert Held(p, p.tasks[task].impl);
    AppendNoRepeats(p.closed, p.tasks[task].impl);
  }

  lemma ReinsertKeepsInv(p: Pool, task: int)
    requires Inv(p) && Can(p, Reinsert(task))
    ensures Inv(Next(p, Reinsert(task)))
  {
    var q := Next(p, Reinsert(task));
    TasksOnlyLose(p, q, task);
    assert Held(p, p.tasks[task].impl);
    AppendNoRepeats(p.list, Device(p.tasks[task].impl));
    assert task in q.writers;
  }

  lemma OfflineKeepsInv(p: Pool, impl: int)
    requires Inv(p)
    ensures Inv(RemoveSocket(p, impl))
  {
    var q := RemoveSocket(p, impl);
    EraseFacts(p.list, Device(impl));
    assert forall i :: Held(q, i) <==> Held(p, i);
    if impl in p.regMap {
      AppendNoRepeats(p.closed, impl);
    }
  }

  lemma NextKeepsInv(p: Pool, step: Step)
    requires Inv(p) && Can(p, step)
    ensures Inv(Next(p, step))
  {
    match step
    case Accept(impl) => AcceptKeepsInv(p, impl);
    case Scan(task) =>
      if p.loop.todo[0] == Inner { ScanInnerKeepsInv(p, task); } else { ScanDeviceKeepsInv(p, task); }
    case Receive(task, event) => ReceiveKeepsInv(p, task, event);
    case CloseFinished(task) => CloseKeepsInv(p, task);
    case Reinsert(task) => ReinsertKeepsInv(p, task);
    case Offline(impl) => OfflineKeepsInv(p, impl);
    case _ =>
      assert forall impl :: Held(Next(p, step), impl) <==> Held(p, impl);
  }

  // ---------- a pool without a free thread ----------

  /** What a dispatch leaves when the task cannot be started: the socket is out of list and map, and in no task. */
  function DispatchFails(p: Pool): Pool
    requires p.loop.Scanning? && p.loop.todo != [] && p.loop.todo[0].Device?
  {
    var impl := p.loop.todo[0].impl;
    p.(loop := Scanning(p.loop.todo[1..]), list := Erase(p.list, Device(impl)), regMap := p.regMap - {impl})
  }

  /** Without a free thread the socket is lost exactly if it was still idle. */
  lemma FailedDispatchLosesTheSocketExactly(p: Pool)
    requires Inv(p) && p.loop.Scanning? && p.loop.todo != [] && p.loop.todo[0].Device?
    ensures Inv(DispatchFails(p)) <==> p.loop.todo[0].impl !in p.regMap
  {
    var q := DispatchFails(p);
    var impl := p.loop.todo[0].impl;
    assert forall i :: 0 <= i < |q.loop.todo| ==> q.loop.todo[i] == p.loop.todo[i + 1];
    EraseFacts(p.list, Device(impl));
    assert forall i :: Held(q, i) <==> Held(p, i);
    if impl in p.regMap {
      assert impl in q.accepted && impl !in q.regMap && !Held(q, impl) && impl !in q.closed;
    }
  }

  // ---------- whole runs ----------

  /** States reached from the start by steps that were possible when they were taken. */
  ghost predicate IsRun(states: seq<Pool>, steps: seq<Step>) {
    && |states| == |steps| + 1
    && states[0] == INITIAL_POOL
    && forall i :: 0 <= i < |steps| ==> Can(states[i], steps[i]) && states[i + 1] == Next(states[i], steps[i])
  }

  /** In every state of every run each socket is in exactly one place and no wake-up is lost. */
  lemma {:induction false} EveryRunKeepsInv(states: seq<Pool>, steps: seq<Step>, n: nat)
    requires IsRun(states, steps) && n < |states|
    ensures Inv(states[n])
  {
    if n == 0 {
      InitialInv();
    } else {
      EveryRunKeepsInv(states, steps, n - 1);
      assert Can(states[n - 1], steps[n - 1]);
      NextKeepsInv(states[n - 1], steps[n - 1]);
    }
  }

  /**
   * In every run: while the loop is blocked and no writer is half done, a listed socket it does not watch
   * is enough for select to return on the inner socket, and walking that result never blocks.
   */
  lemma UnwatchedSocketWakesTheLoop(states: seq<Pool>, steps: seq<Step>, n: nat, s: Sock, task: int)
    requires IsRun(states, steps) && n < |states|
    requires states[n].loop.Blocked? && s in states[n].list && s !in states[n].loop.watched && states[n].writers == {}
    requires task !in states[n].tasks
    ensures Can(states[n], Wake([Inner])) && Can(Next(states[n], Wake([Inner])), Scan(task))
  {
    EveryRunKeepsInv(states, steps, n);
  }

  /** A walk of the readable sockets can always go on to its end. */
  lemma WalkIsNeverStuck(states: seq<Pool>, steps: seq<Step>, n: nat, task: int)
    requires IsRun(states, steps) && n < |states| && states[n].loop.Scanning?
    requires task !in states[n].tasks && task !in states[n].writers
    ensures Can(states[n], ScanDone) || Can(states[n], Scan(task))
  {
    EveryRunKeepsInv(states, steps, n);
  }

  // ---------- what the end of a task does to its socket ----------

  /**
   * After data, whatever it holds, the socket can only be put back: it is idle again, listed, known as Connected,
   * and not closed.
   */
  lemma DataKeepsTheSocket(p: Pool, task: int, message: Option<Messages.Message>)
    requires Inv(p) && Can(p, Receive(task, Data(message)))
    ensures var q := Next(p, Receive(task, Data(message)));
            var impl := p.tasks[task].impl;
            && Can(q, Reinsert(task)) && !Can(q, CloseFinished(task))
            && var after := Next(q, Reinsert(task));
            && impl in after.regMap && after.regMap[impl] == Connected
            && Device(impl) in after.list && after.closed == p.closed && task in after.writers
  {
    var q := Next(p, Receive(task, Data(message)));
    assert Held(p, p.tasks[task].impl);
    var after := Next(q, Reinsert(task));
    assert after.list[|p.list|] == Device(p.tasks[task].impl);
  }

  /** After an orderly close or an exception the socket can only be closed. */
  lemma EndClosesTheSocket(p: Pool, task: int, event: Received)
    requires Inv(p) && Can(p, Receive(task, event)) && !event.Data?
    ensures var q := Next(p, Receive(task, event));
            && Can(q, CloseFinished(task)) && !Can(q, Reinsert(task))
            && Next(q, CloseFinished(task)).closed == p.closed + [p.tasks[task].impl]
            && Next(q, CloseFinished(task)).regMap == p.regMap && Next(q, CloseFinished(task)).list == p.list
  {
  }

  /** A readable idle socket goes into the task, out of map and list, with what is known of its link. */
  lemma ReadableIsDispatched(p: Pool, task: int)
    requires Inv(p) && Can(p, Scan(task)) && p.loop.todo[0].Device? && p.loop.todo[0].impl in p.regMap
    ensures var q := Next(p, Scan(task));
            var impl := p.loop.todo[0].impl;
            && task in q.tasks && q.tasks[task] == Handler(impl, p.regMap[impl], None)
            && impl !in q.regMap && Device(impl) !in q.list && q.closed == p.closed
  {
    EraseFacts(p.list, p.loop.todo[0]);
  }

  /** A finished task whose socket is to be closed met an orderly close or an exception in some step. */
  lemma {:induction false} EndedInStep(states: seq<Pool>, steps: seq<Step>, n: nat, task: int) returns (j: nat)
    requires IsRun(states, steps) && n < |states| && task in states[n].tasks
    requires Can(states[n], CloseFinished(task))
    ensures j < n && steps[j].Receive? && !steps[j].event.Data?
    ensures steps[j].task in states[j].tasks && states[j].tasks[steps[j].task].impl == states[n].tasks[task].impl
  {
    assert Can(states[n - 1], steps[n - 1]) && states[n] == Next(states[n - 1], steps[n - 1]);
    if steps[n - 1].Receive? && steps[n - 1].task == task {
      j := n - 1;
    } else {
      j := EndedInStep(states, steps, n - 1, task);
    }
  }

  /**
   * In every run a socket is closed only if it was taken offline by a notice, or if the task that held it met an
   * orderly close or an exception: ordinary requests and responses never cost a device its socket.
   */
  lemma {:induction false} ClosedOnlyAtItsEnd(states: seq<Pool>, steps: seq<Step>, n: nat, impl: int) returns (j: nat)
    requires IsRun(states, steps) && n < |states| && impl in states[n].closed
    ensures j < n
    ensures steps[j] == Offline(impl)
            || (steps[j].Receive? && !steps[j].event.Data?
                && steps[j].task in states[j].tasks && states[j].tasks[steps[j].task].impl == impl)
  {
    assert Can(states[n - 1], steps[n - 1]) && states[n] == Next(states[n - 1], steps[n - 1]);
    if impl in states[n - 1].closed {
      j := ClosedOnlyAtItsEnd(states, steps, n - 1, impl);
    } else if steps[n - 1].CloseFinished? {
      j := EndedInStep(states, steps, n - 1, steps[n - 1].task);
    } else {
      j := n - 1;
    }
  }

  // ---------- what is known of a link ----------

  /** The socket on which a step receives data. */
  function HeardIn(p: Pool, step: Step): set<int> {
    if step.Receive? && step.event.Data? && step.task in p.tasks then {p.tasks[step.task].impl} else {}
  }

  /** The sockets on which data was received in the first n steps. */
  function HeardOn(states: seq<Pool>, steps: seq<Step>, n: nat): set<int>
    requires n <= |steps| && n <= |states|
  {
    if n == 0 then {} else HeardOn(states, steps, n - 1) + HeardIn(states[n - 1], steps[n - 1])
  }

  /** Idle sockets, and those of tasks that may still put them back, are Connected exactly if data came on them. */
  ghost predicate LinksTell(p: Pool, heard: set<int>) {
    && heard <= p.accepted
    && (forall impl :: impl in p.regMap ==>
          p.regMap[impl] == if impl in heard then Connected else Disconnected)
    && (forall task :: task in p.tasks && (p.tasks[task].result.None? || !Disconnects(p.tasks[task].result.value)) ==>
          p.tasks[task].link == if p.tasks[task].impl in heard then Connected else Disconnected)
  }

  lemma ReceiveKeepsLinks(p: Pool, task: int, event: Received, heard: set<int>)
    requires Inv(p) && LinksTell(p, heard) && Can(p, Receive(task, event))
    ensures LinksTell(Next(p, Receive(task, event)), heard + HeardIn(p, Receive(task, event)))
  {
    assert Held(p, p.tasks[task].impl);
  }

  lemma AcceptKeepsLinks(p: Pool, impl: int, heard: set<int>)
    requires Inv(p) && LinksTell(p, heard) && Can(p, Accept(impl))
    ensures LinksTell(Next(p, Accept(impl)), heard)
  {
  }

  lemma ScanKeepsLinks(p: Pool, task: int, heard: set<int>)
    requires LinksTell(p, heard) && Can(p, Scan(task))
    ensures LinksTell(Next(p, Scan(task)), heard)
  {
  }

  lemma ReinsertKeepsLinks(p: Pool, task: int, heard: set<int>)
    requires LinksTell(p, heard) && Can(p, Reinsert(task))
    ensures LinksTell(Next(p, Reinsert(task)), heard)
  {
  }

  lemma NextKeepsLinks(p: Pool, step: Step, heard: set<int>)
    requires Inv(p) && LinksTell(p, heard) && Can(p, step)
    ensures LinksTell(Next(p, step), heard + HeardIn(p, step))
  {
    assert heard + {} == heard;
    match step
    case Accept(impl) => AcceptKeepsLinks(p, impl, heard);
    case Scan(task) => ScanKeepsLinks(p, task, heard);
    case Receive(task, event) => ReceiveKeepsLinks(p, task, event, heard);
    case Reinsert(task) => ReinsertKeepsLinks(p, task, heard);
    case _ =>
  }

  /** In every run an idle socket counts as Connected exactly if data was received on it; Connecting never occurs. */
  lemma {:induction false} ConnectedExactlyIfHeard(states: seq<Pool>, steps: seq<Step>, n: nat)
    requires IsRun(states, steps) && n < |states|
    ensures LinksTell(states[n], HeardOn(states, steps, n))
  {
    if n > 0 {
      ConnectedExactlyIfHeard(states, steps, n - 1);
      EveryRunKeepsInv(states, steps, n - 1);
      assert Can(states[n - 1], steps[n - 1]) && states[n] == Next(states[n - 1], steps[n - 1]);
      NextKeepsLinks(states[n - 1], steps[n - 1], HeardOn(states, steps, n - 1));
    }
  }
}
