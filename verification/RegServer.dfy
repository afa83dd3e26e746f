/**
 * CRegServer performing in place the steps that SocketPool and CallTable specify, one method for each
 * region a mutex protects, and the methods that put several regions in sequence.
 */
module RegServer {
  import opened Common
  import opened Messages
  import SocketPool
  import CallTable
  import DeviceRegistry

  /** Walking the readable sockets to the end; the i-th dispatch gets the i-th task number. */
  ghost function Walk(p: SocketPool.Pool, tasks: seq<int>): SocketPool.Pool
    requires p.loop.Scanning? && |tasks| == |p.loop.todo|
    requires SocketPool.NoRepeats(p.loop.todo) && (SocketPool.Inner in p.loop.todo ==> p.bytes > 0)
    decreases |tasks|
  {
    if tasks == [] then p
    else
      var next := SocketPool.ScanOne(p, tasks[0]);
      assert forall i :: 0 <= i < |next.loop.todo| ==> next.loop.todo[i] == p.loop.todo[i + 1];
      Walk(next, tasks[1..])
  }

  ghost predicate FreeNumbers(p: SocketPool.Pool, numbers: seq<int>) {
    SocketPool.NoRepeats(numbers) && forall n :: n in numbers ==> n !in p.tasks && n !in p.writers
  }

  predicate Readable(p: SocketPool.Pool, impl: int)
    requires p.loop.Scanning?
  {
    SocketPool.Device(impl) in p.loop.todo
  }

  ghost predicate Walks(p: SocketPool.Pool, numbers: seq<int>) {
    SocketPool.Inv(p) && p.loop.Scanning? && |numbers| == |p.loop.todo| && FreeNumbers(p, numbers)
  }

  /** One step of a walk: the head is dispatched if it is idle, and all the rest stays as it was. */
  lemma WalkStep(p: SocketPool.Pool, numbers: seq<int>)
    requires Walks(p, numbers) && numbers != []
    ensures var next := SocketPool.ScanOne(p, numbers[0]);
            && Walks(next, numbers[1..]) && next.closed == p.closed
            && (forall impl :: SocketPool.Held(p, impl) ==> SocketPool.Held(next, impl))
            && (forall impl :: impl in p.regMap && SocketPool.Device(impl) == p.loop.todo[0]
                               ==> impl !in next.regMap && SocketPool.Held(next, impl))
            && (forall impl :: SocketPool.Device(impl) != p.loop.todo[0] ==>
                  (impl in next.regMap <==> impl in p.regMap))
            && (forall impl :: Readable(p, impl) <==> SocketPool.Device(impl) == p.loop.todo[0] || Readable(next, impl))
  {
    var next := SocketPool.ScanOne(p, numbers[0]);
    assert SocketPool.Can(p, SocketPool.Scan(numbers[0])) && numbers[0] in numbers;
    SocketPool.NextKeepsInv(p, SocketPool.Scan(numbers[0]));
    assert p.loop.todo == [p.loop.todo[0]] + next.loop.todo;
    WalkNumbers(p, next, numbers);
    forall impl | SocketPool.Held(p, impl) ensures SocketPool.Held(next, impl) {
      var a :| a in p.tasks && p.tasks[a].impl == impl;
      assert a in next.tasks && next.tasks[a].impl == impl;
    }
    forall impl | impl in p.regMap && SocketPool.Device(impl) == p.loop.todo[0] ensures SocketPool.Held(next, impl) {
      assert numbers[0] in next.tasks && next.tasks[numbers[0]].impl == impl;
    }
  }

  lemma WalkNumbers(p: SocketPool.Pool, next: SocketPool.Pool, numbers: seq<int>)
    requires numbers != [] && FreeNumbers(p, numbers)
    requires next.tasks.Keys <= p.tasks.Keys + {numbers[0]} && next.writers == p.writers
    ensures FreeNumbers(next, numbers[1..])
  {
    assert numbers == [numbers[0]] + numbers[1..];
    assert forall i :: 0 <= i < |numbers| - 1 ==> numbers[1..][i] == numbers[i + 1];
  }

  /** No socket leaves its task during a walk. */
  lemma {:induction false} WalkKeepsHeld(p: SocketPool.Pool, numbers: seq<int>, impl: int)
    requires Walks(p, numbers) && SocketPool.Held(p, impl)
    ensures SocketPool.Held(Walk(p, numbers), impl)
    decreases |numbers|
  {
    if numbers != [] {
      WalkStep(p, numbers);
      WalkKeepsHeld(SocketPool.ScanOne(p, numbers[0]), numbers[1..], impl);
    }
  }

  /** The walk hands every readable socket that is idle to a task, and leaves the other idle sockets where they are. */
  lemma {:induction false} WalkDispatchesReadable(p: SocketPool.Pool, numbers: seq<int>, impl: int)
    requires Walks(p, numbers)
    ensures var q := Walk(p, numbers);
            && SocketPool.Inv(q) && q.loop == SocketPool.Scanning([]) && q.closed == p.closed
            && (impl in q.regMap <==> impl in p.regMap && !Readable(p, impl))
            && (impl in p.regMap && Readable(p, impl) ==> SocketPool.Held(q, impl))
    decreases |numbers|
  {
    if numbers != [] {
      var next := SocketPool.ScanOne(p, numbers[0]);
      WalkStep(p, numbers);
      WalkDispatchesReadable(next, numbers[1..], impl);
      if SocketPool.Held(next, impl) {
        WalkKeepsHeld(next, numbers[1..], impl);
      }
    }
  }

  class RegServer {
    var regMap: map<int, SocketPool.Link>
    var regSockList: seq<SocketPool.Sock>
    var tasks: map<int, SocketPool.Handler>
    var innerBytes: nat
    var requestMap: map<int, int>
    var calls: map<int, CallTable.Call>
    ghost var writers: set<int>
    ghost var loop: SocketPool.Loop
    ghost var closed: seq<int>
    ghost var accepted: set<int>
    ghost var pushed: nat
    ghost var consumed: nat

    ghost function Pool(): SocketPool.Pool
      reads this
    {
      SocketPool.Pool(regMap, regSockList, tasks, writers, innerBytes, loop, closed, accepted, pushed, consumed)
    }

    ghost function Table(): CallTable.Table
      reads this
    {
      CallTable.Table(requestMap, calls)
    }

    /** createInnerSocket leaves only the inner socket in the select list. */
    constructor ()
      ensures Pool() == SocketPool.INITIAL_POOL && Table() == CallTable.Table(map[], map[])
    {
      regMap, regSockList, tasks, innerBytes := map[], [SocketPool.Inner], map[], 0;
      requestMap, calls := map[], map[];
      writers, loop, closed, accepted, pushed, consumed := {}, SocketPool.Ready, [], {}, 0, 0;
    }

    // ---------- sockets ----------

    method RegAccept(impl: int)
      requires SocketPool.Can(Pool(), SocketPool.Accept(impl))
      modifies this
      ensures Pool() == SocketPool.Next(old(Pool()), SocketPool.Accept(impl)) && Table() == old(Table())
    {
      if impl !in regMap {
        regMap := regMap[impl := SocketPool.Disconnected];
      }
      regSockList := regSockList + [SocketPool.Device(impl)];
      innerBytes := innerBytes + 1;
      accepted, pushed := accepted + {impl}, pushed + 1;
    }

    /** std::find over the select list. */
    method FindSocket(s: SocketPool.Sock) returns (i: nat)
      ensures i == SocketPool.PositionOf(regSockList, s)
    {
      i := 0;
      while i < |regSockList|
        invariant i <= |regSockList|
        invariant forall j :: 0 <= j < i ==> regSockList[j] != s
      {
        if regSockList[i] == s { return; }
        i := i + 1;
      }
    }

    method RemoveFromList(s: SocketPool.Sock)
      modifies this`regSockList
      ensures regSockList == SocketPool.Erase(old(regSockList), s)
    {
      var i := FindSocket(s);
      if i < |regSockList| {
        regSockList := regSockList[..i] + regSockList[i + 1..];
      }
    }

    method HandleOffline(id: int)
      modifies this
      ensures Pool() == SocketPool.RemoveSocket(old(Pool()), id) && Table() == old(Table())
    {
      if id in regMap {
        RemoveFromList(SocketPool.Device(id));
        closed := closed + [id];
        regMap := regMap - {id};
      }
    }

    /** The body of regHandler's loop for one readable socket. */
    method ScanItem(s: SocketPool.Sock, task: int)
      requires loop.Scanning? && loop.todo != [] && loop.todo[0] == s && (s == SocketPool.Inner ==> innerBytes > 0)
      modifies this
      ensures Pool() == SocketPool.ScanOne(old(Pool()), task) && Table() == old(Table())
    {
      loop := SocketPool.Scanning(loop.todo[1..]);
      if s == SocketPool.Inner {
        innerBytes := innerBytes - 1;
        consumed := consumed + 1;
        return;
      }
      RemoveFromList(s);
      var impl := s.impl;
      if impl in regMap {
        tasks := tasks[task := SocketPool.Handler(impl, regMap[impl], None)];
        regMap := regMap - {impl};
      }
    }

    /** regHandler's loop over the readable sockets, with nothing else in between. */
    method WalkReadable(readable: seq<SocketPool.Sock>, numbers: seq<int>)
      requires loop == SocketPool.Scanning(readable) && |numbers| == |readable|
      requires SocketPool.NoRepeats(readable) && (SocketPool.Inner in readable ==> innerBytes > 0)
      modifies this
      ensures Pool() == Walk(old(Pool()), numbers) && Table() == old(Table())
    {
      var i := 0;
      while i < |readable|
        invariant i <= |readable|
        invariant loop == SocketPool.Scanning(readable[i..]) && Table() == old(Table())
        invariant SocketPool.NoRepeats(readable[i..]) && (SocketPool.Inner in readable[i..] ==> innerBytes > 0)
        invariant Walk(Pool(), numbers[i..]) == Walk(old(Pool()), numbers)
      {
        assert readable[i..][0] == readable[i] && readable[i..][1..] == readable[i + 1..];
        assert numbers[i..][0] == numbers[i] && numbers[i..][1..] == numbers[i + 1..];
        assert forall j {:trigger readable[j]} :: i < j < |readable| ==> readable[i..][j - i] == readable[j];
        ScanItem(readable[i], numbers[i]);
        i := i + 1;
      }
    }

    /**
     * receiveBytes and handleRegMsg of a handler task: an orderly close of a registered device takes it
     * offline, and a response is kept with the request id it carries.
     */
    method ReceiveBytes(task: int, event: SocketPool.Received, registry: DeviceRegistry.DeviceManager)
      requires SocketPool.Can(Pool(), SocketPool.Receive(task, event))
      modifies this, registry
      ensures Pool() == SocketPool.Next(old(Pool()), SocketPool.Receive(task, event)) && Table() == old(Table())
      ensures registry.State() == if event.Eof? && old(tasks)[task].link.Connected?
                                  then DeviceRegistry.OfflineById(old(registry.State()), old(tasks)[task].impl)
                                  else old(registry.State())
    {
      var h := tasks[task];
      match event {
        case Data(message) =>
          var reqId := 0;
          var response := None;
          if message.Some? && message.value.kind == Some(RESPONSE) {
            reqId := if message.value.requestId.Some? then message.value.requestId.value else 1;
            response := message;
          }
          var result := SocketPool.Result(true, reqId, response);
          tasks := tasks[task := h.(link := SocketPool.Connected, result := Some(result))];
        case Eof =>
          if h.link.Connected? {
            registry.GoOfflineById(h.impl);
          }
          tasks := tasks[task := h.(link := SocketPool.Disconnected, result := Some(SocketPool.NOTHING_RECEIVED))];
        case Failure =>
          var link := if h.link.Connecting? then SocketPool.Disconnected else h.link;
          tasks := tasks[task := h.(link := link, result := Some(SocketPool.NOTHING_RECEIVED))];
      }
    }

    // ---------- the end of a handler task ----------

    method CloseSocket(task: int)
      requires SocketPool.Can(Pool(), SocketPool.CloseFinished(task))
      modifies this
      ensures Pool() == SocketPool.Next(old(Pool()), SocketPool.CloseFinished(task)) && Table() == old(Table())
    {
      closed := closed + [tasks[task].impl];
      tasks := tasks - {task};
    }

    method ReinsertSocket(task: int)
      requires SocketPool.Can(Pool(), SocketPool.Reinsert(task))
      modifies this
      ensures Pool() == SocketPool.Next(old(Pool()), SocketPool.Reinsert(task)) && Table() == old(Table())
    {
      var h := tasks[task];
      regSockList := regSockList + [SocketPool.Device(h.impl)];
      if h.impl !in regMap {
        regMap := regMap[h.impl := h.link];
      }
      tasks := tasks - {task};
      writers, pushed := writers + {task}, pushed + 1;
    }

    method WriteInnerSocket(task: int)
      requires SocketPool.Can(Pool(), SocketPool.Write(task))
      modifies this
      ensures Pool() == SocketPool.Next(old(Pool()), SocketPool.Write(task)) && Table() == old(Table())
    {
      innerBytes := innerBytes + 1;
      writers := writers - {task};
    }

    method ReleaseCaller(reqId: int, reply: Message)
      requires CallTable.WellFormed(Table())
      modifies this
      ensures Table() == CallTable.MatchReply(old(Table()), reqId, reply) && Pool() == old(Pool())
    {
      if reqId == 0 || reqId == 1 || reqId !in requestMap { return; }
      var c := requestMap[reqId];
      requestMap := requestMap - {reqId};
      calls := calls[c := calls[c].(response := Some(reply))];
      calls := calls[c := calls[c].(signals := calls[c].signals + 1)];
      assert calls == old(calls)[c := calls[c]];
    }

    /**
     * handleTaskFinish with nothing else in between its regions: it closes the socket, or puts it back and, for
     * a response, performs the matching step of the call table for that response.
     */
    method HandleTaskFinish(task: int)
      requires SocketPool.Inv(Pool()) && CallTable.WellFormed(Table())
      requires task in tasks && tasks[task].result.Some?
      modifies this
      ensures var result := old(tasks)[task].result.value;
              && Pool() == (if !result.receive
                            then SocketPool.Next(old(Pool()), SocketPool.CloseFinished(task))
                            else SocketPool.Next(SocketPool.Next(old(Pool()), SocketPool.Reinsert(task)),
                                                 SocketPool.Write(task)))
              && Table() == (match result.response
                             case Some(reply) => CallTable.MatchReply(old(Table()), ReplyId(reply), reply)
                             case None => old(Table()))
      ensures SocketPool.Inv(Pool())
    {
      SocketPool.NextKeepsInv(Pool(), if SocketPool.Disconnects(tasks[task].result.value)
                                      then SocketPool.CloseFinished(task) else SocketPool.Reinsert(task));
      var reqId := tasks[task].result.value.reqId;
      var response := tasks[task].result.value.response;
      if reqId == 0 {
        if !tasks[task].result.value.receive {
          CloseSocket(task);
        } else {
          ReinsertSocket(task);
          SocketPool.NextKeepsInv(Pool(), SocketPool.Write(task));
          WriteInnerSocket(task);
        }
      } else {
        ReinsertSocket(task);
        if reqId != 1 {
          ReleaseCaller(reqId, response.value);
        }
        SocketPool.NextKeepsInv(Pool(), SocketPool.Write(task));
        WriteInnerSocket(task);
      }
    }

    // ---------- callers ----------

    /** sendRequest up to the wait: the request is registered before it is sent, or refused at once. */
    method SendRequest(registry: DeviceRegistry.DeviceManager, uuid: string, c: int, timeout: int, request: Message,
                       id: int)
      returns (sent: Option<Message>)
      requires c !in calls
      modifies this
      ensures var reachable := uuid in registry.devices && registry.devices[uuid].id in regMap;
              && Table() == (if reachable then CallTable.Register(old(Table()), c, timeout, request, id)
                             else CallTable.Refuse(old(Table()), c, timeout, request))
              && sent == (if reachable then Some(WithId(request, id)) else None)
      ensures Pool() == old(Pool())
    {
      if uuid !in registry.devices {
        calls := calls[c := CallTable.Call(timeout, request, None, Some(NotFound(request)), 0, None, true)];
        return None;
      }
      var sock := registry.devices[uuid].id;
      if sock !in regMap {
        calls := calls[c := CallTable.Call(timeout, request, None, Some(NotFound(request)), 0, None, true)];
        return None;
      }
      calls := calls[c := CallTable.Call(timeout, request, Some(id), None, 0, None, false)];
      if id !in requestMap {
        requestMap := requestMap[id := c];
      }
      return Some(WithId(request, id));
    }

    /** One pass of httpRequestTimer over the request map. */
    method HttpRequestTimer(now: int)
      requires CallTable.WellFormed(Table())
      modifies this
      ensures Table() == CallTable.Expire(old(Table()), now) && Pool() == old(Pool())
    {
      var todo := requestMap.Keys;
      while todo != {}
        invariant CallTable.ExpiredSoFar(old(Table()), now, todo, Table()) && Pool() == old(Pool())
        decreases |todo|
      {
        ghost var some := Pick(todo);
        var id :| id in todo;
        CallTable.ExpireStep(old(Table()), now, todo, Table(), id);
        todo := todo - {id};
        var c := requestMap[id];
        if now - id > calls[c].timeout {
          calls := calls[c := calls[c].(signals := calls[c].signals + 1, expiredAt := Some(now))];
          requestMap := requestMap - {id};
        }
      }
      CallTable.ExpireEnds(old(Table()), now, Table());
    }
  }
}
