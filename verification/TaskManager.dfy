/**
 * CTaskManager: the handler map, the task array (in memory and persisted) and the timer queue.
 * The first half specifies the operations on a value of type Schedule and proves what every run keeps;
 * the class at the end performs them in place.
 */
module TaskManagement {
  import opened Common
  import opened TaskClock

  const MAX_TASKS := 32

  /** A task as requested and stored; active is the raw request field. */
  datatype TaskInfo = TaskInfo(id: int, option: int, hour: int, minute: int, weekday: int, active: int)

  /** A task as its timer handler keeps it. */
  datatype Handler = Handler(id: int, option: int, hour: int, minute: int, weekday: int, active: bool)

  datatype Schedule = Schedule(
    handlers: map<int, Handler>,
    config: seq<TaskInfo>,
    persisted: seq<TaskInfo>,
    timer: map<int, int>)  // handler id to the instant of its first firing

  datatype Request<+T> = NoTask | MissingField | Task(body: T)

  datatype Reply = Done(id: int) | Refused(detail: string)

  /** setTaskInfo: only active == 1 counts as active. */
  function HandlerOf(t: TaskInfo): Handler {
    Handler(t.id, t.option, t.hour, t.minute, t.weekday, t.active == 1)
  }

  predicate InRange(t: TaskInfo) {
    t.option in {0, 1} && 0 <= t.hour <= 23 && 0 <= t.minute <= 59 && 0 <= t.weekday <= 0x7F
  }

  /** Same time, same days, same active flag; the option is not compared. */
  predicate Matches(h: Handler, t: TaskInfo) {
    && h.hour == t.hour && h.minute == t.minute && h.weekday == t.weekday
    && ((h.active && t.active == 1) || (!h.active && t.active == 0))
  }

  predicate FirstMatch(handlers: map<int, Handler>, t: TaskInfo, k: int) {
    && k in handlers && Matches(handlers[k], t)
    && forall j :: j in handlers && Matches(handlers[j], t) ==> k <= j
  }

  /** The id of the first task in id order that matches, or 0. */
  ghost function TaskExists(handlers: map<int, Handler>, t: TaskInfo): (id: int)
    ensures id == 0 || exists k :: FirstMatch(handlers, t, k) && id == handlers[k].id
    ensures (forall k :: k in handlers ==> !Matches(handlers[k], t)) ==> id == 0
    ensures forall k :: FirstMatch(handlers, t, k) ==> id == handlers[k].id
  {
    if k :| FirstMatch(handlers, t, k) then handlers[k].id else 0
  }

  function IndexOf(config: seq<TaskInfo>, id: int): nat {
    IndexWhere(config, (t: TaskInfo) => t.id == id)
  }

  /** The first firing of a task at a given hour and minute. */
  type Clock = (int, int) -> int

  function ClockAt(now: int, offset: int): Clock {
    (hour, minute) => FirstFiring(now, offset, hour, minute)
  }

  /** Schedules a handler if it is active. */
  function Enqueue(timer: map<int, int>, h: Handler, clock: Clock): map<int, int> {
    if h.active then timer[h.id := clock(h.hour, h.minute)] else timer
  }

  /** std::map::insert: never overwrites. */
  function InsertHandler(handlers: map<int, Handler>, h: Handler): map<int, Handler> {
    if h.id in handlers then handlers else handlers[h.id := h]
  }

  // ---------- operations ----------

  ghost function AddTask(s: Schedule, request: Request<TaskInfo>, id: int, clock: Clock): (Schedule, Reply) {
    if |s.handlers| == MAX_TASKS then (s, Refused("430"))
    else if request.NoTask? then (s, Refused("431"))
    else if request.MissingField? then (s, Refused("432"))
    else
      var t := request.body.(id := id);
      if !InRange(t) then (s, Refused("433"))
      else if TaskExists(s.handlers, t) != 0 then (s, Refused("434"))
      else (Schedule(InsertHandler(s.handlers, HandlerOf(t)), s.config + [t], s.config + [t],
                     Enqueue(s.timer, HandlerOf(t), clock)),
            Done(id))
  }

  ghost function RemoveTask(s: Schedule, request: Request<int>): (Schedule, Reply) {
    if request.NoTask? then (s, Refused("431"))
    else if request.MissingField? then (s, Refused("432"))
    else
      var id := request.body;
      if id !in s.handlers then (s, Refused("435"))
      else
        var config := Without(s.config, IndexOf(s.config, id));
        (Schedule(s.handlers - {id}, config, if IndexOf(s.config, id) < |s.config| then config else s.persisted,
                  s.timer - {id}),
         Done(id))
  }

  ghost function ModifyTask(s: Schedule, request: Request<TaskInfo>, clock: Clock): (Schedule, Reply) {
    if request.NoTask? then (s, Refused("431"))
    else if request.MissingField? then (s, Refused("432"))
    else
      var t := request.body;
      if t.id !in s.handlers then (s, Refused("435"))
      else if !InRange(t) then (s, Refused("432"))
      else
        var same := TaskExists(s.handlers, t);
        if same != t.id && same != 0 then (s, Refused("434"))
        else if same == t.id then (s, Done(t.id))
        else
          var i := IndexOf(s.config, t.id);
          var config := if i < |s.config| then s.config[i := t] else s.config;
          (Schedule(s.handlers[t.id := HandlerOf(t)], config, if i < |s.config| then config else s.persisted,
                    Enqueue(s.timer - {t.id}, HandlerOf(t), clock)),
           Done(t.id))
  }

  const EMPTY_SCHEDULE := Schedule(map[], [], [], map[])

  /** loadTasksConfig over the first n elements of the persisted array. */
  function Load(persisted: seq<TaskInfo>, n: nat, clock: Clock): Schedule
    requires n <= |persisted|
  {
    if n == 0 then EMPTY_SCHEDULE.(persisted := persisted)
    else
      var s := Load(persisted, n - 1, clock);
      var t := persisted[n - 1];
      Schedule(InsertHandler(s.handlers, HandlerOf(t)), s.config + [t], persisted,
               Enqueue(s.timer, HandlerOf(t), clock))
  }

  /** resetTasks: cancel everything and load the persisted array again. */
  function Reload(s: Schedule, clock: Clock): Schedule {
    Load(s.persisted, |s.persisted|, clock)
  }

  // ---------- the invariant ----------

  ghost predicate DistinctIds(config: seq<TaskInfo>) {
    forall i, j :: 0 <= i < j < |config| ==> config[i].id != config[j].id
  }

  ghost predicate HasId(config: seq<TaskInfo>, id: int) {
    exists i :: 0 <= i < |config| && config[i].id == id
  }

  /** The handler map holds exactly the tasks of the array, field by field. */
  ghost predicate SameTasks(handlers: map<int, Handler>, config: seq<TaskInfo>) {
    && DistinctIds(config)
    && |config| == |handlers|
    && (forall id :: id in handlers <==> HasId(config, id))
    && (forall i :: 0 <= i < |config| ==> config[i].id in handlers && handlers[config[i].id] == HandlerOf(config[i]))
  }

  /** The timer queue holds exactly the active handlers. */
  ghost predicate Scheduled(handlers: map<int, Handler>, timer: map<int, int>) {
    forall id :: id in timer <==> id in handlers && handlers[id].active
  }

  /** Every queued handler was first due on its own local time. */
  ghost predicate OnTime(handlers: map<int, Handler>, timer: map<int, int>, offset: int) {
    forall id :: id in timer ==>
      id in handlers && OnLocalTime(timer[id], offset, handlers[id].hour, handlers[id].minute)
  }

  ghost predicate Sound(config: seq<TaskInfo>) {
    forall i :: 0 <= i < |config| ==> InRange(config[i]) && config[i].id != 0
  }

  /** Handlers, array and timer queue describe the same tasks. */
  ghost predicate Agree(s: Schedule) {
    && s.persisted == s.config
    && Sound(s.config)
    && SameTasks(s.handlers, s.config)
    && Scheduled(s.handlers, s.timer)
    && |s.handlers| <= MAX_TASKS
  }

  /** No two stored tasks share hour, minute, weekday and active flag. */
  ghost predicate NoClash(s: Schedule) {
    SlotsDiffer(s.config)
  }

  ghost predicate SlotsDiffer(config: seq<TaskInfo>) {
    forall i, j :: 0 <= i < j < |config| ==> !SameSlot(HandlerOf(config[i]), HandlerOf(config[j]))
  }

  predicate SameSlot(a: Handler, b: Handler) {
    a.hour == b.hour && a.minute == b.minute && a.weekday == b.weekday && a.active == b.active
  }

  lemma AppendKeepsSameTasks(handlers: map<int, Handler>, config: seq<TaskInfo>, t: TaskInfo)
    requires SameTasks(handlers, config) && t.id !in handlers
    ensures SameTasks(handlers[t.id := HandlerOf(t)], config + [t])
  {
    var config' := config + [t];
    forall id ensures HasId(config', id) <==> HasId(config, id) || id == t.id {
      if HasId(config, id) {
        var i :| 0 <= i < |config| && config[i].id == id;
        assert config'[i].id == id;
      }
      assert config'[|config|].id == t.id;
    }
  }

  lemma WithoutKeepsSameTasks(handlers: map<int, Handler>, config: seq<TaskInfo>, id: int)
    requires SameTasks(handlers, config) && id in handlers
    ensures IndexOf(config, id) < |config|
    ensures SameTasks(handlers - {id}, Without(config, IndexOf(config, id)))
  {
    var at := IndexOf(config, id);
    assert HasId(config, id);
    var config' := Without(config, at);
    assert forall j :: 0 <= j < |config'| ==> config'[j] == config[if j < at then j else j + 1];
    forall k ensures HasId(config', k) <==> HasId(config, k) && k != id {
      WithoutIds(config, id, k);
    }
  }

  lemma WithoutIds(config: seq<TaskInfo>, id: int, k: int)
    requires DistinctIds(config)
    ensures HasId(Without(config, IndexOf(config, id)), k) <==> HasId(config, k) && k != id
  {
    var at := IndexOf(config, id);
    var config' := Without(config, at);
    assert forall j :: 0 <= j < |config'| ==> config'[j] == config[if j < at then j else j + 1];
    if HasId(config, k) && k != id {
      var i :| 0 <= i < |config| && config[i].id == k;
      assert config'[if i < at then i else i - 1].id == k;
    }
  }

  lemma ReplaceKeepsSameTasks(handlers: map<int, Handler>, config: seq<TaskInfo>, t: TaskInfo)
    requires SameTasks(handlers, config) && t.id in handlers
    ensures IndexOf(config, t.id) < |config|
    ensures SameTasks(handlers[t.id := HandlerOf(t)], config[IndexOf(config, t.id) := t])
  {
    var at := IndexOf(config, t.id);
    assert HasId(config, t.id);
    var config' := config[at := t];
    forall k ensures HasId(config', k) <==> HasId(config, k) {
      if HasId(config, k) {
        var i :| 0 <= i < |config| && config[i].id == k;
        assert config'[i].id == k;
      }
    }
  }

  lemma NoMatchMeansNone(handlers: map<int, Handler>, t: TaskInfo)
    requires TaskExists(handlers, t) == 0 && forall k :: k in handlers ==> handlers[k].id == k && k != 0
    ensures forall k :: k in handlers ==> !Matches(handlers[k], t)
  {
    var matching := set k | k in handlers && Matches(handlers[k], t);
    assert forall k :: k in handlers && Matches(handlers[k], t) ==> k in matching;
    if matching != {} {
      var k := LeastElement(matching);
      assert FirstMatch(handlers, t, k);
    }
  }

  lemma AddKeepsAgree(s: Schedule, request: Request<TaskInfo>, id: int, clock: Clock)
    requires Agree(s) && id !in s.handlers && id != 0
    ensures Agree(AddTask(s, request, id, clock).0)
  {
    if AddTask(s, request, id, clock).1.Done? {
      AppendKeepsSameTasks(s.handlers, s.config, request.body.(id := id));
    }
  }

  /** An accepted addition keeps the three in step exactly when its timestamp id is new and not 0. */
  lemma AddKeepsAgreeExactly(s: Schedule, request: Request<TaskInfo>, id: int, clock: Clock)
    requires Agree(s) && AddTask(s, request, id, clock).1.Done?
    ensures Agree(AddTask(s, request, id, clock).0) <==> id !in s.handlers && id != 0
  {
    var config' := AddTask(s, request, id, clock).0.config;
    assert config'[|s.config|].id == id;
    if id in s.handlers {
      assert HasId(s.config, id);
      var i :| 0 <= i < |s.config| && s.config[i].id == id;
      assert config'[i].id == id;
    } else if id != 0 {
      AddKeepsAgree(s, request, id, clock);
    }
  }

  lemma RemoveKeepsAgree(s: Schedule, request: Request<int>)
    requires Agree(s)
    ensures Agree(RemoveTask(s, request).0)
  {
    if RemoveTask(s, request).1.Done? {
      WithoutKeepsSameTasks(s.handlers, s.config, request.body);
    }
  }

  lemma ModifyKeepsAgree(s: Schedule, request: Request<TaskInfo>, clock: Clock)
    requires Agree(s)
    ensures Agree(ModifyTask(s, request, clock).0)
  {
    if ModifyTask(s, request, clock).0 != s {
      ReplaceKeepsSameTasks(s.handlers, s.config, request.body);
      ReplaceKeepsSound(s.config, IndexOf(s.config, request.body.id), request.body);
      ReplaceKeepsScheduled(s.handlers, s.timer, request.body, clock);
      assert s.handlers[request.body.id := HandlerOf(request.body)].Keys == s.handlers.Keys;
    }
  }

  lemma ReplaceKeepsScheduled(handlers: map<int, Handler>, timer: map<int, int>, t: TaskInfo, clock: Clock)
    requires Scheduled(handlers, timer)
    ensures Scheduled(handlers[t.id := HandlerOf(t)], Enqueue(timer - {t.id}, HandlerOf(t), clock))
  {
  }

  lemma ReplaceKeepsSound(config: seq<TaskInfo>, at: nat, t: TaskInfo)
    requires Sound(config) && at < |config| && InRange(t) && t.id != 0
    ensures Sound(config[at := t])
  {
  }

  /** Loading copies the persisted array, whatever it holds. */
  lemma {:induction false} LoadCopies(persisted: seq<TaskInfo>, n: nat, clock: Clock)
    requires n <= |persisted|
    ensures Load(persisted, n, clock).persisted == persisted && Load(persisted, n, clock).config == persisted[..n]
  {
    if n > 0 {
      LoadCopies(persisted, n - 1, clock);
      assert persisted[..n] == persisted[..n - 1] + [persisted[n - 1]];
    }
  }

  /** Loading any array without repeated ids makes all parts agree with it. */
  lemma {:induction false} LoadAgrees(persisted: seq<TaskInfo>, n: nat, clock: Clock)
    requires n <= |persisted| && DistinctIds(persisted)
    ensures var s := Load(persisted, n, clock);
            && s.persisted == persisted && s.config == persisted[..n]
            && SameTasks(s.handlers, s.config) && Scheduled(s.handlers, s.timer)
  {
    LoadCopies(persisted, n, clock);
    if n > 0 {
      LoadAgrees(persisted, n - 1, clock);
      var s := Load(persisted, n - 1, clock);
      NewIdIsNotLoaded(persisted, n - 1);
      InsertKeepsAll(s.handlers, s.config, s.timer, persisted[n - 1], clock);
      assert persisted[..n] == persisted[..n - 1] + [persisted[n - 1]];
    }
  }

  /** One more task, with a new id, keeps the three in step. */
  lemma InsertKeepsAll(handlers: map<int, Handler>, config: seq<TaskInfo>, timer: map<int, int>, t: TaskInfo,
                       clock: Clock)
    requires SameTasks(handlers, config) && Scheduled(handlers, timer) && t.id !in handlers
    ensures SameTasks(InsertHandler(handlers, HandlerOf(t)), config + [t])
    ensures Scheduled(InsertHandler(handlers, HandlerOf(t)), Enqueue(timer, HandlerOf(t), clock))
  {
    AppendKeepsSameTasks(handlers, config, t);
  }

  lemma NewIdIsNotLoaded(persisted: seq<TaskInfo>, n: nat)
    requires n < |persisted| && DistinctIds(persisted)
    ensures !HasId(persisted[..n], persisted[n].id)
  {
  }

  /** Two handler maps for the same array are equal. */
  lemma SameTasksDetermine(a: map<int, Handler>, b: map<int, Handler>, config: seq<TaskInfo>)
    requires SameTasks(a, config) && SameTasks(b, config)
    ensures a == b
  {
    forall id ensures id in a <==> id in b {
      assert id in a <==> HasId(config, id);
    }
    forall id | id in a ensures a[id] == b[id] {
      assert HasId(config, id);
    }
  }

  /** Reloading the persisted array rebuilds the same handlers and array and schedules the same tasks. */
  lemma ReloadRebuilds(s: Schedule, clock: Clock)
    requires Agree(s)
    ensures var s' := Reload(s, clock);
            && Agree(s')
            && s'.handlers == s.handlers && s'.config == s.config && s'.persisted == s.persisted
            && s'.timer.Keys == s.timer.Keys
  {
    var s' := Reload(s, clock);
    LoadAgrees(s.persisted, |s.persisted|, clock);
    assert s.persisted[..|s.persisted|] == s.persisted;
    SameTasksDetermine(s.handlers, s'.handlers, s.config);
    assert s'.timer.Keys == s.timer.Keys by {
      assert forall id :: id in s'.timer <==> id in s.timer;
    }
  }

  // ---------- first firings ----------

  lemma EnqueueOnTime(handlers: map<int, Handler>, timer: map<int, int>, h: Handler, now: int, offset: int)
    requires OnTime(handlers, timer, offset) && h.id !in timer && 0 <= h.hour <= 23 && 0 <= h.minute <= 59
    ensures OnTime(handlers[h.id := h], Enqueue(timer, h, ClockAt(now, offset)), offset)
  {
    FirstFiringIsEarliest(now, offset, h.hour, h.minute);
  }

  lemma AddOnTime(s: Schedule, request: Request<TaskInfo>, id: int, now: int, offset: int)
    requires Agree(s) && OnTime(s.handlers, s.timer, offset) && id !in s.handlers
    ensures var s' := AddTask(s, request, id, ClockAt(now, offset)).0; OnTime(s'.handlers, s'.timer, offset)
  {
    if AddTask(s, request, id, ClockAt(now, offset)).1.Done? {
      EnqueueOnTime(s.handlers, s.timer, HandlerOf(request.body.(id := id)), now, offset);
    }
  }

  lemma ModifyOnTime(s: Schedule, request: Request<TaskInfo>, now: int, offset: int)
    requires Agree(s) && OnTime(s.handlers, s.timer, offset)
    ensures var s' := ModifyTask(s, request, ClockAt(now, offset)).0; OnTime(s'.handlers, s'.timer, offset)
  {
    if ModifyTask(s, request, ClockAt(now, offset)).0 != s {
      EnqueueOnTime(s.handlers, s.timer - {request.body.id}, HandlerOf(request.body), now, offset);
    }
  }

  lemma {:induction false} LoadOnTime(persisted: seq<TaskInfo>, n: nat, now: int, offset: int)
    requires n <= |persisted| && DistinctIds(persisted) && Sound(persisted)
    ensures var s := Load(persisted, n, ClockAt(now, offset)); OnTime(s.handlers, s.timer, offset)
  {
    if n > 0 {
      LoadOnTime(persisted, n - 1, now, offset);
      LoadAgrees(persisted, n - 1, ClockAt(now, offset));
      var s := Load(persisted, n - 1, ClockAt(now, offset));
      NewIdIsNotLoaded(persisted, n - 1);
      EnqueueOnTime(s.handlers, s.timer, HandlerOf(persisted[n - 1]), now, offset);
    }
  }

  // ---------- clashes ----------

  lemma HandlersKnowTheirIds(s: Schedule)
    requires Agree(s)
    ensures forall k :: k in s.handlers ==> s.handlers[k].id == k && k != 0
  {
    forall k | k in s.handlers ensures s.handlers[k].id == k && k != 0 {
      assert HasId(s.config, k);
    }
  }

  /** With active 0 or 1, finding no match means that no handler has the same slot. */
  lemma NoMatchMeansNoClash(s: Schedule, t: TaskInfo)
    requires Agree(s) && TaskExists(s.handlers, t) == 0 && t.active in {0, 1}
    ensures forall k :: k in s.handlers ==> !SameSlot(s.handlers[k], HandlerOf(t))
  {
    HandlersKnowTheirIds(s);
    NoMatchMeansNone(s.handlers, t);
  }

  /** With active 0 or 1 an accepted addition clashes with no stored task. */
  lemma AddKeepsNoClash(s: Schedule, request: Request<TaskInfo>, id: int, clock: Clock)
    requires Agree(s) && NoClash(s)
    requires request.Task? ==> request.body.active in {0, 1}
    ensures NoClash(AddTask(s, request, id, clock).0)
  {
    if AddTask(s, request, id, clock).1.Done? {
      NoMatchMeansNoClash(s, request.body.(id := id));
    }
  }

  lemma ModifyKeepsNoClash(s: Schedule, request: Request<TaskInfo>, clock: Clock)
    requires Agree(s) && NoClash(s)
    requires request.Task? ==> request.body.active in {0, 1}
    ensures NoClash(ModifyTask(s, request, clock).0)
  {
    if ModifyTask(s, request, clock).0 != s {
      NoMatchMeansNoClash(s, request.body);
      var at := IndexOf(s.config, request.body.id);
      assert forall i :: 0 <= i < |s.config| && i != at ==> s.config[at := request.body][i] == s.config[i];
    }
  }

  lemma RemoveKeepsNoClash(s: Schedule, request: Request<int>)
    requires NoClash(s)
    ensures NoClash(RemoveTask(s, request).0)
  {
    var s' := RemoveTask(s, request).0;
    if s'.config != s.config {
      var at := IndexOf(s.config, request.body);
      assert forall j :: 0 <= j < |s'.config| ==> s'.config[j] == s.config[if j < at then j else j + 1];
    }
  }

  /** The hypothesis on active is needed: with active 2 the same task is accepted twice. */
  lemma ActiveTwoIsAcceptedTwice(clock: Clock)
    ensures var t := TaskInfo(0, 1, 8, 30, 0x7F, 2);
            var (s1, r1) := AddTask(EMPTY_SCHEDULE, Task(t), 1, clock);
            var (s2, r2) := AddTask(s1, Task(t), 2, clock);
            r1 == Done(1) && r2 == Done(2) && !NoClash(s2)
  {
    var t := TaskInfo(0, 1, 8, 30, 0x7F, 2);
    var (s1, r1) := AddTask(EMPTY_SCHEDULE, Task(t), 1, clock);
    var (s2, r2) := AddTask(s1, Task(t), 2, clock);
    assert |s1.handlers| == 1;
    assert SameSlot(HandlerOf(s2.config[0]), HandlerOf(s2.config[1]));
  }

  /** An inactive task has the slot; a request whose active field is neither 0 nor 1 is not compared with it. */
  predicate TakenByInactive(handlers: map<int, Handler>, t: TaskInfo) {
    exists k :: k in handlers && !handlers[k].active && SameSlot(handlers[k], HandlerOf(t))
  }

  /** An accepted addition brings no clash exactly when active is 0 or 1 or no inactive task has its slot. */
  lemma AddKeepsNoClashExactly(s: Schedule, request: Request<TaskInfo>, id: int, clock: Clock)
    requires Agree(s) && NoClash(s) && AddTask(s, request, id, clock).1.Done?
    ensures NoClash(AddTask(s, request, id, clock).0)
            <==> request.body.active in {0, 1} || !TakenByInactive(s.handlers, request.body.(id := id))
  {
    var t := request.body.(id := id);
    if t.active in {0, 1} {
      AddKeepsNoClash(s, request, id, clock);
    } else if TakenByInactive(s.handlers, t) {
      var k :| k in s.handlers && !s.handlers[k].active && SameSlot(s.handlers[k], HandlerOf(t));
      var i := StoredAt(s, k);
      var config := AddTask(s, request, id, clock).0.config;
      assert config[i] == s.config[i] && config[|s.config|] == t;
    } else {
      assert !HandlerOf(t).active;
    }
  }

  /** The position of a handler's task in the array. */
  lemma StoredAt(s: Schedule, k: int) returns (i: nat)
    requires Agree(s) && k in s.handlers
    ensures i < |s.config| && s.config[i].id == k && HandlerOf(s.config[i]) == s.handlers[k]
  {
    assert HasId(s.config, k);
    i :| 0 <= i < |s.config| && s.config[i].id == k;
  }

  /** The same for an accepted modification, over the other tasks. */
  lemma ModifyKeepsNoClashExactly(s: Schedule, t: TaskInfo, clock: Clock)
    requires Agree(s) && NoClash(s) && ModifyTask(s, Task(t), clock).1.Done?
    ensures NoClash(ModifyTask(s, Task(t), clock).0)
            <==> t.active in {0, 1} || !TakenByInactive(s.handlers - {t.id}, t)
  {
    if t.active in {0, 1} {
      ModifyKeepsNoClash(s, Task(t), clock);
    } else {
      HandlersKnowTheirIds(s);
      NothingMatches(s.handlers, t);
      var at := StoredAt(s, t.id);
      assert at == IndexOf(s.config, t.id);
      assert ModifyTask(s, Task(t), clock).0.config == s.config[at := t];
      if TakenByInactive(s.handlers - {t.id}, t) {
        ReplaceBringsClash(s, at, t);
      } else {
        ReplaceKeepsNoClash(s, at, t);
      }
    }
  }

  lemma ReplaceBringsClash(s: Schedule, at: nat, t: TaskInfo)
    requires Agree(s) && at < |s.config| && s.config[at].id == t.id
    requires t.active !in {0, 1} && TakenByInactive(s.handlers - {t.id}, t)
    ensures !SlotsDiffer(s.config[at := t])
  {
    var k :| k in s.handlers - {t.id} && !s.handlers[k].active && SameSlot(s.handlers[k], HandlerOf(t));
    var i := StoredAt(s, k);
    var config := s.config[at := t];
    assert config[i] == s.config[i] && config[at] == t;
  }

  /** Replacing a task by an inactive one whose slot no other inactive task has. */
  lemma ReplaceKeepsNoClash(s: Schedule, at: nat, t: TaskInfo)
    requires Agree(s) && NoClash(s) && at < |s.config| && s.config[at].id == t.id
    requires t.active !in {0, 1} && !TakenByInactive(s.handlers - {t.id}, t)
    ensures SlotsDiffer(s.config[at := t])
  {
    forall i | 0 <= i < |s.config| && i != at ensures !SameSlot(HandlerOf(s.config[i]), HandlerOf(t)) {
      assert s.config[i].id in s.handlers - {t.id};
    }
  }

  /** A request whose active field is neither 0 nor 1 matches nothing. */
  lemma NothingMatches(handlers: map<int, Handler>, t: TaskInfo)
    requires t.active !in {0, 1}
    ensures TaskExists(handlers, t) == 0
  {
  }

  // ---------- what a request leaves ----------

  /** The handler keeps the task field by field. */
  predicate Keeps(h: Handler, id: int, t: TaskInfo) {
    && h.id == id && h.option == t.option && h.hour == t.hour && h.minute == t.minute && h.weekday == t.weekday
    && (h.active <==> t.active == 1)
  }

  /** The instant is on the task's local time, more than 1 and at most 1441 minutes ahead. */
  predicate DueSoon(at: int, hour: int, minute: int, now: int, offset: int) {
    OnLocalTime(at, offset, hour, minute) && now + MINUTE < at <= now + 1441 * MINUTE
  }

  /** A stored task with the same time, days and active flag. */
  predicate Occupied(handlers: map<int, Handler>, t: TaskInfo) {
    exists k :: k in handlers && handlers[k].hour == t.hour && handlers[k].minute == t.minute
                && handlers[k].weekday == t.weekday
                && ((handlers[k].active && t.active == 1) || (!handlers[k].active && t.active == 0))
  }

  lemma SameTaskExactly(s: Schedule, t: TaskInfo)
    requires Agree(s)
    ensures TaskExists(s.handlers, t) == 0 <==> !Occupied(s.handlers, t)
  {
    HandlersKnowTheirIds(s);
    if TaskExists(s.handlers, t) == 0 {
      NoMatchMeansNone(s.handlers, t);
      forall k | k in s.handlers ensures !Matches(s.handlers[k], t) {}
    }
  }

  /** The clock gives instants that are due soon. */
  lemma ClockIsDue(now: int, offset: int, hour: int, minute: int)
    requires 0 <= hour <= 23 && 0 <= minute <= 59
    ensures DueSoon(ClockAt(now, offset)(hour, minute), hour, minute, now, offset)
  {
    FirstFiringIsEarliest(now, offset, hour, minute);
  }

  /** The queue holds the task at its clock's instant exactly if it is active, and other tasks as before. */
  ghost predicate QueuedAlone(timer: map<int, int>, timer': map<int, int>, id: int, t: TaskInfo, clock: Clock) {
    && (id in timer' <==> t.active == 1) && (t.active == 1 ==> timer'[id] == clock(t.hour, t.minute))
    && (forall k :: k != id ==> (k in timer' <==> k in timer) && (k in timer ==> timer'[k] == timer[k]))
  }

  /** Which additions are refused, and with which code. */
  lemma AddAnswersExactly(s: Schedule, t: TaskInfo, id: int, clock: Clock)
    requires Agree(s)
    ensures AddTask(s, Task(t), id, clock).1
            == if |s.config| == 32 then Refused("430")
               else if t.option !in {0, 1} || t.hour < 0 || t.hour > 23 || t.minute < 0 || t.minute > 59
                       || t.weekday < 0 || t.weekday > 127
               then Refused("433")
               else if Occupied(s.handlers, t) then Refused("434") else Done(id)
    ensures !AddTask(s, Task(t), id, clock).1.Done? ==> AddTask(s, Task(t), id, clock).0 == s
  {
    SameTaskExactly(s, t.(id := id));
    assert Occupied(s.handlers, t.(id := id)) == Occupied(s.handlers, t);
  }

  /** An accepted addition stores the task as it was asked, under the new id, and queues it if it is active. */
  lemma AddedTaskIsStored(s: Schedule, t: TaskInfo, id: int, clock: Clock)
    requires Agree(s) && id !in s.handlers && AddTask(s, Task(t), id, clock).1.Done?
    ensures var s' := AddTask(s, Task(t), id, clock).0;
            && s'.handlers.Keys == s.handlers.Keys + {id} && Keeps(s'.handlers[id], id, t)
            && (forall k :: k in s.handlers ==> s'.handlers[k] == s.handlers[k])
            && s'.config == s.config + [t.(id := id)] && s'.persisted == s'.config
            && QueuedAlone(s.timer, s'.timer, id, t, clock)
  {
  }

  /** A task just added or modified is due more than 1 and at most 1441 minutes ahead, on its local time. */
  lemma QueuedTaskIsDue(s: Schedule, t: TaskInfo, id: int, now: int, offset: int)
    requires Agree(s) && t.active == 1
    ensures id !in s.handlers && AddTask(s, Task(t), id, ClockAt(now, offset)).1.Done? ==>
              var timer := AddTask(s, Task(t), id, ClockAt(now, offset)).0.timer;
              id in timer && DueSoon(timer[id], t.hour, t.minute, now, offset)
    ensures !Occupied(s.handlers, t) && ModifyTask(s, Task(t), ClockAt(now, offset)).1.Done? ==>
              var timer := ModifyTask(s, Task(t), ClockAt(now, offset)).0.timer;
              t.id in timer && DueSoon(timer[t.id], t.hour, t.minute, now, offset)
  {
    var clock := ClockAt(now, offset);
    if id !in s.handlers && AddTask(s, Task(t), id, clock).1.Done? {
      AddedTaskIsStored(s, t, id, clock);
      ClockIsDue(now, offset, t.hour, t.minute);
    }
    if !Occupied(s.handlers, t) && ModifyTask(s, Task(t), clock).1.Done? {
      ModifiedTaskIsStored(s, t, clock);
      ClockIsDue(now, offset, t.hour, t.minute);
    }
  }

  /** A removal is accepted exactly for a stored task, which is then gone everywhere while all others stay. */
  lemma RemovedTaskIsGone(s: Schedule, id: int)
    requires Agree(s)
    ensures var (s', reply) := RemoveTask(s, Task(id));
            if id !in s.handlers then (s', reply) == (s, Refused("435"))
            else
              && reply == Done(id)
              && s'.handlers == s.handlers - {id} && s'.timer == s.timer - {id} && s'.persisted == s'.config
              && (forall t :: t in s'.config <==> t in s.config && t.id != id)
  {
    if id in s.handlers {
      WithoutKeepsSameTasks(s.handlers, s.config, id);
      WithoutHolds(s.config, IndexOf(s.config, id));
      assert forall t :: t in s.config && t.id == id ==> t == s.config[IndexOf(s.config, id)];
    }
  }

  lemma WithoutHolds(config: seq<TaskInfo>, at: nat)
    requires DistinctIds(config) && at < |config|
    ensures forall t :: t in Without(config, at) <==> t in config && t != config[at]
  {
    var config' := Without(config, at);
    assert forall j :: 0 <= j < |config'| ==> config'[j] == config[if j < at then j else j + 1];
    forall t | t in config && t != config[at] ensures t in config' {
      var i :| 0 <= i < |config| && config[i] == t;
      assert config'[if i < at then i else i - 1] == t;
    }
  }

  /** Which modifications are refused, and with which code. */
  lemma ModifyAnswersExactly(s: Schedule, t: TaskInfo, clock: Clock)
    requires Agree(s)
    ensures ModifyTask(s, Task(t), clock).1
            == if t.id !in s.handlers then Refused("435")
               else if t.option !in {0, 1} || t.hour < 0 || t.hour > 23 || t.minute < 0 || t.minute > 59
                       || t.weekday < 0 || t.weekday > 127
               then Refused("432")
               else if TaskExists(s.handlers, t) != t.id && Occupied(s.handlers, t) then Refused("434") else Done(t.id)
    ensures !ModifyTask(s, Task(t), clock).1.Done? ==> ModifyTask(s, Task(t), clock).0 == s
  {
    SameTaskExactly(s, t);
  }

  /** A modification to a free slot stores the task as it was asked and queues it anew if it is active. */
  lemma ModifiedTaskIsStored(s: Schedule, t: TaskInfo, clock: Clock)
    requires Agree(s) && !Occupied(s.handlers, t) && ModifyTask(s, Task(t), clock).1.Done?
    ensures var s' := ModifyTask(s, Task(t), clock).0;
            && s'.handlers.Keys == s.handlers.Keys && Keeps(s'.handlers[t.id], t.id, t)
            && (forall k :: k in s.handlers && k != t.id ==> s'.handlers[k] == s.handlers[k])
            && (forall u :: u in s'.config <==> u == t || (u in s.config && u.id != t.id)) && s'.persisted == s'.config
            && QueuedAlone(s.timer, s'.timer, t.id, t, clock)
  {
    SameTaskExactly(s, t);
    HandlersKnowTheirIds(s);
    var at := StoredAt(s, t.id);
    assert at == IndexOf(s.config, t.id);
    ReplaceHolds(s.config, at, t);
  }

  lemma ReplaceHolds(config: seq<TaskInfo>, at: nat, t: TaskInfo)
    requires DistinctIds(config) && at < |config| && config[at].id == t.id
    ensures forall u :: u in config[at := t] <==> u == t || (u in config && u.id != t.id)
  {
    var config' := config[at := t];
    assert config'[at] == t;
    forall u | u in config && u.id != t.id ensures u in config' {
      var i :| 0 <= i < |config| && config[i] == u;
      assert config'[i] == u;
    }
  }

  /** A request without a task, or without a field, is refused before anything else but a full schedule. */
  lemma IncompleteTaskIsRefused(s: Schedule, id: int, clock: Clock)
    ensures |s.handlers| != 32 ==> AddTask(s, NoTask, id, clock) == (s, Refused("431"))
    ensures |s.handlers| != 32 ==> AddTask(s, MissingField, id, clock) == (s, Refused("432"))
    ensures RemoveTask(s, NoTask) == (s, Refused("431")) && RemoveTask(s, MissingField) == (s, Refused("432"))
    ensures ModifyTask(s, NoTask, clock) == (s, Refused("431"))
    ensures ModifyTask(s, MissingField, clock) == (s, Refused("432"))
  {
  }

  /** After loading every task is kept as it was stored, and queued by the clock if it is active. */
  lemma {:induction false} LoadedTaskIsStored(persisted: seq<TaskInfo>, n: nat, clock: Clock, i: nat)
    requires i < n <= |persisted| && DistinctIds(persisted)
    ensures var s := Load(persisted, n, clock);
            var t := persisted[i];
            && t.id in s.handlers && Keeps(s.handlers[t.id], t.id, t)
            && (t.active == 1 ==> t.id in s.timer && s.timer[t.id] == clock(t.hour, t.minute))
  {
    if i == n - 1 {
      LoadAgrees(persisted, n - 1, clock);
      NewIdIsNotLoaded(persisted, n - 1);
    } else {
      LoadedTaskIsStored(persisted, n - 1, clock, i);
    }
  }

  /** An accepted modification stores what was asked exactly when it is not a change of option alone. */
  lemma ModifyTakesEffectUnlessOptionAlone(s: Schedule, t: TaskInfo, clock: Clock)
    requires Agree(s) && t.active in {0, 1}
    requires ModifyTask(s, Task(t), clock).1.Done?
    ensures t.id in s.handlers
    ensures ModifyTask(s, Task(t), clock).0.handlers[t.id] == HandlerOf(t)
            <==> !(SameSlot(s.handlers[t.id], HandlerOf(t)) && s.handlers[t.id].option != t.option)
  {
    HandlersKnowTheirIds(s);
    if TaskExists(s.handlers, t) == 0 {
      NoMatchMeansNone(s.handlers, t);
    } else {
      var k :| FirstMatch(s.handlers, t, k);
      assert k == t.id;
    }
  }

  // ---------- whole runs ----------

  datatype Step =
    | Add(task: Request<TaskInfo>, id: int, now: int)
    | Remove(which: Request<int>)
    | Modify(task: Request<TaskInfo>, now: int)
    | Reset(now: int)

  ghost function Next(s: Schedule, step: Step, offset: int): Schedule {
    match step
    case Add(task, id, now) => AddTask(s, task, id, ClockAt(now, offset)).0
    case Remove(which) => RemoveTask(s, which).0
    case Modify(task, now) => ModifyTask(s, task, ClockAt(now, offset)).0
    case Reset(now) => Reload(s, ClockAt(now, offset))
  }

  ghost function Run(s: Schedule, steps: seq<Step>, offset: int): Schedule
    decreases |steps|
  {
    if steps == [] then s else Next(Run(s, steps[..|steps| - 1], offset), steps[|steps| - 1], offset)
  }

  /** Ids come from a clock and are fresh; requests ask for active 0 or 1. */
  ghost predicate Fair(s: Schedule, step: Step) {
    match step
    case Add(task, id, _) => id !in s.handlers && id != 0 && (task.Task? ==> task.body.active in {0, 1})
    case Modify(task, _) => task.Task? ==> task.body.active in {0, 1}
    case _ => true
  }

  ghost predicate FairRun(s: Schedule, steps: seq<Step>, offset: int)
    decreases |steps|
  {
    steps != [] ==> FairRun(s, steps[..|steps| - 1], offset)
                    && Fair(Run(s, steps[..|steps| - 1], offset), steps[|steps| - 1])
  }

  /** What the manager keeps: agreement, no clash, and first firings on local time. */
  ghost predicate Consistent(s: Schedule, offset: int) {
    Agree(s) && NoClash(s) && OnTime(s.handlers, s.timer, offset)
  }

  lemma NextKeepsConsistent(s: Schedule, step: Step, offset: int)
    requires Consistent(s, offset) && Fair(s, step)
    ensures Consistent(Next(s, step, offset), offset)
  {
    match step
    case Add(task, id, now) =>
      AddKeepsAgree(s, task, id, ClockAt(now, offset));
      AddKeepsNoClash(s, task, id, ClockAt(now, offset));
      AddOnTime(s, task, id, now, offset);
    case Remove(which) =>
      RemoveKeepsAgree(s, which);
      RemoveKeepsNoClash(s, which);
    case Modify(task, now) =>
      ModifyKeepsAgree(s, task, ClockAt(now, offset));
      ModifyKeepsNoClash(s, task, ClockAt(now, offset));
      ModifyOnTime(s, task, now, offset);
    case Reset(now) =>
      ReloadRebuilds(s, ClockAt(now, offset));
      LoadOnTime(s.persisted, |s.persisted|, now, offset);
  }

  /** In every reachable state handlers, array and timer agree, no two tasks clash, and firings keep local time. */
  lemma {:induction false} EveryRunIsConsistent(s: Schedule, steps: seq<Step>, offset: int)
    requires Consistent(s, offset) && FairRun(s, steps, offset)
    ensures Consistent(Run(s, steps, offset), offset)
    decreases |steps|
  {
    if steps != [] {
      EveryRunIsConsistent(s, steps[..|steps| - 1], offset);
      NextKeepsConsistent(Run(s, steps[..|steps| - 1], offset), steps[|steps| - 1], offset);
    }
  }

  /** Loading is consistent exactly from a sound array of at most 32 tasks with different ids and slots. */
  lemma LoadIsConsistentExactly(stored: seq<TaskInfo>, now: int, offset: int)
    ensures Consistent(Load(stored, |stored|, ClockAt(now, offset)), offset)
            <==> Sound(stored) && DistinctIds(stored) && |stored| <= MAX_TASKS && SlotsDiffer(stored)
  {
    LoadCopies(stored, |stored|, ClockAt(now, offset));
    assert stored[..|stored|] == stored;
    if Sound(stored) && DistinctIds(stored) && |stored| <= MAX_TASKS && SlotsDiffer(stored) {
      LoadAgrees(stored, |stored|, ClockAt(now, offset));
      LoadOnTime(stored, |stored|, now, offset);
    }
  }

  /** From such an array on, every run is consistent. */
  lemma EveryRunFromStoreIsConsistent(stored: seq<TaskInfo>, now: int, steps: seq<Step>, offset: int)
    requires Sound(stored) && DistinctIds(stored) && |stored| <= MAX_TASKS && SlotsDiffer(stored)
    requires FairRun(Load(stored, |stored|, ClockAt(now, offset)), steps, offset)
    ensures Consistent(Run(Load(stored, |stored|, ClockAt(now, offset)), steps, offset), offset)
  {
    LoadIsConsistentExactly(stored, now, offset);
    EveryRunIsConsistent(Load(stored, |stored|, ClockAt(now, offset)), steps, offset);
  }

  // ---------- the manager itself ----------

  class TaskManager {
    const offset: int
    var handlers: map<int, Handler>
    var config: seq<TaskInfo>
    var persisted: seq<TaskInfo>
    var timer: map<int, int>

    ghost function State(): Schedule
      reads this
    {
      Schedule(handlers, config, persisted, timer)
    }

    /** Starts from the persisted array. */
    constructor (offset: int, stored: seq<TaskInfo>, now: int)
      ensures this.offset == offset && State() == Load(stored, |stored|, ClockAt(now, offset))
    {
      this.offset := offset;
      persisted := stored;
      new;
      LoadTasksConfig(now);
    }

    /** Computes the first execution time step by step and puts the handler in the timer queue. */
    method AddToScheduleQueue(h: Handler, now: int)
      modifies this`timer
      ensures timer == old(timer)[h.id := ClockAt(now, offset)(h.hour, h.minute)]
    {
      var local := now + offset * SECOND;
      var base := local - local % MINUTE;
      var target := local - local % DAY + (h.hour * 60 + h.minute) * MINUTE;
      var diffMinutes := (target - base) / MINUTE;
      diffMinutes := (diffMinutes + 24 * 60) % (24 * 60);
      if diffMinutes <= 1 {
        diffMinutes := diffMinutes + 24 * 60;
      }
      var executeTime := base + diffMinutes * MINUTE;
      executeTime := executeTime - offset * SECOND;
      timer := timer[h.id := executeTime];
    }

    method LoadTasksConfig(now: int)
      modifies this
      ensures State() == Load(old(persisted), |old(persisted)|, ClockAt(now, offset))
    {
      handlers, config, timer := map[], [], map[];
      for i := 0 to |persisted|
        invariant persisted == old(persisted)
        invariant State() == Load(persisted, i, ClockAt(now, offset))
      {
        var t := persisted[i];
        config := config + [t];
        var h := HandlerOf(t);
        if h.active {
          AddToScheduleQueue(h, now);
        }
        if h.id !in handlers {
          handlers := handlers[h.id := h];
        }
      }
    }

    /** Walks the handlers in id order and stops at the first match. */
    method FindSame(t: TaskInfo) returns (id: int)
      ensures id == TaskExists(handlers, t)
    {
      var todo := handlers.Keys;
      while todo != {}
        invariant todo <= handlers.Keys
        invariant forall k :: k in handlers && k !in todo ==> !Matches(handlers[k], t)
        invariant forall k, j :: k in handlers && k !in todo && j in todo ==> k < j
        decreases |todo|
      {
        ghost var least := LeastElement(todo);
        var k: int :| k in todo && forall j :: j in todo ==> k <= j;
        if Matches(handlers[k], t) {
          assert FirstMatch(handlers, t, k);
          return handlers[k].id;
        }
        todo := todo - {k};
      }
      return 0;
    }

    method Add(request: Request<TaskInfo>, id: int, now: int) returns (reply: Reply)
      modifies this
      ensures (State(), reply) == AddTask(old(State()), request, id, ClockAt(now, offset))
    {
      if |handlers| == MAX_TASKS { return Refused("430"); }
      if request.NoTask? { return Refused("431"); }
      if request.MissingField? { return Refused("432"); }
      var t := request.body.(id := id);
      if !(t.option == 0 || t.option == 1) || t.hour < 0 || t.hour > 23 || t.minute < 0 || t.minute > 59
         || t.weekday < 0 || t.weekday > 0x7F {
        return Refused("433");
      }
      var same := FindSame(t);
      if same != 0 { return Refused("434"); }
      config := config + [t];
      persisted := config;
      var h := HandlerOf(t);
      if t.id !in handlers {
        handlers := handlers[t.id := h];
      }
      if h.active {
        AddToScheduleQueue(h, now);
      }
      return Done(t.id);
    }

    /** Position of the stored task with the given id, by a scan of the array. */
    method FindIndex(id: int) returns (i: nat)
      ensures i == IndexOf(config, id)
    {
      i := 0;
      while i < |config|
        invariant i <= |config|
        invariant forall j :: 0 <= j < i ==> config[j].id != id
      {
        if config[i].id == id { return; }
        i := i + 1;
      }
    }

    method Remove(request: Request<int>) returns (reply: Reply)
      modifies this
      ensures (State(), reply) == RemoveTask(old(State()), request)
    {
      if request.NoTask? { return Refused("431"); }
      if request.MissingField? { return Refused("432"); }
      var id := request.body;
      if id !in handlers { return Refused("435"); }
      timer := timer - {id};
      handlers := handlers - {id};
      var i := FindIndex(id);
      if i < |config| {
        config := config[..i] + config[i + 1..];
        persisted := config;
      }
      return Done(id);
    }

    method Modify(request: Request<TaskInfo>, now: int) returns (reply: Reply)
      modifies this
      ensures (State(), reply) == ModifyTask(old(State()), request, ClockAt(now, offset))
    {
      if request.NoTask? { return Refused("431"); }
      if request.MissingField? { return Refused("432"); }
      var t := request.body;
      if t.id !in handlers { return Refused("435"); }
      if !(t.option == 0 || t.option == 1) || t.hour < 0 || t.hour > 23 || t.minute < 0 || t.minute > 59
         || t.weekday < 0 || t.weekday > 0x7F {
        return Refused("432");
      }
      var same := FindSame(t);
      if same != t.id && same != 0 { return Refused("434"); }
      if same == t.id { return Done(t.id); }
      timer := timer - {t.id};
      var h := HandlerOf(t);
      handlers := handlers - {t.id};
      handlers := handlers[t.id := h];
      assert handlers == old(handlers)[t.id := h];
      if h.active {
        AddToScheduleQueue(h, now);
      }
      var i := FindIndex(t.id);
      if i < |config| {
        config := config[i := t];
        persisted := config;
      }
      return Done(t.id);
    }

    method ResetTasks(now: int)
      modifies this
      ensures State() == Reload(old(State()), ClockAt(now, offset))
    {
      handlers, timer := map[], map[];
      LoadTasksConfig(now);
    }
  }
}
