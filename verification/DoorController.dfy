/**
 * CDeviceController: the door, driven by users and by scheduled tasks, on top of the quota of Users and the
 * log of OperationLog.
 */
module DoorControl {
  import opened Common
  import Users
  import UserRuns
  import Quota
  import OperationLog
  import TaskClock
  import UserManagement

  datatype Device = Device(users: Users.State, open: bool, mode: int, ready: bool, log: OperationLog.Log)

  datatype Reply = Done | Refused(detail: string)

  const ADMIN_MODE := 1
  const OPENED := 1
  const CLOSED := 0
  const MANUAL := 0
  const SCHEDULED := 1

  /** userAuthority: -1 for an unknown token. */
  function Authority(s: Users.State, token: string): int {
    if Users.ByToken(s.rows, token) < |s.rows| then Users.TokenRow(s.rows, token).authority else -1
  }

  predicate ModeForbids(d: Device, token: string) {
    d.mode == ADMIN_MODE && Authority(d.users, token) != Users.ADMIN
  }

  /** The record of a door operation; a scheduled one has no token. */
  function RecordOf(s: Users.State, operation: int, token: Option<string>, stamp: int): OperationLog.Record {
    match token
    case None => OperationLog.Record(stamp, operation, "", SCHEDULED)
    case Some(t) => OperationLog.Record(stamp, operation, Users.TokenRow(s.rows, t).username, MANUAL)
  }

  // ---------- operations ----------

  function OpenDoor(d: Device, token: Option<string>, stamp: int): (Device, Reply) {
    if !d.ready then (d, Refused("420"))
    else if d.open then (d, Done)
    else if token.Some? && (!Users.CanOpen(d.users, token.value) || ModeForbids(d, token.value))
    then (d, Refused("421"))
    else (d.(open := true,
             log := OperationLog.AddRecord(d.log, RecordOf(d.users, OPENED, token, stamp)),
             users := if token.Some? then Users.CountOpening(d.users, token.value) else d.users),
          Done)
  }

  function CloseDoor(d: Device, token: Option<string>, stamp: int): (Device, Reply) {
    if !d.ready then (d, Refused("420"))
    else if !d.open then (d, Done)
    else if token.Some? && ModeForbids(d, token.value) then (d, Refused("421"))
    else (d.(open := false, log := OperationLog.AddRecord(d.log, RecordOf(d.users, CLOSED, token, stamp))), Done)
  }

  function ChangeMode(d: Device, mode: Option<int>, token: string): (Device, Reply) {
    if mode.None? then (d, Refused("400"))
    else if Authority(d.users, token) != Users.ADMIN then (d, Refused("422"))
    else (d.(mode := mode.value), Done)
  }

  /** One firing of a scheduled task at instant now: its weekday mask decides whether the door is moved. */
  function Fire(d: Device, option: int, mask: bv8, now: int, stamp: int): Device {
    if !TaskClock.Acts(mask, now) then d
    else if option == 0 then CloseDoor(d, None, stamp).0
    else OpenDoor(d, None, stamp).0
  }

  // ---------- who moves the door ----------

  /** Some user of level 9 has this token, or any user at all may act because the device is not in admin mode. */
  predicate MayMove(d: Device, token: string) {
    d.mode != 1 || (Users.ByToken(d.users.rows, token) < |d.users.rows|
                    && Users.TokenRow(d.users.rows, token).authority == 9)
  }

  /**
   * An opening of a closed door: the schedule may always, a user with openings left may unless the mode forbids
   * it.  The door is then open, the user's token is charged, and the log says who opened it and how.
   */
  lemma OpensExactly(d: Device, token: Option<string>, stamp: int)
    requires d.ready && !d.open
    ensures var (d', reply) := OpenDoor(d, token, stamp);
            if token.Some? && !(Users.CanOpen(d.users, token.value) && MayMove(d, token.value))
            then (d', reply) == (d, Refused("421"))
            else
              && reply == Done && d'.open && d'.mode == d.mode && d'.ready
              && d'.users == (if token.Some? then Users.CountOpening(d.users, token.value) else d.users)
              && |d'.log.cache| == |d.log.cache| + 1 && d'.log == d.log.(cache := d'.log.cache)
              && d'.log.cache[..|d.log.cache|] == d.log.cache
              && Tells(d'.log.cache[|d.log.cache|], stamp, 1, token, d.users)
  {
  }

  /** The record of an operation, 1 to open and 0 to close: by hand with the user's name, or by schedule without one. */
  predicate Tells(r: OperationLog.Record, stamp: int, operation: int, token: Option<string>, users: Users.State) {
    && r.stamp == stamp && r.operation == operation
    && (token.None? ==> r.schema == 1 && r.username == "")
    && (token.Some? ==> r.schema == 0 && r.username == Users.TokenRow(users.rows, token.value).username)
  }

  /** Closing costs nobody anything, and needs no openings left. */
  lemma ClosesExactly(d: Device, token: Option<string>, stamp: int)
    requires d.ready && d.open
    ensures var (d', reply) := CloseDoor(d, token, stamp);
            if token.Some? && !MayMove(d, token.value) then (d', reply) == (d, Refused("421"))
            else
              && reply == Done && !d'.open && d'.mode == d.mode && d'.ready && d'.users == d.users
              && |d'.log.cache| == |d.log.cache| + 1 && d'.log == d.log.(cache := d'.log.cache)
              && d'.log.cache[..|d.log.cache|] == d.log.cache
              && Tells(d'.log.cache[|d.log.cache|], stamp, 0, token, d.users)
  {
  }

  /** Repeating an operation does nothing, and nothing works before the device was opened. */
  lemma RepeatedOrUnready(d: Device, token: Option<string>, stamp: int)
    ensures !d.ready ==> OpenDoor(d, token, stamp) == (d, Refused("420"))
    ensures !d.ready ==> CloseDoor(d, token, stamp) == (d, Refused("420"))
    ensures d.ready && d.open ==> OpenDoor(d, token, stamp) == (d, Done)
    ensures d.ready && !d.open ==> CloseDoor(d, token, stamp) == (d, Done)
  {
  }

  /** The mode is changed exactly by a user of level 9. */
  lemma ModeChangesExactly(d: Device, mode: Option<int>, token: string)
    ensures var (d', reply) := ChangeMode(d, mode, token);
            if mode.None? then (d', reply) == (d, Refused("400"))
            else if Users.ByToken(d.users.rows, token) < |d.users.rows|
                    && Users.TokenRow(d.users.rows, token).authority == 9
            then d' == d.(mode := mode.value) && reply == Done
            else (d', reply) == (d, Refused("422"))
  {
  }

  /**
   * A firing whose mask has the constant of the weekday its UTC date falls on leaves the door closed for option
   * 0 and open for any other, in any mode and at nobody's cost; any other firing does nothing.
   */
  lemma FiresExactly(d: Device, option: int, mask: bv8, now: int, stamp: int, weekday: int)
    requires d.ready && 0 <= weekday < 7 && (now / DAY - 3 - weekday) % 7 == 0
    ensures var d' := Fire(d, option, mask, now, stamp);
            if [0x40, 0x20, 0x10, 0x08, 0x04, 0x02, 0x01][weekday] & mask != 0
            then (d'.open <==> option != 0) && d'.users == d.users && d'.mode == d.mode && d'.ready
                 && (d.open == d'.open ==> d' == d)
            else d' == d
  {
    TaskClock.ActsExactly(mask, now, weekday);
  }

  /** A task for one weekday moves the door on that weekday and on no other. */
  lemma OneDayTaskFiresExactly(d: Device, option: int, now: int, stamp: int, weekday: int)
    requires d.ready && 0 <= weekday < 7 && (d.open <==> option == 0)
    ensures Fire(d, option, [0x40, 0x20, 0x10, 0x08, 0x04, 0x02, 0x01][weekday], now, stamp).open != d.open
            <==> (now / DAY - 3 - weekday) % 7 == 0
  {
    TaskClock.OneDayTaskActsExactly(now, weekday);
  }

  // ---------- runs ----------

  datatype Step =
    | UserStep(user: UserRuns.Step)
    | Open(token: Option<string>, stamp: int)
    | Close(token: Option<string>, stamp: int)
    | Task(option: int, mask: bv8, now: int, stamp: int)
    | SetMode(mode: Option<int>, admin: string)
    | FlushLog
    | LogTimer(now: int)
    | Query(start: int, end: int, limit: int, offset: int)

  /**
   * A device with its history: every record ever added, after the `base` records found in the table at the
   * start, and the instant of the pruning that reached furthest, if there was one.
   */
  datatype World = World(device: Device, ever: seq<OperationLog.Record>, base: nat, pruned: Option<int>)

  /** Some pruning has cut off everything with this timestamp. */
  predicate CutOff(w: World, stamp: int) {
    w.pruned.Some? && stamp < OperationLog.Cutoff(w.pruned.value)
  }

  predicate PrunesFurther(w: World, step: Step) {
    && step.LogTimer? && OperationLog.Prunes(w.device.log, step.now)
    && (w.pruned.Some? ==> OperationLog.Cutoff(step.now) > OperationLog.Cutoff(w.pruned.value))
  }

  ghost function Perform(d: Device, step: Step, digest: Users.Digest): Device {
    match step
    case UserStep(u) => d.(users := UserRuns.Next(d.users, u, digest))
    case Open(token, stamp) => OpenDoor(d, token, stamp).0
    case Close(token, stamp) => CloseDoor(d, token, stamp).0
    case Task(option, mask, now, stamp) => Fire(d, option, mask, now, stamp)
    case SetMode(mode, admin) => ChangeMode(d, mode, admin).0
    case FlushLog => d.(log := OperationLog.WriteAll(d.log))
    case LogTimer(now) => d.(log := OperationLog.TimerPass(d.log, now))
    case Query(start, end, limit, offset) => d.(log := OperationLog.Query(d.log, start, end, limit, offset).0)
  }

  predicate MovesDoor(step: Step) {
    step.Open? || step.Close? || step.Task?
  }

  ghost function Next(w: World, step: Step, digest: Users.Digest): World {
    var d := Perform(w.device, step, digest);
    World(d,
          if MovesDoor(step)
          then w.ever + d.log.cache[if |d.log.cache| < |w.device.log.cache| then 0 else |w.device.log.cache|..]
          else w.ever,
          w.base,
          if PrunesFurther(w, step) then Some(step.now) else w.pruned)
  }

  /** Timestamps increase; user steps are fair and open no door themselves. */
  ghost predicate Fair(w: World, step: Step) {
    match step
    case UserStep(u) => !u.Open? && UserRuns.Fair(w.device.users, u)
    case Open(_, stamp) => Later(w, stamp)
    case Close(_, stamp) => Later(w, stamp)
    case Task(_, _, _, stamp) => Later(w, stamp)
    case _ => true
  }

  ghost predicate Later(w: World, stamp: int) {
    w.ever != [] ==> w.ever[|w.ever| - 1].stamp < stamp
  }

  ghost predicate IsRun(worlds: seq<World>, steps: seq<Step>, digest: Users.Digest) {
    && |worlds| == |steps| + 1
    && forall i {:trigger steps[i]} :: 0 <= i < |steps| ==>
         Fair(worlds[i], steps[i]) && worlds[i + 1] == Next(worlds[i], steps[i], digest)
  }

  /** openDevice: the door is closed, and nothing has been added or pruned yet. */
  ghost predicate Starts(w: World) {
    && w.device.ready && !w.device.open && w.device.log.cache == []
    && w.ever == w.device.log.table && w.base == |w.ever| && w.pruned == None && OperationLog.Increasing(w.ever)
  }

  // ---------- the log replays to the door ----------

  /** From the start on, records alternate open and close, beginning with open, and the last one is the door's state. */
  ghost predicate Replays(w: World) {
    && w.base <= |w.ever|
    && (forall i :: w.base <= i < |w.ever| ==> w.ever[i].operation == if (i - w.base) % 2 == 0 then OPENED else CLOSED)
    && (w.device.open <==> (|w.ever| - w.base) % 2 == 1)
  }

  /** Table and cache together. */
  function Kept(w: World): seq<OperationLog.Record> {
    w.device.log.table + w.device.log.cache
  }

  function Dropped(w: World): int {
    |w.ever| - |Kept(w)|
  }

  /** What is kept is a suffix of everything ever added, and only records some pruning cut off are missing. */
  ghost predicate KeepsSuffix(w: World) {
    && OperationLog.Increasing(w.ever)
    && 0 <= Dropped(w) && Kept(w) == w.ever[Dropped(w)..]
    && forall i :: 0 <= i < Dropped(w) ==> CutOff(w, w.ever[i].stamp)
  }

  ghost predicate LogInv(w: World) {
    Replays(w) && KeepsSuffix(w)
  }

  /** The step leaves door, history and log alone. */
  predicate NothingMoved(w: World, w': World) {
    && w'.base == w.base && w'.pruned == w.pruned && w'.ever == w.ever
    && w'.device.log == w.device.log && w'.device.open == w.device.open
  }

  /** The step moves the door and adds one record saying so. */
  predicate Moved(w: World, w': World, r: OperationLog.Record) {
    && w'.base == w.base && w'.pruned == w.pruned && w'.ever == w.ever + [r]
    && w'.device.log == w.device.log.(cache := w.device.log.cache + [r])
    && w'.device.open != w.device.open && r.operation == if w'.device.open then OPENED else CLOSED
  }

  /** A door operation or firing either leaves door and log alone or moves the door and logs exactly that. */
  lemma DoorStep(w: World, step: Step, digest: Users.Digest)
    requires MovesDoor(step)
    ensures var w' := Next(w, step, digest);
            NothingMoved(w, w') || exists r: OperationLog.Record :: Moved(w, w', r) && r.stamp == step.stamp
  {
    var w' := Next(w, step, digest);
    if w'.device.log.cache != w.device.log.cache {
      var r := w'.device.log.cache[|w.device.log.cache|];
      assert w'.device.log.cache == w.device.log.cache + [r];
      assert Moved(w, w', r);
    } else {
      assert w'.ever == w.ever;
    }
  }

  lemma UserStepMovesNothing(w: World, step: Step, digest: Users.Digest)
    requires step.UserStep? || step.SetMode?
    ensures NothingMoved(w, Next(w, step, digest))
  {
  }

  lemma NothingMovedKeepsLogInv(w: World, w': World)
    requires LogInv(w) && NothingMoved(w, w')
    ensures LogInv(w')
  {
    assert Kept(w') == Kept(w);
  }

  /** One more record, with a later timestamp, in the cache and in the history. */
  lemma AppendKeepsSuffix(w: World, w': World, r: OperationLog.Record)
    requires KeepsSuffix(w) && Later(w, r.stamp) && Moved(w, w', r)
    ensures KeepsSuffix(w')
  {
    assert Kept(w') == Kept(w) + [r];
    assert w'.ever[Dropped(w)..] == w.ever[Dropped(w)..] + [r];
    AppendIncreases(w.ever, r);
  }

  lemma AppendIncreases(records: seq<OperationLog.Record>, r: OperationLog.Record)
    requires OperationLog.Increasing(records) && (records != [] ==> records[|records| - 1].stamp < r.stamp)
    ensures OperationLog.Increasing(records + [r])
  {
    assert forall i :: 0 <= i < |records| ==> records[i].stamp <= records[|records| - 1].stamp;
  }

  lemma AppendKeepsReplays(w: World, w': World, r: OperationLog.Record)
    requires Replays(w) && Moved(w, w', r)
    ensures Replays(w')
  {
  }

  /** Dropping the first k kept records, all of them cut off by now, leaves a suffix. */
  lemma CutKeepsSuffix(w: World, w': World, k: nat)
    requires KeepsSuffix(w) && k <= |Kept(w)| && Kept(w') == Kept(w)[k..] && w'.ever == w.ever
    requires forall stamp :: CutOff(w, stamp) ==> CutOff(w', stamp)
    requires forall i :: 0 <= i < k ==> CutOff(w', Kept(w)[i].stamp)
    ensures KeepsSuffix(w')
  {
    assert Dropped(w') == Dropped(w) + k;
    forall i | 0 <= i < Dropped(w') ensures CutOff(w', w.ever[i].stamp) {
      if i >= Dropped(w) {
        assert Kept(w)[i - Dropped(w)] == w.ever[i];
      }
    }
  }

  predicate LogStep(step: Step) {
    step.FlushLog? || step.LogTimer? || step.Query?
  }

  /** What flushing or pruning leaves of the kept records. */
  lemma LogStepCuts(w: World, step: Step, digest: Users.Digest) returns (k: nat)
    requires OperationLog.Increasing(Kept(w)) && LogStep(step)
    ensures var w' := Next(w, step, digest);
            && k <= |Kept(w)| && Kept(w') == Kept(w)[k..] && w'.ever == w.ever
            && (forall stamp :: CutOff(w, stamp) ==> CutOff(w', stamp))
            && (forall i :: 0 <= i < k ==> CutOff(w', Kept(w)[i].stamp))
  {
    var l := w.device.log;
    k := 0;
    OperationLog.FlushLosesNothing(l);
    if step.LogTimer? && OperationLog.Prunes(l, step.now) {
      k := OperationLog.PruningCutsAPrefix(Kept(w), OperationLog.Cutoff(step.now));
    }
  }

  lemma LogStepMovesNoDoor(w: World, step: Step, digest: Users.Digest)
    requires LogStep(step)
    ensures var w' := Next(w, step, digest);
            w'.base == w.base && w'.ever == w.ever && w'.device.open == w.device.open
  {
  }

  /** Flushing or pruning the log keeps what must be kept. */
  lemma LogStepKeepsSuffix(w: World, step: Step, digest: Users.Digest)
    requires KeepsSuffix(w) && LogStep(step)
    ensures KeepsSuffix(Next(w, step, digest))
  {
    SuffixIncreases(w.ever, Dropped(w));
    var k := LogStepCuts(w, step, digest);
    CutKeepsSuffix(w, Next(w, step, digest), k);
  }

  lemma LogStepKeepsLogInv(w: World, step: Step, digest: Users.Digest)
    requires LogInv(w) && LogStep(step)
    ensures LogInv(Next(w, step, digest))
  {
    LogStepKeepsSuffix(w, step, digest);
    LogStepMovesNoDoor(w, step, digest);
  }

  lemma DoorStepKeepsLogInv(w: World, step: Step, digest: Users.Digest)
    requires LogInv(w) && MovesDoor(step) && Later(w, step.stamp)
    ensures LogInv(Next(w, step, digest))
  {
    var w' := Next(w, step, digest);
    DoorStep(w, step, digest);
    if NothingMoved(w, w') {
      NothingMovedKeepsLogInv(w, w');
    } else {
      var r: OperationLog.Record :| Moved(w, w', r) && r.stamp == step.stamp;
      AppendKeepsSuffix(w, w', r);
      AppendKeepsReplays(w, w', r);
    }
  }

  lemma NextKeepsLogInv(w: World, step: Step, digest: Users.Digest)
    requires LogInv(w) && Fair(w, step)
    ensures LogInv(Next(w, step, digest))
  {
    if MovesDoor(step) {
      DoorStepKeepsLogInv(w, step, digest);
    } else if LogStep(step) {
      LogStepKeepsLogInv(w, step, digest);
    } else {
      UserStepMovesNothing(w, step, digest);
      NothingMovedKeepsLogInv(w, Next(w, step, digest));
    }
  }

  /** In every run from openDevice the log replays to the door and loses only records a pruning cut off. */
  lemma {:induction false} EveryRunReplays(worlds: seq<World>, steps: seq<Step>, digest: Users.Digest, n: nat)
    requires IsRun(worlds, steps, digest) && n < |worlds| && Starts(worlds[0])
    ensures LogInv(worlds[n])
  {
    if n == 0 {
      assert Kept(worlds[0]) == worlds[0].ever;
    } else {
      EveryRunReplays(worlds, steps, digest, n - 1);
      NextKeepsLogInv(worlds[n - 1], steps[n - 1], digest);
    }
  }

  lemma SuffixIncreases(records: seq<OperationLog.Record>, k: nat)
    requires OperationLog.Increasing(records) && k <= |records|
    ensures OperationLog.Increasing(records[k..])
  {
  }

  /** Whatever a run has pruned, some timer pass of that run pruned it. */
  lemma {:induction false} PruningHappened(worlds: seq<World>, steps: seq<Step>, digest: Users.Digest, n: nat)
    returns (m: nat)
    requires IsRun(worlds, steps, digest) && n < |worlds| && Starts(worlds[0]) && worlds[n].pruned.Some?
    ensures m < n && steps[m].LogTimer? && OperationLog.Prunes(worlds[m].device.log, steps[m].now)
    ensures steps[m].now == worlds[n].pruned.value
  {
    if PrunesFurther(worlds[n - 1], steps[n - 1]) {
      m := n - 1;
    } else {
      m := PruningHappened(worlds, steps, digest, n - 1);
    }
  }

  /** In every run a record that is missing was stamped more than thirty days before a timer pass that pruned. */
  lemma EveryMissingRecordWasOld(worlds: seq<World>, steps: seq<Step>, digest: Users.Digest, n: nat, i: nat)
    returns (m: nat)
    requires IsRun(worlds, steps, digest) && n < |worlds| && Starts(worlds[0])
    requires i < |worlds[n].ever| && worlds[n].ever[i] !in Kept(worlds[n])
    ensures m < n && steps[m].LogTimer? && OperationLog.Prunes(worlds[m].device.log, steps[m].now)
    ensures steps[m].now - worlds[n].ever[i].stamp > 30 * DAY
  {
    EveryRunReplays(worlds, steps, digest, n);
    NotCutOffIsKept(worlds[n], i);
    m := PruningHappened(worlds, steps, digest, n);
    OperationLog.CutoffIsThirtyDaysBack(steps[m].now, worlds[n].ever[i]);
  }

  /** A record that no pruning cut off is still kept. */
  lemma NotCutOffIsKept(w: World, i: nat)
    requires KeepsSuffix(w) && i < |w.ever|
    ensures CutOff(w, w.ever[i].stamp) || w.ever[i] in Kept(w)
  {
    if i >= Dropped(w) {
      assert w.ever[Dropped(w)..][i - Dropped(w)] == w.ever[i];
    }
  }

  /** In every run a query answers the requested page of the time range over all records not pruned. */
  lemma EveryQuerySeesAllKeptRecords(worlds: seq<World>, steps: seq<Step>, digest: Users.Digest, n: nat,
                                     start: int, end: int, limit: int, offset: int)
    requires IsRun(worlds, steps, digest) && n < |worlds| && Starts(worlds[0])
    ensures var w := worlds[n];
            && KeepsSuffix(w)
            && OperationLog.Query(w.device.log, start, end, limit, offset).1
               == OperationLog.Page(OperationLog.Between(w.ever[Dropped(w)..], start, end), limit, offset)
  {
    EveryRunReplays(worlds, steps, digest, n);
    SuffixIncreases(worlds[n].ever, Dropped(worlds[n]));
    OperationLog.QueryCoversCache(worlds[n].device.log, start, end, limit, offset);
  }

  // ---------- what openings cost ----------

  predicate IsManualOpening(r: OperationLog.Record, name: string) {
    r.operation == OPENED && r.schema == MANUAL && r.username == name
  }

  function ManualOpenings(records: seq<OperationLog.Record>, name: string): nat {
    if records == [] then 0
    else ManualOpenings(records[..|records| - 1], name)
         + if IsManualOpening(records[|records| - 1], name) then 1 else 0
  }

  lemma OneMoreRecord(records: seq<OperationLog.Record>, r: OperationLog.Record, name: string)
    ensures ManualOpenings(records + [r], name)
            == ManualOpenings(records, name) + if IsManualOpening(r, name) then 1 else 0
  {
    assert (records + [r])[..|records|] == records;
  }

  /** An account whose openings are counted: limited, with a token, not overdrawn. */
  ghost predicate Limited(s: Users.State, owner: string, token: string) {
    Quota.Account(s, owner, token) && Users.TokenRow(s.rows, token).remainOpen >= 0
  }

  /** What is conserved: openings logged under the owner's name and what is left for its token. */
  function Balance(w: World, owner: string, token: string): int {
    ManualOpenings(w.ever, owner) + Quota.Remaining(w.device.users, token)
  }

  ghost predicate Accounted(w: World, owner: string, token: string) {
    UserRuns.Core(w.device.users.rows) && Limited(w.device.users, owner, token)
  }

  /** One step costs the account exactly what it adds to the log under its name. */
  lemma OpenCosts(w: World, step: Step, digest: Users.Digest, owner: string, token: string)
    requires step.Open? && Accounted(w, owner, token)
    ensures Accounted(Next(w, step, digest), owner, token)
    ensures Balance(Next(w, step, digest), owner, token) == Balance(w, owner, token)
  {
    var d := w.device;
    var w' := Next(w, step, digest);
    if w'.device == d {
      assert w'.ever == w.ever;
    } else {
      var r := RecordOf(d.users, OPENED, step.token, step.stamp);
      assert w'.ever == w.ever + [r];
      OneMoreRecord(w.ever, r, owner);
      if step.token.Some? {
        Quota.OpenMatchesEager(d.users, step.token.value, owner, token);
        OpenerIsNamed(d.users, step.token.value, owner, token);
      } else {
        assert Users.TokenRow(d.users.rows, token).username != "";
      }
    }
  }

  /** A counted opening is logged under the owner's name exactly if it used the owner's token. */
  lemma OpenerIsNamed(s: Users.State, used: string, owner: string, token: string)
    requires UserRuns.Core(s.rows) && Quota.Account(s, owner, token) && Users.CanOpen(s, used)
    ensures Users.TokenRow(s.rows, used).username == owner <==> used == token
  {
    assert Users.ByToken(s.rows, used) < |s.rows|;
    if used != token {
      Quota.OtherTokenOtherUser(s.rows, token, used);
    }
  }

  lemma OtherDoorStepCosts(w: World, step: Step, digest: Users.Digest, owner: string)
    requires MovesDoor(step) && !step.Open? && owner != ""
    ensures var w' := Next(w, step, digest);
            w'.device.users == w.device.users && ManualOpenings(w'.ever, owner) == ManualOpenings(w.ever, owner)
  {
    var w' := Next(w, step, digest);
    var cache := w.device.log.cache;
    if w'.device.log.cache != cache {
      var r := w'.device.log.cache[|cache|];
      assert w'.ever == w.ever + [r];
      OneMoreRecord(w.ever, r, owner);
      assert !IsManualOpening(r, owner);
    } else {
      assert w'.ever == w.ever;
    }
  }

  lemma UserStepCosts(w: World, step: Step, digest: Users.Digest, owner: string, token: string)
    requires step.UserStep? && Fair(w, step) && Accounted(w, owner, token)
    requires Quota.Stands(Next(w, step, digest).device.users, owner, token)
    requires !Quota.TopsUp(w.device.users, step.user, owner)
    ensures Accounted(Next(w, step, digest), owner, token)
    ensures Balance(Next(w, step, digest), owner, token) == Balance(w, owner, token)
  {
    UserRuns.NextKeepsCore(w.device.users, step.user, digest);
    Quota.NextMatchesEager(w.device.users, step.user, digest, owner, token);
    LimitStays(w.device.users, step.user, digest, owner, token);
  }

  /** A limited account that is not overdrawn does not become unlimited. */
  lemma LimitStays(s: Users.State, step: UserRuns.Step, digest: Users.Digest, owner: string, token: string)
    requires UserRuns.Core(s.rows) && UserRuns.Fair(s, step) && Limited(s, owner, token)
    requires Quota.Stands(UserRuns.Next(s, step, digest), owner, token) && !Quota.TopsUp(s, step, owner)
    ensures Limited(UserRuns.Next(s, step, digest), owner, token)
  {
    Quota.NextMatchesEager(s, step, digest, owner, token);
  }

  /** Up to state n the token stands and no top-up of its owner is accepted. */
  ghost predicate Undisturbed(worlds: seq<World>, steps: seq<Step>, n: nat, owner: string, token: string)
    requires n < |worlds| && n <= |steps|
  {
    && (forall i {:trigger Quota.Stands(worlds[i].device.users, owner, token)} :: 0 <= i <= n ==>
          Quota.Stands(worlds[i].device.users, owner, token))
    && (forall i {:trigger ToppedUp(worlds[i], steps[i], owner)} :: 0 <= i < n ==>
          !ToppedUp(worlds[i], steps[i], owner))
  }

  predicate ToppedUp(w: World, step: Step, owner: string) {
    step.UserStep? && Quota.TopsUp(w.device.users, step.user, owner)
  }

  lemma NextCosts(w: World, step: Step, digest: Users.Digest, owner: string, token: string)
    requires Fair(w, step) && Accounted(w, owner, token)
    requires Quota.Stands(Next(w, step, digest).device.users, owner, token) && !ToppedUp(w, step, owner)
    ensures Accounted(Next(w, step, digest), owner, token)
    ensures Balance(Next(w, step, digest), owner, token) == Balance(w, owner, token)
  {
    if step.Open? {
      OpenCosts(w, step, digest, owner, token);
    } else if step.UserStep? {
      UserStepCosts(w, step, digest, owner, token);
    } else if MovesDoor(step) {
      OtherDoorStepCosts(w, step, digest, owner);
    }
  }

  /** In every run as long as the token stands and no top-up of its owner is accepted, the balance is conserved. */
  lemma {:induction false} BalanceIsConserved(worlds: seq<World>, steps: seq<Step>, digest: Users.Digest, n: nat,
                                              owner: string, token: string)
    requires IsRun(worlds, steps, digest) && n < |worlds| && Accounted(worlds[0], owner, token)
    requires Undisturbed(worlds, steps, n, owner, token)
    ensures Accounted(worlds[n], owner, token)
    ensures Balance(worlds[n], owner, token) == Balance(worlds[0], owner, token)
  {
    if n > 0 {
      BalanceIsConserved(worlds, steps, digest, n - 1, owner, token);
      assert Quota.Stands(worlds[n].device.users, owner, token) && !ToppedUp(worlds[n - 1], steps[n - 1], owner);
      NextCosts(worlds[n - 1], steps[n - 1], digest, owner, token);
    }
  }

  /**
   * While the token of a limited account stands and no top-up of its owner is accepted, the manual openings
   * logged for it are exactly what its allowance has lost, and so never more than the allowance.  Scheduled
   * openings, repeated openings of an open door, refused openings, flushes, other users and whatever else the
   * owner does cost it nothing.
   */
  lemma OpeningsNeverExceedAllowance(worlds: seq<World>, steps: seq<Step>, digest: Users.Digest, n: nat,
                                     owner: string, token: string)
    requires IsRun(worlds, steps, digest) && n < |worlds| && Accounted(worlds[0], owner, token)
    requires Undisturbed(worlds, steps, n, owner, token)
    ensures var logged := ManualOpenings(worlds[n].ever, owner) - ManualOpenings(worlds[0].ever, owner);
            var allowance := Quota.Remaining(worlds[0].device.users, token);
            logged == allowance - Quota.Remaining(worlds[n].device.users, token) && logged <= allowance
  {
    BalanceIsConserved(worlds, steps, digest, n, owner, token);
  }

  // ---------- the controller itself ----------

  class DeviceController {
    const users: UserManagement.UserManager
    const log: OperationLog.OperationManager
    var open: bool
    var mode: int
    var ready: bool

    function Contents(): Device
      reads this, users, log, log.store
    {
      Device(users.Contents(), open, mode, ready, log.Contents())
    }

    constructor (users: UserManagement.UserManager, log: OperationLog.OperationManager, mode: int)
      ensures this.users == users && this.log == log
      ensures !ready && !open && this.mode == mode
    {
      this.users, this.log, this.mode := users, log, mode;
      open, ready := false, false;
    }

    /**
     * Opens the device file, if the build has one.  A file that fails to open leaves a descriptor of -1, which
     * later calls take for an open one, and the door as it was.
     */
    method OpenDevice(hasDevice: bool, fileOpens: bool) returns (ok: bool)
      modifies this
      ensures ok <==> hasDevice ==> fileOpens
      ensures Contents() == old(Contents()).(open := old(open) && !(hasDevice && fileOpens), ready := true)
    {
      ready := true;
      if hasDevice {
        if !fileOpens { return false; }
        open := false;
      }
      return true;
    }

    method DoOpenDoor(token: Option<string>, stamp: int) returns (reply: Reply)
      modifies this`open, users`pending, log`cache
      ensures (Contents(), reply) == OpenDoor(old(Contents()), token, stamp)
    {
      if !ready { return Refused("420"); }
      if open { return Done; }
      if token.Some? {
        var can := users.CanUserOpenDoor(token.value);
        if !can { return Refused("421"); }
        var found, row := users.GetUserByToken(token.value);
        if mode == ADMIN_MODE && (if found then row.authority else -1) != Users.ADMIN { return Refused("421"); }
      }
      open := true;
      var op := OperationLog.Record(stamp, OPENED, "", -1);
      if token.None? {
        op := op.(schema := SCHEDULED);
      } else {
        op := op.(schema := MANUAL);
        var found, row := users.GetUserByToken(token.value);
        if found {
          op := op.(username := row.username);
        }
        users.UserOpenDoor(token.value);
      }
      log.Add(op);
      return Done;
    }

    method DoCloseDoor(token: Option<string>, stamp: int) returns (reply: Reply)
      modifies this`open, log`cache
      ensures (Contents(), reply) == CloseDoor(old(Contents()), token, stamp)
    {
      if !ready { return Refused("420"); }
      if !open { return Done; }
      if token.Some? {
        var found, row := users.GetUserByToken(token.value);
        if mode == ADMIN_MODE && (if found then row.authority else -1) != Users.ADMIN { return Refused("421"); }
      }
      open := false;
      var op := OperationLog.Record(stamp, CLOSED, "", -1);
      if token.None? {
        op := op.(schema := SCHEDULED);
      } else {
        op := op.(schema := MANUAL);
        var found, row := users.GetUserByToken(token.value);
        if found {
          op := op.(username := row.username);
        }
      }
      log.Add(op);
      return Done;
    }

    method DoChangeMode(newMode: Option<int>, token: string) returns (reply: Reply)
      modifies this`mode
      ensures (Contents(), reply) == ChangeMode(old(Contents()), newMode, token)
    {
      if newMode.None? { return Refused("400"); }
      var found, row := users.GetUserByToken(token);
      if (if found then row.authority else -1) != Users.ADMIN { return Refused("422"); }
      if mode != newMode.value {
        mode := newMode.value;
      }
      return Done;
    }

    /** CTaskHandler::run at instant now, for a handler with the given option and weekday mask. */
    method RunTask(option: int, mask: bv8, now: int, stamp: int)
      modifies this`open, users`pending, log`cache
      ensures Contents() == Fire(old(Contents()), option, mask, now, stamp)
    {
      var acts := MaskAllows(mask, now);
      if acts {
        if option == 0 {
          var reply := DoCloseDoor(None, stamp);
        } else {
          var reply := DoOpenDoor(None, stamp);
        }
      }
    }
  }

  method MaskAllows(mask: bv8, now: int) returns (acts: bool)
    ensures acts == TaskClock.Acts(mask, now)
  {
    var dayOffset := TaskClock.Weekday(now);
    var dayMask: bv8 := 0x40 >> dayOffset;
    return dayMask & mask != 0;
  }
}
