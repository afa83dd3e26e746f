/**
 * CDeviceManager: the registry of devices by uuid, the index from socket id to uuid, and the liveness
 * sweep.  Times are microseconds.
 */
module DeviceRegistry {
  import opened Common
  import SocketPool

  const CHECK_PERIOD := 5_000_000
  const SWEEP_LIMIT := 24 * CHECK_PERIOD

  datatype Device = Device(id: int, devType: string, token: string, mobile: string, installation: string,
                           time: int, online: bool)

  datatype Registry = Registry(devices: map<string, Device>, ids: map<int, string>)

  /** An OfflineNotification. */
  datatype Notice = Notice(id: int, uuid: string)

  // ---------- operations ----------

  /** Result is the token for the caller, or None when the device is already online. */
  function AddDevice(r: Registry, uuid: string, id: int, devType: string, newToken: string, now: int)
    : (Registry, Option<string>)
  {
    if uuid in r.devices then
      var d := r.devices[uuid];
      if d.online then (r, None)
      else (r.(devices := r.devices[uuid := d.(time := now)]), Some(d.token))
    else
      (r.(devices := r.devices[uuid := Device(id, devType, newToken, "", "", now, false)]), Some(newToken))
  }

  function KeepAlive(r: Registry, uuid: string, now: int): (Registry, bool) {
    if uuid in r.devices && r.devices[uuid].online
    then (r.(devices := r.devices[uuid := r.devices[uuid].(time := now)]), true)
    else (r, false)
  }

  /** Going online does not refresh the time; only a repeated registration does. */
  function DeviceOnline(r: Registry, uuid: string, token: string, sock: int, now: int): (Registry, bool) {
    if uuid !in r.devices then (r, false)
    else
      var d := r.devices[uuid];
      if d.online then (r.(devices := r.devices[uuid := d.(time := now)]), true)
      else if token != d.token then (r, false)
      else (Registry(r.devices[uuid := d.(online := true, id := sock)],
                     if sock in r.ids then r.ids else r.ids[sock := uuid]),
            true)
  }

  function OfflineByUuid(r: Registry, uuid: string): Registry {
    if uuid !in r.devices then r
    else Registry(r.devices - {uuid}, r.ids - {r.devices[uuid].id})
  }

  function OfflineById(r: Registry, id: int): Registry {
    if id !in r.ids then r
    else Registry(r.devices - {r.ids[id]}, r.ids - {id})
  }

  function BindMobile(r: Registry, uuid: string, mobile: string, installation: string): (Registry, bool) {
    if uuid !in r.devices then (r, false)
    else (r.(devices := r.devices[uuid := r.devices[uuid].(mobile := mobile, installation := installation)]), true)
  }

  predicate Stale(d: Device, now: int) {
    now - d.time > SWEEP_LIMIT
  }

  /**
   * One pass of run() over the devices in the given order: each stale device that is still there is taken
   * offline by its id, and a notice is posted for it.
   */
  function Pass(r: Registry, order: seq<string>, now: int): (Registry, seq<Notice>)
    decreases |order|
  {
    if order == [] then (r, [])
    else
      var (before, notices) := Pass(r, order[..|order| - 1], now);
      var uuid := order[|order| - 1];
      if uuid in before.devices && Stale(before.devices[uuid], now)
      then (OfflineById(before, before.devices[uuid].id), notices + [Notice(before.devices[uuid].id, uuid)])
      else (before, notices)
  }

  /** What a pass is meant to leave: no stale online device, everything else as it was. */
  ghost function Sweep(r: Registry, now: int): Registry {
    Registry(map uuid | uuid in r.devices && !(r.devices[uuid].online && Stale(r.devices[uuid], now))
               :: r.devices[uuid],
             map id | id in r.ids && !(r.ids[id] in r.devices && Stale(r.devices[r.ids[id]], now)) :: r.ids[id])
  }

  /** The notices one pass is meant to post: one for every stale device, online or not. */
  ghost function SweepNotices(r: Registry, now: int): set<Notice> {
    set uuid | uuid in r.devices && Stale(r.devices[uuid], now) :: Notice(r.devices[uuid].id, uuid)
  }

  // ---------- the two maps are inverse ----------

  /** An id maps to a uuid exactly when that uuid is online with that id. */
  ghost predicate Inverse(r: Registry) {
    && (forall id :: id in r.ids ==>
          r.ids[id] in r.devices && r.devices[r.ids[id]].online && r.devices[r.ids[id]].id == id)
    && (forall uuid :: uuid in r.devices && r.devices[uuid].online
                       ==> r.devices[uuid].id in r.ids && r.ids[r.devices[uuid].id] == uuid)
  }

  lemma InverseMeansExactly(r: Registry, id: int, uuid: string)
    requires Inverse(r)
    ensures (id in r.ids && r.ids[id] == uuid)
            <==> (uuid in r.devices && r.devices[uuid].online && r.devices[uuid].id == id)
  {
  }

  /** Coming online keeps the maps inverse exactly when the socket id is not already indexed. */
  lemma OnlineKeepsInverse(r: Registry, uuid: string, token: string, sock: int, now: int)
    requires Inverse(r)
    ensures Inverse(DeviceOnline(r, uuid, token, sock, now).0)
            <==> !(uuid in r.devices && !r.devices[uuid].online && r.devices[uuid].token == token && sock in r.ids)
  {
    var r' := DeviceOnline(r, uuid, token, sock, now).0;
    if uuid in r.devices && !r.devices[uuid].online && r.devices[uuid].token == token && sock in r.ids {
      assert uuid in r'.devices && r'.devices[uuid].online && r'.ids[r'.devices[uuid].id] != uuid;
    }
  }

  /** Taking a uuid offline keeps the maps inverse exactly when it does not carry another device's indexed id. */
  lemma OfflineByUuidKeepsInverse(r: Registry, uuid: string)
    requires Inverse(r)
    ensures Inverse(OfflineByUuid(r, uuid))
            <==> !(uuid in r.devices && !r.devices[uuid].online && r.devices[uuid].id in r.ids)
  {
    var r' := OfflineByUuid(r, uuid);
    if uuid in r.devices && !r.devices[uuid].online && r.devices[uuid].id in r.ids {
      var other := r.ids[r.devices[uuid].id];
      assert other in r'.devices && r'.devices[other].online;
    }
  }

  lemma OfflineByIdKeepsInverse(r: Registry, id: int)
    requires Inverse(r)
    ensures Inverse(OfflineById(r, id))
  {
  }

  // ---------- registration ----------

  /**
   * The two halves of a registration: a token request for a device that is new or not online is answered with
   * a token, and exactly that token then brings the device online, under the socket it registers from and still
   * stamped with the time of the token request.
   */
  lemma RegistrationAdmits(r: Registry, uuid: string, id: int, devType: string, newToken: string, asked: int,
                           token: string, sock: int, at: int)
    requires uuid in r.devices ==> !r.devices[uuid].online
    ensures var (r1, answer) := AddDevice(r, uuid, id, devType, newToken, asked);
            var (r2, admitted) := DeviceOnline(r1, uuid, token, sock, at);
            && answer.Some? && (admitted <==> token == answer.value)
            && (answer.value == newToken || (uuid in r.devices && answer.value == r.devices[uuid].token))
            && r1.ids == r.ids && uuid in r1.devices && !r1.devices[uuid].online
            && (uuid !in r.devices ==> r1.devices[uuid].id == id && r1.devices[uuid].devType == devType)
            && (admitted ==> uuid in r2.devices && r2.devices[uuid].online && r2.devices[uuid].id == sock
                             && r2.devices[uuid].time == asked
                             && (sock !in r.ids ==> sock in r2.ids && r2.ids[sock] == uuid))
            && (!admitted ==> r2 == r1)
            && (forall other :: other != uuid ==>
                  && (other in r2.devices <==> other in r.devices)
                  && (other in r.devices ==> r2.devices[other] == r.devices[other]))
  {
  }

  /** An online device is given no token, and registering again or a heartbeat only refreshes its time. */
  lemma OnlineDeviceIsHeard(r: Registry, uuid: string, id: int, devType: string, token: string, sock: int, now: int)
    requires uuid in r.devices && r.devices[uuid].online
    ensures AddDevice(r, uuid, id, devType, token, now) == (r, None)
    ensures var heard := r.(devices := r.devices[uuid := r.devices[uuid].(time := now)]);
            DeviceOnline(r, uuid, token, sock, now) == (heard, true) && KeepAlive(r, uuid, now) == (heard, true)
  {
  }

  /** A device that is unknown or not online cannot keep itself alive, and an unknown one cannot come online. */
  lemma StrangersAreRefused(r: Registry, uuid: string, token: string, sock: int, now: int)
    requires uuid in r.devices ==> !r.devices[uuid].online
    ensures KeepAlive(r, uuid, now) == (r, false)
    ensures uuid !in r.devices ==> DeviceOnline(r, uuid, token, sock, now) == (r, false)
    ensures uuid !in r.devices ==> BindMobile(r, uuid, token, token) == (r, false)
  {
  }

  /** What is bound to a known device is kept with it, and nothing else changes. */
  lemma BindIsKept(r: Registry, uuid: string, mobile: string, installation: string)
    requires uuid in r.devices
    ensures var (r', ok) := BindMobile(r, uuid, mobile, installation);
            && ok && r'.ids == r.ids && r'.devices.Keys == r.devices.Keys
            && r'.devices[uuid].mobile == mobile && r'.devices[uuid].installation == installation
            && r'.devices[uuid].(mobile := "", installation := "") == r.devices[uuid].(mobile := "", installation := "")
            && forall other :: other in r.devices && other != uuid ==> r'.devices[other] == r.devices[other]
  {
  }

  /** Going offline removes the device and its index entry, and in a registry with inverse maps nothing else. */
  lemma OfflineRemovesOne(r: Registry, uuid: string)
    requires Inverse(r) && uuid in r.devices && r.devices[uuid].online
    ensures var gone := Registry(r.devices - {uuid}, r.ids - {r.devices[uuid].id});
            OfflineByUuid(r, uuid) == gone && OfflineById(r, r.devices[uuid].id) == gone
  {
  }

  // ---------- whole runs ----------

  datatype Step =
    | Add(uuid: string, id: int, devType: string, newToken: string, now: int)
    | Beat(uuid: string, now: int)
    | Online(uuid: string, token: string, sock: int, now: int)
    | GoneByUuid(uuid: string)
    | GoneById(id: int)
    | Bind(uuid: string, mobile: string, installation: string)
    | Check(now: int)

  ghost function Next(r: Registry, step: Step): Registry {
    match step
    case Add(uuid, id, devType, newToken, now) => AddDevice(r, uuid, id, devType, newToken, now).0
    case Beat(uuid, now) => KeepAlive(r, uuid, now).0
    case Online(uuid, token, sock, now) => DeviceOnline(r, uuid, token, sock, now).0
    case GoneByUuid(uuid) => OfflineByUuid(r, uuid)
    case GoneById(id) => OfflineById(r, id)
    case Bind(uuid, mobile, installation) => BindMobile(r, uuid, mobile, installation).0
    case Check(now) => Sweep(r, now)
  }

  /** The socket id a step brings into the registry, if it brings one. */
  function NewId(r: Registry, step: Step): Option<int> {
    match step
    case Add(uuid, id, _, _, _) => if uuid in r.devices then None else Some(id)
    case Online(uuid, token, sock, _) =>
      if uuid in r.devices && !r.devices[uuid].online && token == r.devices[uuid].token then Some(sock) else None
    case _ => None
  }

  ghost function Run(steps: seq<Step>): Registry
    decreases |steps|
  {
    if steps == [] then Registry(map[], map[]) else Next(Run(steps[..|steps| - 1]), steps[|steps| - 1])
  }

  /** Every socket id a run ever brought in. */
  ghost function Used(steps: seq<Step>): set<int>
    decreases |steps|
  {
    if steps == [] then {}
    else
      var before := steps[..|steps| - 1];
      var id := NewId(Run(before), steps[|steps| - 1]);
      Used(before) + if id.Some? then {id.value} else {}
  }

  /** Socket ids are not reused: no step brings in an id that was brought in before. */
  ghost predicate FreshRun(steps: seq<Step>)
    decreases |steps|
  {
    steps != [] ==>
      && FreshRun(steps[..|steps| - 1])
      && var id := NewId(Run(steps[..|steps| - 1]), steps[|steps| - 1]);
         id.Some? ==> id.value !in Used(steps[..|steps| - 1])
  }

  /** A device that never came online does not carry an indexed id. */
  ghost predicate OfflineIdsUnused(r: Registry) {
    forall uuid :: uuid in r.devices && !r.devices[uuid].online ==> r.devices[uuid].id !in r.ids
  }

  ghost predicate IdsWithin(r: Registry, used: set<int>) {
    && r.ids.Keys <= used
    && forall uuid :: uuid in r.devices ==> r.devices[uuid].id in used
  }

  /** What every step keeps, given the socket ids brought in so far. */
  ghost predicate Inv(r: Registry, used: set<int>) {
    Inverse(r) && OfflineIdsUnused(r) && IdsWithin(r, used)
  }

  lemma AddKeepsInv(r: Registry, uuid: string, id: int, devType: string, newToken: string, now: int, used: set<int>)
    requires Inv(r, used) && (uuid !in r.devices ==> id !in used)
    ensures Inv(AddDevice(r, uuid, id, devType, newToken, now).0, if uuid in r.devices then used else used + {id})
  {
  }

  lemma OnlineKeepsInv(r: Registry, uuid: string, token: string, sock: int, now: int, used: set<int>)
    requires Inv(r, used) && (NewId(r, Online(uuid, token, sock, now)).Some? ==> sock !in used)
    ensures Inv(DeviceOnline(r, uuid, token, sock, now).0,
                used + if NewId(r, Online(uuid, token, sock, now)).Some? then {sock} else {})
  {
    OnlineKeepsInverse(r, uuid, token, sock, now);
  }

  lemma SweepKeepsInv(r: Registry, now: int, used: set<int>)
    requires Inv(r, used)
    ensures Inv(Sweep(r, now), used)
  {
  }

  lemma NextKeepsInverse(r: Registry, step: Step, used: set<int>)
    requires Inv(r, used)
    requires NewId(r, step).Some? ==> NewId(r, step).value !in used
    ensures Inv(Next(r, step), used + if NewId(r, step).Some? then {NewId(r, step).value} else {})
  {
    assert used + {} == used;
    match step
    case Add(uuid, id, devType, newToken, now) => AddKeepsInv(r, uuid, id, devType, newToken, now, used);
    case Online(uuid, token, sock, now) => OnlineKeepsInv(r, uuid, token, sock, now, used);
    case Check(now) => SweepKeepsInv(r, now, used);
    case _ =>
  }

  /** In every run that does not reuse socket ids the two maps stay inverse on the online devices. */
  lemma {:induction false} EveryRunKeepsInverse(steps: seq<Step>)
    requires FreshRun(steps)
    ensures Inv(Run(steps), Used(steps))
    decreases |steps|
  {
    if steps != [] {
      EveryRunKeepsInverse(steps[..|steps| - 1]);
      NextKeepsInverse(Run(steps[..|steps| - 1]), steps[|steps| - 1], Used(steps[..|steps| - 1]));
    }
  }

  // ---------- the sweep ----------

  /** The order lists every device. */
  predicate Covers(order: seq<string>, r: Registry) {
    forall uuid :: uuid in r.devices ==> uuid in order
  }

  /** A pass only removes, and keeps the maps inverse. */
  lemma {:induction false} PassRemoves(r: Registry, order: seq<string>, now: int)
    requires Inverse(r)
    ensures var r' := Pass(r, order, now).0;
            && Inverse(r') && r'.devices.Keys <= r.devices.Keys && r'.ids.Keys <= r.ids.Keys
            && (forall uuid :: uuid in r'.devices ==> r'.devices[uuid] == r.devices[uuid])
            && (forall id :: id in r'.ids ==> r'.ids[id] == r.ids[id])
            && (forall uuid :: uuid in r.devices && !r.devices[uuid].online ==> uuid in r'.devices)
    decreases |order|
  {
    if order != [] {
      PassRemoves(r, order[..|order| - 1], now);
    }
  }

  /** Device v is the one whose socket id the never-online device u carries: a pass that meets a stale u removes v. */
  predicate Blames(r: Registry, u: string, v: string, now: int) {
    && u in r.devices && !r.devices[u].online && Stale(r.devices[u], now)
    && r.devices[u].id in r.ids && r.ids[r.devices[u].id] == v
  }

  /** A device that is removed was stale itself, or was blamed for a stale device that never came online. */
  lemma {:induction false} RemovedByPass(r: Registry, order: seq<string>, now: int, v: string)
    requires Inverse(r) && v in r.devices && v !in Pass(r, order, now).0.devices
    ensures Stale(r.devices[v], now) || exists u :: Blames(r, u, v, now)
    decreases |order|
  {
    var order' := order[..|order| - 1];
    var before := Pass(r, order', now).0;
    PassRemoves(r, order', now);
    if v !in before.devices {
      RemovedByPass(r, order', now, v);
    } else {
      var u := order[|order| - 1];
      if r.devices[u].online {
        assert before.ids[before.devices[u].id] == u;
      } else {
        assert Blames(r, u, v, now);
      }
    }
  }

  /** A blamed device is gone once the pass has met the stale one. */
  lemma {:induction false} BlamedIsRemoved(r: Registry, order: seq<string>, now: int, u: string, v: string)
    requires Inverse(r) && Blames(r, u, v, now) && u in order
    ensures v !in Pass(r, order, now).0.devices
    decreases |order|
  {
    var order' := order[..|order| - 1];
    var last := order[|order| - 1];
    PassRemoves(r, order', now);
    var before := Pass(r, order', now).0;
    if u in order' {
      BlamedIsRemoved(r, order', now, u, v);
    } else {
      assert last == u && u in before.devices;
      assert v in before.devices ==> r.devices[u].id in before.ids by {
        if v in before.devices {
          assert before.devices[v].online && before.devices[v].id == r.devices[u].id;
        }
      }
    }
  }

  /**
   * With reused socket ids: in whatever order it meets the devices, a pass keeps every device that is not
   * stale exactly if no stale device that never came online carries the socket id of one of them.
   */
  lemma PassKeepsLiveDevicesExactly(r: Registry, order: seq<string>, now: int)
    requires Inverse(r) && Covers(order, r)
    ensures (forall v :: v in r.devices && !Stale(r.devices[v], now) ==> v in Pass(r, order, now).0.devices)
            <==> !(exists u, v :: Blames(r, u, v, now) && !Stale(r.devices[v], now))
  {
    if u, v :| Blames(r, u, v, now) && !Stale(r.devices[v], now) {
      BlamedIsRemoved(r, order, now, u, v);
    } else {
      forall v | v in r.devices && !Stale(r.devices[v], now) ensures v in Pass(r, order, now).0.devices {
        if v !in Pass(r, order, now).0.devices {
          RemovedByPass(r, order, now, v);
        }
      }
    }
  }

  /** Without reused ids a device is gone after a pass exactly if it was met, online and stale. */
  lemma {:induction false} PassSoFar(r: Registry, order: seq<string>, now: int)
    requires Inverse(r) && OfflineIdsUnused(r)
    ensures var (r', notices) := Pass(r, order, now);
            && (forall uuid :: uuid in r.devices ==>
                  (uuid !in r'.devices <==> uuid in order && r.devices[uuid].online && Stale(r.devices[uuid], now)))
            && (forall n :: n in notices <==> n in SweepNotices(r, now) && n.uuid in order)
    decreases |order|
  {
    if order != [] {
      var order' := order[..|order| - 1];
      var last := order[|order| - 1];
      PassSoFar(r, order', now);
      PassRemoves(r, order', now);
      assert forall uuid :: uuid in order <==> uuid in order' || uuid == last;
      var before := Pass(r, order', now).0;
      LastOfPass(r, before, last, now);
    }
  }

  /** One device of a pass, where ids are not reused: it goes if it is online, and nothing else goes. */
  lemma LastOfPass(r: Registry, before: Registry, last: string, now: int)
    requires Inverse(r) && OfflineIdsUnused(r) && Inverse(before)
    requires before.devices.Keys <= r.devices.Keys && before.ids.Keys <= r.ids.Keys
    requires forall uuid :: uuid in before.devices ==> before.devices[uuid] == r.devices[uuid]
    ensures last in before.devices ==>
              OfflineById(before, before.devices[last].id).devices
              == if before.devices[last].online then before.devices - {last} else before.devices
  {
    if last in before.devices && before.devices[last].online {
      assert before.ids[before.devices[last].id] == last;
    }
  }

  /** So a pass, in whatever order, leaves exactly what it is meant to leave and posts exactly those notices. */
  lemma PassIsSweep(r: Registry, order: seq<string>, now: int)
    requires Inverse(r) && OfflineIdsUnused(r) && Covers(order, r)
    ensures Pass(r, order, now).0 == Sweep(r, now)
    ensures forall n :: n in Pass(r, order, now).1 <==> n in SweepNotices(r, now)
  {
    PassSoFar(r, order, now);
    PassRemoves(r, order, now);
    var r', after := Pass(r, order, now).0, Sweep(r, now);
    assert r'.devices == after.devices;
    forall id ensures id in r'.ids <==> id in after.ids {
      if id in r.ids {
        assert r.devices[r.ids[id]].online && r.devices[r.ids[id]].id == id;
        assert id in r'.ids <==> r.ids[id] in r'.devices;
      }
    }
    assert r'.ids.Keys == after.ids.Keys;
    assert forall id :: id in r'.ids ==> r'.ids[id] == after.ids[id];
  }

  /**
   * After a sweep every online device was heard from within 120 seconds; a device that was not stale, or
   * never came online, is unchanged; and every device that was removed has a notice with its own socket id.
   */
  lemma SweepLeavesLiveDevices(r: Registry, now: int)
    requires Inverse(r)
    ensures var r' := Sweep(r, now);
            && (forall uuid :: uuid in r'.devices && r'.devices[uuid].online ==>
                  now - r'.devices[uuid].time <= 120_000_000)
            && (forall uuid :: uuid in r.devices ==>
                  !r.devices[uuid].online || now - r.devices[uuid].time <= 120_000_000
                  ==> uuid in r'.devices && r'.devices[uuid] == r.devices[uuid])
            && (forall uuid :: uuid in r.devices && uuid !in r'.devices ==>
                  Notice(r.devices[uuid].id, uuid) in SweepNotices(r, now) && r.devices[uuid].id !in r'.ids)
            && Inverse(r')
  {
  }

  /** A notice is posted for a device exactly if it was last heard from more than 120 seconds ago. */
  lemma NoticePostedExactly(r: Registry, now: int, uuid: string)
    requires uuid in r.devices
    ensures Notice(r.devices[uuid].id, uuid) in SweepNotices(r, now) <==> now - r.devices[uuid].time > 120_000_000
  {
  }

  /** handleOffline for each notice: every idle socket named by a notice is removed and closed. */
  function HandleNotices(p: SocketPool.Pool, notices: seq<Notice>): SocketPool.Pool {
    if notices == [] then p
    else SocketPool.RemoveSocket(HandleNotices(p, notices[..|notices| - 1]), notices[|notices| - 1].id)
  }

  /** The notices remove exactly the idle sockets they name, and the pool's own invariant survives. */
  lemma {:induction false} NoticesRemoveNamedSockets(p: SocketPool.Pool, notices: seq<Notice>)
    requires SocketPool.Inv(p)
    ensures var q := HandleNotices(p, notices);
            && SocketPool.Inv(q)
            && q.tasks == p.tasks && q.accepted == p.accepted
            && forall impl :: impl in q.regMap <==> impl in p.regMap && forall n :: n in notices ==> n.id != impl
  {
    if notices != [] {
      var before := notices[..|notices| - 1];
      var last := notices[|notices| - 1];
      NoticesRemoveNamedSockets(p, before);
      SocketPool.OfflineKeepsInv(HandleNotices(p, before), last.id);
      assert notices == before + [last];
    }
  }

  /**
   * Once the notices of a sweep are handled, no removed device has an idle socket left, and the idle
   * sockets of the remaining online devices are untouched.
   */
  lemma SweptDevicesHaveNoIdleSocket(r: Registry, now: int, p: SocketPool.Pool, notices: seq<Notice>)
    requires Inverse(r) && OfflineIdsUnused(r) && SocketPool.Inv(p)
    requires forall n :: n in notices <==> n in SweepNotices(r, now)
    ensures var q := HandleNotices(p, notices);
            && SocketPool.Inv(q)
            && (forall uuid :: uuid in r.devices && uuid !in Sweep(r, now).devices ==> r.devices[uuid].id !in q.regMap)
            && (forall uuid :: uuid in Sweep(r, now).devices && r.devices[uuid].online && r.devices[uuid].id in p.regMap
                               ==> r.devices[uuid].id in q.regMap)
  {
    NoticesRemoveNamedSockets(p, notices);
    SweepLeavesLiveDevices(r, now);
    var q := HandleNotices(p, notices);
    forall uuid | uuid in Sweep(r, now).devices && r.devices[uuid].online && r.devices[uuid].id in p.regMap
      ensures r.devices[uuid].id in q.regMap
    {
      assert r.ids[r.devices[uuid].id] == uuid;
    }
  }

  // ---------- the manager itself ----------

  class DeviceManager {
    var devices: map<string, Device>
    var ids: map<int, string>

    function State(): Registry
      reads this
    {
      Registry(devices, ids)
    }

    constructor ()
      ensures State() == Registry(map[], map[])
    {
      devices, ids := map[], map[];
    }

    method Add(uuid: string, id: int, devType: string, newToken: string, now: int) returns (token: Option<string>)
      modifies this
      ensures (State(), token) == AddDevice(old(State()), uuid, id, devType, newToken, now)
    {
      if uuid in devices {
        if devices[uuid].online { return None; }
        devices := devices[uuid := devices[uuid].(time := now)];
        return Some(devices[uuid].token);
      }
      devices := devices[uuid := Device(id, devType, newToken, "", "", now, false)];
      return Some(newToken);
    }

    method Beat(uuid: string, now: int) returns (ok: bool)
      modifies this`devices
      ensures (State(), ok) == KeepAlive(old(State()), uuid, now)
    {
      if uuid !in devices { return false; }
      if !devices[uuid].online { return false; }
      devices := devices[uuid := devices[uuid].(time := now)];
      return true;
    }

    method Online(uuid: string, token: string, sock: int, now: int) returns (ok: bool)
      modifies this
      ensures (State(), ok) == DeviceOnline(old(State()), uuid, token, sock, now)
    {
      if uuid !in devices { return false; }
      if devices[uuid].online {
        devices := devices[uuid := devices[uuid].(time := now)];
        return true;
      }
      if token != devices[uuid].token { return false; }
      devices := devices[uuid := devices[uuid].(online := true)];
      devices := devices[uuid := devices[uuid].(id := sock)];
      assert devices == old(devices)[uuid := devices[uuid]];
      if sock !in ids {
        ids := ids[sock := uuid];
      }
      return true;
    }

    method GoOfflineByUuid(uuid: string)
      modifies this
      ensures State() == OfflineByUuid(old(State()), uuid)
    {
      if uuid !in devices { return; }
      var id := devices[uuid].id;
      devices := devices - {uuid};
      ids := ids - {id};
    }

    method GoOfflineById(id: int)
      modifies this
      ensures State() == OfflineById(old(State()), id)
    {
      if id !in ids { return; }
      var uuid := ids[id];
      ids := ids - {id};
      devices := devices - {uuid};
    }

    method Bind(uuid: string, mobile: string, installation: string) returns (ok: bool)
      modifies this`devices
      ensures (State(), ok) == BindMobile(old(State()), uuid, mobile, installation)
    {
      if uuid !in devices { return false; }
      devices := devices[uuid := devices[uuid].(mobile := mobile, installation := installation)];
      return true;
    }

    /** One pass of run(): walks the devices and takes each stale one offline by its id. */
    method CheckDevices(now: int) returns (notices: seq<Notice>, ghost order: seq<string>)
      modifies this
      ensures Covers(order, old(State()))
      ensures (State(), notices) == Pass(old(State()), order, now)
      ensures Inverse(old(State())) && OfflineIdsUnused(old(State())) ==>
                && State() == Sweep(old(State()), now)
                && forall n :: n in notices <==> n in SweepNotices(old(State()), now)
    {
      notices, order := [], [];
      var todo := devices.Keys;
      while todo != {}
        invariant todo <= old(devices).Keys
        invariant forall uuid :: uuid in old(devices) ==> uuid in todo || uuid in order
        invariant (State(), notices) == Pass(old(State()), order, now)
        decreases |todo|
      {
        ghost var some := Pick(todo);
        var uuid :| uuid in todo;
        todo := todo - {uuid};
        order := order + [uuid];
        assert order[..|order| - 1] + [uuid] == order;
        if uuid in devices {
          var d := devices[uuid];
          if Stale(d, now) {
            GoOfflineById(d.id);
            notices := notices + [Notice(d.id, uuid)];
          }
        }
      }
      if Inverse(old(State())) && OfflineIdsUnused(old(State())) {
        PassIsSweep(old(State()), order, now);
      }
    }
  }
}
