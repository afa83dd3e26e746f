/**
 * The device's keepalive loop against the server's sweep: how late a heartbeat can be, and for exactly
 * which registration times and delivery delays a device that keeps its loop running is never swept.
 */
module KeepAlive {
  import opened Common
  import DeviceRegistry

  const CHECK_PERIOD := 30_000_000        // m_checkPeriod
  const KEEPALIVE_TIMEOUT := 120_000_000  // m_keepAliveTimeout
  const POLL_TIME := 5_000_000            // bound of the poll in one loop iteration
  const RECEIVE_TIME := 10_000_000        // bound of the receive in one loop iteration
  const LONGEST_GAP := CHECK_PERIOD - 1 + POLL_TIME + RECEIVE_TIME

  // ---------- the device ----------

  /** The times at which keepalives are sent, given the last one and the clock readings of the loop. */
  function Sends(last: int, ticks: seq<int>): seq<int>
    decreases |ticks|
  {
    if ticks == [] then []
    else if ticks[0] - last >= CHECK_PERIOD then [ticks[0]] + Sends(ticks[0], ticks[1..])
    else Sends(last, ticks[1..])
  }

  /** Clock readings of a loop whose every iteration stays within its poll and receive bounds. */
  ghost predicate Paced(start: int, ticks: seq<int>)
    decreases |ticks|
  {
    ticks == [] || (start <= ticks[0] <= start + POLL_TIME + RECEIVE_TIME && Paced(ticks[0], ticks[1..]))
  }

  /** Consecutive times, beginning at start, are never more than gap apart. */
  ghost predicate Within(start: int, times: seq<int>, gap: int)
    decreases |times|
  {
    times == [] || (times[0] - start <= gap && Within(times[0], times[1..], gap))
  }

  /** A running loop leaves less than 45 seconds between keepalives. */
  lemma {:induction false} KeepAliveGap(last: int, start: int, ticks: seq<int>)
    requires start - last < CHECK_PERIOD && Paced(start, ticks)
    ensures Within(last, Sends(last, ticks), LONGEST_GAP)
    decreases |ticks|
  {
    if ticks != [] {
      if ticks[0] - last >= CHECK_PERIOD {
        KeepAliveGap(ticks[0], ticks[0], ticks[1..]);
        assert Sends(last, ticks)[1..] == Sends(ticks[0], ticks[1..]);
      } else {
        KeepAliveGap(last, ticks[0], ticks[1..]);
      }
    }
  }

  /**
   * One registration and what follows: the server's stamp on the token request, the end of registration
   * on the device, the loop's clock readings, and the delay of each keepalive.
   */
  datatype Schedule = Schedule(tokenTime: int, registered: int, ticks: seq<int>, delays: seq<int>)

  function SendTimes(s: Schedule): seq<int> {
    Sends(s.registered, s.ticks)
  }

  /** Registration takes at most `setup` from the server's stamp, and each delivery at most `delay`. */
  ghost predicate Valid(s: Schedule, setup: int, delay: int) {
    && s.tokenTime <= s.registered <= s.tokenTime + setup
    && Paced(s.registered, s.ticks)
    && |s.delays| == |SendTimes(s)|
    && forall i :: 0 <= i < |s.delays| ==> 0 <= s.delays[i] <= delay
  }

  function Plus(times: seq<int>, delays: seq<int>): seq<int>
    requires |times| == |delays|
  {
    if times == [] then [] else [times[0] + delays[0]] + Plus(times[1..], delays[1..])
  }

  function Arrivals(s: Schedule): seq<int>
    requires |s.delays| == |SendTimes(s)|
  {
    Plus(SendTimes(s), s.delays)
  }

  // ---------- the server ----------

  /** What the registry sees: heartbeats of the device and sweeps, in order. */
  datatype Event = Beat(at: int) | Check(at: int)

  ghost predicate Ordered(start: int, events: seq<Event>)
    decreases |events|
  {
    events == [] || (start <= events[0].at && Ordered(events[0].at, events[1..]))
  }

  function Beats(events: seq<Event>): seq<int> {
    if events == [] then []
    else if events[0].Beat? then [events[0].at] + Beats(events[1..])
    else Beats(events[1..])
  }

  /** Events of a schedule whose loop keeps running: another heartbeat follows every sweep. */
  ghost predicate Traffic(s: Schedule, events: seq<Event>) {
    && |s.delays| == |SendTimes(s)|
    && Ordered(s.tokenTime, events)
    && Beats(events) == Arrivals(s)
    && (events != [] ==> events[|events| - 1].Beat?)
  }

  /** No sweep finds the device stale when `time` is its stamp in the registry. */
  ghost predicate Timely(time: int, events: seq<Event>)
    decreases |events|
  {
    events == []
    || (match events[0]
        case Beat(at) => Timely(at, events[1..])
        case Check(at) => at - time <= DeviceRegistry.SWEEP_LIMIT && Timely(time, events[1..]))
  }

  ghost function Observe(r: DeviceRegistry.Registry, uuid: string, event: Event): DeviceRegistry.Registry {
    match event
    case Beat(at) => DeviceRegistry.KeepAlive(r, uuid, at).0
    case Check(at) => DeviceRegistry.Sweep(r, at)
  }

  /** The device is online in the registry after every event. */
  ghost predicate StaysOnline(r: DeviceRegistry.Registry, uuid: string, events: seq<Event>)
    decreases |events|
  {
    && uuid in r.devices && r.devices[uuid].online
    && (events != [] ==> StaysOnline(Observe(r, uuid, events[0]), uuid, events[1..]))
  }

  lemma ObserveKeepsInverse(r: DeviceRegistry.Registry, uuid: string, event: Event)
    requires DeviceRegistry.Inverse(r) && DeviceRegistry.OfflineIdsUnused(r)
    ensures DeviceRegistry.Inverse(Observe(r, uuid, event)) && DeviceRegistry.OfflineIdsUnused(Observe(r, uuid, event))
  {
  }

  /**
   * Where socket ids are not reused, so that a pass of the sweep removes exactly the stale online devices
   * (DeviceRegistry.PassIsSweep), the registry keeps an online device through all events exactly when no
   * sweep finds it stale.
   */
  lemma {:induction false} StaysOnlineIffTimely(r: DeviceRegistry.Registry, uuid: string, events: seq<Event>)
    requires DeviceRegistry.Inverse(r) && DeviceRegistry.OfflineIdsUnused(r)
    requires uuid in r.devices && r.devices[uuid].online
    ensures StaysOnline(r, uuid, events) <==> Timely(r.devices[uuid].time, events)
    decreases |events|
  {
    if events != [] {
      var r' := Observe(r, uuid, events[0]);
      ObserveKeepsInverse(r, uuid, events[0]);
      if uuid in r'.devices {
        StaysOnlineIffTimely(r', uuid, events[1..]);
      }
    }
  }

  /** If heartbeats are close enough together every sweep in between is harmless. */
  lemma {:induction false} CloseBeatsAreTimely(time: int, events: seq<Event>, gap: int)
    requires gap <= DeviceRegistry.SWEEP_LIMIT
    requires Ordered(time, events) && Within(time, Beats(events), gap)
    requires events != [] ==> events[|events| - 1].Beat?
    ensures Timely(time, events)
    decreases |events|
  {
    if events != [] {
      match events[0]
      case Beat(at) =>
        assert Beats(events)[1..] == Beats(events[1..]);
        CloseBeatsAreTimely(at, events[1..], gap);
      case Check(at) =>
        NextBeatIsLater(at, events[1..]);
        LaterStart(time, events);
        CloseBeatsAreTimely(time, events[1..], gap);
    }
  }

  /** Events that end with a heartbeat have a first heartbeat, not before the start. */
  lemma {:induction false} NextBeatIsLater(start: int, events: seq<Event>)
    requires Ordered(start, events) && events != [] && events[|events| - 1].Beat?
    ensures Beats(events) != [] && start <= Beats(events)[0]
    decreases |events|
  {
    if events[0].Check? {
      NextBeatIsLater(events[0].at, events[1..]);
    }
  }

  lemma LaterStart(start: int, events: seq<Event>)
    requires events != [] && Ordered(start, events)
    ensures Ordered(start, events[1..])
  {
  }

  // ---------- the bound ----------

  /** Every device that runs its loop within these bounds stays in the registry. */
  ghost predicate NeverSwept(setup: int, delay: int) {
    forall s, events :: Valid(s, setup, delay) && Traffic(s, events) ==> Timely(s.tokenTime, events)
  }

  lemma {:induction false} ArrivalGap(start: int, times: seq<int>, delays: seq<int>, delay: int, stamp: int, early: int)
    requires |times| == |delays| && Within(start, times, LONGEST_GAP)
    requires forall i :: 0 <= i < |delays| ==> 0 <= delays[i] <= delay
    requires start - early <= stamp && 0 <= early
    ensures Within(stamp, Plus(times, delays), LONGEST_GAP + delay + early)
    decreases |times|
  {
    if times != [] {
      var arrivals := Plus(times, delays);
      assert arrivals[1..] == Plus(times[1..], delays[1..]);
      ArrivalGap(times[0], times[1..], delays[1..], delay, arrivals[0], early);
    }
  }

  /** The exact trade-off: setup time plus delivery delay may use up what the two periods leave of 120 seconds. */
  lemma NeverSweptExactly(setup: int, delay: int)
    requires 0 <= setup && 0 <= delay
    ensures NeverSwept(setup, delay) <==> setup + delay <= 75_000_001
  {
    if setup + delay <= 75_000_001 {
      forall s, events | Valid(s, setup, delay) && Traffic(s, events) ensures Timely(s.tokenTime, events) {
        KeepAliveGap(s.registered, s.registered, s.ticks);
        ArrivalGap(s.registered, SendTimes(s), s.delays, delay, s.tokenTime, setup);
        CloseBeatsAreTimely(s.tokenTime, events, LONGEST_GAP + delay + setup);
      }
    } else {
      var ticks := [setup + 15_000_000, setup + 29_999_999, setup + 44_999_999];
      var s := Schedule(0, setup, ticks, [delay]);
      var late := setup + 44_999_999 + delay;
      var events := [Check(late), Beat(late)];
      LateSchedule(setup, delay, s, events);
    }
  }

  lemma LateSchedule(setup: int, delay: int, s: Schedule, events: seq<Event>)
    requires 0 <= setup && 0 <= delay
    requires s == Schedule(0, setup, [setup + 15_000_000, setup + 29_999_999, setup + 44_999_999], [delay])
    requires events == [Check(setup + 44_999_999 + delay), Beat(setup + 44_999_999 + delay)]
    ensures Valid(s, setup, delay) && Traffic(s, events)
    ensures Timely(0, events) <==> setup + delay <= 75_000_001
  {
    var t := s.ticks;
    var t1 := t[1..];
    var t2 := t1[1..];
    assert t1 == [setup + 29_999_999, setup + 44_999_999] && t2 == [setup + 44_999_999] && t2[1..] == [];
    assert Sends(setup, t2) == [setup + 44_999_999] + Sends(setup + 44_999_999, t2[1..]);
    assert Sends(setup, t1) == Sends(setup, t2);
    assert Paced(setup + 29_999_999, t2);
    assert Paced(setup + 15_000_000, t1);
    assert Plus(SendTimes(s), s.delays) == [setup + 44_999_999 + delay];
    assert events[1..] == [Beat(setup + 44_999_999 + delay)] && events[1..][1..] == [];
    assert Beats(events[1..]) == [setup + 44_999_999 + delay] + Beats(events[1..][1..]);
    assert Ordered(events[0].at, events[1..]);
    assert SendTimes(s) == [setup + 44_999_999];
    assert Valid(s, setup, delay);
    assert Traffic(s, events);
    assert Timely(events[1].at, events[1..][1..]);
    assert Timely(0, events[1..]);
  }

  lemma StampedDeviceStaysOnline(r: DeviceRegistry.Registry, uuid: string, s: Schedule, delay: int, events: seq<Event>)
    requires DeviceRegistry.Inverse(r) && DeviceRegistry.OfflineIdsUnused(r)
    requires uuid in r.devices && r.devices[uuid].online && r.devices[uuid].time == s.tokenTime
    requires 0 <= delay <= 35_000_000
    requires Valid(s, 40_000_000, delay) && Traffic(s, events)
    ensures StaysOnline(r, uuid, events)
  {
    NeverSweptExactly(40_000_000, delay);
    StaysOnlineIffTimely(r, uuid, events);
  }

  /**
   * From the registration on: after the server stamps the token request the device may still wait 10 seconds
   * each for that answer, the connection, the send and the register answer, and coming online does not
   * refresh the stamp.  That leaves 35 seconds for delivery, whatever other devices the registry holds, as
   * long as no socket id is used twice.
   */
  lemma RunningDeviceStaysOnline(r: DeviceRegistry.Registry, used: set<int>, uuid: string, id: int, devType: string,
                                 newToken: string, sock: int, at: int, s: Schedule, delay: int, events: seq<Event>)
    requires DeviceRegistry.Inv(r, used) && sock !in used
    requires if uuid in r.devices then !r.devices[uuid].online else id !in used && id != sock
    requires 0 <= delay <= 35_000_000
    requires Valid(s, 40_000_000, delay) && Traffic(s, events)
    ensures var (asked, token) := DeviceRegistry.AddDevice(r, uuid, id, devType, newToken, s.tokenTime);
            && token.Some?
            && StaysOnline(DeviceRegistry.DeviceOnline(asked, uuid, token.value, sock, at).0, uuid, events)
  {
    var (asked, token) := DeviceRegistry.AddDevice(r, uuid, id, devType, newToken, s.tokenTime);
    DeviceRegistry.RegistrationAdmits(r, uuid, id, devType, newToken, s.tokenTime, token.value, sock, at);
    DeviceRegistry.NextKeepsInverse(r, DeviceRegistry.Add(uuid, id, devType, newToken, s.tokenTime), used);
    var more := used + if uuid in r.devices then {} else {id};
    DeviceRegistry.NextKeepsInverse(asked, DeviceRegistry.Online(uuid, token.value, sock, at), more);
    StampedDeviceStaysOnline(DeviceRegistry.DeviceOnline(asked, uuid, token.value, sock, at).0, uuid, s, delay, events);
  }

  // ---------- the loop ----------

  /** What one iteration of the loop meets. */
  datatype Round = Round(
    registers: bool,      // without a connection: does registerToServer succeed?
    receiveFails: bool,   // on a connection: did poll report data that could not be received?
    clock: int,           // the clock reading, after registration or after poll and receive
    sendWorks: bool)      // does sendKeepAlive succeed?

  datatype Proxy = Proxy(lastCheckTime: int, connected: bool)

  /** One iteration; the second part is the keepalive sent, if one is. */
  function Iterate(p: Proxy, round: Round): (Proxy, seq<int>) {
    var late := round.clock - p.lastCheckTime;
    if !p.connected then (if round.registers then Proxy(round.clock, true) else p, [])
    else if round.receiveFails then (p.(connected := false), [])
    else if late < CHECK_PERIOD then (p, [])
    else if round.sendWorks then (p.(lastCheckTime := round.clock), [round.clock])
    else (p.(connected := late <= KEEPALIVE_TIMEOUT), [])
  }

  function RunLoop(p: Proxy, rounds: seq<Round>): (Proxy, seq<int>)
    decreases |rounds|
  {
    if rounds == [] then (p, [])
    else
      var (before, sent) := RunLoop(p, rounds[..|rounds| - 1]);
      var (after, last) := Iterate(before, rounds[|rounds| - 1]);
      (after, sent + last)
  }

  function Clocks(rounds: seq<Round>): seq<int> {
    seq(|rounds|, i requires 0 <= i < |rounds| => rounds[i].clock)
  }

  /** Nothing fails. */
  predicate Steady(rounds: seq<Round>) {
    forall i :: 0 <= i < |rounds| ==> !rounds[i].receiveFails && rounds[i].sendWorks
  }

  /** A registration that succeeds starts the connection and its clock; one that fails changes nothing. */
  lemma RegistrationStartsClock(p: Proxy, round: Round)
    requires !p.connected
    ensures var (after, sent) := Iterate(p, round);
            && sent == [] && (after.connected <==> round.registers)
            && (round.registers ==> after.lastCheckTime == round.clock) && (!round.registers ==> after == p)
  {
  }

  /** A receive that fails gives the connection up at once, whatever the clock says. */
  lemma FailedReceiveGivesUp(p: Proxy, round: Round)
    requires p.connected && round.receiveFails
    ensures Iterate(p, round) == (Proxy(p.lastCheckTime, false), [])
  {
  }

  /** No send works, nothing can be received or registered. */
  predicate Failing(rounds: seq<Round>) {
    forall i :: 0 <= i < |rounds| ==> !rounds[i].receiveFails && !rounds[i].sendWorks && !rounds[i].registers
  }

  /** While sends fail the loop gives up exactly once a reading is more than 120 s after the last keepalive. */
  lemma {:induction false} FailingSendsGiveUpExactly(p: Proxy, rounds: seq<Round>)
    requires p.connected && Failing(rounds)
    ensures var (after, sent) := RunLoop(p, rounds);
            && sent == [] && after.lastCheckTime == p.lastCheckTime
            && (after.connected <==> forall i :: 0 <= i < |rounds| ==> rounds[i].clock - p.lastCheckTime <= 120_000_000)
    decreases |rounds|
  {
    if rounds != [] {
      var n := |rounds| - 1;
      assert forall i :: 0 <= i < n ==> rounds[..n][i] == rounds[i];
      FailingSendsGiveUpExactly(p, rounds[..n]);
    }
  }

  /** The time of the last keepalive, or of the registration. */
  function LastOf(last: int, sends: seq<int>): int {
    if sends == [] then last else sends[|sends| - 1]
  }

  lemma {:induction false} SendsAppends(last: int, ticks: seq<int>, t: int)
    ensures Sends(last, ticks + [t])
            == Sends(last, ticks) + if t - LastOf(last, Sends(last, ticks)) >= CHECK_PERIOD then [t] else []
    decreases |ticks|
  {
    if ticks == [] {
      assert [t][1..] == [];
    } else {
      assert (ticks + [t])[1..] == ticks[1..] + [t];
      SendsAppends(if ticks[0] - last >= CHECK_PERIOD then ticks[0] else last, ticks[1..], t);
    }
  }

  /** As long as nothing fails, the whole loop sends at exactly the times of Sends and keeps its connection. */
  lemma {:induction false} SteadyLoopSends(p: Proxy, rounds: seq<Round>)
    requires p.connected && Steady(rounds)
    ensures var (after, sent) := RunLoop(p, rounds);
            && sent == Sends(p.lastCheckTime, Clocks(rounds))
            && after == Proxy(LastOf(p.lastCheckTime, sent), true)
    decreases |rounds|
  {
    if rounds != [] {
      var n := |rounds| - 1;
      SteadyLoopSends(p, rounds[..n]);
      assert Clocks(rounds) == Clocks(rounds[..n]) + [rounds[n].clock];
      SendsAppends(p.lastCheckTime, Clocks(rounds[..n]), rounds[n].clock);
    }
  }

  class RegProxy {
    var lastCheckTime: int
    var connected: bool

    function State(): Proxy
      reads this
    {
      Proxy(lastCheckTime, connected)
    }

    constructor ()
      ensures State() == Proxy(0, false)
    {
      lastCheckTime, connected := 0, false;
    }

    /** The body of onTimer's loop. */
    method Tick(round: Round) returns (sent: seq<int>)
      modifies this
      ensures (State(), sent) == Iterate(old(State()), round)
    {
      sent := [];
      if !connected {
        if round.registers {
          lastCheckTime := round.clock;
          connected := true;
        }
      } else {
        if round.receiveFails {
          connected := false;
          return;
        }
        var t := round.clock;
        if t - lastCheckTime >= CHECK_PERIOD {
          if round.sendWorks {
            lastCheckTime := t;
            sent := [t];
          } else if t - lastCheckTime > KEEPALIVE_TIMEOUT {
            connected := false;
          }
        }
      }
    }

    /** onTimer over its iterations. */
    method Loop(rounds: seq<Round>) returns (sends: seq<int>)
      modifies this
      ensures (State(), sends) == RunLoop(old(State()), rounds)
    {
      sends := [];
      for i := 0 to |rounds|
        invariant (State(), sends) == RunLoop(old(State()), rounds[..i])
      {
        assert rounds[..i + 1][..i] == rounds[..i];
        var sent := Tick(rounds[i]);
        sends := sends + sent;
      }
      assert rounds[..|rounds|] == rounds;
    }
  }
}
