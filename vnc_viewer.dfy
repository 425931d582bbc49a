/**
 * The VNC viewer's connection and power policy: splitting `host[:port]`,
 * the reconnect flag driven by `connect`, `disconnect` and the
 * disconnected signal, the status indicators derived from `connected` and
 * `power`, and the background routines that read and change the power
 * state through the AMT driver.
 *
 * GLib's `idle_add`/`timeout_add`, background task starts, and the calls the
 * viewer makes on the VNC widget and the AMT driver are recorded, in order,
 * in the viewer's `trace`.
 */
module VncViewer {
  import opened Wrappers
  import IntText
  import AmtPower

  const DEFAULT_PORT: string := "5900"

  // ---------------------------------------------------------------------------
  // host[:port]

  /** Python's `s.split(sep)`: the pieces between the separators, in order. */
  function Split(s: string, sep: char): (parts: seq<string>)
    ensures |parts| >= 1
    ensures forall i :: 0 <= i < |parts| ==> sep !in parts[i]
  {
    if s == [] then [""]
    else
      var rest := Split(s[1..], sep);
      if s[0] == sep then [""] + rest
      else
        assert forall c :: c in [s[0]] + rest[0] ==> c == s[0] || c in rest[0];
        [[s[0]] + rest[0]] + rest[1..]
  }

  /** Gluing the pieces back together with the separator gives the text. */
  lemma {:induction false} SplitJoin(s: string, sep: char)
    ensures Join(Split(s, sep), sep) == s
  {
    if s != [] {
      var rest := Split(s[1..], sep);
      SplitJoin(s[1..], sep);
      assert s == [s[0]] + s[1..];
      if s[0] == sep {
        assert Join([""] + rest, sep) == [sep] + Join(rest, sep);
      } else {
        var parts := [[s[0]] + rest[0]] + rest[1..];
        assert parts[1..] == rest[1..];
        assert Join(parts, sep) == [s[0]] + Join(rest, sep);
      }
    }
  }

  /** There is one more piece than there are separators. */
  lemma {:induction false} SplitCount(s: string, sep: char)
    ensures |Split(s, sep)| == multiset(s)[sep] + 1
  {
    if s != [] {
      SplitCount(s[1..], sep);
      assert s == [s[0]] + s[1..];
      assert multiset(s)[sep] == multiset([s[0]])[sep] + multiset(s[1..])[sep];
    }
  }

  /** The pieces glued back together with `sep` between them. */
  function Join(parts: seq<string>, sep: char): string
    requires |parts| >= 1
  {
    if |parts| == 1 then parts[0] else parts[0] + [sep] + Join(parts[1..], sep)
  }

  /**
   * `VNCViewer.__init__`'s split of the address: no ':' keeps the whole text
   * as host with port "5900"; one ':' gives host and port; more than one
   * makes the two-way unpack raise ValueError (None).
   */
  function SplitHost(address: string): (r: Option<(string, string)>)
    ensures ':' !in address ==> r == Some((address, DEFAULT_PORT))
    ensures r.None? <==> multiset(address)[':'] > 1
    ensures r.Some? ==> ':' !in r.value.0 && ':' !in r.value.1
    ensures r.Some? && ':' in address ==> address == r.value.0 + ":" + r.value.1
  {
    if ':' in address then
      var parts := Split(address, ':');
      SplitJoin(address, ':');
      SplitCount(address, ':');
      if |parts| == 2 then
        assert Join(parts[1..], ':') == parts[1];
        Some((parts[0], parts[1]))
      else None
    else
      assert multiset(address)[':'] == 0;
      Some((address, DEFAULT_PORT))
  }

  /** Text without the separator is one piece. */
  lemma {:induction false} SplitWithoutSeparator(s: string, sep: char)
    requires sep !in s
    ensures Split(s, sep) == [s]
  {
    if s != [] {
      SplitWithoutSeparator(s[1..], sep);
      assert s == [s[0]] + s[1..];
    }
  }

  /** A separator-free head, one separator, and a separator-free tail split into head and tail. */
  lemma {:induction false} SplitJoined(head: string, tail: string, sep: char)
    requires sep !in head && sep !in tail
    ensures Split(head + [sep] + tail, sep) == [head, tail]
  {
    var s := head + [sep] + tail;
    if head == [] {
      assert s[1..] == tail;
      SplitWithoutSeparator(tail, sep);
    } else {
      assert s[1..] == head[1..] + [sep] + tail;
      SplitJoined(head[1..], tail, sep);
      assert [head[0]] + head[1..] == head;
    }
  }

  /** A host and a port, neither containing ':', written as "host:port" split back into them. */
  lemma SplitHostOfJoined(host: string, port: string)
    requires ':' !in host && ':' !in port
    ensures SplitHost(host + ":" + port) == Some((host, port))
  {
    SplitJoined(host, port, ':');
    assert (host + ":" + port)[|host|] == ':';
  }

  // ---------------------------------------------------------------------------
  // Status indicators

  /** The colours of the status icons: green, yellow, red and blue. */
  datatype Status = StatusOk | StatusWarning | StatusError | StatusUnknown

  /** The connection icon: OK while connected, ERROR otherwise. */
  function ConnectionIndicator(connected: bool): (s: Status)
    ensures s == StatusOk <==> connected
    ensures s == StatusError <==> !connected
  {
    if connected then StatusOk else StatusError
  }

  /**
   * The power icon: UNKNOWN while no state (or a falsy 0) is known, ERROR for
   * OFF, OK for ON and UNKNOWN for every other value.
   */
  function PowerIndicator(power: Option<int>): (s: Status)
    ensures s == StatusOk <==> power == Some(AmtPower.POWER_STATE_ON)
    ensures s == StatusError <==> power == Some(AmtPower.POWER_STATE_OFF)
    ensures s == StatusUnknown <==> power !in {Some(AmtPower.POWER_STATE_ON), Some(AmtPower.POWER_STATE_OFF)}
  {
    if power.None? || power.value == 0 then StatusUnknown
    else if power.value == AmtPower.POWER_STATE_OFF then StatusError
    else if power.value == AmtPower.POWER_STATE_ON then StatusOk
    else StatusUnknown
  }

  // ---------------------------------------------------------------------------
  // The action trace

  datatype Event =
    | OpenHost(host: string, port: string)   // the VNC widget is asked to open host:port
    | CloseDisplay                           // the VNC widget is closed
    | ScheduleConnect                        // GLib.timeout_add(500, connect)
    | IdleDisconnect(reconnect: bool)        // GLib.idle_add(disconnect, reconnect)
    | DisconnectObserved                     // the wait for `connected` to drop has ended
    | SetPowerCall(state: int)               // the AMT driver's set_power_state(state)
    | IdleConnect                            // GLib.idle_add(connect)
    | ScheduleRefresh                        // GLib.timeout_add(2000, _system_get_power_state)
    | StartRefreshTask                       // a background task for __system_get_power_state
    | GetPowerCall                           // the AMT driver's get_power_state()
    | IdleUpdateStatusbar                    // GLib.idle_add(_update_statusbar)

  /** OFF and CYCLE are refused by the controller while a VNC session is open. */
  predicate NeedsDisconnect(state: int) {
    state == AmtPower.POWER_STATE_OFF || state == AmtPower.POWER_STATE_CYCLE
  }

  /** What the power-change task does before it waits for the disconnection. */
  function SetPowerBeginTrace(state: int): seq<Event> {
    if NeedsDisconnect(state) then [IdleDisconnect(false)] else []
  }

  /**
   * What the power-change task does once the wait is over: set the state,
   * once more if the first set failed, reconnect after OFF/CYCLE, and schedule
   * a refresh. The first set's client request answers `firstInvokeErrno`.
   */
  function SetPowerResumeTrace(state: int, firstInvokeErrno: int): seq<Event> {
    (if NeedsDisconnect(state) then [DisconnectObserved] else [])
    + SetCalls(state, firstInvokeErrno)
    + (if NeedsDisconnect(state) then [IdleConnect] else [])
    + [ScheduleRefresh]
  }

  /** The set call, and the retry when the first one returned nonzero. */
  function SetCalls(state: int, firstInvokeErrno: int): (r: seq<Event>)
    ensures multiset(r)[SetPowerCall(state)] == |r| == (if AmtPower.RequestResult(state, firstInvokeErrno) == 0 then 1 else 2)
    ensures forall i :: 0 <= i < |r| ==> r[i] == SetPowerCall(state)
  {
    if AmtPower.RequestResult(state, firstInvokeErrno) == 0 then [SetPowerCall(state)]
    else [SetPowerCall(state), SetPowerCall(state)]
  }

  /** The whole run of `__system_set_power_state`. */
  function SetPowerTrace(state: int, firstInvokeErrno: int): seq<Event> {
    SetPowerBeginTrace(state) + SetPowerResumeTrace(state, firstInvokeErrno)
  }

  /**
   * OFF and CYCLE: the disconnect request comes first, then the end of the
   * wait, then the set call(s), then the reconnect request, then the refresh.
   * Other states: no disconnect and no reconnect at all.
   */
  lemma SetPowerOrdering(state: int, firstInvokeErrno: int)
    ensures var t := SetPowerTrace(state, firstInvokeErrno);
      if NeedsDisconnect(state) then
        && t[0] == IdleDisconnect(false)
        && t[1] == DisconnectObserved
        && (forall i :: 0 <= i < |t| ==> (t[i].SetPowerCall? <==> 2 <= i < |t| - 2))
        && t[|t| - 2] == IdleConnect
        && t[|t| - 1] == ScheduleRefresh
      else
        && (forall i :: 0 <= i < |t| ==>
              t[i] != IdleDisconnect(false) && t[i] != DisconnectObserved && t[i] != IdleConnect)
        && (forall i :: 0 <= i < |t| ==> (t[i].SetPowerCall? <==> i < |t| - 1))
        && t[|t| - 1] == ScheduleRefresh
  {
  }

  lemma CountInMiddle(before: seq<Event>, middle: seq<Event>, after: seq<Event>, x: Event)
    requires x !in before && x !in after
    ensures multiset(before + middle + after)[x] == multiset(middle)[x]
  {
    assert multiset(before + middle + after) == multiset(before) + multiset(middle) + multiset(after);
  }

  /** The set is called once when the first call succeeds and exactly twice otherwise. */
  lemma SetPowerRetriesOnce(state: int, firstInvokeErrno: int)
    ensures multiset(SetPowerTrace(state, firstInvokeErrno))[SetPowerCall(state)] ==
            (if AmtPower.RequestResult(state, firstInvokeErrno) == 0 then 1 else 2)
  {
    var sets := SetCalls(state, firstInvokeErrno);
    if NeedsDisconnect(state) {
      var before, after := [IdleDisconnect(false), DisconnectObserved], [IdleConnect, ScheduleRefresh];
      assert SetPowerTrace(state, firstInvokeErrno) == before + sets + after;
      CountInMiddle(before, sets, after, SetPowerCall(state));
    } else {
      assert SetPowerTrace(state, firstInvokeErrno) == [] + sets + [ScheduleRefresh];
      CountInMiddle([], sets, [ScheduleRefresh], SetPowerCall(state));
    }
  }

  /** For a requestable state, the retry happens exactly when the first client request failed. */
  lemma SetPowerRetriesOnRequestFailure(state: int, firstInvokeErrno: int)
    requires state in AmtPower.POWER_STATES
    ensures multiset(SetPowerTrace(state, firstInvokeErrno))[SetPowerCall(state)] ==
            (if firstInvokeErrno == 0 then 1 else 2)
  {
    SetPowerRetriesOnce(state, firstInvokeErrno);
  }

  /**
   * What `__system_get_power_state` does with one reading: read, then (unless
   * the read raised) queue a statusbar update, and schedule another refresh
   * while the value is not a requestable code.
   */
  function RefreshTrace(reading: AmtPower.Reading): seq<Event> {
    [GetPowerCall] +
    match AmtPower.GetPowerState(reading)
    case Raised => []
    case Returned(code) =>
      [IdleUpdateStatusbar] + (if code in AmtPower.POWER_STATES then [] else [ScheduleRefresh])
  }

  /** A refresh schedules another one exactly when the read value is not a requestable code. */
  lemma RefreshReschedules(reading: AmtPower.Reading)
    ensures ScheduleRefresh in RefreshTrace(reading) <==>
            (AmtPower.GetPowerState(reading).Returned? &&
             AmtPower.GetPowerState(reading).code !in AmtPower.POWER_STATES)
  {
  }

  /** A refresh that reads the decimal text of a requestable code stops re-polling. */
  lemma RefreshSettles(state: int)
    requires state in AmtPower.POWER_STATES
    ensures ScheduleRefresh !in RefreshTrace(AmtPower.Reading(0, Some(IntText.IntToString(state))))
  {
    var reading := AmtPower.Reading(0, Some(IntText.IntToString(state)));
    AmtPower.GetPowerStateOfRendered(state);
    RefreshReschedules(reading);
  }

  // ---------------------------------------------------------------------------
  // The viewer

  class Viewer {
    const host: string
    const port: string
    var reconnect: bool
    var connected: bool
    var power: Option<int>
    var connectionStatus: Status
    var powerStatus: Status
    var trace: seq<Event>

    /** The state right after `__init__`, given the address it split. */
    constructor (host: string, port: string)
      ensures this.host == host && this.port == port
      ensures reconnect && !connected && power == None
      ensures connectionStatus == StatusError && powerStatus == StatusUnknown
      ensures trace == []
    {
      this.host := host;
      this.port := port;
      reconnect := true;
      connected := false;
      power := None;
      connectionStatus := StatusError;
      powerStatus := StatusUnknown;
      trace := [];
    }

    /** `VNCViewer(address, ...)`: null where splitting the address raises. */
    static method Create(address: string) returns (v: Viewer?)
      ensures v == null <==> SplitHost(address).None?
      ensures v != null ==>
        && fresh(v)
        && (v.host, v.port) == SplitHost(address).value
        && v.reconnect && !v.connected && v.power == None
        && v.StatusbarCurrent()
        && v.trace == []
    {
      var split := SplitHost(address);
      if split.None? {
        return null;
      }
      v := new Viewer(split.value.0, split.value.1);
    }

    /** The icons show what `connected` and `power` say. */
    ghost predicate StatusbarCurrent()
      reads this
    {
      connectionStatus == ConnectionIndicator(connected) && powerStatus == PowerIndicator(power)
    }

    /** `_update_statusbar`. */
    method UpdateStatusbar()
      modifies this`connectionStatus, this`powerStatus
      ensures StatusbarCurrent()
    {
      connectionStatus := ConnectionIndicator(connected);
      powerStatus := PowerIndicator(power);
    }

    /** `connect`: arm the reconnect flag and open a fresh VNC display on host:port. */
    method Connect()
      modifies this`reconnect, this`trace
      ensures reconnect
      ensures trace == old(trace) + [OpenHost(host, port)]
    {
      reconnect := true;
      trace := trace + [OpenHost(host, port)];
    }

    /** `disconnect(reconnect)`: set the reconnect flag and close the display. */
    method Disconnect(reconnect: bool)
      modifies this`reconnect, this`trace
      ensures this.reconnect == reconnect
      ensures trace == old(trace) + [CloseDisplay]
    {
      this.reconnect := reconnect;
      trace := trace + [CloseDisplay];
    }

    /** `_system_reconnect`: a disconnect that asks to come back. */
    method SystemReconnect()
      modifies this`reconnect, this`trace
      ensures reconnect
      ensures trace == old(trace) + [CloseDisplay]
    {
      Disconnect(true);
    }

    /** `_system_get_power_state`: start a background refresh. */
    method SystemGetPowerState()
      modifies this`trace
      ensures trace == old(trace) + [StartRefreshTask]
    {
      trace := trace + [StartRefreshTask];
    }

    /** `_connected`: mark the session up, update the icons and start one refresh. */
    method Connected()
      modifies this`connected, this`connectionStatus, this`powerStatus, this`trace
      ensures connected && StatusbarCurrent()
      ensures trace == old(trace) + [StartRefreshTask]
    {
      connected := true;
      UpdateStatusbar();
      SystemGetPowerState();
    }

    /** `_disconnected`: mark the session down, update the icons, and schedule a connect iff `reconnect`. */
    method Disconnected()
      modifies this`connected, this`connectionStatus, this`powerStatus, this`trace
      ensures !connected && StatusbarCurrent()
      ensures trace == old(trace) + (if reconnect then [ScheduleConnect] else [])
    {
      connected := false;
      UpdateStatusbar();
      if reconnect {
        trace := trace + [ScheduleConnect];
      }
    }

    /** `__system_get_power_state`, the driver's read answering `reading`. */
    method GetPowerStateTask(reading: AmtPower.Reading)
      modifies this`power, this`trace
      ensures power == (match AmtPower.GetPowerState(reading)
                        case Raised => old(power)
                        case Returned(code) => Some(code))
      ensures trace == old(trace) + RefreshTrace(reading)
    {
      trace := trace + [GetPowerCall];
      var result := AmtPower.GetPowerState(reading);
      if result.Raised? {
        return;
      }
      power := Some(result.code);
      trace := trace + [IdleUpdateStatusbar];
      if power.value !in AmtPower.POWER_STATES {
        trace := trace + [ScheduleRefresh];
      }
    }

    /** `__system_set_power_state` up to its wait: ask the main loop to disconnect before OFF/CYCLE. */
    method SetPowerStateTaskBegin(state: int)
      modifies this`trace
      ensures trace == old(trace) + SetPowerBeginTrace(state)
    {
      if NeedsDisconnect(state) {
        trace := trace + [IdleDisconnect(false)];
      }
    }

    /**
     * `__system_set_power_state` after its wait, which ends only once
     * `connected` is false: set the state (retrying once on failure), ask for
     * a reconnect after OFF/CYCLE, and schedule a refresh.
     */
    method SetPowerStateTaskResume(state: int, firstInvokeErrno: int)
      requires NeedsDisconnect(state) ==> !connected
      modifies this`trace
      ensures trace == old(trace) + SetPowerResumeTrace(state, firstInvokeErrno)
    {
      if NeedsDisconnect(state) {
        trace := trace + [DisconnectObserved];
      }
      var errno := AmtPower.RequestResult(state, firstInvokeErrno);
      trace := trace + [SetPowerCall(state)];
      if errno != 0 {
        trace := trace + [SetPowerCall(state)];
      }
      if NeedsDisconnect(state) {
        trace := trace + [IdleConnect];
      }
      trace := trace + [ScheduleRefresh];
    }
  }

  /**
   * Power-off while connected, with the main loop running the queued
   * disconnect and the widget reporting the disconnection before the task's
   * wait ends: the display is closed before any set call, the disconnection
   * does not schedule an automatic reconnect, and the display is reopened
   * after the set call(s).
   */
  method PowerOffWhileConnected(v: Viewer, firstInvokeErrno: int)
    requires v.connected
    modifies v
    ensures v.trace == old(v.trace)
      + [IdleDisconnect(false), CloseDisplay, DisconnectObserved, SetPowerCall(AmtPower.POWER_STATE_OFF)]
      + (if firstInvokeErrno != 0 then [SetPowerCall(AmtPower.POWER_STATE_OFF)] else [])
      + [IdleConnect, ScheduleRefresh, OpenHost(v.host, v.port)]
    ensures v.reconnect && !v.connected && v.StatusbarCurrent()
    ensures v.power == old(v.power)
  {
    v.SetPowerStateTaskBegin(AmtPower.POWER_STATE_OFF);
    v.Disconnect(false);
    v.Disconnected();
    v.SetPowerStateTaskResume(AmtPower.POWER_STATE_OFF, firstInvokeErrno);
    v.Connect();
  }
}
