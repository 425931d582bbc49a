/**
 * The Intel AMT power driver: the table of requestable power-state codes,
 * the translations between codes and names, the normalisation of a power
 * reading, and `set_power_state` with its optional once-a-second poll until
 * the requested state is seen or the timeout has passed.
 *
 * The WS-Management client is a stub (`Client`) that answers the change
 * request with a fixed errno and the i-th power-state read with
 * `readings(i)`; wall-clock time is an integer `Clock` that each
 * `time.sleep(1)` advances by at least one second.
 */
module AmtPower {
  import opened Wrappers
  import IntText

  // The AMT power-state codes.
  const POWER_STATE_ON: int := 2
  const POWER_STATE_CYCLE: int := 5
  const POWER_STATE_OFF: int := 8
  const POWER_STATE_RESET: int := 10
  const POWER_STATE_NMI: int := 11
  const POWER_STATE_INVALID: int := 99

  /** The codes that may be requested. */
  const POWER_STATES: set<int> :=
    {POWER_STATE_ON, POWER_STATE_CYCLE, POWER_STATE_OFF, POWER_STATE_RESET, POWER_STATE_NMI}

  /** The code-to-name dictionary, its entries in insertion order. */
  const POWER_STATE_MAP: seq<(int, string)> := [
    (POWER_STATE_ON, "on"),
    (POWER_STATE_CYCLE, "cycle"),
    (POWER_STATE_OFF, "off"),
    (POWER_STATE_RESET, "reset"),
    (POWER_STATE_NMI, "nmi")
  ]

  /** The value `set_power_state` returns for a code it refuses and on a timeout. */
  const SET_FAILED: int := -1

  // ---------------------------------------------------------------------------
  // Dictionaries as entry lists

  ghost predicate HasKey(entries: seq<(int, string)>, key: int) {
    exists i :: 0 <= i < |entries| && entries[i].0 == key
  }

  ghost predicate HasValue(entries: seq<(int, string)>, val: string) {
    exists i :: 0 <= i < |entries| && entries[i].1 == val
  }

  ghost predicate DistinctKeys(entries: seq<(int, string)>) {
    forall i, j :: 0 <= i < j < |entries| ==> entries[i].0 != entries[j].0
  }

  ghost predicate DistinctValues(entries: seq<(int, string)>) {
    forall i, j :: 0 <= i < j < |entries| ==> entries[i].1 != entries[j].1
  }

  /** `dict.get(key, default)`. */
  function Get(entries: seq<(int, string)>, key: int, default: string): (r: string)
    ensures HasKey(entries, key) ==> (key, r) in entries
    ensures !HasKey(entries, key) ==> r == default
  {
    if entries == [] then default
    else if entries[0].0 == key then entries[0].1
    else Get(entries[1..], key, default)
  }

  /** The loop over `dict.items()` that returns the first key whose value is `val`. */
  function FindKey(entries: seq<(int, string)>, val: string, default: int): (r: int)
    ensures HasValue(entries, val) ==> (r, val) in entries
    ensures !HasValue(entries, val) ==> r == default
  {
    if entries == [] then default
    else if entries[0].1 == val then entries[0].0
    else FindKey(entries[1..], val, default)
  }

  /** With distinct values, looking a key's value up and searching for it gives the key back. */
  lemma {:induction false} FindKeyOfGet(entries: seq<(int, string)>, key: int, keyDefault: int, valDefault: string)
    requires DistinctValues(entries) && HasKey(entries, key)
    ensures FindKey(entries, Get(entries, key, valDefault), keyDefault) == key
  {
    if entries[0].0 != key {
      var v := Get(entries[1..], key, valDefault);
      assert HasKey(entries[1..], key) by {
        var i :| 0 <= i < |entries| && entries[i].0 == key;
        assert entries[1..][i - 1].0 == key;
      }
      var j :| 0 <= j < |entries[1..]| && entries[1..][j] == (key, v);
      assert entries[0].1 != v by { assert entries[j + 1].1 == v; }
      FindKeyOfGet(entries[1..], key, keyDefault, valDefault);
    }
  }

  /** With distinct keys, searching for a value and looking its key up gives the value back. */
  lemma {:induction false} GetOfFindKey(entries: seq<(int, string)>, val: string, keyDefault: int, valDefault: string)
    requires DistinctKeys(entries) && HasValue(entries, val)
    ensures Get(entries, FindKey(entries, val, keyDefault), valDefault) == val
  {
    if entries[0].1 != val {
      var k := FindKey(entries[1..], val, keyDefault);
      assert HasValue(entries[1..], val) by {
        var i :| 0 <= i < |entries| && entries[i].1 == val;
        assert entries[1..][i - 1].1 == val;
      }
      var j :| 0 <= j < |entries[1..]| && entries[1..][j] == (k, val);
      assert entries[0].0 != k by { assert entries[j + 1].0 == k; }
      GetOfFindKey(entries[1..], val, keyDefault, valDefault);
    }
  }

  /** The requestable codes are exactly the dictionary's keys, whose names are pairwise distinct. */
  lemma PowerStateMapShape()
    ensures DistinctKeys(POWER_STATE_MAP) && DistinctValues(POWER_STATE_MAP)
    ensures forall s :: s in POWER_STATES <==> HasKey(POWER_STATE_MAP, s)
    ensures forall n :: n in ["on", "cycle", "off", "reset", "nmi"] <==> HasValue(POWER_STATE_MAP, n)
  {
    forall s | s in POWER_STATES ensures HasKey(POWER_STATE_MAP, s) {
      var i := if s == 2 then 0 else if s == 5 then 1 else if s == 8 then 2 else if s == 10 then 3 else 4;
      assert POWER_STATE_MAP[i].0 == s;
    }
    forall n | n in ["on", "cycle", "off", "reset", "nmi"] ensures HasValue(POWER_STATE_MAP, n) {
      var i :| 0 <= i < 5 && ["on", "cycle", "off", "reset", "nmi"][i] == n;
      assert POWER_STATE_MAP[i].1 == n;
    }
  }

  // ---------------------------------------------------------------------------
  // Translations between codes and names

  /** `power_state_from_string`: the code named by `state`, exactly and case-sensitively, else INVALID. */
  function PowerStateFromString(state: string): (r: int)
    ensures r in POWER_STATES || r == POWER_STATE_INVALID
    ensures r != POWER_STATE_INVALID <==> state in ["on", "cycle", "off", "reset", "nmi"]
    ensures r != POWER_STATE_INVALID ==> (r, state) in POWER_STATE_MAP
  {
    PowerStateMapShape();
    FindKey(POWER_STATE_MAP, state, POWER_STATE_INVALID)
  }

  /** `power_string_from_state`: the name of a requestable code, else "invalid". */
  function PowerStringFromState(state: int): (r: string)
    ensures r in ["on", "cycle", "off", "reset", "nmi"] || r == "invalid"
    ensures r != "invalid" <==> state in POWER_STATES
    ensures r != "invalid" ==> (state, r) in POWER_STATE_MAP
  {
    PowerStateMapShape();
    Get(POWER_STATE_MAP, state, "invalid")
  }

  /** Every code survives the trip to its name and back; every other code comes back as INVALID. */
  lemma PowerStateRoundTrip(state: int)
    ensures PowerStateFromString(PowerStringFromState(state)) ==
            if state in POWER_STATES then state else POWER_STATE_INVALID
  {
    PowerStateMapShape();
    if state in POWER_STATES {
      FindKeyOfGet(POWER_STATE_MAP, state, POWER_STATE_INVALID, "invalid");
    }
  }

  /** Every name survives the trip to its code and back. */
  lemma PowerNameRoundTrip(name: string)
    requires name in ["on", "cycle", "off", "reset", "nmi"]
    ensures PowerStringFromState(PowerStateFromString(name)) == name
  {
    PowerStateMapShape();
    GetOfFindKey(POWER_STATE_MAP, name, POWER_STATE_INVALID, "invalid");
  }

  // ---------------------------------------------------------------------------
  // Reading the power state

  /** `is_int`: `int(val)` does not raise ValueError. */
  predicate IsInt(val: string) {
    IntText.ParseInt(val).Some?
  }

  /** The decimal text of every integer passes `is_int`. */
  lemma IsIntOfRendered(n: int)
    ensures IsInt(IntText.IntToString(n))
  {
    IntText.ParseIntToString(n);
  }

  /**
   * What the transport stub reports for one power-state read: the errno, and
   * the text of the PowerState element (None when the element has no text).
   */
  datatype Reading = Reading(errno: int, text: Option<string>)

  /** What a call returns, or that it raises. */
  datatype Outcome = Returned(code: int) | Raised

  /**
   * `_get_power_state`: a nonzero errno is passed through; a text that parses
   * to a requestable code gives that code; any other text gives INVALID. A
   * missing text makes `int(None)` raise TypeError, which `is_int` does not catch.
   */
  function GetPowerState(reading: Reading): (r: Outcome)
    ensures reading.errno != 0 ==> r == Returned(reading.errno)
    ensures reading.errno == 0 && reading.text.None? ==> r == Raised
    ensures reading.errno == 0 && reading.text.Some? ==>
              r.Returned? && (r.code in POWER_STATES || r.code == POWER_STATE_INVALID)
    ensures reading.errno == 0 && reading.text.Some? && r.code != POWER_STATE_INVALID ==>
              IntText.ParseInt(reading.text.value) == Some(r.code)
    ensures reading.errno == 0 && reading.text.Some? && IntText.ParseInt(reading.text.value).Some? &&
            IntText.ParseInt(reading.text.value).value in POWER_STATES ==>
              r == Returned(IntText.ParseInt(reading.text.value).value)
  {
    if reading.errno != 0 then Returned(reading.errno)
    else match reading.text
      case None => Raised
      case Some(text) =>
        if IsInt(text) && IntText.ParseInt(text).value in POWER_STATES then
          Returned(IntText.ParseInt(text).value)
        else Returned(POWER_STATE_INVALID)
  }

  /** A successful read of the decimal rendering of a requestable code gives that code. */
  lemma GetPowerStateOfRendered(state: int)
    requires state in POWER_STATES
    ensures GetPowerState(Reading(0, Some(IntText.IntToString(state)))) == Returned(state)
  {
    IntText.ParseIntToString(state);
  }

  /** A successful read of a text that is not an integer, or names no requestable code, gives INVALID. */
  lemma GetPowerStateOfOtherText(text: string)
    requires IntText.ParseInt(text).None? || IntText.ParseInt(text).value !in POWER_STATES
    ensures GetPowerState(Reading(0, Some(text))) == Returned(POWER_STATE_INVALID)
  {
  }

  // ---------------------------------------------------------------------------
  // Setting the power state

  /** The stubbed WS-Management client. */
  datatype Client = Client(invokeErrno: int, readings: nat -> Reading)

  /** The integer clock: `time.time()` is `start` before the first sleep and advances by `advance(i)` in the i-th sleep. */
  datatype Clock = Clock(start: int, advance: nat -> int)

  /** Each `time.sleep(1)` lets at least one second pass. */
  ghost predicate SleepsAtLeastOneSecond(clock: Clock) {
    forall i: nat :: clock.advance(i) >= 1
  }

  /** The time after the first `k` sleeps. */
  function Now(clock: Clock, k: nat): int {
    if k == 0 then clock.start else Now(clock, k - 1) + clock.advance(k - 1)
  }

  lemma {:induction false} NowAtLeast(clock: Clock, k: nat)
    requires SleepsAtLeastOneSecond(clock)
    ensures Now(clock, k) >= clock.start + k
  {
    if k > 0 {
      NowAtLeast(clock, k - 1);
    }
  }

  /** What the driver does, in order: client calls and sleeps. */
  datatype Action = WakeUp | InvokeChange(state: int) | GetState | Sleep

  /** `_set_power_state`: wake the client, then invoke RequestPowerStateChange. */
  function RequestCalls(state: int): seq<Action> {
    [WakeUp, InvokeChange(state)]
  }

  /** `n` rounds of the poll loop: sleep, then `_get_power_state`. */
  function PollCalls(n: nat): (r: seq<Action>)
    ensures |r| == 3 * n
    ensures forall i :: 0 <= i < |r| ==> r[i] == [Sleep, WakeUp, GetState][i % 3]
  {
    if n == 0 then [] else PollCalls(n - 1) + [Sleep, WakeUp, GetState]
  }

  /** The `i`-th poll saw some state other than `state`, and did not raise. */
  ghost predicate Missed(client: Client, state: int, i: nat) {
    GetPowerState(client.readings(i)).Returned? && GetPowerState(client.readings(i)) != Returned(state)
  }

  /** What `set_power_state(state, wait=False)` returns: -1 for a code it refuses, else the request's errno. */
  function RequestResult(state: int, invokeErrno: int): int {
    if state !in POWER_STATES then SET_FAILED else invokeErrno
  }

  /**
   * `AMTPower.set_power_state(state, wait, timeout)`. `polls` is the number
   * of power-state reads, `calls` what was asked of the client, in order.
   */
  method SetPowerState(client: Client, clock: Clock, state: int, wait: bool, timeout: int)
    returns (r: Outcome, polls: nat, calls: seq<Action>)
    requires SleepsAtLeastOneSecond(clock)
    // A refused code: -1, and the client is never called.
    ensures state !in POWER_STATES ==> r == Returned(SET_FAILED) && calls == [] && polls == 0
    // A failed request, or no wait: the request's result, no poll.
    ensures state in POWER_STATES && (client.invokeErrno != 0 || !wait) ==>
              r == Returned(client.invokeErrno) && calls == RequestCalls(state) && polls == 0
    ensures !wait ==> r == Returned(RequestResult(state, client.invokeErrno))
    // Waiting after a successful request.
    ensures state in POWER_STATES && client.invokeErrno == 0 && wait ==>
              && calls == RequestCalls(state) + PollCalls(polls)
              && r in {Returned(0), Raised, Returned(SET_FAILED)}
              && polls <= (if timeout > 0 then timeout else 0)
              && (forall j :: 0 <= j < polls ==> Now(clock, j) < clock.start + timeout)
              && (forall j :: 0 <= j < polls - 1 ==> Missed(client, state, j))
              && (r == Returned(0) <==> polls > 0 && GetPowerState(client.readings(polls - 1)) == Returned(state))
              && (r == Raised <==> polls > 0 && GetPowerState(client.readings(polls - 1)) == Raised)
              && (r == Returned(SET_FAILED) <==>
                    (polls == 0 || Missed(client, state, polls - 1)) && Now(clock, polls) >= clock.start + timeout)
  {
    if state !in POWER_STATES {
      return Returned(SET_FAILED), 0, [];
    }
    calls := RequestCalls(state);
    var retval := client.invokeErrno;
    if retval != 0 || !wait {
      return Returned(retval), 0, calls;
    }
    var start := clock.start;
    var now := start;
    polls := 0;
    while now < start + timeout
      invariant now == Now(clock, polls)
      invariant polls <= (if timeout > 0 then timeout else 0)
      invariant calls == RequestCalls(state) + PollCalls(polls)
      invariant forall j :: 0 <= j < polls ==> Now(clock, j) < start + timeout
      invariant forall j :: 0 <= j < polls ==> Missed(client, state, j)
      decreases start + timeout - now
    {
      NowAtLeast(clock, polls);
      now := now + clock.advance(polls);
      var current := GetPowerState(client.readings(polls));
      calls := calls + [Sleep, WakeUp, GetState];
      polls := polls + 1;
      if current == Raised {
        return Raised, polls, calls;
      }
      if current == Returned(state) {
        return Returned(0), polls, calls;
      }
    }
    assert polls > 0 ==> Missed(client, state, polls - 1);
    r := Returned(SET_FAILED);
  }

  // ---------------------------------------------------------------------------
  // Two runs against fixed stubs

  /** Seconds pass exactly one per sleep. */
  function SteadyClock(): Clock {
    Clock(0, _ => 1)
  }

  /**
   * Waiting for ON with a three-second timeout while the host reads OFF once
   * and ON from the second read on: success, after exactly two polls.
   */
  method WaitSeesStateOnSecondPoll() returns (r: Outcome, polls: nat)
    ensures r == Returned(0) && polls == 2
  {
    var off := Reading(0, Some(IntText.IntToString(POWER_STATE_OFF)));
    var on := Reading(0, Some(IntText.IntToString(POWER_STATE_ON)));
    GetPowerStateOfRendered(POWER_STATE_OFF);
    GetPowerStateOfRendered(POWER_STATE_ON);
    var client := Client(0, i => if i == 0 then off else on);
    var calls;
    r, polls, calls := SetPowerState(client, SteadyClock(), POWER_STATE_ON, true, 3);
    assert Missed(client, POWER_STATE_ON, 0) && !Missed(client, POWER_STATE_ON, 1);
    assert Now(SteadyClock(), 1) == 1;
  }

  /**
   * Waiting for ON with a one-second timeout while the host always reads OFF:
   * the timeout result, after at most one poll.
   */
  method WaitTimesOut() returns (r: Outcome, polls: nat)
    ensures r == Returned(SET_FAILED) && polls <= 1
  {
    var off := Reading(0, Some(IntText.IntToString(POWER_STATE_OFF)));
    GetPowerStateOfRendered(POWER_STATE_OFF);
    var client := Client(0, _ => off);
    var calls;
    r, polls, calls := SetPowerState(client, SteadyClock(), POWER_STATE_ON, true, 1);
  }
}
