# jvncviewer: AMT power driver and VNC viewer policy

jvncviewer is a GTK VNC viewer for machines with an Intel AMT management
controller. The viewer keeps one VNC session open, reconnects automatically
unless a disconnection was asked for, shows connection and power status icons,
and lets the user switch the machine on, off, cycle or reset it through the
AMT power driver.

This project models two parts of it in Dafny:

- `AmtPower` (`amt_power.dfy`) is the AMT power driver. It holds the
  requestable power-state codes and their names, the two translations
  between codes and names, `is_int`, and the normalisation of a raw power
  reading. It also holds `set_power_state` with its optional once-a-second
  poll. The WS-Management client is a stub value, `Client`. It answers the
  change request with a fixed errno and the i-th power read with a given
  `Reading`. Wall-clock time is an integer `Clock` that every `time.sleep(1)`
  advances by at least one second. The method also returns the client calls
  it made, in order.
- `VncViewer` (`vnc_viewer.dfy`) is the viewer's policy:
  - splitting `host[:port]`;
  - the `reconnect` and `connected` flags, driven by `connect`, `disconnect`
    and the connected/disconnected signals;
  - the status icons;
  - the two background routines that read and change the power state.

  `Viewer` is a class whose fields are the viewer's flags, its last power
  reading and its two icons. The calls the viewer makes are recorded, in
  order, in the field `trace`. These are the calls to GLib's
  `idle_add`/`timeout_add`, to the VNC widget and to the power driver, and
  the starts of background tasks. One entry is not a call:
  `DisconnectObserved` marks the end of the power-change task's wait for
  `connected` to drop.
- `IntText` (`int_text.dfy`) gives Python's `int(text)` and `str(n)` on
  decimal text, which the driver needs for `is_int` and for reading the
  power state.
- `Wrappers` (`wrappers.dfy`) holds the `Option` type.

`AmtPower.IsInt` is `is_int` (amt/power.py:71-79): `int(val)` does not raise
ValueError. Its properties are `AmtPower.IsIntOfRendered` and the `IntText`
lemmas below. `AmtPower.RequestResult` is the value `set_power_state` returns
without waiting; the viewer uses it, and `AmtPower.SetPowerState`'s contract
states it.

Behaviour of the code worth noting:

- `set_power_state` returns the same -1 for a refused code and for a timeout
  (amt/power.py:190 and 204). The two are not distinct outcomes.
- `_get_power_state` raises when the PowerState element has no text, because
  `int(None)` raises TypeError and `is_int` only catches ValueError. The
  model's outcome for this is `Raised`, and the error leaves the poll loop
  and the refresh routine.
- The connection state is the single boolean `connected`, with no
  "connecting" state.
- A nonzero transport errno is returned as the power state itself. An errno
  equal to a power code therefore reads as that state, both in the poll
  loop's comparison and in the viewer's `POWER_STATES` test.
- `_update_statusbar` treats a power value of 0 like "no value yet" (Python
  truthiness), so the power icon stays UNKNOWN.

## Model

| member | source | states |
|---|---|---|
| AmtPower.PowerStateMapShape | amt/power.py:37-46 | the dictionary's keys are exactly the five requestable codes, its names are exactly on/cycle/off/reset/nmi, and neither keys nor names repeat |
| AmtPower.FindKeyOfGet | amt/power.py:58-68 | in a table with distinct names, searching for the name of a key finds that key |
| AmtPower.GetOfFindKey | amt/power.py:58-68 | in a table with distinct keys, looking up the key found for a name gives the name |
| AmtPower.PowerStateFromString | amt/power.py:54-61 | the result is a requestable code or INVALID (99), and it is not INVALID exactly when the text is one of the five names, matched exactly; a name gives the code the dictionary pairs it with (on 2, cycle 5, off 8, reset 10, nmi 11) |
| AmtPower.PowerStringFromState | amt/power.py:64-68 | the result is one of the five names or "invalid", and it is a name exactly when the code is requestable; a code gives the name the dictionary pairs it with |
| AmtPower.PowerStateRoundTrip | amt/power.py:54-68 | code to name to code gives a requestable code back and turns every other code into INVALID |
| AmtPower.PowerNameRoundTrip | amt/power.py:54-68 | name to code to name gives each of the five names back |
| AmtPower.GetPowerState | amt/power.py:111-130 | a nonzero errno is returned unchanged; a missing text raises; a successful read gives a requestable code or INVALID; a text `int` reads as a requestable code gives exactly that code, and any other result than INVALID is the value `int` parses from the text |
| AmtPower.GetPowerStateOfRendered | amt/power.py:125-127 | a successful read whose text is the decimal rendering of a requestable code gives that code |
| AmtPower.GetPowerStateOfOtherText | amt/power.py:126-130 | a successful read of a text that is no integer, or no requestable code, gives INVALID |
| AmtPower.SetPowerState | amt/power.py:184-204 | a refused code gives -1 without calling the client; a failed request or no wait returns the request's errno without polling; with a wait, the calls are one request then one sleep-and-read per poll; the result is 0, a raise or -1; there are at most `timeout` polls, each started before the deadline, and every poll but the last missed; 0 exactly when the last poll read the requested state, a raise exactly when the last read raised, -1 exactly when the deadline passed with the requested state never read |
| AmtPower.WaitSeesStateOnSecondPoll | amt/power.py:196-201 | waiting for ON with timeout 3 while the host reads OFF once and then ON succeeds after exactly two polls |
| AmtPower.WaitTimesOut | amt/power.py:196-204 | waiting for ON with timeout 1 while the host always reads OFF gives -1 after at most one poll |
| AmtPower.IsIntOfRendered | amt/power.py:71-79 | `is_int` accepts the decimal text of every integer |
| IntText.ParseIntToString | amt/power.py:71-79 | `int(str(n)) == n` for every integer, so the decimal text of any code passes `is_int` and reads back as that code |
| IntText.ParseIntOfStripped | amt/power.py:71-79 | stripping is idempotent and `int` reads a text and its stripped form alike |
| IntText.ParseIntOfBlank | amt/power.py:71-79 | empty or all-whitespace text is no integer |
| IntText.ParseIntOfForeignChar | amt/power.py:71-79 | a character other than a digit or underscore (or a sign anywhere but the front) makes `int` raise |
| IntText.ParseIntOfStrayUnderscore | amt/power.py:71-79 | a doubled or trailing underscore makes `int` raise |
| VncViewer.SplitJoin | vnc/viewer.py:41 | joining the pieces of `split(sep)` with `sep` gives the text back |
| VncViewer.SplitCount | vnc/viewer.py:41 | `split(sep)` gives one more piece than the text has separators |
| VncViewer.SplitWithoutSeparator | vnc/viewer.py:41 | text without the separator is one piece |
| VncViewer.SplitJoined | vnc/viewer.py:41 | head, separator, tail (neither holding the separator) split into exactly head and tail |
| VncViewer.SplitHost | vnc/viewer.py:39-41 | no ':' keeps the whole address as host with port "5900"; the split fails (the two-name unpack raises ValueError) exactly when there is more than one ':'; neither half holds ':', and with one ':' the address is host ":" port |
| VncViewer.SplitHostOfJoined | vnc/viewer.py:39-41 | "host:port" built from a host and a port without ':' splits back into them |
| VncViewer.ConnectionIndicator | vnc/viewer.py:153-156 | the connection icon is OK exactly while connected and ERROR exactly while not |
| VncViewer.PowerIndicator | vnc/viewer.py:158-166 | the power icon is OK exactly for ON, ERROR exactly for OFF, and UNKNOWN for no value and for every other value |
| VncViewer.SetPowerOrdering | vnc/viewer.py:237-253 | for OFF and CYCLE the task first asks for a terminal disconnect, then waits, then makes its set calls, then asks for a reconnect, then schedules a refresh; for other states there is no disconnect, wait or reconnect, only set calls and then the refresh |
| VncViewer.SetPowerRetriesOnce | vnc/viewer.py:243-246 | the driver's `set_power_state` is called once when the first call returns 0 and exactly twice otherwise, never more |
| VncViewer.SetPowerRetriesOnRequestFailure | vnc/viewer.py:243-246 | for a requestable state there is a second call exactly when the first change request failed |
| VncViewer.RefreshReschedules | vnc/viewer.py:221-228 | a refresh schedules another one exactly when the read did not raise and its value is not a requestable code |
| VncViewer.RefreshSettles | vnc/viewer.py:221-228 | a refresh that reads the decimal text of a requestable code schedules no other refresh |
| VncViewer.Viewer.constructor | vnc/viewer.py:43-57 | the state after `__init__`: the split host and port, reconnect on, not connected, no power value, connection icon ERROR and power icon UNKNOWN |
| VncViewer.Viewer.Create | vnc/viewer.py:38-57 | construction fails exactly when the address cannot be split; otherwise a new viewer on the split host and port whose icons match its flags |
| VncViewer.Viewer.UpdateStatusbar | vnc/viewer.py:152-166 | afterwards both icons show what `connected` and `power` say |
| VncViewer.Viewer.Connected | vnc/viewer.py:179-183 | the session is marked up, the icons match, and one background refresh is started |
| VncViewer.Viewer.Disconnected | vnc/viewer.py:185-192 | the session is marked down, the icons match, and a connect is scheduled exactly when `reconnect` is set |
| VncViewer.Viewer.Connect | vnc/viewer.py:280-309 | `reconnect` is set again and the display is opened on the viewer's host and port |
| VncViewer.Viewer.Disconnect | vnc/viewer.py:311-314 | `reconnect` takes the given value and the display is closed |
| VncViewer.Viewer.SystemReconnect | vnc/viewer.py:261-263 | a disconnect that keeps `reconnect` set |
| VncViewer.Viewer.SystemGetPowerState | vnc/viewer.py:258-259 | starts one background refresh task |
| VncViewer.Viewer.GetPowerStateTask | vnc/viewer.py:221-228 | the power value becomes the driver's reading, or stays as it was when the read raised; the calls are those of the refresh |
| VncViewer.Viewer.SetPowerStateTaskBegin | vnc/viewer.py:237-238 | for OFF and CYCLE, queues a terminal disconnect; otherwise does nothing |
| VncViewer.Viewer.SetPowerStateTaskResume | vnc/viewer.py:239-253 | runs only once `connected` is false for OFF and CYCLE; then the set call(s), the reconnect request for OFF and CYCLE, and the refresh |
| VncViewer.PowerOffWhileConnected | vnc/viewer.py:237-253 | power-off from a live session: the display closes before any set call, the disconnection schedules no automatic reconnect, and after the set call(s) the display reopens on the same host and port with `reconnect` set again; the power reading is left as it was |

## Left out

- The GTK widgets, the window, the menus and their construction, `_size_allocate`, the send-keys handlers, and the authentication, error, initialized and quit handlers. These are UI construction and event wiring with no policy in them.
- The status icons' images and colours (vnc/statusicon.py). An icon is modelled as its `Status` value.
- The threads of vnc/task.py and any concurrency between the background tasks and the GTK main loop. `idle_add`, `timeout_add` and task starts are recorded in `trace` and are not run. Their delays (500 ms and 2000 ms) are not modelled.
- VncViewer.Viewer.SetPowerStateTaskResume: the spin-wait `while self.connected: pass` is not modelled as a loop. The task is split around it. Its precondition is that `connected` is false for OFF and CYCLE. The case where the disconnection never comes, so the task hangs, is therefore not expressed.
- The menu handlers `_system_pon`, `_system_poff`, `_system_pcycle` and `_system_reset`. Each only starts `__system_set_power_state` in a thread with a fixed code (ON, OFF, CYCLE, RESET).
- A viewer without a power driver (`bmc=None`). As written, `__init__` then reads `self.power_status`, which was never set (vnc/viewer.py:73), and raises AttributeError. The model always has a driver, so the power icon is always updated.
- `_request_power_state_change_input`, the XML document and the pywsman options. These are protocol encoding, and the stub client stands in for them. `wake_up` is recorded as an `Action` and has no effect.
- Logging everywhere.
- `AMTPower.__init__`, which copies the module constants and creates the WS-Management client from credentials. `get_power_state` only calls `_get_power_state` on that client.
- AmtPower.SetPowerState: `time.time()` is a float and is modelled as an integer clock. The time spent reading the power state is folded into each sleep's advance, and no time passes between reading `now` and the first loop test.
- IntText: only ASCII whitespace and ASCII digits are modelled. Python's `int` also accepts other Unicode spaces and digits, and it limits texts to 4300 digits.
