# Locker controller: open-locker registry and timed auto-close

This project models the locker logic of an ESP32 firmware that unlocks
compartments on MQTT commands. The modelled parts are:

- the registry of open lockers (`std::vector<LockerInfo> openLockers`);
- `openLocker`, which drives a gpio HIGH and appends an entry stamped with `millis()`;
- `closeLocker(index)`, which drives the entry's gpio LOW, publishes a "closed"
  message to `locker/responses/<lockerId>` and erases the entry;
- the sweep in `loop()`, which walks the registry from the last position to
  the first and closes every entry open for more than 5000 ms;
- the gate in the MQTT callback, which opens a locker and publishes an "open"
  message when a decoded command has `action`, `locker_id` and a nonzero `gpio`.

Modules:

- `Clock` (clock.dfy) holds 32-bit `millis()` readings, the 5000 ms constant
  and elapsed time as unsigned 32-bit subtraction.
- `Responses` (responses.dfy) holds the published messages and the topic scheme.
- `Registry` (registry.dfy) holds the entry type and pure functions: what one
  sweep keeps (`Unexpired`), publishes (`ClosedLog`) and writes to the pins
  (`Lowered`). Lemmas state what a sweep guarantees.
- `Controller` (controller.dfy) holds a `Device` class whose fields are the
  registry, the publish log and the pin levels. Its methods are the firmware's
  operations, and each is proved against the functions above. The sweep is a
  `while` loop over a descending index, as in the firmware.
- `Optional` (option.dfy) stands in for a JSON field that may be absent.

`millis()` is the `now` parameter of each operation. `client.publish` appends
to `published`. `digitalWrite` updates `pins`, which is keyed by the physical
pin: `pinMode` and `digitalWrite` take their pin as `uint8_t`, so the `int gpio`
of an entry reaches pin `gpio mod 256` (`Registry.PinOf`).

Behaviour a reader may not expect, modelled as the code has it:

- Opening a gpio that is already open is not rejected. A second entry is
  appended. `DuplicateOpenDesynchronisesPins` shows the effect: after one of
  the two entries is closed, the other is still registered but its pin reads LOW.
  Two different gpio numbers that reach the same pin (13 and 269, say) behave
  the same way (`AliasedGpiosDesynchronisePins`).
- The gate accepts any `action` text, not only "open". It accepts any nonzero
  gpio, including negative ones.
- A malformed command is dropped silently, with no reply.
- The reset button is pin 0, and the gate accepts gpios that reach pin 0
  (256, -256, 512, ...). When the sweep closes such a locker it writes pin 0
  LOW. The button check right after the sweep then reads LOW twice, 5 s apart,
  and erases the WiFi settings and restarts the board
  (`Controller.LockerOnResetPin`; the restart itself is not modelled).
- Closing happens only through the sweep; `closeLocker` takes a position, not
  a gpio or a locker id.

## Model

| member | source | states |
|---|---|---|
| Clock.Elapsed | src/main.cpp:232-234 | `currentTime - openedAt` in 32-bit unsigned arithmetic: the unique value below 2^32 that, added to `openedAt` modulo 2^32, gives `currentTime` |
| Clock.ElapsedUnique | src/main.cpp:234 | no other value below 2^32 takes `openedAt` to `currentTime`, so the elapsed time is well defined across a wrap |
| Clock.ElapsedTracksWallClock | src/main.cpp:232-234 | for true times `t0 <= t1 < t0 + 2^32`, the elapsed time computed from the truncated readings equals `t1 - t0`, even when the counter wrapped between them |
| Clock.ExpiryAcrossWrap | src/main.cpp:234 | the expiry test on the truncated readings holds exactly when more than 5000 ms of wall time have passed (strict `>`) |
| Responses.StatusText | src/main.cpp:100 | the `status` field reads "closed" for a closed locker (line 100) and "open" for an opened one (line 141), and nothing else |
| Responses.TopicFor | src/main.cpp:106 | the status topic is `locker/responses`, a slash, then the locker id |
| Responses.LockerIdOfTopic | src/main.cpp:106 | a locker id read back from a status topic is one whose topic is exactly that topic |
| Responses.TopicRoundTrip | src/main.cpp:106 | the topic `locker/responses/<id>` names locker `<id>` and no other, so distinct lockers publish on distinct topics |
| Responses.Notice | src/main.cpp:97-107 | a status message has `success: true`, the locker's id and gpio, the status text "open" or "closed", and goes to that locker's own topic |
| Registry.PinOf | src/main.cpp:78-79 | the pin an `int gpio` reaches through the `uint8_t` parameter: the unique value in 0..255 congruent to `gpio` modulo 256, and `gpio` itself when it is already in range |
| Registry.PinAliasing | src/main.cpp:94 | distinct gpio numbers reach one pin: 13, 269 and -243 drive pin 13; 258 and -254 drive pin 2 |
| Registry.Expired | src/main.cpp:234 | an entry has expired exactly when `now` is not among the 5001 readings from `openedAt` to `openedAt + 5000` on the 32-bit clock, i.e. strictly more than 5000 ms have passed |
| Registry.Unexpired | src/main.cpp:233-237 | what the sweep keeps: no more entries than before, none of them expired |
| Registry.ClosedLog | src/main.cpp:233-237 | what the sweep publishes: at most one message per entry, each a successful "closed" message |
| Registry.Lowered | src/main.cpp:233-237 | the pins after a sweep: every pin written before is still recorded, and a sweep never raises a pin to HIGH |
| Registry.ClosedNotice | src/main.cpp:97-107 | the close message carries status "closed" with the entry's own id and gpio, on the entry's topic |
| Registry.Erase | src/main.cpp:112 | erasing position `index` drops exactly that entry: one fewer entry, earlier ones unchanged, later ones shifted down by one |
| Registry.UnexpiredMembers | src/main.cpp:233-237 | after a sweep an entry remains exactly when it was there and has not expired: none expired survives and none fresh is closed |
| Registry.UnexpiredAppend | src/main.cpp:233-237 | the survivors keep their original relative order |
| Registry.ClosedLogAppend | src/main.cpp:233-235 | close messages are published in descending position order: those of a later run of entries come before those of an earlier run |
| Registry.SweepAccounts | src/main.cpp:233-237 | the survivors and the close messages of a sweep together number exactly the entries swept |
| Registry.ClosedLogMembers | src/main.cpp:233-237 | a sweep publishes a message exactly when it is the close message of an expired entry |
| Registry.SweepOfFreshIsNoop | src/main.cpp:234 | a sweep where nothing has expired keeps every entry, publishes nothing and writes no pin |
| Registry.SweepIdempotent | src/main.cpp:232-237 | a second sweep at the same time closes nothing, publishes nothing and writes no pin |
| Registry.LoweredAt | src/main.cpp:233-237 | after a sweep the pin of every expired entry reads LOW and every other pin keeps its level |
| Registry.OpenKeepsPinsReflect | src/main.cpp:77-89 | opening keeps "the pins reading HIGH are exactly the pins the registry's entries drive" |
| Registry.EraseKeepsPinsReflect | src/main.cpp:91-114 | closing one entry keeps that agreement when no two entries drive the same pin |
| Registry.SweepKeepsPinsReflect | src/main.cpp:232-237 | a whole sweep keeps that agreement when no two entries drive the same pin |
| Registry.DuplicateOpenDesynchronisesPins | src/main.cpp:86 | with two entries on gpio 13, closing one leaves the other registered while its pin reads LOW |
| Registry.AliasedGpiosDesynchronisePins | src/main.cpp:91-94 | gpios 13 and 269 are different numbers on one pin: closing the first leaves the second registered while its pin reads LOW |
| Controller.Accepts | src/main.cpp:134 | the gate `action && locker_id && gpio`: a command missing either string is refused; with both present it is accepted exactly when the gpio is nonzero; an accepted command always carries an id and a nonzero gpio |
| Controller.LockerOnResetPin | src/main.cpp:134 | gpio 256 passes the gate and reaches pin 0, the reset button's pin (line 49), and the sweep that closes it writes pin 0 LOW |
| Controller.AcceptsAnyAction | src/main.cpp:130-134 | the gate never compares the `action` text: any present action is treated alike, and acceptance means an id and a nonzero gpio |
| Controller.Device.constructor | src/main.cpp:40 | at boot the registry, publish log and pin levels are empty |
| Controller.Device.OpenLocker | src/main.cpp:77-89 | appends exactly one entry `{gpio, now, lockerId}` at the end, earlier entries unchanged, pin HIGH, nothing published; no duplicate check |
| Controller.Device.CloseLocker | src/main.cpp:91-114 | an out-of-range position changes nothing; a valid one erases exactly that entry, writes its gpio LOW and publishes its "closed" message, with values taken before the erase |
| Controller.Device.SweepExpired | src/main.cpp:232-237 | the descending loop leaves exactly the unexpired entries in order, publishes one close message per expired entry from the highest position down, and lowers their pins |
| Controller.Device.HandleCommand | src/main.cpp:130-151 | an accepted command adds exactly one entry, drives its pin HIGH and publishes one "open" message to the locker's topic; any other command changes nothing |

## Left out

- WiFi and WiFiManager provisioning, the config portal and its callbacks are platform I/O.
- MQTT connect, subscribe, `client.loop()` and the reconnect throttle are transport. Publishing is modelled only as appending to a log.
- `published` records every call to `client.publish`, including calls that fail. PubSubClient drops a message when it is disconnected or when the packet exceeds its buffer. The sweep runs whether or not MQTT is connected (src/main.cpp:219-237), so a close during an outage is never reported and never retried; the model does not capture this.
- JSON parsing and serialisation are done by a foreign library. A command is a record of optional fields, and a response is the document it would serialise.
- Copying the payload bytes into a `String` (src/main.cpp:121-125) is left out. It only feeds the JSON parser.
- `Serial` logging and `pinMode` are left out. `digitalWrite` is modelled only as the level the locker code last wrote to each pin, keyed by `gpio mod 256`.
- Registry.PinsReflect, Registry.LoweredAt, Registry.EraseKeepsPinsReflect and Registry.SweepKeepsPinsReflect describe every pin number 0..255 as writable. A pin the board cannot drive as an output (one it does not have, or an input-only pin) keeps no written level on the board; the model still records the write.
- `pins` records only the writes made by `openLocker` and `closeLocker`. The status-LED code (src/main.cpp:52-75) also writes pin 2 (`LED_BUILTIN`): while WiFi and MQTT are both connected it writes HIGH on every pass of `loop()`; otherwise it toggles the pin once per blink interval. The gate accepts any gpio that reaches pin 2 (2, 258, -254, ...), so while connected such a locker is driven HIGH again right after the sweep writes it LOW. `Registry.PinsReflect`, `Registry.LoweredAt` and `Registry.SweepKeepsPinsReflect` do not describe a locker on pin 2.
- Status-LED blinking depends on connection state and hardware.
- Controller.Device.SweepExpired, Registry.ClosedLogMembers, Registry.PinsReflect and Registry.SweepKeepsPinsReflect do not capture the reset path at src/main.cpp:240-246. A sweep that closes a locker whose gpio reaches pin 0 (`RESET_BUTTON_PIN`, src/main.cpp:49) writes pin 0 LOW, so the button check reads LOW, waits 5 s (`delay`), reads LOW again, erases the WiFi settings and calls `ESP.restart()`. The restart discards every entry still open without publishing its "closed" message, while the model keeps them and closes and reports them at later sweeps. The model stops at the LOW write that `Controller.LockerOnResetPin` exhibits.
- Concurrency is left out. The callback runs inside `client.loop()` on the single cooperative loop, so no operation interleaves with another.
- Controller.Command: `gpio` is an unbounded integer standing for the JSON library's `int` conversion of the field. That conversion is not modelled: numbers outside the 32-bit range, and any numeric string or boolean the library version converts.
- Controller.Device.SweepExpired: on an empty registry the source starts its index at `size() - 1` converted to `int`, which is -1 on this 32-bit target. The model starts at -1 directly.
