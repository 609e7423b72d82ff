# fanfare: a verified model of the hysteresis fan controller

The fanfare daemon watches every temperature sensor feature labelled
`Physical id 0`, in enumeration order, and drives a laptop fan through the ACPI control file
`/proc/acpi/ibm/fan`. It is a two-state controller. When a reading of the
target feature reaches the threshold (75, inclusive) while the fan is not
engaged, the daemon writes `level full-speed` and remembers that the fan is
engaged. When a reading falls below the threshold while the fan is engaged,
it writes `level auto` and clears the flag. In every other case it does
nothing. Features with any other label are ignored.

The project has two modules:

- `Hysteresis` (`hysteresis.dfy`) holds the decision logic as values and
  functions. A snapshot is a sequence of chips; a chip is a sequence of
  `Feature(name, value)`. `Status` pairs the controller flag with the levels
  commanded so far. `React` is one matching reading; `ObserveChip`,
  `ObservePass` and `Passes` are the inner loop, the polling pass and
  repeated passes. As an independent reference, `Readings` lists the
  matching readings of a snapshot in enumeration order and `Track` folds
  `React` over them. The lemmas prove that a pass is that fold, and then
  state the controller's properties on it.
- `Fanfare` (`fanfare.dfy`) holds the daemon as a class `Daemon`. Its mutable
  state is `fullSpeedOn` plus `written`, the strings written to the fan
  device so far. `CheckTemperature` keeps the nested `for` loops of the
  source as nested `while` loops, and `Run` repeats it once per snapshot.
  Each method is proved equal to the functional specification. The class
  invariant `Valid()` says that the writes alternate `level full-speed`,
  `level auto`, … and that the flag is set exactly when the last write was
  `level full-speed`.

The configuration is hard-coded in `__init__` (threshold 75, poll time 30,
the device path and the label); there are no constructor parameters.

## Model

| member | source | states |
|---|---|---|
| `Hysteresis.Command` | fanfare.py:40-48 | The device string for `full-speed` is exactly `level full-speed` and the one for `auto` is exactly `level auto`; distinct levels give distinct strings, and no other string is produced |
| `Hysteresis.React` | fanfare.py:57-70 | After one matching reading the flag equals "reading >= threshold" (inclusive); a command is appended exactly when the flag changes, and it names the new state's level; otherwise nothing is appended |
| `Hysteresis.DecisionTable` | fanfare.py:56-70 | The four rows of the decision table (hot and disengaged: full-speed, flag true; hot and engaged: no-op; cool and engaged: auto, flag false; cool and disengaged: no-op), and a feature with another label changes nothing |
| `Hysteresis.ChipTracksReadings` | fanfare.py:55-70 | The inner loop over one chip's features equals the fold of `React` over that chip's matching readings, in order |
| `Hysteresis.PassTracksReadings` | fanfare.py:50-70 | A whole polling pass equals the fold of `React` over the snapshot's matching readings in chip/feature enumeration order |
| `Hysteresis.PassesTrackReadings` | fanfare.py:76-79 | Repeated passes equal the fold over the matching readings of all snapshots, one after the other |
| `Hysteresis.OnlyTargetMatters` | fanfare.py:56 | Two snapshots with the same matching readings give the same flag and the same commands, so features with another label never cause a command or a state change |
| `Hysteresis.NoMatchNoEffect` | fanfare.py:54-56 | A pass in which no feature of any chip carries the target label issues no command and leaves the flag unchanged |
| `Hysteresis.NoTargetNoReadings` | fanfare.py:54-56 | If no feature of any chip carries the target label, the snapshot has no matching readings |
| `Hysteresis.LastMatchWins` | fanfare.py:54-70 | After a pass with at least one match, the flag equals whether the last matching reading in enumeration order is at or above the threshold |
| `Hysteresis.SingleMatch` | fanfare.py:56-70 | A pass with exactly one matching reading behaves as the decision table for that reading |
| `Hysteresis.TrackAlternates` | fanfare.py:57-70 | Over any readings, commands are only appended; the new ones alternate, the first being the one that leaves the starting state; the flag flips once per command |
| `Hysteresis.StayingHotEngagesOnce` | fanfare.py:57-63 | If every reading is at or above the threshold, only the first one engages the fan (and only if it was disengaged); later readings issue nothing, and the flag ends true |
| `Hysteresis.StayingCoolReleasesOnce` | fanfare.py:64-70 | If every reading is below the threshold, only the first one releases the fan (and only if it was engaged); later readings issue nothing, and the flag ends false |
| `Hysteresis.StateIsLastReading` | fanfare.py:72-79 | After any number of passes the flag equals whether the last matching reading seen is at or above the threshold, or is unchanged if none matched |
| `Hysteresis.RunAlternates` | fanfare.py:35-70 | Starting from the initial disengaged state, the commands of any run are full-speed, auto, full-speed, …; no two consecutive commands are equal; the flag is set exactly when the last command was full-speed |
| `Hysteresis.ThresholdScenario` | fanfare.py:57-70 | With threshold 75 and readings 70, 76, 80, 74, 71 on five passes, only pass two (full-speed) and pass four (auto) issue commands, and the flag goes false, true, true, false, false; a reading of exactly 75 engages the fan |
| `Fanfare.Daemon.constructor` | fanfare.py:30-35 | Threshold 75, poll time 30, device `/proc/acpi/ibm/fan`, label `Physical id 0`, fan not engaged, nothing written yet; the invariant holds |
| `Fanfare.Daemon.SetFanSpeed` | fanfare.py:40-48 | Appends exactly the command string for the level to the device trace and leaves the flag alone |
| `Fanfare.Daemon.CheckFeature` | fanfare.py:56-70 | One step of the inner loop changes the flag and the trace exactly as `Observe` does on the specification, and keeps the invariant |
| `Fanfare.Daemon.CheckTemperature` | fanfare.py:50-70 | After the nested loops, the flag and the commands appended to the device trace are those of `ObservePass` from the old flag; the invariant is kept |
| `Fanfare.Daemon.Run` | fanfare.py:72-79 | A bounded run of passes leaves the flag and appends the commands given by `Passes` from the old flag; the invariant is kept |
| `Fanfare.WritesAlternate` | fanfare.py:35-70 | For a daemon in its invariant, no two successive device writes are equal and each one is `level full-speed` or `level auto` |

## Left out

- Logging: the syslog handler set-up in `__init__` and every log message (fanfare.py:21-29, 37, 46, 59-61, 66-68). They do not affect behaviour.
- The `sensors` library (`init`, `iter_detected_chips`, `get_value`, `cleanup`). It is a foreign binding. Each pass is instead given a snapshot holding one value per feature; the extra `get_value()` calls only feed log messages.
- Opening and writing the device file. The write is modelled as appending the command string to `written`. `Daemon.SetFanSpeed` always succeeds: a failed open or write (a missing device, an I/O error, or a write without permission), which would propagate out of the loop and stop the daemon, is not modelled.
- The unbounded `while True` loop, `time.sleep(poll_time)`, the catch-all `except`, `sensors.cleanup()` and `sys.exit(1)` (fanfare.py:76-84). `Daemon.Run` performs one pass per given snapshot; non-termination, timing and process exit are outside the model. `pollTime` is only stored.
- Floating-point readings. Temperatures are `real`, so only the exact `>=` comparison matters; rounding is not modelled. A NaN reading compares false under `>=` (fanfare.py:57), so it acts as a below-threshold reading and releases an engaged fan; the model covers that case only by mapping NaN to any `real` below the threshold.
