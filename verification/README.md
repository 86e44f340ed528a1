# Form scheduler: scheduling core and rotating log

A Dafny model of the two pieces of the form-submission scheduler that carry
its logic:

- **Scheduling** (`lib/scheduler.ts`). `getNextRunTime` picks the next
  firing instant from the target hours. `mainLoop` either runs once in debug
  mode or, forever, computes the next run, sleeps until then, draws a random
  jitter, sleeps that long and runs the form submission. The clock readings
  and the value of `Math.random()` are inputs (`Scheduler.Round`), instants
  are integer milliseconds with day `d` starting at `d * 86 400 000`, and
  the loop produces a trace of events (`Log`, `Sleep`, `ExecuteSubmission`).
  `GetNextRunTime` and `MainLoop` are methods with the source's loops, proved
  against the functions `NextRunTime` and `Run`; the properties are lemmas
  about those functions.
- **Logging** (`lib/logger.ts`). `log` writes `[timestamp] [level] message`
  plus a newline to standard output and to the active file. After the write,
  `rotateIfNeeded` checks whether the active file has reached `MAX_SIZE`. If
  it has, the file is rotated: a descending loop renames `base.log.i` to
  `base.log.(i+1)` for i = MAX_FILES-1 … 1, then renames `base.log` to
  `base.log.1`. A fresh, empty `base.log` is then opened. The class
  `Logger.Logger` holds the module's mutable state: the active path, the
  file family as a map from index to contents (key 0 is the active file),
  and the lines written to standard output. `ShiftBackups` keeps the
  source's descending rename loop. `Rotated` is a declarative statement of
  where every file ends up, and the lemmas about it state the shifting
  properties. `initLogger` is the class constructor. It builds the day's
  base name `form-script-YYYY-MM-DD` from the date.

Where the documented behaviour and the code differ, the model follows the
code:

- When no hour is left today, the code falls back to tomorrow at the
  *first listed* hour, not the smallest one. `FallbackSkipsEarlierUnsortedHour`
  shows the difference on hours `[16, 8]`.
- The jitter sleep is `delay * 1000 * 60` ms, so the delay is in minutes,
  although the setting names and the log message say seconds. `CycleOrder`
  states this unit exactly.
- An empty target-hour list makes `getNextRunTime` return an Invalid Date.
  It does not raise an error. `NextRunTime` returns `None` in that case.
- With `MAX_FILES <= 0` the rename loop does not run, and opening the
  active file with `'w'` truncates it. `RotationWithoutSlotsTruncates`
  states this.

Modules: `Wrappers` (Option), `Text` (decimal numbers, zero padding, the
date stamp), `Paths` (join, dirname, basename, the file family's names),
`Logger`, `Scheduler`.

## Model

| member | source | states |
|---|---|---|
| Scheduler.Midnight | lib/scheduler.ts:7 | the start of `now`'s day is at most `now`, less than a day before it, and on the same day |
| Scheduler.AtHourSplits | lib/scheduler.ts:14 | `setHours(h, 0, 0, 0)` with h in 0..23 gives an instant on the same day, in hour h, with zero minutes, seconds and milliseconds |
| Scheduler.EarliestAfter | lib/scheduler.ts:12-19 | the loop over the target hours finds a result exactly when some candidate today is strictly later than `now`; the result is one of those candidates and no later than any of them, so a candidate equal to `now` is never chosen |
| Scheduler.NextRunTime | lib/scheduler.ts:22-28 | the result is an Invalid Date (None) exactly when the hour list is empty |
| Scheduler.GetNextRunTime | lib/scheduler.ts:5-29 | the for loop with its mutable `next` and the tomorrow fallback compute exactly `NextRunTime` |
| Scheduler.NextRunIsFuture | lib/scheduler.ts:16-26 | the next run is strictly later than `now` whenever the first listed hour is not negative |
| Scheduler.NextRunIsEarliestToday | lib/scheduler.ts:12-19 | if some candidate today is later than `now`, the result is the earliest such candidate; when every hour is in 0..23 it falls on `now`'s day |
| Scheduler.NextRunFallsBackToFirstHour | lib/scheduler.ts:22-26 | if no candidate today is later than `now`, the result is the next day's start plus `targetHours[0]` hours; when that hour is in 0..23 it falls on the next day in hour `targetHours[0]` |
| Scheduler.FallbackEarliestWhenFirstIsSmallest | lib/scheduler.ts:25 | the fallback is the earliest target time tomorrow when the first listed hour is the smallest |
| Scheduler.FallbackSkipsEarlierUnsortedHour | lib/scheduler.ts:25 | with hours `[16, 8]` at 17:00 the result is tomorrow 16:00 although tomorrow 08:00 is earlier |
| Scheduler.NextRunOnTargetHour | lib/scheduler.ts:14-25 | for every non-empty hour list the result has zero minutes, seconds and milliseconds; when every hour is in 0..23 its hour of day is one of the target hours |
| Scheduler.NextRunExamples | lib/scheduler.ts:5-29 | on 2024-01-01 with hours 8, 13, 16: 09:00 gives 13:00 the same day and 17:00 gives 08:00 the next day |
| Scheduler.RandomDelay | lib/scheduler.ts:61 | `floor(r * (max - min + 1)) + min` with r in [0, 1) lies in [min, max] when min <= max, so it is exactly min when min = max |
| Scheduler.RandomDelayCovers | lib/scheduler.ts:61 | every integer in [min, max] is the jitter for some draw in [0, 1) |
| Scheduler.RoundMinutes | lib/scheduler.ts:55 | `Math.round(ms / 60000)` is the whole number of minutes within half a minute of `ms`, halves rounded up |
| Scheduler.RunPass | lib/scheduler.ts:51-66 | one pass of the loop body emits exactly the events of `Cycle`: the next-run log line and sleep, the jitter log line and sleep, the submission |
| Scheduler.MainLoop | lib/scheduler.ts:32-68 | the loop's trace over the supplied rounds is exactly `Run`: the two start-up log lines, then either the debug run or one cycle per round |
| Scheduler.DebugRunsOnce | lib/scheduler.ts:42-46 | in debug mode the submission runs exactly once, and nothing sleeps or computes a next run |
| Scheduler.RunShape | lib/scheduler.ts:49-67 | outside debug mode, pass i of the loop is events 2+5i to 2+5i+4 of the trace, in the order of one cycle |
| Scheduler.RunExecutesOncePerRound | lib/scheduler.ts:49-67 | outside debug mode the submission runs once per pass |
| Scheduler.CycleOrder | lib/scheduler.ts:51-66 | for every configuration a pass logs the next run, sleeps `nextRun - now`, logs the jitter, sleeps jitter * 1000 * 60 ms (between min and max minutes when min <= max), then runs the submission; `nextRun` is strictly after the clock reading it came from when the first listed hour is not negative |
| Text.Decimal | lib/logger.ts:34-35 | the backup index is printed as digits only, with no leading zero |
| Text.DecimalInjective | lib/logger.ts:34-35 | different indices print differently |
| Text.PadZero | lib/logger.ts:17 | zero padding keeps the digits at the end, fills the front with '0' and reaches the requested width |
| Text.DateStampRoundTrip | lib/logger.ts:17 | the `YYYY-MM-DD` stamp is ten characters and reads back to the same year, month and day |
| Text.DateStampInjective | lib/logger.ts:17 | two different dates never share a log file base name |
| Text.DateStampNoSlash | lib/logger.ts:17 | the stamp holds only digits and dashes, so no path separator |
| Paths.SplitJoin | lib/logger.ts:32-40 | `dirname` and the last component of `join(dir, name)` give back `dir` and `name` |
| Paths.FileName | lib/logger.ts:34-35 | every file of the family starts with the base name |
| Paths.FileNameInjective | lib/logger.ts:34-35 | distinct indices name distinct files, so the family can be keyed by index |
| Paths.ActivePathRebuilt | lib/logger.ts:32-40 | `dirname` of the active path is the log directory and `basename(p, '.log')` is the base name, so every backup name built from them is `<dir>/<base>.log.<i>` and the rebuilt active path is the same path |
| Logger.FormatLine | lib/logger.ts:50 | a line starts with '[', ends with a newline, holds the timestamp right after the bracket and is seven characters longer than its three parts |
| Logger.FormatLineRoundTrip | lib/logger.ts:50 | a line whose timestamp and level hold no ']' splits back into exactly that timestamp, level and message |
| Logger.ShiftStep | lib/logger.ts:33-39 | renaming index i, when present, turns the family shifted down to i+1 into the family shifted down to i, and index i is untouched until its turn |
| Logger.RotationShifts | lib/logger.ts:33-39 | the active file becomes backup 1 and backup i < MAX_FILES becomes backup i+1 with the same contents |
| Logger.RotationEmptiesActive | lib/logger.ts:40-41 | after rotation the active file exists and is empty |
| Logger.RotationSkipsGaps | lib/logger.ts:36-38 | a missing index below the last slot is skipped and nothing appears at the index above it |
| Logger.RotationStaysInBound | lib/logger.ts:33-35 | no index above MAX_FILES is created, and one already there is left alone |
| Logger.RotationEvictsOldest | lib/logger.ts:33-38 | backup MAX_FILES is replaced exactly when MAX_FILES-1 existed; otherwise it survives |
| Logger.RotationLosesOnlyTheOldest | lib/logger.ts:33-41 | every file reappears at its destination with the same contents except the overwritten oldest backup, and every backup afterwards came from some earlier file |
| Logger.RotationKeepsBound | lib/logger.ts:33-35 | a family with no index above MAX_FILES keeps none after rotation |
| Logger.RotationWithoutSlotsTruncates | lib/logger.ts:33-41 | with MAX_FILES <= 0 nothing is renamed and the active file is emptied |
| Logger.Logger.constructor | lib/logger.ts:10-24 | the directory is `cwd/LOG_DIR`, the base name is `form-script-` plus the date stamp, the active path is `<dir>/<base>.log`, opened for appending (created empty if missing) |
| Logger.Logger.ShiftBackups | lib/logger.ts:33-39 | the descending rename loop leaves the family shifted as `Shifted` describes |
| Logger.Logger.RotateIfNeeded | lib/logger.ts:27-45 | rotation happens exactly when the active file exists and has at least MAX_SIZE characters. Otherwise nothing changes. After rotation the family is `Rotated`, the active file holds only the rotation notice, the active path is unchanged and the notice also goes to standard output |
| Logger.Logger.Log | lib/logger.ts:48-53 | the same formatted line goes to standard output and to the end of the active file, and the size check then runs on the file with that line |

## Left out

- Real clocks, time zones and daylight saving. The formatting of instants
  with `toLocaleString('sv-SE', … Europe/Stockholm)` is also left out.
  Instants are integer milliseconds on a uniform local clock. Month and
  year rollover are plain day arithmetic. The timestamps of log lines are
  string inputs.
- The log messages the loop writes are structured values (`Message`). Their
  text is not modelled, including the `HH:00` list of target times.
- `Math.random` floating point: the draw is a real number in [0, 1), so
  rounding of the floating-point product is not modelled.
- `sleep` itself and what it does with negative or NaN durations. The sleep
  helper is not part of this model. A sleep is an event carrying the
  duration the source passes.
- `executeFormSubmission` is one opaque event. Its browser steps, its own
  logging and waits, and its internal error handling are not modelled. It
  catches its own failures, so the loop never sees one.
- The endless `while (true)` runs for as many passes as there are rounds of
  input. Every finite prefix of its behaviour is covered.
- MainLoop: requires a non-empty hour list outside debug mode. With an empty
  list the source computes an Invalid Date and sleeps NaN, which is not
  modelled.
- NextRunIsFuture: assumes the first listed hour is not negative. A negative
  first hour can put the fallback in the past. CycleOrder states the same
  fact under the same condition.
- NextRunOnTargetHour: only the hour-of-day conjunct assumes every hour is
  in 0..23. Other values roll into neighbouring days, as `setHours` does;
  the result is on the hour for every integer hour.
- Loading settings from the environment (`dotenv`, `Number`, `parseInt`) is
  not modelled. `Config` and the logger's limits are plain values.
- Creating the log directory, process signal handlers, closing and
  reopening streams, and the asynchronous write callback are not modelled.
  The write and its size check happen in one step.
- Logger.Logger.RotateIfNeeded: the rotation notice is logged once, with no
  second size check. In the source that second check rotates again when
  MAX_SIZE is no larger than the notice line.
- Sizes are counted in characters, not UTF-8 bytes. A file deleted by
  another process while the logger holds it open is not modelled.
- Paths.SplitJoin: Node's path normalisation (`.`, `..`, repeated
  separators) is not modelled, nor is `basename` of a name equal to the
  extension. `Paths.DirName` of a root-level path such as `/x` gives the
  empty string where Node gives `/`. The logger only takes the directory of
  `<dir>/<file>` with `dir = <cwd>/<LOG_DIR>`, which is never empty, so the
  case does not arise there.
