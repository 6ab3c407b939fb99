# PiStuff core in Dafny

A Dafny model of the two pieces of real logic in a Raspberry Pi monitoring
daemon:

- **The Fan SHIM controller** (`FanShim/LibreELECFanShim.py`). A pin driver
  switches the fan off when it is set up. A monitor loop reads the CPU
  temperature and switches the fan with two-threshold hysteresis. It turns the
  fan on when the reading reaches the on-threshold while the fan is off. It
  turns the fan off when the reading reaches the off-threshold while the fan
  is on. Module `FanShim` (`fan_shim.dfy`) models the pin as the list of
  values written to it, and one loop iteration as a pure step. Finite runs of
  readings are folds of that step.
- **The CPU-utilisation collector** (`StatsServer/StatsServer.py`). For the
  overall line and four per-core lines of `/proc/stat`, it computes idle time
  (idle + iowait) and total time (the sum of all counters). It reports
  `(Δtotal − Δidle) / Δtotal` against a baseline it keeps for each core.
  Every failure is swallowed and reported as 0.0. Module `CpuStats`
  (`cpu_stats.dfy`) models the baseline as an immutable map. Each parse
  returns the ratio together with the new baseline.

Module `Text` (`text.dfy`) holds the Python 2 string handling both rely on:
`str.split()` with no argument, slicing with negative bounds, and decimal
counters. Module `Wrappers` (`wrappers.dfy`) holds `Option` and `Result`.

Behaviour of the code worth knowing up front:

- A fresh collector's first reading is the non-idle share of all ticks since
  boot, because the baselines start at zero (`StatsServer/StatsServer.py:46-61`)
  and lines 138-144 divide against them (`FirstReadingSinceBoot`).
- A failed temperature read raises out of `monitor_fan`
  (`FanShim/LibreELECFanShim.py:146`), so the loop ends there
  (`MonitorStopsAtFailure`).
- The collector has no memory accounting with reclaimable cache or shared
  memory (see Left out).

## Model

| member | source | states |
|---|---|---|
| FanShim.SetFan | FanShim/LibreELECFanShim.py:82-88 | writes exactly one value to the pin, the truthiness of the argument, and returns that same boolean; the monitor flag is untouched |
| FanShim.SetFanNormalises | FanShim/LibreELECFanShim.py:87-88 | feeding `set_fan` its own result writes and returns the same value again |
| FanShim.SetFanOn | FanShim/LibreELECFanShim.py:90-94 | `set_fan_on` appends exactly one "on" to the pin history and leaves the monitor flag alone |
| FanShim.SetFanOff | FanShim/LibreELECFanShim.py:96-100 | `set_fan_off` appends exactly one "off" to the pin history and leaves the monitor flag alone |
| FanShim.Start | FanShim/LibreELECFanShim.py:72 | after set-up the pin history holds one write, "off", and the monitor flag is false |
| FanShim.StartInvariant | FanShim/LibreELECFanShim.py:122-126 | the starting rig satisfies the invariant: the flag equals the pin, and no value was written twice in a row |
| FanShim.Decide | FanShim/LibreELECFanShim.py:149-159 | reaching the on-threshold while off turns on with one "on" write; reaching the off-threshold while on turns off with one "off" write; anything else keeps the flag and writes nothing; a write happens exactly when the flag changes, and carries the new flag |
| FanShim.BranchesExclusive | FanShim/LibreELECFanShim.py:149-159 | for every rig, a write happens only as a flag change: "on" only from off with the reading at or above the on-threshold, "off" only from on with the reading at or below the off-threshold; the value written is the new flag; without a write the rig is unchanged |
| FanShim.Tick | FanShim/LibreELECFanShim.py:149-159 | one iteration appends at most one write to the pin history and never rewrites earlier writes |
| FanShim.TickPreserves | FanShim/LibreELECFanShim.py:152-159 | an iteration keeps the flag equal to the last value written, and never writes the value already on the pin |
| FanShim.RunPreserves | FanShim/LibreELECFanShim.py:144-161 | over any finite run, the flag equals the pin, writes alternate, and there is at most one write per reading |
| FanShim.Run | FanShim/LibreELECFanShim.py:144-161 | a run of n readings keeps the earlier pin history and adds at most n writes |
| FanShim.InBandHolds | FanShim/LibreELECFanShim.py:149-159 | readings strictly between the thresholds leave the flag and the pin history unchanged |
| FanShim.SettlesIffOrdered | FanShim/LibreELECFanShim.py:149-159 | a steady temperature settles the fan after one reading, for every temperature and start state, exactly when off < on |
| FanShim.ReversedChatters | FanShim/LibreELECFanShim.py:149-159 | with on <= off, readings between the thresholds flip the fan on every reading |
| FanShim.ExampleTrace | FanShim/LibreELECFanShim.py:149-159 | with off 45 and on 65, readings 50, 70, 60, 40 give off, on, on, off, and the pin history is off, on, off |
| FanShim.MonitorStopsAtFailure | FanShim/LibreELECFanShim.py:144-146 | a failed temperature read ends the loop; the state is that of the readings before it |
| FanShim.Monitor | FanShim/LibreELECFanShim.py:144-161 | the loop keeps the earlier pin history, adds at most one write per reading, and does nothing when the first read fails |
| FanShim.MonitorWithoutFailure | FanShim/LibreELECFanShim.py:144-161 | when every temperature read succeeds the monitor is exactly the plain loop over the temperatures |
| FanShim.TempText | FanShim/LibreELECFanShim.py:134 | output shorter than 8 characters gives the empty string; otherwise the first 5 and last 3 characters are dropped |
| FanShim.TempTextUnframes | FanShim/LibreELECFanShim.py:134 | `temp=` + x + `'C` + newline gives back exactly x |
| FanShim.TempTextExample | FanShim/LibreELECFanShim.py:134 | `temp=48.3'C` with a newline gives `48.3`, and the 5-character `temp=` gives the empty string |
| Text.WordLen | StatsServer/StatsServer.py:133 | the length of the longest separator-free prefix |
| Text.Split | StatsServer/StatsServer.py:133 | `split()` yields only non-empty, separator-free tokens |
| Text.SplitSkipsSeparators | StatsServer/StatsServer.py:133 | leading whitespace of any length and kind is ignored by `split()` |
| Text.SplitWordThen | StatsServer/StatsServer.py:133 | a word followed by a separator splits off as exactly one token |
| Text.JoinSplitsHead | StatsServer/StatsServer.py:133 | the first of several words joined by runs of separators splits off on its own |
| Text.SplitJoinThen | StatsServer/StatsServer.py:133 | splitting words joined by any non-empty runs of separators, followed by separator-led text, gives the words back |
| Text.SliceBound | FanShim/LibreELECFanShim.py:134 | a slice bound in range is kept; a negative one counts from the end; one past the end becomes the length; one before the start by more than the length becomes 0 |
| Text.Slice | StatsServer/StatsServer.py:133 | an in-range slice is the plain subsequence; a stop at or before the start gives the empty sequence; the slice is never longer than the source |
| Text.SliceRules | FanShim/LibreELECFanShim.py:134 | a start or stop past the end acts as the length; a negative one within range counts back from the end; one further back than the length acts as 0 |
| Text.ParseNat | StatsServer/StatsServer.py:133 | a token is a counter exactly when it is a non-empty run of decimal digits |
| Text.ShowNat | StatsServer/StatsServer.py:133 | a counter is printed as a non-empty run of digits |
| Text.ParseShowNat | StatsServer/StatsServer.py:133 | reading back a printed counter gives the counter, and the printed form is one token |
| CpuStats.FreshBaseline | StatsServer/StatsServer.py:44-61 | a new collector knows exactly the five core names, each at zero idle and zero total |
| CpuStats.SumCoversOne | StatsServer/StatsServer.py:136 | the total is at least every single counter |
| CpuStats.SumCoversPair | StatsServer/StatsServer.py:135-136 | any two distinct counters together are at most the total, so idle never exceeds total |
| CpuStats.ParseAll | StatsServer/StatsServer.py:133 | the counters parse exactly when every token does, one counter per token in order |
| CpuStats.FieldsTokens | StatsServer/StatsServer.py:133 | the counters parse exactly when every token after the label does; there is then one counter per such token, in order |
| CpuStats.FieldsIsSliceFromOne | StatsServer/StatsServer.py:133 | dropping the label is exactly the Python slice `[1:]` of the token list, including on a line with no tokens |
| CpuStats.Reading | StatsServer/StatsServer.py:135-136 | a reading's idle time never exceeds its total time |
| CpuStats.BusyShare | StatsServer/StatsServer.py:144 | the non-idle share lies in [0, 1] when 0 <= Δidle <= Δtotal |
| CpuStats.BusyShareScales | StatsServer/StatsServer.py:144 | the ratio times Δtotal is Δtotal − Δidle, the number of non-idle ticks |
| CpuStats.ShareIsFraction | StatsServer/StatsServer.py:144 | with 0 <= Δidle <= Δtotal and Δtotal > 0 the non-idle share lies in [0, 1] |
| CpuStats.Compare | StatsServer/StatsServer.py:138-144 | division by zero happens exactly when no ticks elapsed, and is then the only failure; otherwise the ratio is the non-idle share of the two differences, within [0, 1] for monotone counters |
| CpuStats.CompareScales | StatsServer/StatsServer.py:138-144 | a reported ratio times Δtotal is Δtotal − Δidle, as the division at line 144 promises |
| CpuStats.Measure | StatsServer/StatsServer.py:127-149 | only the named core's entry can change; every failure except no-elapsed-ticks leaves the baseline untouched; an unknown core fails untouched; a stored entry is always the new reading of a parsed line with at least five counters |
| CpuStats.ParseCpuLine | StatsServer/StatsServer.py:127-149 | the set of known cores is kept, and every other core's baseline is unchanged |
| CpuStats.Collect | StatsServer/StatsServer.py:113-117 | reading lines k.. reports exactly the core names from k on, and stores nothing for any other name |
| CpuStats.GetCpuUsage | StatsServer/StatsServer.py:109-125 | the report has exactly the keys overall, core0..core3; the baseline keeps its keys; names outside the five are untouched |
| CpuStats.AllNames | StatsServer/StatsServer.py:119-125 | the names read in order are the report's five keys |
| CpuStats.LineAt | StatsServer/StatsServer.py:113-117 | the i-th `readline` gives the i-th line, and the empty string once the file is exhausted |
| CpuStats.MissingLinesReadZero | StatsServer/StatsServer.py:113-117 | a core whose line is missing from the file reports 0.0 and keeps its baseline |
| CpuStats.FieldsOfStatLine | StatsServer/StatsServer.py:133 | for a `/proc/stat` line whose label and counters are separated by any runs of whitespace, the label is dropped and every counter is read back in order |
| CpuStats.KernelAggregateLine | StatsServer/StatsServer.py:133 | the kernel's aggregate line, `cpu` then two spaces then single-spaced counters, reads back its counters |
| CpuStats.ParseAllSome | StatsServer/StatsServer.py:133 | tokens that each parse to a counter parse to the list of those counters |
| CpuStats.MeasureFields | StatsServer/StatsServer.py:135-144 | with at least five counters and a known core, the result compares against that core's baseline and stores the new (idle, total) |
| CpuStats.MeasureStatLine | StatsServer/StatsServer.py:133-144 | for a well-formed line with any whitespace runs between fields, the new (idle + iowait, sum) is compared with the core's baseline and replaces it |
| CpuStats.ParseCpuLineFields | StatsServer/StatsServer.py:133-149 | for a line with at least five counters and a known core, the report is the comparison with that core's baseline (0.0 when no ticks elapsed) and the new (idle, total) is stored |
| CpuStats.NonNumericLeavesBaseline | StatsServer/StatsServer.py:133 | a non-numeric counter token yields 0.0 and leaves the whole baseline untouched |
| CpuStats.ShortLineLeavesBaseline | StatsServer/StatsServer.py:135 | any line whose counters parse but number fewer than five yields 0.0 and leaves the baseline untouched |
| CpuStats.BlankLineLeavesBaseline | StatsServer/StatsServer.py:133-135 | an empty line (end of file) or a blank one yields 0.0 and leaves the baseline untouched |
| CpuStats.BlankSplitsToNothing | StatsServer/StatsServer.py:133 | a line of separators splits into no tokens |
| CpuStats.NoElapsedStillStores | StatsServer/StatsServer.py:141-149 | with Δtotal = 0 the result is 0.0, but the baseline has already taken the new counters |
| CpuStats.FirstReadingSinceBoot | StatsServer/StatsServer.py:138-144 | a fresh collector's first reading is the non-idle share of all ticks since boot (total − idle over total), and stores the reading |
| CpuStats.ReportedRatioBounded | StatsServer/StatsServer.py:144 | when idle advanced by no more than total, the reported value lies in [0, 1] |
| CpuStats.HalfBusyExample | StatsServer/StatsServer.py:138-144 | idle advancing by 10 ticks while the total advances by 20 reads as 0.5 |
| CpuStats.MeasureIsLocal | StatsServer/StatsServer.py:138-142 | a core's ratio and new entry depend on the baseline only through that core's own entry |
| CpuStats.CollectIsPerCore | StatsServer/StatsServer.py:113-117 | threading the baseline through the lines gives each core the same ratio and entry as measuring it alone |
| CpuStats.UsageIsPerCore | StatsServer/StatsServer.py:109-125 | each reported ratio is that core's own line measured against the collector's baseline, and the core's new entry is what its line stored |
| CpuStats.UsageKeepsOtherKeys | StatsServer/StatsServer.py:141-142 | baseline entries other than the five cores are never touched |

## Left out

- GPIO set-up, reading and clean-up, `atexit`, logging, `argparse`, the
  `KeyboardInterrupt` handling in `run` and `time.sleep` are hardware and
  process plumbing. The pin is modelled as the history of values written to
  it, and the endless loop as finite runs of readings.
- `toggle_fan` calls a method that does not exist (`_get_fan`), so it has no
  behaviour to model. `get_fan` is a bare GPIO read.
- `_cleanup` (switching the fan off at exit) runs outside the loop through
  `atexit`, so it is not modelled.
- The `vcgencmd`, `ls` and `cat` commands, `os.popen('free')` and
  `open("/proc/stat")` are I/O. Their outputs are inputs to the model:
  command text for `TempText`, and lines for `GetCpuUsage`. When the file has
  fewer than five lines, the missing ones read as empty (`LineAt`). A failure
  to open the file is not modelled.
- `float(...)` is floating point. Temperatures and thresholds are reals, and
  comparisons with NaN are not modelled. Counters are naturals, and the ratio
  is an exact real, with no rounding.
- CpuStats.ParseAll: a counter token is accepted only as a plain run of
  decimal digits. Python's `float` also accepts signs, decimal points,
  exponents, `inf` and `nan`; the model reads those tokens as parse
  failures. `/proc/stat` writes only plain decimal counters.
- CpuStats.Measure: the source keeps two parallel dictionaries, idle and
  total, which always share the same keys. The model keeps one map from core
  name to an (idle, total) pair.
- CpuStats.Collect: `get_cpu_usage` makes five explicit calls. The model folds
  over the five names in the same order, with the same line for each.
- `get_mem_usage` slices each line down to three fields but then reads fields
  3 to 5. On any real second line of `free` output it raises `IndexError`. It
  has no reclaimable-cache or shared-memory accounting, so no memory formula
  is modelled.
- `get_network_bytes` is only command calls plus `"net_" + iface` key naming.
  `get_gpu_temp` (`StatsServer/StatsServer.py:104-107`) makes the same slice
  as `TempText` followed by `float`.
- The HTTP handler, server, `Main` and JSON serialisation are transport. The
  server is single-threaded, so there is no concurrency.
- `TempText` and the `split()` model work on characters, while Python 2's
  `check_output` and file reads give byte strings. The two agree on ASCII
  text, which is what `vcgencmd` and `/proc/stat` print.
- `Tick` treats an iteration as indivisible. The source sets `_fan_running`
  (`FanShim/LibreELECFanShim.py:152`, `158`) before it writes the pin (`153`,
  `159`), so if `GPIO.output` raised, the flag would no longer match the pin.
  A failing pin write is not modelled.
- Threshold ordering is never checked by the code. The hysteresis lemmas take
  off < on as a hypothesis (`SettlesIffOrdered`, `InBandHolds`), and
  `ReversedChatters` shows what happens without it.
