# hashmon in Dafny

`hashmon.py` is a terminal dashboard for two mining pools, XLA and SALV. It
fetches each pool's statistics. For every pool it shows one of two panels:

- an error panel when the fetch or the pool reported an error;
- otherwise the pool's total hashrate, its number of active workers and a table
  of those workers. The table is sorted by lower-cased name, the best hashrate is
  highlighted, and a nameless worker is shown as `(unnamed)`.

Below the panels sits a countdown bar. The frame is redrawn once a second. After
30 ticks the data is fetched again. The program stops when `q` is pressed or it is
interrupted, and it always restores the terminal mode it changed.

The model has six modules:

- `PoolData` (`pooldata.dfy`) holds the decoded JSON objects, with absent keys as
  `None`. It also holds the boundary that turns every fetch failure into an
  `{"error": msg}` object (`fetch_stats_from_url`, `fetch_all_stats`).
- `Text` (`text.dfy`) defines `str.lower` and `str.upper` on ASCII. It also defines
  Python's ordering of strings and proves that ordering is a strict total order.
- `Workers` (`workers.dfy`) is the per-pool pipeline: filter, stable sort, count,
  maximum, best flag and placeholder name. Python's `sorted` is modelled as a
  stable insertion sort. `StableSortUnique` shows that any sorted arrangement that
  keeps equal keys in input order equals this one, so the sorting algorithm
  chosen does not matter.
- `Dashboard` (`dashboard.dfy`) defines `build_dashboard` in two forms. `Render`
  gives its result as a value. The method `BuildDashboard` follows the loop of
  the source and is proved equal to `Render`.
- `Refresh` (`refresh.dfy`) models `run_tui` as the methods `RunTui`,
  `RefreshLoop` and `RunCycle`. They run over a finite script of key polls and an
  oracle for the fetches. Each records what it does as a trace of events. The
  model proves that the trace equals `RunTrace`, a function of the inputs.
- `RefreshProperties` (`refresh_properties.dfy`) proves what that trace shows:
  - ticks come in order;
  - the fetches fall where they should;
  - `q` cuts the run short;
  - the terminal mode is kept while the run is live and is restored at the end.

`RunTrace(mode, fetch, keys)` is `Trace(mode, Frames(fetch), StopTick(keys))`.
Its parts are:

- `StopTick(keys)` is the tick whose poll reads `q`, or the end of the script.
- `Frames(fetch)` gives the frame drawn in each cycle at each countdown.

The trace lemmas are stated for any frame source and any stop tick. They
therefore hold for `RunTrace` in particular. `RedrawsShowCurrentData` and
the two examples `QuitAtTickFive` and `QuitAfterFullCycle` are stated on `RunTrace` directly.

`build_dashboard` computes a value from its arguments and nothing else, which
is why `Render` is a function. Drawing the same data at the same countdown twice
therefore gives the same frame.

The seconds shown are `REFRESH_INTERVAL - countdown` for `countdown` from 0 to 29:
30 at the first tick and 1 at the last, as `BarShape` states.

## Model

| member | source | states |
|---|---|---|
| PoolData.FetchStatsFromUrl | hashmon.py:25-31 | never fails: a decoded body is returned unchanged, and a raised exception becomes an object with only `error` set to its message |
| PoolData.FetchAllStats | hashmon.py:33-37 | two entries, `xla` then `salv`, each the result of fetching that pool on its own |
| Text.Lower | hashmon.py:60 | `str.lower()` keeps the length and lower-cases each ASCII letter, leaving every other character as it is |
| Text.Upper | hashmon.py:46 | `str.upper()` keeps the length and upper-cases each ASCII letter, leaving every other character as it is |
| Text.LowerIgnoresCase | hashmon.py:60 | two names that differ only in the case of ASCII letters have the same sort key |
| Text.LessIrreflexive | hashmon.py:58-61 | no key sorts before itself |
| Text.LessTransitive | hashmon.py:58-61 | the key order is transitive |
| Text.LessTotal | hashmon.py:58-61 | of two distinct keys, one sorts before the other |
| Workers.Active | hashmon.py:59 | the filtered list is no longer than the input, and every worker in it has a hashrate above 0 (a missing hashrate counts as 0) |
| Workers.ActiveCount | hashmon.py:52 | the count is at most the number of workers; it is 0 exactly when no worker is active, and equals the number of workers exactly when all are |
| Workers.ActiveKeepsExactlyActive | hashmon.py:59 | the filter keeps every occurrence of an active worker and drops every inactive one |
| Workers.ActiveCountIsLength | hashmon.py:52-59 | the active-worker count equals the length of the filtered list |
| Workers.Insert | hashmon.py:58-61 | one insertion step of the sort adds exactly the given worker and keeps every other one |
| Workers.SortByName | hashmon.py:58-61 | the sort keeps the number of workers |
| Workers.InsertSorted | hashmon.py:58-61 | inserting into a sorted list keeps it sorted by lower-cased name |
| Workers.SortByNameSorted | hashmon.py:58-61 | the sorted list is in non-decreasing order of lower-cased name, with a missing name sorting as `""` |
| Workers.SortByNamePermutes | hashmon.py:58-61 | the sorted list is a permutation of its input |
| Workers.SortByNameStable | hashmon.py:58-61 | workers with equal keys keep their input order |
| Workers.StableSortUnique | hashmon.py:58-61 | two lists sorted by lower-cased name that hold the same workers for each key, in the same order, are equal |
| Workers.IsStableSortOf | hashmon.py:58-61 | any list sorted by lower-cased name that keeps each key's workers in input order equals the model's sort, so the result does not depend on the sorting algorithm |
| Workers.Top | hashmon.py:62 | 0 for no workers; otherwise a bound on every hashrate that some worker attains |
| Workers.DisplayName | hashmon.py:66 | the name shown is never empty |
| Workers.Table | hashmon.py:64-72 | one row per displayed worker |
| Workers.Aggregate | hashmon.py:49-72 | the panel's total is the pool's own figure, and row i shows the name and the hashrate of the i-th displayed worker |
| Workers.RowsAreActiveWorkers | hashmon.py:52-67 | the rows are the input's active workers, each once per occurrence in the input, and nothing else; row i shows the hashrate of displayed worker i |
| Workers.RowsSortedAndStable | hashmon.py:58-61 | the rows are sorted by lower-cased name, and equal names keep their input order |
| Workers.CountAndTotal | hashmon.py:49-52 | the active count equals the number of rows; the total is `stats.hashrate` (0 when absent) and does not depend on the workers |
| Workers.ShownRatesPositive | hashmon.py:59-67 | every shown hashrate is above 0 |
| Workers.BestFlags | hashmon.py:62-65 | a row is highlighted exactly when no shown hashrate exceeds its own; if any row is shown, at least one is highlighted |
| Workers.NamesShown | hashmon.py:66 | an empty or missing name is shown as `(unnamed)`; any other name is shown unchanged |
| Workers.SortExample | hashmon.py:58-61 | workers B, a, b are shown as a, B, b |
| Dashboard.Repeat | hashmon.py:82 | `cell * n` has `max(n, 0)` copies of the cell |
| Dashboard.Bar | hashmon.py:81-82 | the bar has `countdown` filled cells (none when it is negative) followed by `30 - countdown` empty ones (none when that is negative), and a cell is filled exactly when its index is below `countdown` |
| Dashboard.SecondsLeft | hashmon.py:83 | for a countdown from 0 to 30 the seconds left is the number of empty cells of the bar; during a cycle it is between 1 and 30 |
| Dashboard.PanelFor | hashmon.py:44-79 | the panel carries the upper-cased label; it is an error panel with the pool's error text exactly when the object has an `error` key, and otherwise shows the pool's aggregated summary |
| Dashboard.Render | hashmon.py:39-94 | the result is the lone error panel exactly when `xla` or `salv` is missing; otherwise it has one panel per entry, the bar and the seconds left of the countdown |
| Dashboard.BuildDashboard | hashmon.py:39-94 | the panel loop with its `continue`, together with the row loop, produces exactly `Render(data, countdown)` |
| Dashboard.AddRows | hashmon.py:64-72 | the row loop produces the table of the displayed workers against the top hashrate |
| Dashboard.BarShape | hashmon.py:81-83 | for a countdown from 0 to 30, the bar has 30 cells, exactly the first `countdown` of them filled, and shows `30 - countdown` seconds: 30 at tick 0, 1 at tick 29 |
| Dashboard.MissingPoolOnlyError | hashmon.py:40-47 | the frame is the lone error panel if and only if `xla` or `salv` is missing; otherwise there is one panel per entry, panel i carries entry i's upper-cased label, and it is an error panel exactly when entry i has an `error` key |
| Dashboard.FetchedPanel | hashmon.py:25-47 | a failed fetch gives that pool's error panel; a decoded body without `error` gives the aggregated panel |
| Dashboard.FetchedFrame | hashmon.py:33-75 | after `fetch_all_stats` the frame always has the XLA panel and then the SALV panel, each decided by its own fetch |
| Dashboard.PanelsIndependent | hashmon.py:44-79 | changing one pool's object changes that pool's panel only, and the other pool is still processed |
| Refresh.RunTrace | hashmon.py:103-124 | the run starts with the fetch, the save of the terminal mode and the switch to cbreak mode, in that order, and ends with the goodbye and the restore of the saved mode |
| Refresh.StopTick | hashmon.py:113-116 | the stop tick is the first `q` in the key script, or its end |
| Refresh.StopTickAt | hashmon.py:113-116 | the stop tick is the tick of the first `q`, when no earlier poll read `q` |
| Refresh.TraceOnExit | hashmon.py:112-119 | the whole run is the opening, then the full cycles and the cut cycle, then the closing |
| Refresh.RunCycle | hashmon.py:113-118 | one pass of `for countdown in range(30)`: redraw and sleep for each poll up to the first `q` or the end of the script, and report whether it was interrupted |
| Refresh.RefreshLoop | hashmon.py:112-119 | the `while True` loop yields the full cycles, each followed by a fetch, then the cut cycle; it starts from the data fetched before it and stops at the tick given by `StopTick` |
| Refresh.RunTui | hashmon.py:103-124 | the run's events are `RunTrace(mode, fetch, keys)`, and the terminal ends in the mode saved at the start |
| RefreshProperties.TicksInOrder | hashmon.py:112-118 | the redraws are ticks 0 to s-1 in order; tick t is drawn in cycle t / 30 at countdown t % 30; the tick that read `q` is never drawn |
| RefreshProperties.RedrawsShowCurrentData | hashmon.py:111-119 | each redraw, and the first frame, shows `build_dashboard` of its own cycle's fetched data at its countdown |
| RefreshProperties.FetchesInOrder | hashmon.py:105-119 | there are s / 30 + 1 fetches, numbered 0, 1, 2, ... |
| RefreshProperties.FetchPlacement | hashmon.py:105-119 | the first fetch comes before the mode is saved and changed; every later fetch comes right after the last tick (countdown 29) of the previous cycle |
| RefreshProperties.OpeningModes | hashmon.py:105-108 | the terminal is untouched for the first fetch and the save, and is in cbreak mode after them |
| RefreshProperties.MiddleNeutral | hashmon.py:110-122 | between the switch to cbreak mode and the restore, no event changes the mode |
| RefreshProperties.TerminalRestored | hashmon.py:107-124 | the mode is the original one up to the switch and cbreak mode from the first frame to the goodbye; the last event restores the saved mode, which is the final mode |
| RefreshProperties.QuitAtTickFive | hashmon.py:113-122 | a `q` at the sixth poll draws ticks 0 to 4 only, makes no second fetch, and ends with the goodbye and the restore |
| RefreshProperties.QuitAfterFullCycle | hashmon.py:112-119 | a `q` at the 31st poll comes after all 30 ticks of the first cycle, the last drawn at countdown 29, and after the second fetch |

## Left out

- Network access, HTTP status checks and JSON decoding are not modelled. A fetch is an oracle that yields either a decoded object or an exception message.
- The `rich` layout, colours, markup and widths are not modelled. A frame keeps only the logical content: the panels, the rows, the best flags, the bar and the seconds left.
- The `:.2f` formatting of hashrates is not modelled. Hashrates are integers. The source only compares them with `> 0` and `==`.
- `select`, `sys.stdin.read`, `termios` and `tty` are not modelled. Key polls are a finite script, and the terminal mode is a value with the two flags cbreak mode clears.
- `time.sleep` and the one-second cadence are not modelled. A sleep is only an event in the trace.
- `dotenv`, the environment variables and the URL construction are configuration I/O and are not modelled.
- `main.py` is not part of this model. It is a separate GUI front end.
- Text.Lower and Text.Upper map ASCII letters only. Python's full Unicode case mapping is not modelled.
- A name, a `stats` object, a `workers` list or a hashrate that is JSON `null` or of the wrong type is not modelled. The source would raise an exception when it reached that value: it calls `.lower()` on the name, `.get()` on `stats`, iterates over `workers` (a `TypeError` at line 52) and compares the hashrate with `>`. The model has only absent or well-typed values for these keys.
- An `error` key is modelled by its presence alone, because line 45 tests only that. Whatever its value, including `null`, the pool gets an error panel showing the text `str()` makes of the value, `None` for `null`. How that text is produced is part of the JSON decoding, which is not modelled.
- Refresh.RunTui only models a `KeyboardInterrupt` that arrives at a key poll, including one raised when the key script runs out. A Ctrl-C during a redraw or a sleep is not modelled.
- Refresh.RunTui does not model exceptions other than `KeyboardInterrupt`, for example from rendering. Such an exception would still pass through `finally` and restore the mode.
- A dictionary with entries other than `xla` and `salv` is allowed by `Render`. `fetch_all_stats` never produces one.
